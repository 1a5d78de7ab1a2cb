/**
  The command line of the concordance application: grouping of argv into
  (key, values) records, the choice between help mode and generation mode,
  and the choice of the one input file in generation mode.

  Printing, reading the file and building the concordance from it are not
  modelled; generation mode reports the path it would read.
 */
module Cli {
  import opened Wrappers

  /** One key and the values that follow it; the key is empty for values given before any key. */
  datatype CommandLineArg = CommandLineArg(key: string, values: seq<string>)

  const EmptyArg := CommandLineArg("", [])

  /** isKey: a string that starts with '-'. */
  predicate IsKey(input: string) {
    |input| > 0 && input[0] == '-'
  }

  predicate HasFilledKey(arg: CommandLineArg) {
    |arg.key| > 0
  }

  predicate HasFilledValues(arg: CommandLineArg) {
    |arg.values| > 0
  }

  /**
    pushFilledBuffer: a buffer with a key or a value is emitted and replaced
    by an empty one; an empty buffer is left where it is.
   */
  function PushFilledBuffer(buffer: CommandLineArg, parsed: seq<CommandLineArg>): (r: (CommandLineArg, seq<CommandLineArg>))
    ensures r.0 == EmptyArg
    ensures HasFilledKey(buffer) || HasFilledValues(buffer) ==> r.1 == parsed + [buffer]
    ensures !(HasFilledKey(buffer) || HasFilledValues(buffer)) ==> r.1 == parsed
  {
    if HasFilledKey(buffer) || HasFilledValues(buffer) then (EmptyArg, parsed + [buffer]) else (buffer, parsed)
  }

  /** The loop of parseCommandLineArguments over the remaining entries, with its buffer and output so far. */
  function ParseFrom(entries: seq<string>, buffer: CommandLineArg, parsed: seq<CommandLineArg>): seq<CommandLineArg>
    decreases |entries|
  {
    if |entries| == 0 then PushFilledBuffer(buffer, parsed).1
    else
      var input := entries[0];
      if IsKey(input) then
        var (emptied, pushed) := PushFilledBuffer(buffer, parsed);
        ParseFrom(entries[1..], emptied.(key := input), pushed)
      else if |input| > 0 then
        ParseFrom(entries[1..], buffer.(values := buffer.values + [input]), parsed)
      else
        ParseFrom(entries[1..], buffer, parsed)
  }

  /**
    parseCommandLineArguments: skips the program name, starts a record at
    every key, gives it the non-empty strings up to the next key, and drops
    empty strings. The source reads argv from its second entry on, so argv
    must hold the program name.
   */
  function ParseCommandLineArguments(argv: seq<string>): (r: seq<CommandLineArg>)
    requires |argv| >= 1
    ensures WellFormedRecords(r)
    ensures ArgumentStrings(r) == NonEmpty(argv[1..])
  {
    ParseWellFormed(argv[1..], EmptyArg, []);
    ParseLossless(argv[1..], EmptyArg, []);
    ParseFrom(argv[1..], EmptyArg, [])
  }

  /** The strings a record stands for: its key, when it has one, then its values. */
  function RecordStrings(arg: CommandLineArg): seq<string> {
    (if HasFilledKey(arg) then [arg.key] else []) + arg.values
  }

  /** The strings a list of records stands for, in order. */
  function ArgumentStrings(args: seq<CommandLineArg>): seq<string> {
    if |args| == 0 then [] else RecordStrings(args[0]) + ArgumentStrings(args[1..])
  }

  /** The non-empty strings, in order. */
  function NonEmpty(entries: seq<string>): (r: seq<string>)
    ensures forall k | 0 <= k < |r| :: |r[k]| > 0
  {
    if |entries| == 0 then []
    else if |entries[0]| > 0 then [entries[0]] + NonEmpty(entries[1..])
    else NonEmpty(entries[1..])
  }

  /** A record as the parser emits it: a key or at least one value, and only non-empty non-key values. */
  predicate WellFormedRecord(arg: CommandLineArg) {
    && (arg.key == "" || IsKey(arg.key))
    && (HasFilledKey(arg) || HasFilledValues(arg))
    && forall k | 0 <= k < |arg.values| :: |arg.values[k]| > 0 && !IsKey(arg.values[k])
  }

  /** Every record is well formed, and only the first can lack a key. */
  predicate WellFormedRecords(args: seq<CommandLineArg>) {
    forall i | 0 <= i < |args| :: WellFormedRecord(args[i]) && (i > 0 ==> HasFilledKey(args[i]))
  }

  /** The buffer between two entries: a key or nothing, and the values read since. */
  predicate WellFormedBuffer(buffer: CommandLineArg, parsed: seq<CommandLineArg>) {
    && (buffer.key == "" || IsKey(buffer.key))
    && (forall k | 0 <= k < |buffer.values| :: |buffer.values[k]| > 0 && !IsKey(buffer.values[k]))
    && (|parsed| > 0 ==> HasFilledKey(buffer))
  }

  lemma ArgumentStringsAppend(args: seq<CommandLineArg>, arg: CommandLineArg)
    ensures ArgumentStrings(args + [arg]) == ArgumentStrings(args) + RecordStrings(arg)
  {
    if |args| > 0 {
      assert (args + [arg])[1..] == args[1..] + [arg];
      ArgumentStringsAppend(args[1..], arg);
    }
  }

  /** Pushing the buffer moves its strings from the buffer to the output. */
  lemma PushKeepsStrings(buffer: CommandLineArg, parsed: seq<CommandLineArg>)
    ensures var (b, p) := PushFilledBuffer(buffer, parsed);
      ArgumentStrings(p) + RecordStrings(b) == ArgumentStrings(parsed) + RecordStrings(buffer)
  {
    if HasFilledKey(buffer) || HasFilledValues(buffer) {
      ArgumentStringsAppend(parsed, buffer);
    }
  }

  /**
    Nothing is lost or reordered: the records hold, key by key and value by
    value, exactly the non-empty entries.
   */
  lemma {:induction false} ParseLossless(entries: seq<string>, buffer: CommandLineArg, parsed: seq<CommandLineArg>)
    ensures ArgumentStrings(ParseFrom(entries, buffer, parsed))
      == ArgumentStrings(parsed) + RecordStrings(buffer) + NonEmpty(entries)
    decreases |entries|
  {
    if |entries| == 0 {
      PushKeepsStrings(buffer, parsed);
    } else {
      var input := entries[0];
      var rest := entries[1..];
      if IsKey(input) {
        var pushed := PushFilledBuffer(buffer, parsed).1;
        ParseLossless(rest, EmptyArg.(key := input), pushed);
        assert RecordStrings(EmptyArg.(key := input)) == [input];
        KeyLossless(entries, buffer, parsed);
      } else if |input| > 0 {
        ParseLossless(rest, buffer.(values := buffer.values + [input]), parsed);
        ValueLossless(entries, buffer, parsed);
      } else {
        ParseLossless(rest, buffer, parsed);
      }
    }
  }

  /** The step of ParseLossless for a key: the key moves from the input to a record of its own. */
  lemma KeyLossless(entries: seq<string>, buffer: CommandLineArg, parsed: seq<CommandLineArg>)
    requires |entries| > 0 && IsKey(entries[0])
    requires var pushed := PushFilledBuffer(buffer, parsed).1;
      ArgumentStrings(ParseFrom(entries[1..], EmptyArg.(key := entries[0]), pushed))
      == ArgumentStrings(pushed) + [entries[0]] + NonEmpty(entries[1..])
    ensures ArgumentStrings(ParseFrom(entries, buffer, parsed))
      == ArgumentStrings(parsed) + RecordStrings(buffer) + NonEmpty(entries)
  {
    KeyStep(entries, buffer, parsed);
    PushKeepsStrings(buffer, parsed);
    KeyNonEmpty(entries);
    Regroup(ArgumentStrings(PushFilledBuffer(buffer, parsed).1), ArgumentStrings(parsed) + RecordStrings(buffer),
      entries[0], NonEmpty(entries[1..]), NonEmpty(entries));
  }

  lemma KeyStep(entries: seq<string>, buffer: CommandLineArg, parsed: seq<CommandLineArg>)
    requires |entries| > 0 && IsKey(entries[0])
    ensures ParseFrom(entries, buffer, parsed)
      == ParseFrom(entries[1..], EmptyArg.(key := entries[0]), PushFilledBuffer(buffer, parsed).1)
  {
  }

  lemma KeyNonEmpty(entries: seq<string>)
    requires |entries| > 0 && IsKey(entries[0])
    ensures NonEmpty(entries) == [entries[0]] + NonEmpty(entries[1..])
  {
  }

  lemma Regroup(pushed: seq<string>, before: seq<string>, key: string, tail: seq<string>, all: seq<string>)
    requires pushed == before
    requires all == [key] + tail
    ensures pushed + [key] + tail == before + all
  {
  }

  /** The step of ParseLossless for a value: the value moves from the input to the buffer. */
  lemma ValueLossless(entries: seq<string>, buffer: CommandLineArg, parsed: seq<CommandLineArg>)
    requires |entries| > 0 && !IsKey(entries[0]) && |entries[0]| > 0
    requires var grown := buffer.(values := buffer.values + [entries[0]]);
      ArgumentStrings(ParseFrom(entries[1..], grown, parsed))
      == ArgumentStrings(parsed) + RecordStrings(grown) + NonEmpty(entries[1..])
    ensures ArgumentStrings(ParseFrom(entries, buffer, parsed))
      == ArgumentStrings(parsed) + RecordStrings(buffer) + NonEmpty(entries)
  {
    var grown := buffer.(values := buffer.values + [entries[0]]);
    ValueStep(entries, buffer, parsed);
    GrownStrings(buffer, entries[0]);
    ValueNonEmpty(entries);
    RegroupValue(ArgumentStrings(parsed), RecordStrings(buffer), entries[0], NonEmpty(entries[1..]), NonEmpty(entries));
  }

  lemma ValueStep(entries: seq<string>, buffer: CommandLineArg, parsed: seq<CommandLineArg>)
    requires |entries| > 0 && !IsKey(entries[0]) && |entries[0]| > 0
    ensures ParseFrom(entries, buffer, parsed)
      == ParseFrom(entries[1..], buffer.(values := buffer.values + [entries[0]]), parsed)
  {
  }

  lemma GrownStrings(buffer: CommandLineArg, value: string)
    ensures RecordStrings(buffer.(values := buffer.values + [value])) == RecordStrings(buffer) + [value]
  {
  }

  lemma ValueNonEmpty(entries: seq<string>)
    requires |entries| > 0 && |entries[0]| > 0
    ensures NonEmpty(entries) == [entries[0]] + NonEmpty(entries[1..])
  {
  }

  lemma RegroupValue(a: seq<string>, b: seq<string>, value: string, tail: seq<string>, all: seq<string>)
    requires all == [value] + tail
    ensures a + (b + [value]) + tail == a + b + all
  {
  }

  lemma {:induction false} ParseWellFormed(entries: seq<string>, buffer: CommandLineArg, parsed: seq<CommandLineArg>)
    requires WellFormedRecords(parsed)
    requires WellFormedBuffer(buffer, parsed)
    ensures WellFormedRecords(ParseFrom(entries, buffer, parsed))
    decreases |entries|
  {
    if |entries| == 0 {
    } else {
      var input := entries[0];
      var rest := entries[1..];
      if IsKey(input) {
        var (emptied, pushed) := PushFilledBuffer(buffer, parsed);
        ParseWellFormed(rest, emptied.(key := input), pushed);
      } else if |input| > 0 {
        ParseWellFormed(rest, buffer.(values := buffer.values + [input]), parsed);
      } else {
        ParseWellFormed(rest, buffer, parsed);
      }
    }
  }

  /** Values read into a buffer become its values, in order. */
  lemma {:induction false} ParseValues(values: seq<string>, rest: seq<string>, buffer: CommandLineArg, parsed: seq<CommandLineArg>)
    requires forall k | 0 <= k < |values| :: |values[k]| > 0 && !IsKey(values[k])
    ensures ParseFrom(values + rest, buffer, parsed) == ParseFrom(rest, buffer.(values := buffer.values + values), parsed)
    decreases |values|
  {
    if |values| == 0 {
      assert values + rest == rest;
      assert buffer.values + values == buffer.values;
    } else {
      assert (values + rest)[1..] == values[1..] + rest;
      ParseValues(values[1..], rest, buffer.(values := buffer.values + [values[0]]), parsed);
      assert buffer.values + [values[0]] + values[1..] == buffer.values + values;
    }
  }

  /** A key pushes the buffer and starts a record of its own. */
  lemma ParseKeyStep(key: string, rest: seq<string>, buffer: CommandLineArg, parsed: seq<CommandLineArg>)
    requires IsKey(key)
    ensures ParseFrom([key] + rest, buffer, parsed) == ParseFrom(rest, EmptyArg.(key := key), PushFilledBuffer(buffer, parsed).1)
  {
    assert ([key] + rest)[1..] == rest;
  }

  /** The values of a record, read into the buffer that holds its key. */
  lemma ParseRecord(arg: CommandLineArg, rest: seq<string>, parsed: seq<CommandLineArg>)
    requires WellFormedRecord(arg)
    ensures ParseFrom(arg.values + rest, EmptyArg.(key := arg.key), parsed) == ParseFrom(rest, arg, parsed)
  {
    ParseValues(arg.values, rest, EmptyArg.(key := arg.key), parsed);
    assert EmptyArg.(key := arg.key).(values := [] + arg.values) == arg;
  }

  /** Records that all have keys are read back as they are, behind a filled buffer. */
  lemma {:induction false} ParseKeyedRecords(args: seq<CommandLineArg>, buffer: CommandLineArg, parsed: seq<CommandLineArg>)
    requires forall i | 0 <= i < |args| :: WellFormedRecord(args[i]) && HasFilledKey(args[i])
    requires HasFilledKey(buffer) || HasFilledValues(buffer)
    ensures ParseFrom(ArgumentStrings(args), buffer, parsed) == parsed + [buffer] + args
    decreases |args|
  {
    if |args| > 0 {
      var arg := args[0];
      var tail := ArgumentStrings(args[1..]);
      ParseKeyedRecord(arg, tail, buffer, parsed);
      ParseKeyedRecords(args[1..], arg, parsed + [buffer]);
      assert parsed + [buffer] + [arg] + args[1..] == parsed + [buffer] + args;
    }
  }

  /** A keyed record behind a filled buffer pushes the buffer and ends up in it. */
  lemma ParseKeyedRecord(arg: CommandLineArg, tail: seq<string>, buffer: CommandLineArg, parsed: seq<CommandLineArg>)
    requires WellFormedRecord(arg) && HasFilledKey(arg)
    requires HasFilledKey(buffer) || HasFilledValues(buffer)
    ensures ParseFrom(RecordStrings(arg) + tail, buffer, parsed) == ParseFrom(tail, arg, parsed + [buffer])
  {
    assert RecordStrings(arg) + tail == [arg.key] + (arg.values + tail);
    ParseKeyStep(arg.key, arg.values + tail, buffer, parsed);
    ParseRecord(arg, tail, parsed + [buffer]);
  }

  /** The first record, read from an empty buffer, ends up in the buffer. */
  lemma ParseFirstRecord(first: CommandLineArg, rest: seq<string>)
    requires WellFormedRecord(first)
    ensures ParseFrom(RecordStrings(first) + rest, EmptyArg, []) == ParseFrom(rest, first, [])
  {
    if HasFilledKey(first) {
      assert RecordStrings(first) + rest == [first.key] + (first.values + rest);
      ParseKeyStep(first.key, first.values + rest, EmptyArg, []);
    } else {
      assert RecordStrings(first) + rest == first.values + rest;
      assert EmptyArg.(key := first.key) == EmptyArg;
    }
    ParseRecord(first, rest, []);
  }

  lemma ParseFromRecords(args: seq<CommandLineArg>)
    requires WellFormedRecords(args)
    ensures ParseFrom(ArgumentStrings(args), EmptyArg, []) == args
  {
    if |args| > 0 {
      ParseFirstRecord(args[0], ArgumentStrings(args[1..]));
      ParseKeyedRecords(args[1..], args[0], []);
      assert [] + [args[0]] + args[1..] == args;
    }
  }

  /** Empty strings play no part in the grouping. */
  lemma {:induction false} ParseIgnoresEmpty(entries: seq<string>, buffer: CommandLineArg, parsed: seq<CommandLineArg>)
    ensures ParseFrom(entries, buffer, parsed) == ParseFrom(NonEmpty(entries), buffer, parsed)
    decreases |entries|
  {
    if |entries| > 0 {
      var input := entries[0];
      var rest := entries[1..];
      if IsKey(input) {
        var (emptied, pushed) := PushFilledBuffer(buffer, parsed);
        ParseIgnoresEmpty(rest, emptied.(key := input), pushed);
        assert NonEmpty(entries) == [input] + NonEmpty(rest);
        assert NonEmpty(entries)[1..] == NonEmpty(rest);
      } else if |input| > 0 {
        ParseIgnoresEmpty(rest, buffer.(values := buffer.values + [input]), parsed);
        assert NonEmpty(entries)[1..] == NonEmpty(rest);
      } else {
        ParseIgnoresEmpty(rest, buffer, parsed);
      }
    }
  }

  /**
    Grouping is characterised by its result: argv groups into `args` exactly
    when `args` is a well-formed record list standing for argv's non-empty
    strings after the program name. So it is a bijection between the
    non-empty entries and well-formed record lists.
   */
  lemma ParseCharacterization(argv: seq<string>, args: seq<CommandLineArg>)
    requires |argv| >= 1
    ensures ParseCommandLineArguments(argv) == args
      <==> WellFormedRecords(args) && ArgumentStrings(args) == NonEmpty(argv[1..])
  {
    if WellFormedRecords(args) && ArgumentStrings(args) == NonEmpty(argv[1..]) {
      ParseIgnoresEmpty(argv[1..], EmptyArg, []);
      ParseFromRecords(args);
      NonEmptyOfNonEmpty(ArgumentStrings(args));
    }
  }

  lemma {:induction false} NonEmptyOfNonEmpty(entries: seq<string>)
    requires forall k | 0 <= k < |entries| :: |entries[k]| > 0
    ensures NonEmpty(entries) == entries
    decreases |entries|
  {
    if |entries| > 0 {
      NonEmptyOfNonEmpty(entries[1..]);
    }
  }

  /** Parsing the strings of well-formed records, after a program name, gives back the records. */
  lemma ParseRoundTrip(program: string, args: seq<CommandLineArg>)
    requires WellFormedRecords(args)
    ensures ParseCommandLineArguments([program] + ArgumentStrings(args)) == args
  {
    var entries := ArgumentStrings(args);
    assert ([program] + entries)[1..] == entries;
    ParseFromRecords(args);
  }

  /** refersToFile: the key is "-f" or "--file". */
  predicate RefersToFile(arg: CommandLineArg) {
    arg.key == "-f" || arg.key == "--file"
  }

  /** joinValues: every record's values, record after record. */
  function JoinValues(args: seq<CommandLineArg>): seq<string> {
    if |args| == 0 then [] else args[0].values + JoinValues(args[1..])
  }

  lemma {:induction false} JoinValuesAppend(a: seq<CommandLineArg>, b: seq<CommandLineArg>)
    ensures JoinValues(a + b) == JoinValues(a) + JoinValues(b)
    decreases |a|
  {
    if |a| == 0 {
      assert a + b == b;
    } else {
      assert (a + b)[1..] == a[1..] + b;
      JoinValuesAppend(a[1..], b);
    }
  }

  /** For well-formed records, the values are the argument strings that are not keys. */
  lemma {:induction false} JoinValuesAreNonKeys(args: seq<CommandLineArg>)
    requires forall i | 0 <= i < |args| :: WellFormedRecord(args[i])
    ensures JoinValues(args) == NonKeys(ArgumentStrings(args))
    decreases |args|
  {
    if |args| > 0 {
      JoinValuesAreNonKeys(args[1..]);
      NonKeysAppend(RecordStrings(args[0]), ArgumentStrings(args[1..]));
      RecordNonKeys(args[0]);
    }
  }

  /** The values of a well-formed record are its strings that are not keys. */
  lemma RecordNonKeys(a: CommandLineArg)
    requires WellFormedRecord(a)
    ensures NonKeys(RecordStrings(a)) == a.values
  {
    NonKeysOfValues(a.values);
    if HasFilledKey(a) {
      assert RecordStrings(a) == [a.key] + a.values;
      NonKeysAppend([a.key], a.values);
    } else {
      assert RecordStrings(a) == a.values;
    }
  }

  /** The strings that are not keys, in order. */
  function NonKeys(s: seq<string>): seq<string> {
    if |s| == 0 then [] else (if IsKey(s[0]) then [] else [s[0]]) + NonKeys(s[1..])
  }

  lemma {:induction false} NonKeysAppend(a: seq<string>, b: seq<string>)
    ensures NonKeys(a + b) == NonKeys(a) + NonKeys(b)
    decreases |a|
  {
    if |a| == 0 {
      assert a + b == b;
    } else {
      assert (a + b)[1..] == a[1..] + b;
      NonKeysAppend(a[1..], b);
    }
  }

  lemma {:induction false} NonKeysOfValues(values: seq<string>)
    requires forall k | 0 <= k < |values| :: !IsKey(values[k])
    ensures NonKeys(values) == values
    decreases |values|
  {
    if |values| > 0 {
      NonKeysOfValues(values[1..]);
    }
  }

  /** existHelpFlag: some record is keyed "-h" or "--help". */
  function ExistHelpFlag(args: seq<CommandLineArg>): (r: bool)
    ensures r <==> exists i | 0 <= i < |args| :: args[i].key == "-h" || args[i].key == "--help"
  {
    if |args| == 0 then false
    else
      var rest := ExistHelpFlag(args[1..]);
      assert rest <==> exists i | 1 <= i < |args| :: args[i].key == "-h" || args[i].key == "--help" by {
        if rest {
          var i :| 0 <= i < |args[1..]| && (args[1..][i].key == "-h" || args[1..][i].key == "--help");
          assert args[i + 1] == args[1..][i];
        }
        forall i | 1 <= i < |args| && (args[i].key == "-h" || args[i].key == "--help")
          ensures rest
        {
          assert args[1..][i - 1] == args[i];
        }
      }
      args[0].key == "-h" || args[0].key == "--help" || rest
  }

  /** The two run modes; each keeps the records it was created with. */
  datatype AppExecutor = HelpExecutor(args: seq<CommandLineArg>) | ConcordanceGenerator(args: seq<CommandLineArg>)

  /** createExecutor: help when there are no records or a help key is given, generation otherwise. */
  function CreateExecutor(args: seq<CommandLineArg>): (r: AppExecutor)
    ensures r.args == args
    ensures r.HelpExecutor? <==> |args| == 0 || exists i | 0 <= i < |args| :: args[i].key == "-h" || args[i].key == "--help"
  {
    if |args| == 0 then HelpExecutor(args)
    else if ExistHelpFlag(args) then HelpExecutor(args)
    else ConcordanceGenerator(args)
  }

  /** The records the generator drops: those with a key other than "-f" and "--file". */
  predicate DoesNotReferToFile(arg: CommandLineArg) {
    HasFilledKey(arg) && !RefersToFile(arg)
  }

  /** std::remove_if then erase: the records that are kept, in their order. */
  function RemoveNonFileArgs(args: seq<CommandLineArg>): (r: seq<CommandLineArg>)
    ensures |r| <= |args|
    ensures forall i | 0 <= i < |r| :: !DoesNotReferToFile(r[i]) && r[i] in args
    ensures forall i | 0 <= i < |args| :: !DoesNotReferToFile(args[i]) ==> args[i] in r
  {
    if |args| == 0 then []
    else
      var rest := RemoveNonFileArgs(args[1..]);
      assert forall i | 1 <= i < |args| :: args[i] == args[1..][i - 1];
      if DoesNotReferToFile(args[0]) then rest else [args[0]] + rest
  }

  /** The filter is stable: it works record by record and keeps the order. */
  lemma {:induction false} RemoveNonFileArgsAppend(a: seq<CommandLineArg>, b: seq<CommandLineArg>)
    ensures RemoveNonFileArgs(a + b) == RemoveNonFileArgs(a) + RemoveNonFileArgs(b)
    decreases |a|
  {
    if |a| == 0 {
      assert a + b == b;
    } else {
      assert (a + b)[1..] == a[1..] + b;
      RemoveNonFileArgsAppend(a[1..], b);
    }
  }

  /** A single record is dropped exactly when it has a key other than "-f" and "--file". */
  lemma RemoveNonFileArgsSingle(x: CommandLineArg)
    ensures RemoveNonFileArgs([x]) == if DoesNotReferToFile(x) then [] else [x]
  {
    assert [x][1..] == [];
  }

  /** The paths of several record lists are the paths of each, in order. */
  lemma FilePathsAppend(a: seq<CommandLineArg>, b: seq<CommandLineArg>)
    ensures FilePaths(a + b) == FilePaths(a) + FilePaths(b)
  {
    RemoveNonFileArgsAppend(a, b);
    JoinValuesAppend(RemoveNonFileArgs(a), RemoveNonFileArgs(b));
  }

  /** One record contributes its values as paths unless it has a key other than "-f" and "--file". */
  lemma FilePathsSingle(x: CommandLineArg)
    ensures FilePaths([x]) == if DoesNotReferToFile(x) then [] else x.values
  {
    RemoveNonFileArgsSingle(x);
    assert JoinValues([x]) == x.values + JoinValues([]);
  }

  /** The file paths generation mode considers: the values of the empty-key and file records. */
  function FilePaths(args: seq<CommandLineArg>): seq<string> {
    JoinValues(RemoveNonFileArgs(args))
  }

  /** What an execution ends with: the exit code and, in a successful generation, the path handed to makeFromFile. */
  datatype Outcome = Outcome(exitCode: int, readsFile: Option<string>)

  /**
    execute: help prints and succeeds. Generation reads the single file
    path it is given; with none or several it prints the help and fails
    with -1.
   */
  function Execute(executor: AppExecutor): (r: Outcome)
    ensures executor.HelpExecutor? ==> r == Outcome(0, None)
    ensures executor.ConcordanceGenerator? ==>
      (r.exitCode == 0 <==> |FilePaths(executor.args)| == 1)
      && (r.exitCode == 0 ==> r.readsFile == Some(FilePaths(executor.args)[0]))
      && (r.exitCode != 0 ==> r == Outcome(-1, None))
  {
    match executor
    case HelpExecutor(_) => Outcome(0, None)
    case ConcordanceGenerator(args) =>
      var paths := FilePaths(args);
      if |paths| == 1 then Outcome(0, Some(paths[0])) else Outcome(-1, None)
  }

  /** main: parse argv, pick the executor, run it. */
  function Run(argv: seq<string>): Outcome
    requires |argv| >= 1
  {
    Execute(CreateExecutor(ParseCommandLineArguments(argv)))
  }

  /**
    The application fails exactly when it is asked to generate and does not
    end up with one file path; otherwise it exits with 0.
   */
  lemma RunDecision(argv: seq<string>)
    requires |argv| >= 1
    ensures var args := ParseCommandLineArguments(argv);
      var help := |args| == 0 || ExistHelpFlag(args);
      (Run(argv).exitCode == 0 <==> help || |FilePaths(args)| == 1)
      && (Run(argv).readsFile.Some? <==> !help && |FilePaths(args)| == 1)
  {
  }

  lemma NoArgumentsExample(argv: seq<string>)
    requires argv == ["concordance"]
    ensures ParseCommandLineArguments(argv) == []
    ensures Run(argv) == Outcome(0, None)
  {
  }

  lemma GroupingExample(argv: seq<string>)
    requires argv == ["concordance", "a", "", "-f", "b", "c", "-x"]
    ensures ParseCommandLineArguments(argv)
      == [CommandLineArg("", ["a"]), CommandLineArg("-f", ["b", "c"]), CommandLineArg("-x", [])]
  {
    var args := [CommandLineArg("", ["a"]), CommandLineArg("-f", ["b", "c"]), CommandLineArg("-x", [])];
    var strings := ["a", "-f", "b", "c", "-x"];
    GroupingStrings(argv, strings);
    GroupingRecords(args, strings);
    ParseExample(argv, args, strings);
  }

  /** The empty string is dropped, everything else kept in order. */
  lemma GroupingStrings(argv: seq<string>, strings: seq<string>)
    requires argv == ["concordance", "a", "", "-f", "b", "c", "-x"]
    requires strings == ["a", "-f", "b", "c", "-x"]
    ensures NonEmpty(argv[1..]) == strings
  {
    assert argv[1..] == ["a", ""] + strings[1..];
    NonEmptyAppend(["a", ""], strings[1..]);
    NonEmptyOfNonEmpty(strings[1..]);
    assert NonEmpty(["a", ""]) == ["a"];
    assert strings == ["a"] + strings[1..];
  }

  lemma GroupingRecords(args: seq<CommandLineArg>, strings: seq<string>)
    requires args == [CommandLineArg("", ["a"]), CommandLineArg("-f", ["b", "c"]), CommandLineArg("-x", [])]
    requires strings == ["a", "-f", "b", "c", "-x"]
    ensures ArgumentStrings(args) == strings && WellFormedRecords(args)
  {
    ArgumentStringsOfThree(args);
    assert RecordStrings(args[0]) == ["a"];
    assert RecordStrings(args[1]) == ["-f"] + ["b", "c"];
    assert RecordStrings(args[2]) == ["-x"];
    assert ["a"] + (["-f"] + ["b", "c"]) + ["-x"] == strings;
    GroupingWellFormed(args);
  }

  lemma GroupingWellFormed(args: seq<CommandLineArg>)
    requires args == [CommandLineArg("", ["a"]), CommandLineArg("-f", ["b", "c"]), CommandLineArg("-x", [])]
    ensures WellFormedRecords(args)
  {
    assert WellFormedRecord(args[0]) && WellFormedRecord(args[1]) && WellFormedRecord(args[2]);
  }

  /** A concordance command line parses to `args` when both stand for the same non-empty strings. */
  lemma ParseExample(argv: seq<string>, args: seq<CommandLineArg>, strings: seq<string>)
    requires |argv| >= 1 && NonEmpty(argv[1..]) == strings
    requires ArgumentStrings(args) == strings && WellFormedRecords(args)
    ensures ParseCommandLineArguments(argv) == args
  {
    ParseCharacterization(argv, args);
  }

  lemma ArgumentStringsOfThree(args: seq<CommandLineArg>)
    requires |args| == 3
    ensures ArgumentStrings(args) == RecordStrings(args[0]) + RecordStrings(args[1]) + RecordStrings(args[2])
  {
    ArgumentStringsOfTwo(args[1..]);
    assert args[1..][0] == args[1] && args[1..][1] == args[2];
  }

  lemma ArgumentStringsOfTwo(args: seq<CommandLineArg>)
    requires |args| == 2
    ensures ArgumentStrings(args) == RecordStrings(args[0]) + RecordStrings(args[1])
  {
    assert ArgumentStrings(args[1..][1..]) == [];
    assert args[1..][0] == args[1];
  }

  lemma {:induction false} NonEmptyAppend(a: seq<string>, b: seq<string>)
    ensures NonEmpty(a + b) == NonEmpty(a) + NonEmpty(b)
    decreases |a|
  {
    if |a| == 0 {
      assert a + b == b;
    } else {
      assert (a + b)[1..] == a[1..] + b;
      NonEmptyAppend(a[1..], b);
    }
  }

  lemma OneFileExample(argv: seq<string>)
    requires argv == ["concordance", "-f", "text.txt"]
    ensures Run(argv) == Outcome(0, Some("text.txt"))
  {
    var arg := CommandLineArg("-f", ["text.txt"]);
    SingleRecordExample(argv, arg, ["-f", "text.txt"]);
    FilePathsSingle(arg);
  }

  lemma TwoFilesExample(argv: seq<string>)
    requires argv == ["concordance", "-f", "a.txt", "b.txt"]
    ensures Run(argv) == Outcome(-1, None)
  {
    var arg := CommandLineArg("-f", ["a.txt", "b.txt"]);
    SingleRecordExample(argv, arg, ["-f", "a.txt", "b.txt"]);
    FilePathsSingle(arg);
  }

  /**
    A command line of non-empty strings that is one well-formed record
    without a help key parses to that record and runs the generator on it.
   */
  lemma SingleRecordExample(argv: seq<string>, arg: CommandLineArg, strings: seq<string>)
    requires |argv| >= 1 && argv[1..] == strings
    requires forall k | 0 <= k < |strings| :: |strings[k]| > 0
    requires WellFormedRecord(arg) && RecordStrings(arg) == strings
    requires arg.key != "-h" && arg.key != "--help"
    ensures ParseCommandLineArguments(argv) == [arg]
    ensures Run(argv) == Execute(ConcordanceGenerator([arg]))
  {
    NonEmptyOfNonEmpty(strings);
    assert ArgumentStrings([arg]) == RecordStrings(arg) + ArgumentStrings([]);
    ParseExample(argv, [arg], strings);
  }

  lemma HelpWinsExample(argv: seq<string>)
    requires argv == ["concordance", "-f", "a.txt", "--help"]
    ensures Run(argv) == Outcome(0, None)
  {
    var args := [CommandLineArg("-f", ["a.txt"]), CommandLineArg("--help", [])];
    var strings := ["-f", "a.txt", "--help"];
    assert argv[1..] == strings;
    NonEmptyOfNonEmpty(strings);
    ArgumentStringsOfTwo(args);
    assert RecordStrings(args[0]) == ["-f", "a.txt"] && RecordStrings(args[1]) == ["--help"];
    assert WellFormedRecord(args[0]) && WellFormedRecord(args[1]);
    ParseExample(argv, args, strings);
    assert args[1].key == "--help";
  }

  /** A path given before any key counts as a file path. */
  lemma BarePathExample(argv: seq<string>)
    requires argv == ["concordance", "text.txt"]
    ensures Run(argv) == Outcome(0, Some("text.txt"))
  {
    var arg := CommandLineArg("", ["text.txt"]);
    SingleRecordExample(argv, arg, ["text.txt"]);
    FilePathsSingle(arg);
  }

  /** A path after an unknown key is dropped, which leaves no path. */
  lemma UnknownKeyExample(argv: seq<string>)
    requires argv == ["concordance", "-x", "text.txt"]
    ensures Run(argv) == Outcome(-1, None)
  {
    var arg := CommandLineArg("-x", ["text.txt"]);
    SingleRecordExample(argv, arg, ["-x", "text.txt"]);
    assert RemoveNonFileArgs([arg]) == [];
  }
}
