/**
  The text document traveller: it reads a document as whitespace-free chunks
  and splits every chunk into words and single-character symbols, keeping
  abbreviations such as "i.e." and "a.k.a." whole.

  The file stream of the C++ traveller is modelled as the whole document, a
  `string`, and the position of the next unread character; a file that
  cannot be opened behaves exactly like an empty document.
 */
module Segmenter {
  import opened Chars
  import opened Wrappers

  /** One element of a document: a word, or one non-alphanumeric character. */
  datatype Element = Word(text: string) | Symbol(ch: char)

  predicate IsWhitespace(c: char) {
    c == ' ' || c == '\n' || c == '\t'
  }

  predicate IsSymbol(c: char) {
    !IsAlnum(c)
  }

  /** The fifteen characters that end a word outside abbreviation mode. */
  predicate IsWordTerminating(c: char) {
    || c == '.' || c == '!' || c == '?' || c == ','
    || c == '(' || c == ')' || c == '[' || c == ']'
    || c == '{' || c == '}' || c == ';' || c == ':'
    || c == '"' || c == '<' || c == '>'
  }

  /** The characters an element stands for in the document. */
  function ElementText(e: Element): string {
    match e
    case Word(w) => w
    case Symbol(c) => [c]
  }

  /** The element texts of `es`, concatenated in order. */
  function Flatten(es: seq<Element>): string {
    if |es| == 0 then [] else ElementText(es[0]) + Flatten(es[1..])
  }

  /** A symbol is one non-alphanumeric character; a word starts with an alphanumeric one. */
  predicate WellFormed(e: Element) {
    match e
    case Symbol(c) => IsSymbol(c)
    case Word(w) => |w| > 0 && IsAlnum(w[0])
  }

  predicate WhitespaceFree(s: string) {
    forall k | 0 <= k < |s| :: !IsWhitespace(s[k])
  }

  //--------------------------------------------------------------------------
  // Chunk reader
  //--------------------------------------------------------------------------

  /** Index of the first non-whitespace character of `s` at or after `i`, or |s|. */
  function SkipWhitespace(s: string, i: nat): (r: nat)
    requires i <= |s|
    ensures i <= r <= |s|
    ensures forall k | i <= k < r :: IsWhitespace(s[k])
    ensures r < |s| ==> !IsWhitespace(s[r])
    decreases |s| - i
  {
    if i == |s| || !IsWhitespace(s[i]) then i else SkipWhitespace(s, i + 1)
  }

  /** Index of the first whitespace character of `s` at or after `i`, or |s|. */
  function RunEnd(s: string, i: nat): (r: nat)
    requires i <= |s|
    ensures i <= r <= |s|
    ensures forall k | i <= k < r :: !IsWhitespace(s[k])
    ensures r < |s| ==> IsWhitespace(s[r])
    decreases |s| - i
  {
    if i == |s| || IsWhitespace(s[i]) then i else RunEnd(s, i + 1)
  }

  /**
    The character loop of getNextChunk, reading `stream` from position `pos`:
    `chunk` holds the non-whitespace characters read so far. A whitespace
    character is skipped while `chunk` is empty and is consumed and ends the
    chunk otherwise. The result is the chunk and the new stream position.
   */
  function ReadChunk(stream: string, pos: nat, chunk: string): (string, nat)
    requires pos <= |stream|
    decreases |stream| - pos
  {
    if pos == |stream| then (chunk, pos)
    else if IsWhitespace(stream[pos]) then
      if |chunk| > 0 then (chunk, pos + 1) else ReadChunk(stream, pos + 1, chunk)
    else ReadChunk(stream, pos + 1, chunk + [stream[pos]])
  }

  /**
    What the character loop reads: a chunk in progress grows by the rest of
    the current run; an empty one first skips the whitespace.
   */
  lemma {:induction false} ReadChunkSpec(stream: string, pos: nat, chunk: string)
    requires pos <= |stream|
    ensures |chunk| > 0 ==>
      var e := RunEnd(stream, pos);
      ReadChunk(stream, pos, chunk) == (chunk + stream[pos..e], if e < |stream| then e + 1 else e)
    ensures |chunk| == 0 ==>
      var b := SkipWhitespace(stream, pos);
      var e := RunEnd(stream, b);
      ReadChunk(stream, pos, chunk) == (stream[b..e], if e < |stream| then e + 1 else e)
    decreases |stream| - pos
  {
    if pos == |stream| {
      assert chunk + stream[pos..pos] == chunk;
    } else if IsWhitespace(stream[pos]) {
      if |chunk| > 0 {
        assert chunk + stream[pos..pos] == chunk;
      } else {
        ReadChunkSpec(stream, pos + 1, chunk);
      }
    } else {
      ReadChunkSpec(stream, pos + 1, chunk + [stream[pos]]);
      assert RunEnd(stream, pos + 1) == RunEnd(stream, pos);
      ChunkGrow(chunk, stream, pos, RunEnd(stream, pos));
    }
  }

  /** Moving one more character of the run into the chunk. */
  lemma ChunkGrow(chunk: string, stream: string, pos: nat, e: nat)
    requires pos < e <= |stream|
    ensures (chunk + [stream[pos]]) + stream[pos + 1..e] == chunk + stream[pos..e]
    ensures |chunk| == 0 ==> chunk + stream[pos..e] == stream[pos..e]
  {
    assert stream[pos..e] == [stream[pos]] + stream[pos + 1..e];
  }

  /**
    getNextChunk: skips the whitespace at `pos`, returns the maximal run of
    non-whitespace characters that follows, and consumes the single
    whitespace character that ends it. The chunk is empty only when nothing
    but whitespace is left.
   */
  function GetNextChunk(stream: string, pos: nat): (r: (string, nat))
    requires pos <= |stream|
    ensures var (chunk, next) := r;
      var b := SkipWhitespace(stream, pos);
      var e := b + |chunk|;
      && WhitespaceFree(chunk)
      && e <= next <= |stream|
      && stream[b..e] == chunk
      && (e == |stream| ==> next == e)
      && (e < |stream| ==> IsWhitespace(stream[e]) && next == e + 1)
    ensures |r.0| == 0 <==> forall k | pos <= k < |stream| :: IsWhitespace(stream[k])
    ensures |r.0| == 0 ==> r.1 == |stream|
    ensures |r.0| > 0 ==> pos < r.1
  {
    ReadChunkSpec(stream, pos, []);
    ReadChunk(stream, pos, [])
  }

  /** Removes every whitespace character of `s`. */
  function RemoveWhitespace(s: string): string {
    if |s| == 0 then []
    else if IsWhitespace(s[0]) then RemoveWhitespace(s[1..])
    else [s[0]] + RemoveWhitespace(s[1..])
  }

  /** All chunks of the document from stream position `pos` on, in the order getNextChunk returns them. */
  function Chunks(stream: string, pos: nat): (r: seq<string>)
    requires pos <= |stream|
    ensures forall k | 0 <= k < |r| :: |r[k]| > 0 && WhitespaceFree(r[k])
    decreases |stream| - pos
  {
    var (chunk, next) := GetNextChunk(stream, pos);
    if |chunk| == 0 then [] else [chunk] + Chunks(stream, next)
  }

  function Concat(ss: seq<string>): string {
    if |ss| == 0 then [] else ss[0] + Concat(ss[1..])
  }

  lemma {:induction false} RemoveWhitespaceAppend(a: string, b: string)
    ensures RemoveWhitespace(a + b) == RemoveWhitespace(a) + RemoveWhitespace(b)
    decreases |a|
  {
    if |a| == 0 {
      assert a + b == b;
    } else {
      assert (a + b)[1..] == a[1..] + b;
      RemoveWhitespaceAppend(a[1..], b);
    }
  }

  lemma {:induction false} RemoveWhitespaceOfBlank(s: string)
    requires forall k | 0 <= k < |s| :: IsWhitespace(s[k])
    ensures RemoveWhitespace(s) == []
    decreases |s|
  {
    if |s| > 0 {
      RemoveWhitespaceOfBlank(s[1..]);
    }
  }

  lemma {:induction false} RemoveWhitespaceOfFree(s: string)
    requires WhitespaceFree(s)
    ensures RemoveWhitespace(s) == s
    decreases |s|
  {
    if |s| > 0 {
      RemoveWhitespaceOfFree(s[1..]);
      assert [s[0]] + s[1..] == s;
    }
  }

  /** Removing whitespace from blank + free + at most one blank + rest keeps the free part and the rest. */
  lemma RemoveWhitespaceAround(s: string, pos: nat, b: nat, e: nat, next: nat)
    requires pos <= b <= e <= next <= |s| && next <= e + 1
    requires forall k | pos <= k < b :: IsWhitespace(s[k])
    requires WhitespaceFree(s[b..e])
    requires e < next ==> IsWhitespace(s[e])
    ensures RemoveWhitespace(s[pos..]) == s[b..e] + RemoveWhitespace(s[next..])
  {
    var lead, chunk, sep, rest := s[pos..b], s[b..e], s[e..next], s[next..];
    SliceJoin(s, pos, b);
    SlicesWhitespace(s, pos, b);
    RemoveWhitespaceAppend(lead, s[b..]);
    RemoveWhitespaceOfBlank(lead);
    assert RemoveWhitespace(s[pos..]) == RemoveWhitespace(s[b..]);
    SliceJoin(s, b, e);
    RemoveWhitespaceAppend(chunk, s[e..]);
    RemoveWhitespaceOfFree(chunk);
    assert RemoveWhitespace(s[b..]) == chunk + RemoveWhitespace(s[e..]);
    SliceJoin(s, e, next);
    if e < next {
      SlicesWhitespace(s, e, next);
    }
    RemoveWhitespaceAppend(sep, rest);
    RemoveWhitespaceOfBlank(sep);
    assert RemoveWhitespace(s[e..]) == RemoveWhitespace(rest);
  }

  lemma SlicesWhitespace(s: string, i: nat, j: nat)
    requires i <= j <= |s|
    requires forall k | i <= k < j :: IsWhitespace(s[k])
    ensures forall k | 0 <= k < |s[i..j]| :: IsWhitespace(s[i..j][k])
  {
  }

  /** One call of getNextChunk removes the leading whitespace, the chunk, and the whitespace after it. */
  lemma ChunkStep(stream: string, pos: nat)
    requires pos <= |stream|
    ensures RemoveWhitespace(stream[pos..]) ==
      GetNextChunk(stream, pos).0 + RemoveWhitespace(stream[GetNextChunk(stream, pos).1..])
  {
    var r := GetNextChunk(stream, pos);
    var b := SkipWhitespace(stream, pos);
    RemoveWhitespaceAround(stream, pos, b, b + |r.0|, r.1);
  }

  /** Chunking loses nothing but whitespace: the chunks, concatenated, are the document without its whitespace. */
  lemma {:induction false} ChunksLossless(stream: string, pos: nat)
    requires pos <= |stream|
    ensures Concat(Chunks(stream, pos)) == RemoveWhitespace(stream[pos..])
    decreases |stream| - pos
  {
    var (chunk, next) := GetNextChunk(stream, pos);
    ChunkStep(stream, pos);
    if |chunk| == 0 {
      assert stream[next..] == [];
    } else {
      ChunksLossless(stream, next);
      assert Chunks(stream, pos) == [chunk] + Chunks(stream, next);
    }
  }

  /** '\r' is not whitespace: it stays inside the chunk it appears in. */
  lemma CarriageReturnStaysInChunk()
    ensures GetNextChunk(" ab\rc d", 0) == ("ab\rc", 6)
  {
    var s := " ab\rc d";
    assert SkipWhitespace(s, 0) == 1;
    assert !IsWhitespace(s[4]) && IsWhitespace(s[5]);
    assert RunEnd(s, 5) == 5;
    assert RunEnd(s, 1) == 5;
    assert s[1..5] == "ab\rc";
  }

  //--------------------------------------------------------------------------
  // Element segmenter
  //--------------------------------------------------------------------------

  /** std::find_if(current, chunk.end(), isWordTerminatingCharacter). */
  function FindTerminator(c: string, i: nat): (r: nat)
    requires i <= |c|
    ensures i <= r <= |c|
    ensures forall k | i <= k < r :: !IsWordTerminating(c[k])
    ensures r < |c| ==> IsWordTerminating(c[r])
    decreases |c| - i
  {
    if i == |c| || IsWordTerminating(c[i]) then i else FindTerminator(c, i + 1)
  }

  /** findEndOfAbbreviation: the first word-terminating character other than '.', at or after `i`. */
  function FindEndOfAbbreviation(c: string, i: nat): (r: nat)
    requires i <= |c|
    ensures i <= r <= |c|
    ensures forall k | i <= k < r :: !IsWordTerminating(c[k]) || c[k] == '.'
    ensures r < |c| ==> IsWordTerminating(c[r]) && c[r] != '.'
    decreases |c| - i
  {
    if i == |c| || (IsWordTerminating(c[i]) && c[i] != '.') then i
    else FindEndOfAbbreviation(c, i + 1)
  }

  predicate IsDotAt(c: string, i: nat) {
    i < |c| && c[i] == '.'
  }

  /** The character after position `i` exists, is a letter and is lower case. */
  predicate NextLetterIsLowercase(c: string, i: nat) {
    i + 1 < |c| && IsAlpha(c[i + 1]) && IsLower(c[i + 1])
  }

  /** A word whose first terminator is at `t` switches to abbreviation scanning. */
  predicate EntersAbbreviation(c: string, t: nat) {
    IsDotAt(c, t) && NextLetterIsLowercase(c, t)
  }

  /**
    findEndOfElement: a non-alphanumeric character is an element on its own;
    a word runs to its first terminator, or, when that terminator is a dot
    followed by a lower-case letter, to the first terminator that is not a dot.
   */
  function FindEndOfElement(c: string, i: nat): (r: nat)
    requires i < |c|
    ensures i < r <= |c|
    ensures IsSymbol(c[i]) ==> r == i + 1
    ensures !IsSymbol(c[i]) && !EntersAbbreviation(c, FindTerminator(c, i)) ==>
      r == FindTerminator(c, i)
    ensures !IsSymbol(c[i]) && EntersAbbreviation(c, FindTerminator(c, i)) ==>
      && FindTerminator(c, i) + 1 < r
      && (forall k | i <= k < r :: !IsWordTerminating(c[k]) || c[k] == '.')
      && (r < |c| ==> IsWordTerminating(c[r]) && c[r] != '.')
  {
    if IsSymbol(c[i]) then i + 1
    else
      var wordEnd := FindTerminator(c, i);
      if IsDotAt(c, wordEnd) && NextLetterIsLowercase(c, wordEnd) then
        FindEndOfAbbreviation(c, wordEnd)
      else
        wordEnd
  }

  /** evaluate: a single non-alphanumeric character becomes a Symbol, anything else a Word. */
  function Evaluate(c: string, b: nat, e: nat): (r: Element)
    requires b < e <= |c|
    ensures ElementText(r) == c[b..e]
    ensures r.Symbol? <==> e == b + 1 && IsSymbol(c[b])
  {
    if e - b == 1 && IsSymbol(c[b]) then Symbol(c[b]) else Word(c[b..e])
  }

  /** The elements of `c` from position `i` on. */
  function Split(c: string, i: nat): (r: seq<Element>)
    requires i <= |c|
    ensures |r| == 0 <==> i == |c|
    decreases |c| - i
  {
    if i == |c| then []
    else
      var e := FindEndOfElement(c, i);
      [Evaluate(c, i, e)] + Split(c, e)
  }

  /** splitChunkIntoDocumentElements as a function. */
  function SplitChunk(chunk: string): seq<Element> {
    Split(chunk, 0)
  }

  /**
    splitChunkIntoDocumentElements, following the C++ loop. The C++ code
    dereferences the first character before testing for the end, so the
    chunk must not be empty; getNextChunk never hands it an empty one.
   */
  method SplitChunkIntoDocumentElements(chunk: string) returns (elements: seq<Element>)
    requires |chunk| > 0
    ensures elements == SplitChunk(chunk)
    ensures Flatten(elements) == chunk
    ensures forall k | 0 <= k < |elements| :: WellFormed(elements[k])
  {
    elements := [];
    var start := 0;
    var end := FindEndOfElement(chunk, start);
    while end != |chunk|
      invariant 0 <= start < end <= |chunk|
      invariant end == FindEndOfElement(chunk, start)
      invariant elements + Split(chunk, start) == Split(chunk, 0)
      decreases |chunk| - start
    {
      elements := elements + [Evaluate(chunk, start, end)];
      start := end;
      end := FindEndOfElement(chunk, start);
    }
    if start != |chunk| {
      elements := elements + [Evaluate(chunk, start, end)];
    }
    assert elements == Split(chunk, 0);
    SplitLossless(chunk, 0);
    SplitWellFormed(chunk, 0);
  }

  /** Segmentation is lossless: the elements' texts reproduce the chunk exactly. */
  lemma {:induction false} SplitLossless(c: string, i: nat)
    requires i <= |c|
    ensures Flatten(Split(c, i)) == c[i..]
    decreases |c| - i
  {
    if i < |c| {
      var e := FindEndOfElement(c, i);
      SplitLossless(c, e);
      SplitStep(c, i);
      FlattenCons(Evaluate(c, i, e), Split(c, e));
      SliceJoin(c, i, e);
    }
  }

  lemma SliceJoin(c: string, i: nat, e: nat)
    requires i <= e <= |c|
    ensures c[i..e] + c[e..] == c[i..]
  {
  }

  /** One step of the scan: the element at `i`, then the split of the rest. */
  lemma SplitStep(c: string, i: nat)
    requires i < |c|
    ensures var e := FindEndOfElement(c, i);
      Split(c, i) == [Evaluate(c, i, e)] + Split(c, e)
  {
  }

  lemma FlattenCons(e: Element, es: seq<Element>)
    ensures Flatten([e] + es) == ElementText(e) + Flatten(es)
  {
    assert ([e] + es)[1..] == es;
  }

  /** Every symbol is one non-alphanumeric character and every word starts with an alphanumeric one. */
  lemma {:induction false} SplitWellFormed(c: string, i: nat)
    requires i <= |c|
    ensures forall k | 0 <= k < |Split(c, i)| :: WellFormed(Split(c, i)[k])
    decreases |c| - i
  {
    if i < |c| {
      var e := FindEndOfElement(c, i);
      SplitWellFormed(c, e);
      var r := Split(c, i);
      assert r[0] == Evaluate(c, i, e);
      assert r[1..] == Split(c, e);
      forall k | 0 <= k < |r|
        ensures WellFormed(r[k])
      {
        if k > 0 {
          assert r[k] == Split(c, e)[k - 1];
        }
      }
    }
  }

  /**
    Outside abbreviation mode a word ends at its first terminator, and that
    terminator comes out as a Symbol of its own: "English," is the word
    "English" followed by ','; "sentence." is "sentence" followed by '.'.
   */
  lemma WordThenTerminator(c: string, i: nat)
    requires i < |c| && IsAlnum(c[i])
    requires FindTerminator(c, i) < |c|
    requires !EntersAbbreviation(c, FindTerminator(c, i))
    ensures var t := FindTerminator(c, i);
      Split(c, i) == [Word(c[i..t]), Symbol(c[t])] + Split(c, t + 1)
  {
    var t := FindTerminator(c, i);
    assert FindEndOfElement(c, t) == t + 1;
    assert Split(c, t) == [Symbol(c[t])] + Split(c, t + 1);
  }

  /**
    In abbreviation mode the word swallows every later dot and stops only at
    a terminator other than '.', or at the end of the chunk.
   */
  lemma AbbreviationWord(c: string, i: nat)
    requires i < |c| && IsAlnum(c[i])
    requires EntersAbbreviation(c, FindTerminator(c, i))
    ensures var e := FindEndOfAbbreviation(c, FindTerminator(c, i));
      Split(c, i) == [Word(c[i..e])] + Split(c, e)
  {
  }

  lemma EnglishCommaExample()
    ensures SplitChunk("English,") == [Word("English"), Symbol(',')]
  {
    var c := "English,";
    assert FindTerminator(c, 0) == 7;
    WordThenTerminator(c, 0);
    assert c[0..7] == "English";
  }

  lemma SentenceDotExample()
    ensures SplitChunk("sentence.") == [Word("sentence"), Symbol('.')]
  {
    var c := "sentence.";
    assert FindTerminator(c, 0) == 8;
    WordThenTerminator(c, 0);
    assert c[0..8] == "sentence";
  }

  lemma AbbreviationExample()
    ensures SplitChunk("i.e.") == [Word("i.e.")]
  {
    var c := "i.e.";
    assert FindTerminator(c, 0) == 1;
    assert FindEndOfAbbreviation(c, 1) == 4;
    AbbreviationWord(c, 0);
    assert c[0..4] == "i.e.";
  }

  /** changesSentence: the symbols that end a sentence. */
  predicate ChangesSentence(symbol: char) {
    symbol == '.' || symbol == '!' || symbol == '?' || symbol == ';'
  }

  /**
    Every sentence-ending character also ends a word and is a symbol, so it
    is never part of a word outside abbreviation mode.
   */
  lemma SentenceEndersTerminateWords(symbol: char)
    requires ChangesSentence(symbol)
    ensures IsWordTerminating(symbol) && IsSymbol(symbol)
    ensures symbol in ".!?;"
  {
  }

  //--------------------------------------------------------------------------
  // Buffered traveller
  //--------------------------------------------------------------------------

  /** Number of chunks fillBuffer reads per refill. */
  const BufferedChunksSize: nat := 20

  /** Every element of the document from stream position `pos` on, chunk by chunk. */
  function DocumentElements(stream: string, pos: nat): seq<Element>
    requires pos <= |stream|
    decreases |stream| - pos
  {
    var (chunk, next) := GetNextChunk(stream, pos);
    if |chunk| == 0 then [] else SplitChunk(chunk) + DocumentElements(stream, next)
  }

  /**
    The traveller's state: the document, the stream position reached, and
    the elements parsed but not yet handed out.
   */
  datatype Traveller = Traveller(document: string, pos: nat, buffer: seq<Element>)
  {
    predicate Valid() {
      pos <= |document|
    }
  }

  /** Opening a document; a file that cannot be opened is an empty document. */
  function Open(contents: string): (t: Traveller)
    ensures t.Valid()
    ensures Remaining(t) == DocumentElements(contents, 0)
  {
    Traveller(contents, 0, [])
  }

  /** The elements the traveller will still hand out, in order. */
  function Remaining(t: Traveller): seq<Element>
    requires t.Valid()
  {
    t.buffer + DocumentElements(t.document, t.pos)
  }

  /** fillBuffer's loop: read up to `n` more chunks, stopping at the first empty one. */
  function FillFrom(t: Traveller, n: nat): (r: Traveller)
    requires t.Valid()
    ensures r.Valid()
    ensures Remaining(r) == Remaining(t)
    ensures n > 0 && |r.buffer| == 0 ==> |Remaining(t)| == 0
    ensures |t.buffer| <= |r.buffer|
    decreases n
  {
    if n == 0 then t
    else
      var (chunk, next) := GetNextChunk(t.document, t.pos);
      if |chunk| > 0 then
        var t' := Traveller(t.document, next, t.buffer + SplitChunk(chunk));
        ReadMore(t);
        FillFrom(t', n - 1)
      else
        ElementsAtEnd(t.document, t.pos);
        Traveller(t.document, next, t.buffer)
  }

  /** Moving one chunk's elements from the document into the buffer keeps the remaining elements. */
  lemma ReadMore(t: Traveller)
    requires t.Valid()
    requires |GetNextChunk(t.document, t.pos).0| > 0
    ensures var (chunk, next) := GetNextChunk(t.document, t.pos);
      Remaining(Traveller(t.document, next, t.buffer + SplitChunk(chunk))) == Remaining(t)
  {
    var (chunk, next) := GetNextChunk(t.document, t.pos);
    ElementsStep(t.document, t.pos);
    AppendAssociates(t.buffer, SplitChunk(chunk), DocumentElements(t.document, next));
  }

  /** Reading one non-empty chunk: its elements come first. */
  lemma ElementsStep(stream: string, pos: nat)
    requires pos <= |stream|
    requires |GetNextChunk(stream, pos).0| > 0
    ensures var (chunk, next) := GetNextChunk(stream, pos);
      DocumentElements(stream, pos) == SplitChunk(chunk) + DocumentElements(stream, next)
  {
  }

  /** An empty chunk means the document holds no more elements. */
  lemma ElementsAtEnd(stream: string, pos: nat)
    requires pos <= |stream|
    requires |GetNextChunk(stream, pos).0| == 0
    ensures DocumentElements(stream, pos) == []
    ensures DocumentElements(stream, GetNextChunk(stream, pos).1) == []
  {
    var next := GetNextChunk(stream, pos).1;
    assert |GetNextChunk(stream, next).0| == 0;
  }

  lemma AppendAssociates(a: seq<Element>, b: seq<Element>, c: seq<Element>)
    ensures (a + b) + c == a + (b + c)
  {
  }

  function FillBuffer(t: Traveller): (r: Traveller)
    requires t.Valid()
    ensures r.Valid() && Remaining(r) == Remaining(t)
    ensures |r.buffer| == 0 ==> |Remaining(t)| == 0
  {
    FillFrom(t, BufferedChunksSize)
  }

  /** hasNext: refills an empty buffer, then reports whether any element is left. */
  function HasNext(t: Traveller): (r: (bool, Traveller))
    requires t.Valid()
    ensures r.1.Valid()
    ensures r.0 <==> |Remaining(t)| > 0
    ensures Remaining(r.1) == Remaining(t)
  {
    var t' := if |t.buffer| == 0 then FillBuffer(t) else t;
    (|t'.buffer| > 0, t')
  }

  /** getNext: hands out the next element of the document, or nothing once it is exhausted. */
  function GetNext(t: Traveller): (r: (Option<Element>, Traveller))
    requires t.Valid()
    ensures r.1.Valid()
    ensures |Remaining(t)| > 0 ==> r.0 == Some(Remaining(t)[0]) && Remaining(r.1) == Remaining(t)[1..]
    ensures |Remaining(t)| == 0 ==> r.0 == None && |Remaining(r.1)| == 0
  {
    var t' := if |t.buffer| == 0 then FillBuffer(t) else t;
    if |t'.buffer| > 0 then
      var t'' := Traveller(t'.document, t'.pos, t'.buffer[1..]);
      PopFront(t');
      (Some(t'.buffer[0]), t'')
    else
      (None, t')
  }

  lemma PopFront(t: Traveller)
    requires t.Valid() && |t.buffer| > 0
    ensures Remaining(t) == [t.buffer[0]] + Remaining(Traveller(t.document, t.pos, t.buffer[1..]))
  {
    AppendAssociates([t.buffer[0]], t.buffer[1..], DocumentElements(t.document, t.pos));
    assert t.buffer == [t.buffer[0]] + t.buffer[1..];
  }

  /** The document's elements reproduce the document with its whitespace removed. */
  lemma {:induction false} DocumentLossless(stream: string, pos: nat)
    requires pos <= |stream|
    ensures Flatten(DocumentElements(stream, pos)) == RemoveWhitespace(stream[pos..])
    decreases |stream| - pos
  {
    var (chunk, next) := GetNextChunk(stream, pos);
    ChunksLossless(stream, pos);
    if |chunk| > 0 {
      DocumentLossless(stream, next);
      FlattenAppend(SplitChunk(chunk), DocumentElements(stream, next));
      SplitLossless(chunk, 0);
      ChunksLossless(stream, next);
      assert Chunks(stream, pos) == [chunk] + Chunks(stream, next);
    }
  }

  lemma {:induction false} FlattenAppend(a: seq<Element>, b: seq<Element>)
    ensures Flatten(a + b) == Flatten(a) + Flatten(b)
    decreases |a|
  {
    if |a| == 0 {
      assert a + b == b;
    } else {
      assert (a + b)[1..] == a[1..] + b;
      FlattenAppend(a[1..], b);
    }
  }
}
