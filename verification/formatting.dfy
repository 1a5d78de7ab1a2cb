/**
  The three printable columns of a concordance line: an 8-wide index label,
  a 20-wide word column and the "{count:s1,s2,...}" occurrence list.
 */
module Formatting {
  import opened Concordances
  import opened Wrappers

  const MaximumPrintableWordSize: nat := 20
  const MaximumPrintableIndexSize: nat := 8

  /** Decimal digits, as std::to_string writes them. */
  predicate IsDigitChar(c: char) {
    '0' <= c <= '9'
  }

  function DigitChar(d: nat): (c: char)
    requires d < 10
    ensures IsDigitChar(c) && c as int - '0' as int == d
  {
    (48 + d) as char
  }

  function DigitValue(c: char): nat
    requires IsDigitChar(c)
  {
    c as int - '0' as int
  }

  /** std::to_string of an unsigned number: its decimal digits, without leading zeros. */
  function NatToString(n: nat): (r: string)
    ensures |r| > 0
    ensures forall k | 0 <= k < |r| :: IsDigitChar(r[k])
    ensures r[0] == '0' ==> n == 0 && r == "0"
  {
    if n < 10 then [DigitChar(n)] else NatToString(n / 10) + [DigitChar(n % 10)]
  }

  /** The value a string of decimal digits denotes. */
  function ParseDecimal(s: string): nat
    requires forall k | 0 <= k < |s| :: IsDigitChar(s[k])
  {
    if |s| == 0 then 0 else ParseDecimal(s[..|s| - 1]) * 10 + DigitValue(s[|s| - 1])
  }

  /** Reading the digits back gives the number: to_string loses nothing. */
  lemma {:induction false} DecimalRoundTrip(n: nat)
    ensures ParseDecimal(NatToString(n)) == n
    decreases n
  {
    if n >= 10 {
      DecimalRoundTrip(n / 10);
      var s := NatToString(n);
      assert s[..|s| - 1] == NatToString(n / 10);
    }
  }

  /** Distinct numbers print differently. */
  lemma DecimalInjective(a: nat, b: nat)
    requires NatToString(a) == NatToString(b)
    ensures a == b
  {
    DecimalRoundTrip(a);
    DecimalRoundTrip(b);
  }

  function Spaces(n: nat): (r: string)
    ensures |r| == n && forall k | 0 <= k < n :: r[k] == ' '
  {
    seq(n, _ => ' ')
  }

  /** truncate: overwrites the last three characters with dots. */
  function Truncate(w: string): (r: string)
    requires |w| >= 3
    ensures |r| == |w|
    ensures r[..|w| - 3] == w[..|w| - 3]
    ensures r[|w| - 3..] == "..."
  {
    w[..|w| - 3] + "..."
  }

  /** fillWithTrailingWhitespace: appends `quantity` spaces. */
  function FillWithTrailingWhitespace(w: string, quantity: nat): (r: string)
    ensures |r| == |w| + quantity
    ensures r[..|w|] == w
    ensures forall k | |w| <= k < |r| :: r[k] == ' '
  {
    w + Spaces(quantity)
  }

  /**
    makePrintable(word): the word column, always 20 wide. A word that fits
    is kept and padded with spaces; a longer word keeps its first 17
    characters and ends in "...".
   */
  function WordColumn(w: string): (r: string)
    ensures |r| == MaximumPrintableWordSize
    ensures |w| <= MaximumPrintableWordSize ==> r[..|w|] == w && forall k | |w| <= k < |r| :: r[k] == ' '
    ensures |w| > MaximumPrintableWordSize ==> r[..17] == w[..17] && r[17..] == "..."
  {
    var printableSize := if |w| > MaximumPrintableWordSize then MaximumPrintableWordSize else |w|;
    var printable := w[..printableSize];
    if |w| > |printable| then Truncate(printable)
    else if |printable| < MaximumPrintableWordSize then
      FillWithTrailingWhitespace(printable, MaximumPrintableWordSize - |printable|)
    else printable
  }

  /** Drops the spaces that end a string. */
  function TrimTrailingSpaces(s: string): (r: string)
    ensures |r| <= |s| && r == s[..|r|]
    ensures forall k | |r| <= k < |s| :: s[k] == ' '
    ensures |r| == 0 || r[|r| - 1] != ' '
  {
    if |s| == 0 || s[|s| - 1] != ' ' then s else TrimTrailingSpaces(s[..|s| - 1])
  }

  /**
    A word that fits the column and does not itself end in a space is
    recovered from its column by trimming the padding.
   */
  lemma WordColumnRoundTrip(w: string)
    requires |w| <= MaximumPrintableWordSize
    requires |w| == 0 || w[|w| - 1] != ' '
    ensures TrimTrailingSpaces(WordColumn(w)) == w
  {
  }

  /** Two columns of fitting words are equal only for equal words. */
  lemma WordColumnInjective(a: string, b: string)
    requires |a| <= MaximumPrintableWordSize && (|a| == 0 || a[|a| - 1] != ' ')
    requires |b| <= MaximumPrintableWordSize && (|b| == 0 || b[|b| - 1] != ' ')
    requires WordColumn(a) == WordColumn(b)
    ensures a == b
  {
    WordColumnRoundTrip(a);
    WordColumnRoundTrip(b);
  }

  lemma ShortWordExample(w: string)
    requires w == "all"
    ensures WordColumn(w) == "all                 "
  {
  }

  lemma FullWidthWordExample(w: string)
    requires w == "averydummylaargeword"
    ensures WordColumn(w) == "averydummylaargeword"
  {
  }

  lemma LongWordExample(w: string)
    requires w == "averydummylargewordthatexceedslimit"
    ensures WordColumn(w) == "averydummylargewo..."
  {
    assert w[..20][..17] == "averydummylargewo";
  }

  /**
    convertWordIndexToEnglishLetters: index 1 is 'a', 26 is 'z', 27 starts
    the second cycle of the alphabet. The source's index is unsigned, and
    index 0 would wrap around, so an index of at least 1 is required.
   */
  function ConvertWordIndexToEnglishLetters(index: WordIndex): (r: (char, nat))
    requires index >= 1
    ensures 'a' <= r.0 <= 'z' && r.1 >= 1
    ensures (r.1 - 1) * 26 + (r.0 as int - 'a' as int) + 1 == index
  {
    var zeroBased := index - 1;
    ((97 + zeroBased % 26) as char, zeroBased / 26 + 1)
  }

  /** The letter and the cycle count determine the index: the conversion is invertible. */
  lemma ConvertInjective(i: WordIndex, j: WordIndex)
    requires i >= 1 && j >= 1
    requires ConvertWordIndexToEnglishLetters(i) == ConvertWordIndexToEnglishLetters(j)
    ensures i == j
  {
  }

  /** joinLettersOfConvertedIndex: the letter, `quantity` times. */
  function JoinLettersOfConvertedIndex(letter: char, quantity: nat): (r: string)
    ensures |r| == quantity && forall k | 0 <= k < quantity :: r[k] == letter
  {
    seq(quantity, _ => letter)
  }

  /**
    makePrintable(index): the index label, always 8 wide. Up to seven
    repetitions of the letter fit before the dot; any later index prints as
    the "#######." sentinel.
   */
  function IndexLabel(index: WordIndex): (r: string)
    requires index >= 1
    ensures |r| == MaximumPrintableIndexSize
  {
    var (letter, quantity) := ConvertWordIndexToEnglishLetters(index);
    var printable := if quantity + 1 > MaximumPrintableIndexSize then "#######."
      else JoinLettersOfConvertedIndex(letter, quantity) + ".";
    if |printable| < MaximumPrintableIndexSize then
      FillWithTrailingWhitespace(printable, MaximumPrintableIndexSize - |printable|)
    else printable
  }

  /** Indices 1 to 182 get a label of their own; every later index shares the sentinel. */
  const LastLabelledIndex: nat := 7 * 26

  /**
    Reads an index back from its label: the letter names the position in the
    alphabet and the number of letters before the dot names the cycle.
    The sentinel and anything that is not a label reads as None.
   */
  function DecodeIndexLabel(text: string): Option<WordIndex> {
    var q := CountLeading(text, if |text| > 0 then text[0] else '#');
    if |text| == 0 || !('a' <= text[0] <= 'z') || q == |text| || text[q] != '.' then None
    else Some((q - 1) * 26 + (text[0] as int - 'a' as int) + 1)
  }

  /** The length of the run of `c` that starts the string. */
  function CountLeading(s: string, c: char): (n: nat)
    ensures n <= |s|
    ensures forall k | 0 <= k < n :: s[k] == c
    ensures n < |s| ==> s[n] != c
  {
    if |s| == 0 || s[0] != c then 0 else 1 + CountLeading(s[1..], c)
  }

  /** Every index up to 182 is read back from its label; every later one prints the sentinel. */
  lemma IndexLabelRoundTrip(index: WordIndex)
    requires index >= 1
    ensures index <= LastLabelledIndex ==> DecodeIndexLabel(IndexLabel(index)) == Some(index)
    ensures index > LastLabelledIndex ==> IndexLabel(index) == "#######."
    ensures index <= LastLabelledIndex ==>
      var q := ConvertWordIndexToEnglishLetters(index).1;
      q < MaximumPrintableIndexSize && IndexLabel(index)[q + 1..] == Spaces(MaximumPrintableIndexSize - q - 1)
  {
    var (letter, quantity) := ConvertWordIndexToEnglishLetters(index);
    var text := IndexLabel(index);
    if index <= LastLabelledIndex {
      assert quantity <= 7;
      assert text[..quantity] == JoinLettersOfConvertedIndex(letter, quantity);
      assert text[quantity] == '.';
      assert CountLeading(text, letter) == quantity by {
        CountLeadingOfRun(text, letter, quantity);
      }
    }
  }

  lemma CountLeadingOfRun(s: string, c: char, n: nat)
    requires n < |s| && s[n] != c
    requires forall k | 0 <= k < n :: s[k] == c
    ensures CountLeading(s, c) == n
  {
  }

  /** Distinct indices up to 182 have distinct labels. */
  lemma IndexLabelInjective(i: WordIndex, j: WordIndex)
    requires 1 <= i <= LastLabelledIndex && 1 <= j <= LastLabelledIndex
    requires IndexLabel(i) == IndexLabel(j)
    ensures i == j
  {
    IndexLabelRoundTrip(i);
    IndexLabelRoundTrip(j);
  }

  lemma FirstCycleExamples()
    ensures IndexLabel(1) == "a.      "
    ensures IndexLabel(2) == "b.      "
  {
  }

  lemma FirstCycleEndExample()
    ensures IndexLabel(26) == "z.      "
  {
  }

  lemma SecondCycleExamples()
    ensures IndexLabel(27) == "aa.     "
    ensures IndexLabel(28) == "bb.     "
  {
  }

  lemma SecondCycleEndExamples()
    ensures IndexLabel(29) == "cc.     "
    ensures IndexLabel(52) == "zz.     "
  {
  }

  lemma ThirdCycleExample()
    ensures IndexLabel(53) == "aaa.    "
  {
  }

  lemma SentinelExample()
    ensures IndexLabel(1258796214524) == "#######."
  {
    IndexLabelRoundTrip(1258796214524);
  }

  /** The loop of makePrintable(occurrences) before the last character is overwritten: every number followed by a comma. */
  function CommaTerminated(o: Occurrences): (r: string)
    ensures |o| == 0 <==> |r| == 0
    ensures |r| > 0 ==> r[|r| - 1] == ','
  {
    if |o| == 0 then "" else NatToString(o[0]) + "," + CommaTerminated(o[1..])
  }

  /** The numbers, separated by commas. */
  function JoinWithCommas(o: Occurrences): string {
    if |o| == 0 then ""
    else if |o| == 1 then NatToString(o[0])
    else NatToString(o[0]) + "," + JoinWithCommas(o[1..])
  }

  lemma {:induction false} CommaTerminatedIsJoin(o: Occurrences)
    requires |o| > 0
    ensures CommaTerminated(o) == JoinWithCommas(o) + ","
    decreases |o|
  {
    if |o| > 1 {
      CommaTerminatedIsJoin(o[1..]);
    }
  }

  /**
    makePrintable(occurrences): "{", the count, ":", the numbers in stored
    order separated by commas, "}". The closing brace overwrites the last
    character written, so an empty list prints as "{0}".
   */
  function OccurrencesColumn(o: Occurrences): (r: string)
    ensures |o| == 0 ==> r == "{0}"
    ensures |o| > 0 ==> r == "{" + NatToString(|o|) + ":" + JoinWithCommas(o) + "}"
  {
    var printable := "{" + NatToString(|o|) + ":" + CommaTerminated(o);
    var r := printable[|printable| - 1 := '}'];
    if |o| > 0 then CommaTerminatedIsJoin(o); r else r
  }

  /** The position of the first comma, or the length when there is none. */
  function FirstComma(s: string): (i: nat)
    ensures i <= |s|
    ensures forall k | 0 <= k < i :: s[k] != ','
    ensures i < |s| ==> s[i] == ','
  {
    if |s| == 0 || s[0] == ',' then 0 else 1 + FirstComma(s[1..])
  }

  predicate AllDigits(s: string) {
    forall k | 0 <= k < |s| :: IsDigitChar(s[k])
  }

  /** Splits a comma-separated list of decimal numbers; None if a field is not a number. */
  function ParseNumbers(s: string): Option<Occurrences>
    decreases |s|
  {
    var i := FirstComma(s);
    if !AllDigits(s[..i]) then None
    else if i == |s| then Some([ParseDecimal(s)])
    else
      match ParseNumbers(s[i + 1..])
      case None => None
      case Some(rest) => Some([ParseDecimal(s[..i])] + rest)
  }

  /** Splitting a non-empty joined list at its commas gives back the numbers: the list part of the column is lossless. */
  lemma {:induction false} JoinRoundTrip(o: Occurrences)
    requires |o| > 0
    ensures ParseNumbers(JoinWithCommas(o)) == Some(o)
    decreases |o|
  {
    var head := NatToString(o[0]);
    DecimalRoundTrip(o[0]);
    if |o| == 1 {
      ParseSingle(head);
      assert o == [o[0]];
    } else {
      JoinRoundTrip(o[1..]);
      ParseCons(head, JoinWithCommas(o[1..]), o[1..]);
      assert [o[0]] + o[1..] == o;
    }
  }

  /** A lone field of digits parses to its value. */
  lemma ParseSingle(head: string)
    requires AllDigits(head)
    ensures ParseNumbers(head) == Some([ParseDecimal(head)])
  {
    NoCommaInDigits(head);
    assert head[..|head|] == head;
  }

  /** A field of digits before a comma parses to its value, followed by what the rest parses to. */
  lemma ParseCons(head: string, rest: string, tail: Occurrences)
    requires AllDigits(head) && ParseNumbers(rest) == Some(tail)
    ensures ParseNumbers(head + "," + rest) == Some([ParseDecimal(head)] + tail)
  {
    var s := head + "," + rest;
    NoCommaInDigits(head);
    FirstCommaAfter(head, rest);
    assert s[..|head|] == head;
    assert s[|head| + 1..] == rest;
  }

  lemma NoCommaInDigits(s: string)
    requires AllDigits(s)
    ensures FirstComma(s) == |s|
  {
  }

  lemma {:induction false} FirstCommaAfter(head: string, rest: string)
    requires FirstComma(head) == |head|
    ensures FirstComma(head + "," + rest) == |head|
    decreases |head|
  {
    var s := head + "," + rest;
    if |head| > 0 {
      assert head[0] != ',';
      assert FirstComma(head[1..]) == |head| - 1;
      FirstCommaAfter(head[1..], rest);
      assert s[1..] == head[1..] + "," + rest;
    }
  }

  lemma SingleOccurrenceExample(o: Occurrences)
    requires o == [1]
    ensures OccurrencesColumn(o) == "{1:1}"
  {
  }

  lemma ThreeOccurrencesExample(o: Occurrences)
    requires o == [1, 3, 4]
    ensures OccurrencesColumn(o) == "{3:1,3,4}"
  {
    assert JoinWithCommas(o[2..]) == "4";
    assert JoinWithCommas(o[1..]) == "3,4";
  }

  lemma NoOccurrencesExample(o: Occurrences)
    requires o == []
    ensures OccurrencesColumn(o) == "{0}"
  {
  }
}
