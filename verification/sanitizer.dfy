/**
  The word sanitizer: lowercases a word and strips the characters its
  symbol-handling policy does not want.

  The C++ code holds the policy as a pointer to one of two process-wide
  strategy singletons; here the policy is an enum carried by the sanitizer
  value.
 */
module Sanitizer {
  import opened Chars

  /** AllSymbolsRemover keeps alphanumerics only; AbbreviationsKeeper keeps dots too. */
  datatype Policy = RemoveAllSymbols | KeepAbbreviations

  datatype WordSanitizer = WordSanitizer(policy: Policy)

  /** A new sanitizer removes every non-alphanumeric character. */
  function NewWordSanitizer(): (s: WordSanitizer)
    ensures s.policy == RemoveAllSymbols
  {
    WordSanitizer(RemoveAllSymbols)
  }

  /** Switches to abbreviation handling; no operation switches back. */
  function SetAbbreviationSanitization(s: WordSanitizer): (r: WordSanitizer)
    ensures r.policy == KeepAbbreviations
  {
    WordSanitizer(KeepAbbreviations)
  }

  /** toLowercase: lowers every ASCII capital, leaves every other character in place. */
  function ToLowercase(w: string): (r: string)
    ensures |r| == |w|
    ensures forall k | 0 <= k < |r| :: !IsUpper(r[k])
    ensures forall k | 0 <= k < |r| :: r[k] == ToLower(w[k])
  {
    seq(|w|, k requires 0 <= k < |w| => ToLower(w[k]))
  }

  predicate IsDot(c: char) {
    c == '.'
  }

  /** isUndesiredSymbol of the two strategies. */
  predicate IsUndesiredSymbol(p: Policy, c: char) {
    match p
    case RemoveAllSymbols => !IsAlnum(c)
    case KeepAbbreviations => !IsAlnum(c) && !IsDot(c)
  }

  predicate AllDesired(p: Policy, w: string) {
    forall k | 0 <= k < |w| :: !IsUndesiredSymbol(p, w[k])
  }

  /** std::copy_if of the desired characters: keeps exactly those, in their order. */
  function KeepDesired(p: Policy, w: string): (r: string)
    ensures |r| <= |w|
    ensures AllDesired(p, r)
    ensures AllDesired(p, w) ==> r == w
    ensures forall c :: c in r <==> c in w && !IsUndesiredSymbol(p, c)
  {
    if |w| == 0 then []
    else
      var tail := KeepDesired(p, w[1..]);
      assert w == [w[0]] + w[1..];
      if IsUndesiredSymbol(p, w[0]) then tail else [w[0]] + tail
  }

  /** countTraillingDots: the length of the run of dots that ends the word. */
  function CountTrailingDots(w: string): (r: nat)
    ensures r <= |w|
    ensures forall k | |w| - r <= k < |w| :: w[k] == '.'
    ensures r < |w| ==> w[|w| - r - 1] != '.'
  {
    if |w| == 0 || w[|w| - 1] != '.' then 0 else 1 + CountTrailingDots(w[..|w| - 1])
  }

  /** removeExcessiveDots: cuts a trailing run of two or more dots down to one. */
  function RemoveExcessiveDots(w: string): (r: string)
    ensures CountTrailingDots(w) <= 1 ==> r == w
    ensures CountTrailingDots(w) >= 2 ==> r == w[..|w| - CountTrailingDots(w) + 1]
    ensures CountTrailingDots(r) == if CountTrailingDots(w) <= 1 then CountTrailingDots(w) else 1
    ensures |r| <= |w| && r == w[..|r|]
  {
    var dots := CountTrailingDots(w);
    if dots <= 1 then w
    else
      var r := w[..|w| - dots + 1];
      TrailingDotsOfPrefix(w, r);
      r
  }

  lemma TrailingDotsOfPrefix(w: string, r: string)
    requires CountTrailingDots(w) >= 2
    requires r == w[..|w| - CountTrailingDots(w) + 1]
    ensures CountTrailingDots(r) == 1
  {
    var dots := CountTrailingDots(w);
    var head := w[..|w| - dots];
    assert r[|r| - 1] == w[|w| - dots] == '.';
    assert r[..|r| - 1] == head;
    assert |head| == 0 || head[|head| - 1] != '.';
    assert CountTrailingDots(head) == 0;
  }

  /**
    removeUndesiredSymbols: the base strategy rebuilds the word only when
    some character is undesired; the abbreviation strategy then trims the
    trailing dots.
   */
  function RemoveUndesiredSymbols(p: Policy, w: string): string {
    var kept := if exists k | 0 <= k < |w| :: IsUndesiredSymbol(p, w[k]) then KeepDesired(p, w) else w;
    match p
    case RemoveAllSymbols => kept
    case KeepAbbreviations => RemoveExcessiveDots(kept)
  }

  /** Rebuilding only when needed makes no difference: the word is filtered either way. */
  lemma RemoveUndesiredIsFilter(p: Policy, w: string)
    ensures RemoveUndesiredSymbols(p, w)
      == if p == RemoveAllSymbols then KeepDesired(p, w) else RemoveExcessiveDots(KeepDesired(p, w))
  {
    if !exists k | 0 <= k < |w| :: IsUndesiredSymbol(p, w[k]) {
      assert AllDesired(p, w);
    }
  }

  predicate LowerCase(w: string) {
    forall k | 0 <= k < |w| :: !IsUpper(w[k])
  }

  lemma {:induction false} KeepDesiredLower(p: Policy, w: string)
    requires LowerCase(w)
    ensures LowerCase(KeepDesired(p, w))
    decreases |w|
  {
    if |w| > 0 {
      KeepDesiredLower(p, w[1..]);
    }
  }

  lemma PrefixKeeps(p: Policy, x: string, n: nat)
    requires n <= |x|
    ensures AllDesired(p, x) ==> AllDesired(p, x[..n])
    ensures LowerCase(x) ==> LowerCase(x[..n])
  {
  }

  /**
    sanitize: a new, lowercased word holding only the characters the active
    policy allows; under the abbreviation policy it ends in at most one dot.
   */
  function Sanitize(s: WordSanitizer, w: string): (r: string)
    ensures |r| <= |w|
    ensures LowerCase(r)
    ensures AllDesired(s.policy, r)
    ensures s.policy == RemoveAllSymbols ==> r == KeepDesired(RemoveAllSymbols, ToLowercase(w))
    ensures s.policy == KeepAbbreviations ==> CountTrailingDots(r) <= 1
  {
    var lowered := ToLowercase(w);
    var kept := KeepDesired(s.policy, lowered);
    RemoveUndesiredIsFilter(s.policy, lowered);
    KeepDesiredLower(s.policy, lowered);
    PrefixKeeps(s.policy, kept, |RemoveExcessiveDots(kept)|);
    RemoveUndesiredSymbols(s.policy, lowered)
  }

  /** Filtering preserves order: it commutes with concatenation. */
  lemma {:induction false} KeepDesiredAppend(p: Policy, a: string, b: string)
    ensures KeepDesired(p, a + b) == KeepDesired(p, a) + KeepDesired(p, b)
    decreases |a|
  {
    if |a| == 0 {
      assert a + b == b;
    } else {
      assert (a + b)[1..] == a[1..] + b;
      KeepDesiredAppend(p, a[1..], b);
    }
  }

  /**
    Under the abbreviation policy the result is the lowercased word with
    everything but alphanumerics and dots removed, its trailing dots cut to one.
   */
  lemma SanitizeAbbreviation(s: WordSanitizer, w: string)
    requires s.policy == KeepAbbreviations
    ensures Sanitize(s, w) == RemoveExcessiveDots(KeepDesired(KeepAbbreviations, ToLowercase(w)))
  {
  }

  lemma LowercaseOfLower(w: string)
    requires forall k | 0 <= k < |w| :: !IsUpper(w[k])
    ensures ToLowercase(w) == w
  {
  }

  /** Sanitizing an already sanitized word changes nothing, under either policy. */
  lemma SanitizeIdempotent(s: WordSanitizer, w: string)
    ensures Sanitize(s, Sanitize(s, w)) == Sanitize(s, w)
  {
    var r := Sanitize(s, w);
    LowercaseOfLower(r);
    assert !exists k | 0 <= k < |r| :: IsUndesiredSymbol(s.policy, r[k]);
    assert RemoveUndesiredSymbols(s.policy, r) == r;
  }

  /** A default sanitizer returns the lowercased word with the undesired characters filtered out. */
  lemma DefaultSanitizes(w: string, lowered: string, kept: string)
    requires ToLowercase(w) == lowered
    requires KeepDesired(RemoveAllSymbols, lowered) == kept
    ensures Sanitize(NewWordSanitizer(), w) == kept
  {
  }

  lemma CapitalizationExample(w: string)
    requires w == "C4I"
    ensures Sanitize(NewWordSanitizer(), w) == "c4i"
  {
    var lowered := ToLowercase(w);
    assert lowered == "c4i" by {
      assert lowered[0] == 'c' && lowered[1] == '4' && lowered[2] == 'i';
    }
    assert AllDesired(RemoveAllSymbols, "c4i");
    DefaultSanitizes(w, "c4i", "c4i");
  }

  lemma RandomCapitalsExample(w: string)
    requires w == "UppercaseRandoM"
    ensures Sanitize(NewWordSanitizer(), w) == "uppercaserandom"
  {
    var lowered := ToLowercase(w);
    assert lowered == "uppercaserandom" by {
      assert lowered[0] == 'u' && lowered[1] == 'p' && lowered[2] == 'p' && lowered[3] == 'e' && lowered[4] == 'r';
      assert lowered[5] == 'c' && lowered[6] == 'a' && lowered[7] == 's' && lowered[8] == 'e' && lowered[9] == 'r';
      assert lowered[10] == 'a' && lowered[11] == 'n' && lowered[12] == 'd' && lowered[13] == 'o' && lowered[14] == 'm';
    }
    assert AllDesired(RemoveAllSymbols, "uppercaserandom");
    DefaultSanitizes(w, "uppercaserandom", "uppercaserandom");
  }

  /** A letter or digit followed by a dot keeps only the letter or digit. */
  lemma KeepBeforeDot(c: char)
    requires IsAlnum(c)
    ensures KeepDesired(RemoveAllSymbols, [c, '.']) == [c]
  {
    assert [c, '.'][1..] == ['.'];
  }

  /** A default sanitizer drops dots: "B.2.B." becomes "b2b". */
  lemma DefaultDropsDotsExample(w: string)
    requires w == "B.2.B."
    ensures Sanitize(NewWordSanitizer(), w) == "b2b"
  {
    var lowered := ToLowercase(w);
    assert lowered == ['b', '.'] + ['2', '.'] + ['b', '.'] by {
      assert lowered[0] == 'b' && lowered[1] == '.' && lowered[2] == '2';
      assert lowered[3] == '.' && lowered[4] == 'b' && lowered[5] == '.';
    }
    KeepDesiredAppend(RemoveAllSymbols, ['b', '.'] + ['2', '.'], ['b', '.']);
    KeepDesiredAppend(RemoveAllSymbols, ['b', '.'], ['2', '.']);
    KeepBeforeDot('b');
    KeepBeforeDot('2');
    assert ['b'] + ['2'] + ['b'] == "b2b";
    DefaultSanitizes(w, lowered, "b2b");
  }

  /** After setAbbreviationSanitization the dots of "B.2.B." survive. */
  lemma AbbreviationKeepsDotsExample()
    ensures Sanitize(SetAbbreviationSanitization(NewWordSanitizer()), "B.2.B.") == "b.2.b."
  {
    var lowered := ToLowercase("B.2.B.");
    assert lowered == "b.2.b.";
    assert AllDesired(KeepAbbreviations, lowered);
    assert CountTrailingDots("b.2.b.") == 1;
  }

  /** A trailing double dot is cut to one: "a.g.." becomes "a.g.". */
  lemma TrailingDotsExample()
    ensures Sanitize(SetAbbreviationSanitization(NewWordSanitizer()), "a.g..") == "a.g."
  {
    var lowered := ToLowercase("a.g..");
    assert lowered == "a.g..";
    assert AllDesired(KeepAbbreviations, lowered);
    assert CountTrailingDots("a.g.") == 1;
    assert CountTrailingDots("a.g..") == 2;
    assert "a.g.."[..4] == "a.g.";
  }
}
