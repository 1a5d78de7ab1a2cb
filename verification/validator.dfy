/**
  The word validator: a standalone filter for noise words. A valid word is
  non-empty, holds only alphanumerics and dots, and has at least one letter.
 */
module Validator {
  import opened Chars
  import Sanitizer

  /** Dots are neither legal nor illegal: validation looks past them. */
  predicate ShouldBeIgnoredInValidations(c: char) {
    c == '.'
  }

  predicate IsIllegal(c: char) {
    !IsAlnum(c) && !ShouldBeIgnoredInValidations(c)
  }

  /** containsIllegalSymbols: std::any_of over the word. */
  function ContainsIllegalSymbols(w: string): (r: bool)
    ensures r <==> exists k | 0 <= k < |w| :: IsIllegal(w[k])
  {
    if |w| == 0 then false
    else
      var rest := ContainsIllegalSymbols(w[1..]);
      assert forall k | 1 <= k < |w| :: w[k] == w[1..][k - 1];
      IsIllegal(w[0]) || rest
  }

  /** areAlphabeticalCharactersMissing: std::none_of(isalpha) over the word. */
  function AreAlphabeticalCharactersMissing(w: string): (r: bool)
    ensures r <==> forall k | 0 <= k < |w| :: !IsAlpha(w[k])
  {
    if |w| == 0 then true
    else
      var rest := AreAlphabeticalCharactersMissing(w[1..]);
      assert forall k | 1 <= k < |w| :: w[k] == w[1..][k - 1];
      !IsAlpha(w[0]) && rest
  }

  /** isValid: the three clauses, checked in the source's order. */
  function IsValid(w: string): (r: bool)
    ensures r <==>
      && |w| > 0
      && (forall k | 0 <= k < |w| :: IsAlnum(w[k]) || w[k] == '.')
      && (exists k | 0 <= k < |w| :: IsAlpha(w[k]))
  {
    if |w| == 0 then false
    else if ContainsIllegalSymbols(w) then false
    else if AreAlphabeticalCharactersMissing(w) then false
    else true
  }

  lemma PlainWordExample()
    ensures IsValid("hello")
  {
    assert IsAlpha("hello"[0]);
  }

  lemma ValidWordExamples()
    ensures IsValid("a.k.a")
    ensures IsValid("B2B")
  {
    assert IsAlpha("a.k.a"[0]);
    assert IsAlpha("B2B"[0]);
  }

  lemma EmptyWordExample()
    ensures !IsValid("")
  {
  }

  lemma IllegalSymbolExamples()
    ensures !IsValid("multiple words")
    ensures !IsValid("b@11sh1t")
  {
    assert IsIllegal("multiple words"[8]);
    assert IsIllegal("b@11sh1t"[1]);
  }

  /** Numbers, dotted or not, hold no letter and are rejected. */
  lemma NoLetterInvalid(w: string)
    requires forall k | 0 <= k < |w| :: IsDigit(w[k]) || w[k] == '.'
    ensures !IsValid(w)
  {
    assert forall k | 0 <= k < |w| :: !IsAlpha(w[k]);
  }

  lemma NumberExample(w: string)
    requires w == "0623141258"
    ensures !IsValid(w)
  {
    NoLetterInvalid(w);
  }

  lemma DottedNumberExample(w: string)
    requires w == "06.23.14.12.58"
    ensures !IsValid(w)
  {
    NoLetterInvalid(w);
  }

  /**
    Whatever the policy, a sanitized word passes validation exactly when it
    still holds a letter: sanitizing leaves only alphanumerics and dots.
   */
  lemma SanitizedWordValidity(s: Sanitizer.WordSanitizer, w: string)
    ensures var r := Sanitizer.Sanitize(s, w);
      IsValid(r) <==> exists k | 0 <= k < |r| :: IsAlpha(r[k])
  {
    var r := Sanitizer.Sanitize(s, w);
    assert forall k | 0 <= k < |r| :: !Sanitizer.IsUndesiredSymbol(s.policy, r[k]);
  }
}
