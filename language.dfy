/** `guessLanguage`: a best-effort script and romanized-token check, in a fixed order. */
module Language {
  import opened Text

  datatype Language = Hindi | Hinglish | Punjabi | Other

  /** The string the source returns. */
  function LanguageName(l: Language): string {
    match l
    case Hindi => "hindi"
    case Hinglish => "hinglish"
    case Punjabi => "punjabi"
    case Other => "other"
  }

  /** The romanized tokens of the `\b(...)\b` alternation, in the order written. */
  const HinglishTokens: seq<string> :=
    ["bsdk", "bkl", "mc", "bc", "chutiya", "madarchod", "behenchod", "randi", "chod"]

  predicate IsDevanagari(c: char) { '\U{0900}' <= c <= '\U{097F}' }

  predicate IsGurmukhi(c: char) { '\U{0A00}' <= c <= '\U{0A7F}' }

  predicate WordCharAt(t: string, i: int) {
    0 <= i < |t| && IsWordChar(t[i])
  }

  /** `\b` at position `i`: a word character on exactly one side. */
  predicate WordBoundary(t: string, i: int) {
    WordCharAt(t, i - 1) != WordCharAt(t, i)
  }

  /** `\bw\b` matches at `p`. */
  predicate TokenAt(t: string, w: string, p: int) {
    WordBoundary(t, p) && IsAt(t, w, p) && WordBoundary(t, p + |w|)
  }

  predicate HasDevanagari(t: string) {
    exists i :: 0 <= i < |t| && IsDevanagari(t[i])
  }

  predicate HasGurmukhi(t: string) {
    exists i :: 0 <= i < |t| && IsGurmukhi(t[i])
  }

  /** The `\b(bsdk|bkl|...)\b` test: some token occurs between word boundaries. */
  predicate HasHinglishToken(t: string) {
    exists k, p :: 0 <= k < |HinglishTokens| && 0 <= p <= |t| && TokenAt(t, HinglishTokens[k], p)
  }

  /** `guessLanguage(text)`, on the lower-cased text. */
  function GuessLanguage(text: string): Language {
    var t := Lower(text);
    if HasDevanagari(t) then Hindi
    else if HasHinglishToken(t) then Hinglish
    else if HasGurmukhi(t) then Punjabi
    else Other
  }

  /**
   * The checks run in order, and lower-casing does not touch either script: Devanagari
   * anywhere in the text means hindi, whatever else occurs; hinglish needs a listed token
   * and no Devanagari; punjabi needs Gurmukhi and neither of the others; anything else is other.
   */
  lemma GuessLanguageOrder(text: string)
    ensures GuessLanguage(text) == Hindi <==> HasDevanagari(text)
    ensures GuessLanguage(text) == Hinglish <==> !HasDevanagari(text) && HasHinglishToken(Lower(text))
    ensures GuessLanguage(text) == Punjabi <==>
      !HasDevanagari(text) && !HasHinglishToken(Lower(text)) && HasGurmukhi(text)
    ensures GuessLanguage(text) == Other <==>
      !HasDevanagari(text) && !HasHinglishToken(Lower(text)) && !HasGurmukhi(text)
  {
    var t := Lower(text);
    LowerFacts(text);
    if HasDevanagari(text) {
      var i :| 0 <= i < |text| && IsDevanagari(text[i]);
      assert IsDevanagari(t[i]);
    }
    if HasDevanagari(t) {
      var i :| 0 <= i < |t| && IsDevanagari(t[i]);
      assert IsDevanagari(text[i]);
    }
    if HasGurmukhi(text) {
      var i :| 0 <= i < |text| && IsGurmukhi(text[i]);
      assert IsGurmukhi(t[i]);
    }
    if HasGurmukhi(t) {
      var i :| 0 <= i < |t| && IsGurmukhi(t[i]);
      assert IsGurmukhi(text[i]);
    }
  }

  /** The guess is taken on the lower-cased text, so the case of the input does not matter. */
  lemma GuessIgnoresCase(text: string)
    ensures GuessLanguage(Lower(text)) == GuessLanguage(text)
  {
    LowerFacts(text);
  }

  /** The language check uses `\b`, so digits and `_` are not boundaries: `mc2` is other, `MC!` is hinglish. */
  lemma TokenBoundaryExamples()
    ensures GuessLanguage("mc2") == Other
    ensures GuessLanguage("MC!") == Hinglish
  {
    var a := Lower("mc2");
    assert a == "mc2";
    forall k, p | 0 <= k < |HinglishTokens| && 0 <= p <= |a| ensures !TokenAt(a, HinglishTokens[k], p) {
      assert WordCharAt(a, 0) && WordCharAt(a, 1) && WordCharAt(a, 2);
    }
    GuessLanguageOrder("mc2");
    assert !HasDevanagari("mc2") && !HasGurmukhi("mc2");

    var b := Lower("MC!");
    assert b == "mc!";
    assert TokenAt(b, HinglishTokens[2], 0);
    assert !HasDevanagari(b);
  }
}
