/** Normalisation of free-text notch descriptions to one of the five notch
    classes of the catalog (services.py:15-19): `strip()`, then `title()`,
    then "None" for anything outside the five classes. */
module Notch {
  import opened PyText

  /** The wildcard notch class: a device without a cutout. */
  const NoNotch: string := "None"

  const ValidNotchTypes: set<string> := {"None", "Punch-hole", "Waterdrop", "Notch", "Full"}

  /** `normalize_notch_type` (services.py:17-19). */
  function NormalizeNotchType(notch: string): (r: string)
    ensures r in ValidNotchTypes
  {
    var t := Title(Strip(notch));
    if t in ValidNotchTypes then t else NoNotch
  }

  /** `title()` keeps a hyphen and capitalises the letter after it, so no
      input can title-case to "Punch-hole". */
  lemma TitleNeverPunchHole(s: string)
    ensures Title(s) != "Punch-hole"
  {
    if |s| == 10 && Title(s)[5] == '-' {
      assert TitleAt(s, 5) == '-';
      assert !IsLetter(s[5]);
      assert Title(s)[6] == TitleAt(s, 6);
      assert Title(s)[6] != 'h';
      assert "Punch-hole"[6] == 'h';
    }
  }

  /** The "Punch-hole" class is listed as valid but never produced. */
  lemma NormalizeNeverPunchHole(notch: string)
    ensures NormalizeNotchType(notch) != "Punch-hole"
  {
    TitleNeverPunchHole(Strip(notch));
  }

  /** A capitalised word without blanks normalises to itself when it is a
      notch class. */
  lemma NormalizeWord(v: string)
    requires v in ValidNotchTypes
    requires IsUpper(v[0]) && forall i :: 1 <= i < |v| ==> IsLower(v[i])
    ensures NormalizeNotchType(v) == v
  {
    StripUnchanged(v);
    TitleOfWord(v);
  }

  /** Every class except "Punch-hole" is a fixed point of the normalisation. */
  lemma NormalizeFixesOutputs(v: string)
    requires v in ValidNotchTypes - {"Punch-hole"}
    ensures NormalizeNotchType(v) == v
  {
    if v == "None" {
      NormalizeWord("None");
    } else if v == "Waterdrop" {
      NormalizeWord("Waterdrop");
    } else if v == "Notch" {
      NormalizeWord("Notch");
    } else {
      NormalizeWord("Full");
    }
  }

  /** Normalising twice is normalising once. */
  lemma NormalizeIdempotent(notch: string)
    ensures NormalizeNotchType(NormalizeNotchType(notch)) == NormalizeNotchType(notch)
  {
    var r := NormalizeNotchType(notch);
    NormalizeNeverPunchHole(notch);
    assert r in ValidNotchTypes - {"Punch-hole"};
    NormalizeFixesOutputs(r);
  }

  /** Blanks around a notch description do not change its class. */
  lemma NormalizeIgnoresBlanks(w1: string, notch: string, w2: string)
    requires AllSpace(w1) && AllSpace(w2)
    ensures NormalizeNotchType(w1 + notch + w2) == NormalizeNotchType(notch)
  {
    StripIgnoresBlanks(w1, notch, w2);
  }

  /** The class of a notch description does not depend on letter case. */
  lemma NormalizeIgnoresCase(a: string, b: string)
    requires SameUpToCase(a, b)
    ensures NormalizeNotchType(a) == NormalizeNotchType(b)
  {
    TrimStartUpToCase(a, b);
    TrimEndUpToCase(TrimStart(a), TrimStart(b));
    TitleUpToCase(Strip(a), Strip(b));
  }

  /** An upper-case spelling finds its class. */
  lemma NormalizeUpperCaseExample()
    ensures NormalizeNotchType("NOTCH") == "Notch"
  {
    var upper, word := "NOTCH", "Notch";
    assert SameUpToCase(upper, word) by {
      assert |upper| == |word| == 5;
      assert ToLower(upper[0]) == ToLower(word[0]) == 'n';
      assert ToLower(upper[1]) == ToLower(word[1]) == 'o';
      assert ToLower(upper[2]) == ToLower(word[2]) == 't';
      assert ToLower(upper[3]) == ToLower(word[3]) == 'c';
      assert ToLower(upper[4]) == ToLower(word[4]) == 'h';
    }
    NormalizeCaseOfWord(upper, word);
  }

  /** A case variant of a capitalised class normalises to that class. */
  lemma NormalizeCaseOfWord(x: string, w: string)
    requires SameUpToCase(x, w) && w in ValidNotchTypes
    requires IsUpper(w[0]) && forall i :: 1 <= i < |w| ==> IsLower(w[i])
    ensures NormalizeNotchType(x) == w
  {
    NormalizeIgnoresCase(x, w);
    NormalizeWord(w);
  }

  /** The spelling the class list itself uses normalises to the wildcard. */
  lemma NormalizePunchHoleIsNone()
    ensures NormalizeNotchType("Punch-hole") == NoNotch
  {
    var s := "Punch-hole";
    assert |s| == 10 && s[0] == 'P' && s[9] == 'e';
    StripUnchanged(s);
    NormalizeTenCharacters(s);
  }

  /** Every description of ten characters after stripping, "Punch-hole"
      included, normalises to "None": "Punch-hole" is the only class of that
      length and `title()` never produces it. */
  lemma NormalizeTenCharacters(notch: string)
    requires |Strip(notch)| == 10
    ensures NormalizeNotchType(notch) == NoNotch
  {
    var t := Title(Strip(notch));
    TitleNeverPunchHole(Strip(notch));
    assert t !in ValidNotchTypes;
  }
}
