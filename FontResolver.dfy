/**
  CustomFontResolver.ResolveTypeface (MathGen/CustomFontResolver.cs): picks
  the Courier font file for a family name and the bold/italic flags. The
  family name is compared with "Courier" ignoring case; any other family
  falls back to the regular Courier file. The FontResolverInfo it returns is
  represented by the face name it carries.
*/
module FontResolver {

  const Regular: string := "cour.ttf"
  const Bold: string := "courbd.ttf"
  const Italic: string := "couri.ttf"
  const BoldItalic: string := "courbi.ttf"

  /** Upper-casing of the ASCII letters, as ordinal case-insensitive comparison applies it. */
  function UpperAscii(c: char): char
  {
    if 'a' <= c <= 'z' then (c as int - 32) as char else c
  }

  /** Each character upper-cased, as ordinal case-insensitive comparison does before comparing. */
  function ToUpper(s: string): string
  {
    seq(|s|, k requires 0 <= k < |s| => UpperAscii(s[k]))
  }

  /** string.Equals(x, y, StringComparison.OrdinalIgnoreCase), for ASCII case: equal once both are upper-cased. */
  predicate EqualsIgnoreCase(x: string, y: string)
    ensures EqualsIgnoreCase(x, y) <==> ToUpper(x) == ToUpper(y)
  {
    UpperPointwise(x, y);
    |x| == |y| && forall k :: 0 <= k < |x| ==> UpperAscii(x[k]) == UpperAscii(y[k])
  }

  /** Equal upper-cased strings agree character by character after upper-casing. */
  lemma UpperPointwise(x: string, y: string)
    ensures ToUpper(x) == ToUpper(y) ==>
              |x| == |y| && forall k :: 0 <= k < |x| ==> UpperAscii(x[k]) == UpperAscii(y[k])
  {
    if ToUpper(x) == ToUpper(y) {
      forall k | 0 <= k < |x|
        ensures UpperAscii(x[k]) == UpperAscii(y[k])
      {
        assert ToUpper(x)[k] == ToUpper(y)[k];
      }
    }
  }

  predicate IsCourier(familyName: string)
  {
    EqualsIgnoreCase(familyName, "Courier")
  }

  /** The face name for the family and style; always one of the four Courier files. */
  function ResolveTypeface(familyName: string, isBold: bool, isItalic: bool): (faceName: string)
    ensures faceName in {Regular, Bold, Italic, BoldItalic}
  {
    if IsCourier(familyName) then
      if isBold && isItalic then BoldItalic
      else if isBold then Bold
      else if isItalic then Italic
      else Regular
    else
      Regular
  }

  /** The style a Courier file name stands for, as (bold, italic). */
  function StyleOf(faceName: string): (bool, bool)
  {
    (faceName == Bold || faceName == BoldItalic, faceName == Italic || faceName == BoldItalic)
  }

  /** For Courier the file name records both flags: the style can be read back from it. */
  lemma CourierStyleRoundTrip(familyName: string, isBold: bool, isItalic: bool)
    requires IsCourier(familyName)
    ensures StyleOf(ResolveTypeface(familyName, isBold, isItalic)) == (isBold, isItalic)
  {
  }

  /** The four styles of Courier get four different files. */
  lemma CourierStylesDistinct(familyName: string, b1: bool, i1: bool, b2: bool, i2: bool)
    requires IsCourier(familyName)
    requires (b1, i1) != (b2, i2)
    ensures ResolveTypeface(familyName, b1, i1) != ResolveTypeface(familyName, b2, i2)
  {
    CourierStyleRoundTrip(familyName, b1, i1);
    CourierStyleRoundTrip(familyName, b2, i2);
  }

  /** Any other family gets the regular Courier file, whatever the flags. */
  lemma OtherFamilyIsRegular(familyName: string, isBold: bool, isItalic: bool)
    requires !IsCourier(familyName)
    ensures ResolveTypeface(familyName, isBold, isItalic) == Regular
  {
  }

  /** Two family names equal up to case resolve alike. */
  lemma CaseInsensitiveFamily(f1: string, f2: string, isBold: bool, isItalic: bool)
    requires EqualsIgnoreCase(f1, f2)
    ensures ResolveTypeface(f1, isBold, isItalic) == ResolveTypeface(f2, isBold, isItalic)
  {
    if IsCourier(f1) {
      assert forall k :: 0 <= k < |f2| ==> UpperAscii(f2[k]) == UpperAscii(f1[k]);
    }
  }

  /** "courier" and "COURIER" are Courier; "Courier New" is not. */
  lemma CourierSpellings()
    ensures IsCourier("courier") && IsCourier("COURIER") && IsCourier("Courier")
    ensures !IsCourier("Courier New")
  {
    assert UpperAscii('c') == 'C' && UpperAscii('o') == 'O' && UpperAscii('u') == 'U';
    assert UpperAscii('r') == 'R' && UpperAscii('i') == 'I' && UpperAscii('e') == 'E';
  }
}
