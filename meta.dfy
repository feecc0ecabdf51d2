/**
 * `adjust_meta_length` (app.py): shapes a meta description towards the
 * 150-160 character window. A text longer than the window is cut at the
 * last space inside the window and given an ellipsis; a shorter one is
 * padded with a fixed sentence and cut to the window's upper bound; a text
 * already inside the window is returned as it is.
 */
module Meta {
  import opened Text

  const DefaultMinLen: nat := 150
  const DefaultMaxLen: nat := 160

  /** The filler sentence appended to short descriptions (app.py:41). */
  const Padding: string :=
    " Designed with premium craftsmanship, cutting-edge materials, and luxury sports car performance."

  const Ellipsis: string := "..."

  /** `adjust_meta_length(text, min_len, max_len)`. */
  function AdjustMetaLength(text: string, minLen: nat := DefaultMinLen, maxLen: nat := DefaultMaxLen): (r: string)
    // Too long: the window's text up to its last space, then "...".
    ensures |text| > maxLen ==>
              && |Ellipsis| <= |r| <= maxLen + |Ellipsis|
              && r[|r| - |Ellipsis|..] == Ellipsis
              && var kept := r[..|r| - |Ellipsis|];
                 && kept == text[..|kept|]
                 && (' ' in text[..maxLen] ==> |kept| < maxLen && text[|kept|] == ' ' && ' ' !in text[|kept| + 1..maxLen])
                 && (' ' !in text[..maxLen] ==> kept == text[..maxLen])
    // Too short: text, then as much padding as fits under maxLen.
    ensures |text| < minLen && |text| <= maxLen ==>
              && |r| == Min(maxLen, |text| + |Padding|)
              && r == text + Padding[..|r| - |text|]
    ensures minLen <= |text| <= maxLen ==> r == text
    ensures |r| <= maxLen + |Ellipsis|
  {
    if |text| > maxLen then
      RsplitHead(text[..maxLen], ' ') + Ellipsis
    else if |text| < minLen then
      var padded := text + Padding;
      assert padded[..|text|] == text;
      padded[..Min(maxLen, |padded|)]
    else
      text
  }

  // ---------------------------------------------------------------------
  // Lemmas
  // ---------------------------------------------------------------------

  /** `n` copies of `c`. */
  function Repeat(c: char, n: nat): (s: string)
    ensures |s| == n && forall i :: 0 <= i < n ==> s[i] == c
  {
    if n == 0 then [] else [c] + Repeat(c, n - 1)
  }

  /**
   * Whatever the branch, the result never exceeds the upper bound by more
   * than the ellipsis, and a text of at most `maxLen` characters is never
   * cut below its own length.
   */
  lemma ShapedLengthBounds(text: string, minLen: nat, maxLen: nat)
    ensures |AdjustMetaLength(text, minLen, maxLen)| <= maxLen + |Ellipsis|
    ensures |text| <= maxLen ==> |text| <= |AdjustMetaLength(text, minLen, maxLen)| <= maxLen
  {
  }

  /**
   * Shaping is not idempotent: a 161-character text whose last space in the
   * window is at index 158 shapes to 161 characters, which shape again to 163.
   */
  lemma ShapingNotIdempotent()
    ensures var t := Repeat('a', 158) + " bb";
            AdjustMetaLength(AdjustMetaLength(t)) != AdjustMetaLength(t)
  {
    var t := Repeat('a', 158) + " bb";
    var w := t[..DefaultMaxLen];
    assert w[158] == ' ';
    var r1 := AdjustMetaLength(t);
    var kept1 := r1[..|r1| - 3];
    assert |kept1| == 158 by {
      assert forall i :: 0 <= i < 158 ==> w[i] == 'a';
      assert w[|kept1|] == ' ';
    }
    assert kept1 == Repeat('a', 158);
    assert r1 == Repeat('a', 158) + Ellipsis;
    assert ' ' !in r1[..DefaultMaxLen] by {
      assert forall i :: 0 <= i < DefaultMaxLen ==> r1[i] == 'a' || r1[i] == '.';
    }
    var r2 := AdjustMetaLength(r1);
    assert |r2| == 163;
  }
}
