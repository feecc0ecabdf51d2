/**
 * `clean_filename` (app.py): turns an uploaded file's name into readable
 * text by dropping the extension, deleting parenthesised counters such as
 * `(35)`, turning `-` and `_` into spaces, collapsing whitespace and,
 * optionally, title-casing every word.
 */
module Filename {
  import opened Text

  predicate IsUpper(c: char) { 'A' <= c <= 'Z' }
  predicate IsLower(c: char) { 'a' <= c <= 'z' }

  /** A cased character in the sense of `str.title()`, restricted to ASCII. */
  predicate IsLetter(c: char) { IsUpper(c) || IsLower(c) }

  function ToUpper(c: char): (u: char)
    ensures IsLetter(u) == IsLetter(c) && !IsLower(u)
    ensures !IsLetter(c) ==> u == c
  {
    if IsLower(c) then (c as int - 32) as char else c
  }

  function ToLower(c: char): (l: char)
    ensures IsLetter(l) == IsLetter(c) && !IsUpper(l)
    ensures !IsLetter(c) ==> l == c
  {
    if IsUpper(c) then (c as int + 32) as char else c
  }

  /** No `(` is followed, anywhere later, by a `)`: no closed group is left. */
  predicate NoClosedGroup(s: string) {
    forall i, j :: 0 <= i < j < |s| && s[i] == '(' ==> s[j] != ')'
  }

  /**
   * `re.sub(r"\([^)]*\)", "", s)`: scanning left to right, a `(` that has a
   * `)` somewhere after it starts a match running to the first such `)`, and
   * the match is deleted; every other character is kept.
   */
  function RemoveParens(s: string): (r: string)
    ensures |r| <= |s|
    ensures forall i :: 0 <= i < |r| ==> r[i] in s
    ensures NoClosedGroup(r)
    decreases |s|
  {
    if s == [] then []
    else if s[0] == '(' && ')' in s[1..] then
      var close := IndexOf(s, ')');
      RemoveParens(s[close + 1..])
    else
      [s[0]] + RemoveParens(s[1..])
  }

  /** `s.replace("-", " ").replace("_", " ")`. */
  function ReplaceSeparators(s: string): (r: string)
    ensures |r| == |s|
    ensures '-' !in r && '_' !in r
    ensures forall i :: 0 <= i < |s| ==> r[i] == if s[i] == '-' || s[i] == '_' then ' ' else s[i]
  {
    seq(|s|, i requires 0 <= i < |s| => if s[i] == '-' || s[i] == '_' then ' ' else s[i])
  }

  /** Whether `str.title()` treats position `i` as following a cased character. */
  predicate AfterLetter(s: string, prevCased: bool, i: nat)
    requires i < |s|
  {
    if i == 0 then prevCased else IsLetter(s[i - 1])
  }

  /**
   * `str.title()` on ASCII, continuing after a character that was cased
   * (`prevCased`) or not: a letter that follows a letter is lower-cased,
   * any other letter is upper-cased, and nothing else changes.
   */
  function TitleFrom(s: string, prevCased: bool): (r: string)
    ensures |r| == |s|
    ensures forall i :: 0 <= i < |s| ==>
              r[i] == if AfterLetter(s, prevCased, i) then ToLower(s[i]) else ToUpper(s[i])
  {
    if s == [] then []
    else
      var c := if prevCased then ToLower(s[0]) else ToUpper(s[0]);
      [c] + TitleFrom(s[1..], IsLetter(c))
  }

  /**
   * `str.title()` on ASCII: the first letter of every run of letters is
   * upper-cased, the others are lower-cased, and nothing else changes.
   */
  function TitleCase(s: string): (r: string)
    ensures |r| == |s|
    ensures forall i :: 0 <= i < |s| ==>
              r[i] == if i > 0 && IsLetter(s[i - 1]) then ToLower(s[i]) else ToUpper(s[i])
  {
    TitleFrom(s, false)
  }

  /**
   * Lines 17-21 of `clean_filename`, applied to the name part
   * (`CleanFilenameNormalForm` states the form of the result).
   */
  function NormalizeName(namePart: string, titleCase: bool): string
  {
    var collapsed := Collapse(ReplaceSeparators(RemoveParens(namePart)));
    if titleCase then TitleCase(collapsed) else collapsed
  }

  /** `clean_filename(filename, title_case)`. */
  function CleanFilename(filename: string, titleCase: bool := true): string
  {
    NormalizeName(RsplitHead(filename, '.'), titleCase)
  }

  // ---------------------------------------------------------------------
  // Parenthesis removal
  // ---------------------------------------------------------------------

  /** A string without a closed group is a fixed point of the deletion pass. */
  lemma {:induction false} RemoveParensKeepsClean(s: string)
    requires NoClosedGroup(s)
    ensures RemoveParens(s) == s
    decreases |s|
  {
    if s != [] {
      if s[0] == '(' {
        assert ')' !in s[1..] by {
          forall j | 1 <= j < |s| ensures s[j] != ')' { }
        }
      }
      assert NoClosedGroup(s[1..]) by {
        forall i, j | 0 <= i < j < |s[1..]| && s[1..][i] == '(' ensures s[1..][j] != ')' {
          assert s[i + 1] == '(';
        }
      }
      assert RemoveParens(s) == [s[0]] + RemoveParens(s[1..]);
      RemoveParensKeepsClean(s[1..]);
      assert s == [s[0]] + s[1..];
    }
  }

  /** One deletion pass already removes every closed group. */
  lemma RemoveParensIdempotent(s: string)
    ensures RemoveParens(RemoveParens(s)) == RemoveParens(s)
  {
    RemoveParensKeepsClean(RemoveParens(s));
  }

  // ---------------------------------------------------------------------
  // Title-casing
  // ---------------------------------------------------------------------

  /** In a title-cased string an upper-case letter never directly follows a letter. */
  lemma TitleNoUpperAfterLetter(s: string, prevCased: bool)
    ensures var r := TitleFrom(s, prevCased);
            forall i :: 0 < i < |r| && IsUpper(r[i]) ==> !IsLetter(r[i - 1])
  {
    var r := TitleFrom(s, prevCased);
    forall i | 0 < i < |r| ensures IsUpper(r[i]) ==> !IsLetter(r[i - 1]) {
      assert IsLetter(r[i - 1]) == IsLetter(s[i - 1]);
    }
  }

  /** Hence `"GT"` is never a substring of a title-cased string. */
  lemma {:induction false} NoGtWithoutUpperAfterLetter(r: string)
    requires forall i :: 0 < i < |r| && IsUpper(r[i]) ==> !IsLetter(r[i - 1])
    ensures !Contains(r, "GT")
    decreases |r|
  {
    if r != [] {
      if |r| >= 2 {
        assert IsUpper(r[1]) ==> !IsLetter(r[0]);
      }
      assert !("GT" <= r);
      var t := r[1..];
      assert forall i :: 0 < i < |t| ==> t[i] == r[i + 1] && t[i - 1] == r[i];
      NoGtWithoutUpperAfterLetter(t);
    }
  }

  lemma TitleCaseNoGt(s: string)
    ensures !Contains(TitleCase(s), "GT")
  {
    TitleNoUpperAfterLetter(s, false);
    NoGtWithoutUpperAfterLetter(TitleCase(s));
  }

  /** Title-casing twice is title-casing once. */
  lemma TitleCaseIdempotent(s: string)
    ensures TitleCase(TitleCase(s)) == TitleCase(s)
  {
    var r := TitleCase(s);
    var rr := TitleCase(r);
    forall i | 0 <= i < |s| ensures rr[i] == r[i] {
      if i > 0 {
        assert IsLetter(r[i - 1]) == IsLetter(s[i - 1]);
      }
    }
  }

  /** Title-casing changes only letters and keeps every letter a letter. */
  lemma TitleCaseKeepsNonLetters(s: string)
    ensures var r := TitleCase(s);
            forall i :: 0 <= i < |s| ==> IsLetter(r[i]) == IsLetter(s[i]) && (!IsLetter(s[i]) ==> r[i] == s[i])
  {
  }

  // ---------------------------------------------------------------------
  // clean_filename
  // ---------------------------------------------------------------------

  /**
   * The normalised name has no `-` or `_`, no whitespace besides single
   * spaces between words, no space at either end, and no parenthesised
   * group left in it.
   */
  lemma CleanFilenameNormalForm(filename: string, titleCase: bool)
    ensures var name := CleanFilename(filename, titleCase);
            SingleSpaced(name) && '-' !in name && '_' !in name && NoClosedGroup(name)
  {
    var spaced := ReplaceSeparators(RemoveParens(RsplitHead(filename, '.')));
    var collapsed := Collapse(spaced);
    CollapseSingleSpaced(spaced);
    CollapseAvoids(spaced, '-');
    CollapseAvoids(spaced, '_');
    ReplaceSeparatorsKeepsNoClosedGroup(RemoveParens(RsplitHead(filename, '.')));
    CollapseKeepsNoClosedGroup(spaced);
    if titleCase {
      TitleCaseKeepsNormalForm(collapsed);
      TitleCaseKeepsNoClosedGroup(collapsed);
    }
  }

  /** Title-casing keeps a single-spaced name without separators that way. */
  lemma TitleCaseKeepsNormalForm(s: string)
    requires SingleSpaced(s) && '-' !in s && '_' !in s
    ensures var r := TitleCase(s);
            SingleSpaced(r) && '-' !in r && '_' !in r
  {
    var r := TitleCase(s);
    TitleCaseKeepsNonLetters(s);
    assert forall i :: 0 <= i < |s| ==> (IsWhitespace(r[i]) || r[i] == '-' || r[i] == '_') ==> r[i] == s[i];
  }

  /**
   * A join of two texts has no closed group exactly when neither part has
   * one and no `(` of the first part meets a `)` of the second.
   */
  lemma NoClosedGroupConcat(a: string, b: string)
    ensures NoClosedGroup(a + b) <==> NoClosedGroup(a) && NoClosedGroup(b) && !('(' in a && ')' in b)
  {
    var s := a + b;
    if NoClosedGroup(s) {
      forall i, j | 0 <= i < j < |a| && a[i] == '(' ensures a[j] != ')' {
        assert s[i] == a[i] && s[j] == a[j];
      }
      forall i, j | 0 <= i < j < |b| && b[i] == '(' ensures b[j] != ')' {
        assert s[|a| + i] == b[i] && s[|a| + j] == b[j];
      }
      forall i, j | 0 <= i < |a| && 0 <= j < |b| && a[i] == '(' ensures b[j] != ')' {
        assert s[i] == a[i] && s[|a| + j] == b[j];
      }
    }
    if NoClosedGroup(a) && NoClosedGroup(b) && !('(' in a && ')' in b) {
      forall i, j | 0 <= i < j < |s| && s[i] == '(' ensures s[j] != ')' {
        if j < |a| {
          assert a[i] == s[i] && a[j] == s[j];
        } else if i < |a| {
          assert a[i] == '(';
          assert s[j] == b[j - |a|];
        } else {
          assert b[i - |a|] == s[i] && b[j - |a|] == s[j];
        }
      }
    }
  }

  /** Replacing `-` and `_` leaves every parenthesis where it was. */
  lemma ReplaceSeparatorsKeepsNoClosedGroup(s: string)
    requires NoClosedGroup(s)
    ensures NoClosedGroup(ReplaceSeparators(s))
  {
    var r := ReplaceSeparators(s);
    forall i, j | 0 <= i < j < |r| && r[i] == '(' ensures r[j] != ')' {
      assert s[i] == '(';
    }
  }

  /** Collapsing whitespace keeps the words in order, so it creates no closed group. */
  lemma {:induction false} CollapseKeepsNoClosedGroup(s: string)
    requires NoClosedGroup(s)
    ensures NoClosedGroup(Collapse(s))
    decreases |s|
  {
    if s != [] {
      if IsWhitespace(s[0]) {
        assert s == s[..1] + s[1..];
        NoClosedGroupConcat(s[..1], s[1..]);
        CollapseKeepsNoClosedGroup(s[1..]);
      } else {
        var n := WordLength(s);
        var w, rest := s[..n], s[n..];
        assert s == w + rest;
        NoClosedGroupConcat(w, rest);
        CollapseKeepsNoClosedGroup(rest);
        assert Words(s) == [w] + Words(rest);
        if Words(rest) != [] {
          assert ([w] + Words(rest))[1..] == Words(rest);
          assert Collapse(s) == w + " " + Collapse(rest);
          NoClosedGroupConcat(w, " ");
          NoClosedGroupConcat(w + " ", Collapse(rest));
          if ')' in Collapse(rest) {
            if ')' !in rest {
              CollapseAvoids(rest, ')');
            }
          }
        }
      }
    }
  }

  /** Title-casing changes no parenthesis. */
  lemma TitleCaseKeepsNoClosedGroup(s: string)
    requires NoClosedGroup(s)
    ensures NoClosedGroup(TitleCase(s))
  {
    var r := TitleCase(s);
    TitleCaseKeepsNonLetters(s);
    forall i, j | 0 <= i < j < |r| && r[i] == '(' ensures r[j] != ')' {
      assert s[i] == '(';
    }
  }

  /** The `"GT"` test at app.py:58 can never succeed on a title-cased name. */
  lemma CleanFilenameNoGt(filename: string)
    ensures !Contains(CleanFilename(filename, true), "GT")
  {
    TitleCaseNoGt(Collapse(ReplaceSeparators(RemoveParens(RsplitHead(filename, '.')))));
  }

  /** Only the text after the last `.` is dropped; a name without `.` is kept whole. */
  lemma CleanFilenameDropsLastSegment(namePart: string, extension: string, titleCase: bool)
    requires '.' !in extension
    ensures CleanFilename(namePart + "." + extension, titleCase) == NormalizeName(namePart, titleCase)
    ensures '.' !in namePart ==> CleanFilename(namePart, titleCase) == NormalizeName(namePart, titleCase)
  {
    RsplitHeadOfJoin(namePart, '.', extension);
  }

  /** Characters before the first `(` pass through the deletion pass unchanged. */
  lemma {:induction false} RemoveParensKeepsPrefix(a: string, b: string)
    requires '(' !in a
    ensures RemoveParens(a + b) == a + RemoveParens(b)
    decreases |a|
  {
    if a == [] {
      assert a + b == b;
    } else {
      var s := a + b;
      assert s[0] == a[0] && s[1..] == a[1..] + b;
      RemoveParensStep(s);
      RemoveParensKeepsPrefix(a[1..], b);
      ConsAppend(a, RemoveParens(b));
    }
  }

  /** A first character other than `(` is kept. */
  lemma RemoveParensStep(s: string)
    requires s != [] && s[0] != '('
    ensures RemoveParens(s) == [s[0]] + RemoveParens(s[1..])
  {
  }

  /** `a + c` is the first character of `a`, then the rest of `a`, then `c`. */
  lemma ConsAppend(a: string, c: string)
    requires a != []
    ensures a + c == [a[0]] + (a[1..] + c)
  {
    assert a == [a[0]] + a[1..];
  }

  /** A group `(inner)` with no `)` inside is deleted together with its parentheses. */
  lemma RemoveParensDeletesGroup(inner: string, rest: string)
    requires ')' !in inner
    ensures RemoveParens("(" + inner + ")" + rest) == RemoveParens(rest)
  {
    var s := "(" + inner + ")" + rest;
    assert s[|inner| + 1] == ')';
    assert s[1..] == inner + ")" + rest;
    var close := IndexOf(s, ')');
    assert close == |inner| + 1 by {
      assert forall k :: 1 <= k < |inner| + 1 ==> s[k] == inner[k - 1];
    }
    assert s[close + 1..] == rest;
  }

  /**
   * `clean_filename` of a name of the shape `before(inner).ext`: everything
   * from the parenthesised group on is dropped and `before` is normalised.
   */
  lemma CleanFilenameOfCounted(before: string, inner: string, extension: string, titleCase: bool)
    requires '(' !in before && ')' !in inner && '.' !in extension
    ensures CleanFilename(before + "(" + inner + ")" + "." + extension, titleCase)
            == NormalizeName(before, titleCase)
  {
    var namePart := before + "(" + inner + ")";
    RsplitHeadOfJoin(namePart, '.', extension);
    assert namePart + "." + extension == before + "(" + inner + ")" + "." + extension;
    assert namePart == before + ("(" + inner + ")" + []);
    RemoveParensKeepsPrefix(before, "(" + inner + ")" + []);
    RemoveParensDeletesGroup(inner, []);
    assert RemoveParens(before) == before + RemoveParens([]) by {
      RemoveParensKeepsPrefix(before, []);
      assert before + [] == before;
    }
  }

  /** A title-casing fact checked character by character. */
  lemma TitleCaseAt(s: string, expected: string)
    requires |s| == |expected|
    requires forall i :: 0 <= i < |s| ==>
               expected[i] == if AfterLetter(s, false, i) then ToLower(s[i]) else ToUpper(s[i])
    ensures TitleCase(s) == expected
  {
  }
}
