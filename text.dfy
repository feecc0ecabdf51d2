/**
 * Python string primitives used by the SEO pipeline, restated on `string`
 * (a sequence of Unicode scalar values, which is also what Python's `len`
 * counts): whitespace, `str.split()`, `sep.join(...)`, `str.strip()`,
 * the `in` substring test and `str.rsplit(sep, 1)[0]`.
 */
module Text {

  /** Python's `str.isspace()` character set, which `split()` and `strip()` use. */
  predicate IsWhitespace(c: char) {
    var n := c as int;
    (9 <= n <= 13) || (28 <= n <= 32) || n == 0x85 || n == 0xA0 || n == 0x1680 ||
    (0x2000 <= n <= 0x200A) || n == 0x2028 || n == 0x2029 || n == 0x202F ||
    n == 0x205F || n == 0x3000
  }

  /** No character of `s` is whitespace. */
  predicate NoWhitespace(s: string) {
    forall i :: 0 <= i < |s| ==> !IsWhitespace(s[i])
  }

  /** Every entry is a non-empty run free of whitespace: what `split()` produces. */
  predicate AreWords(ws: seq<string>) {
    forall i :: 0 <= i < |ws| ==> ws[i] != [] && NoWhitespace(ws[i])
  }

  /** `s` is free of whitespace except single interior spaces. */
  predicate SingleSpaced(s: string) {
    && (forall i :: 0 <= i < |s| && IsWhitespace(s[i]) ==> s[i] == ' ')
    && (|s| > 0 ==> s[0] != ' ' && s[|s| - 1] != ' ')
    && (forall i :: 0 <= i < |s| - 1 && s[i] == ' ' ==> s[i + 1] != ' ')
  }

  /** Length of the leading run of non-whitespace characters of `s`. */
  function WordLength(s: string): (n: nat)
    ensures n <= |s|
    ensures NoWhitespace(s[..n])
    ensures n < |s| ==> IsWhitespace(s[n])
  {
    if s == [] || IsWhitespace(s[0]) then 0 else 1 + WordLength(s[1..])
  }

  /** `s.split()`: the maximal whitespace-free runs of `s`, in order. */
  function Words(s: string): (ws: seq<string>)
    ensures AreWords(ws)
    decreases |s|
  {
    if s == [] then []
    else if IsWhitespace(s[0]) then Words(s[1..])
    else
      var n := WordLength(s);
      [s[..n]] + Words(s[n..])
  }

  /** The total length of the entries of `ws`. */
  function TotalLength(ws: seq<string>): nat
  {
    if ws == [] then 0 else |ws[0]| + TotalLength(ws[1..])
  }

  /**
   * `sep.join(ws)`: empty for no entries, otherwise it starts with the first
   * entry and holds every entry and one `sep` between each neighbouring pair.
   */
  function JoinWith(ws: seq<string>, sep: string): (r: string)
    ensures ws == [] ==> r == []
    ensures ws != [] ==> |ws[0]| <= |r| && r[..|ws[0]|] == ws[0]
    ensures ws != [] ==> |r| + |sep| == TotalLength(ws) + |ws| * |sep|
  {
    if ws == [] then []
    else if |ws| == 1 then ws[0]
    else ws[0] + sep + JoinWith(ws[1..], sep)
  }

  /**
   * `" ".join(s.split())`: whitespace runs collapsed to one space, ends
   * trimmed (`CollapseSingleSpaced`, `CollapseKeepsWords`).
   */
  function Collapse(s: string): string
  {
    JoinWith(Words(s), " ")
  }

  /** The number of whitespace characters `s` starts with. */
  function LeadingSpace(s: string): (n: nat)
    ensures n <= |s|
    ensures forall k :: 0 <= k < n ==> IsWhitespace(s[k])
    ensures n < |s| ==> !IsWhitespace(s[n])
  {
    if s != [] && IsWhitespace(s[0]) then 1 + LeadingSpace(s[1..]) else 0
  }

  /** The number of whitespace characters `s` ends with. */
  function TrailingSpace(s: string): (n: nat)
    ensures n <= |s|
    ensures forall k :: |s| - n <= k < |s| ==> IsWhitespace(s[k])
    ensures n < |s| ==> !IsWhitespace(s[|s| - 1 - n])
  {
    if s != [] && IsWhitespace(s[|s| - 1]) then 1 + TrailingSpace(s[..|s| - 1]) else 0
  }

  /** The leading-whitespace half of `strip()` (app.py:49): `s` without its leading whitespace. */
  function TrimStart(s: string): (r: string)
    ensures |r| <= |s| && r == s[|s| - |r|..]
    ensures r != [] ==> !IsWhitespace(r[0])
    ensures forall i :: 0 <= i < |s| - |r| ==> IsWhitespace(s[i])
  {
    s[LeadingSpace(s)..]
  }

  /** The trailing-whitespace half of `strip()` (app.py:49): `s` without its trailing whitespace. */
  function TrimEnd(s: string): (r: string)
    ensures |r| <= |s| && r == s[..|r|]
    ensures r != [] ==> !IsWhitespace(r[|r| - 1])
    ensures forall i :: |r| <= i < |s| ==> IsWhitespace(s[i])
  {
    s[..|s| - TrailingSpace(s)]
  }

  /**
   * `s.strip()`: `s` without its leading and trailing whitespace. The result
   * is a contiguous slice of `s`, everything around it is whitespace, and it
   * has no whitespace at either end; the interior is kept as it is.
   */
  function Strip(s: string): (r: string)
    ensures var n := LeadingSpace(s);
            && |r| <= |s| - n && r == s[n..n + |r|]
            && (forall k :: n + |r| <= k < |s| ==> IsWhitespace(s[k]))
            && (r != [] ==> !IsWhitespace(r[0]) && !IsWhitespace(r[|r| - 1]))
            && Words(r) == Words(s)
  {
    var t := TrimStart(s);
    WordsOfTrimStart(s);
    WordsOfTrimEnd(t);
    SliceOfSuffix(s, LeadingSpace(s), t, TrimEnd(t));
    TrimEnd(t)
  }

  /**
   * Python's `needle in s` for strings: `needle` occurs in `s` at some
   * index (`ContainsAt` and `Occurrence` give the two directions).
   */
  predicate Contains(s: string, needle: string)
    decreases |s|
  {
    needle <= s || (s != [] && Contains(s[1..], needle))
  }

  /** An index at which `needle` occurs in `s`, when it does. */
  function Occurrence(s: string, needle: string): (k: nat)
    requires Contains(s, needle)
    ensures k + |needle| <= |s| && s[k..k + |needle|] == needle
    decreases |s|
  {
    if needle <= s then 0
    else
      var k := Occurrence(s[1..], needle);
      assert s[1..][k..k + |needle|] == s[k + 1..k + 1 + |needle|];
      k + 1
  }

  /** First index of `x` in `s` (Python's `s.index(x)`). */
  function IndexOf<T(==)>(s: seq<T>, x: T): (k: nat)
    requires x in s
    ensures k < |s| && s[k] == x && x !in s[..k]
  {
    if s[0] == x then 0 else 1 + IndexOf(s[1..], x)
  }

  function Min(a: nat, b: nat): nat { if a <= b then a else b }

  /**
   * `s.rsplit(sep, 1)[0]`: the part of `s` before its last `sep`, or all of
   * `s` when `sep` does not occur.
   */
  function RsplitHead(s: string, sep: char): (r: string)
    ensures sep !in s ==> r == s
    ensures sep in s ==> |r| < |s| && r == s[..|r|] && s[|r|] == sep && sep !in s[|r| + 1..]
    decreases |s|
  {
    if s == [] then []
    else if s[|s| - 1] == sep then s[..|s| - 1]
    else if sep in s[..|s| - 1] then RsplitHead(s[..|s| - 1], sep)
    else s
  }

  // ---------------------------------------------------------------------
  // Lemmas
  // ---------------------------------------------------------------------

  /** An occurrence of `needle` at index `i` makes `needle in s` true. */
  lemma {:induction false} ContainsAt(s: string, needle: string, i: nat)
    requires i + |needle| <= |s| && s[i..i + |needle|] == needle
    ensures Contains(s, needle)
    decreases i
  {
    if i == 0 {
      assert s[..|needle|] == needle;
    } else {
      assert s[1..][i - 1..i - 1 + |needle|] == s[i..i + |needle|];
      ContainsAt(s[1..], needle, i - 1);
    }
  }

  /** Splitting off the last separator recovers the head: `(p + sep + tail).rsplit(sep, 1)[0] == p`. */
  lemma RsplitHeadOfJoin(p: string, sep: char, tail: string)
    requires sep !in tail
    ensures RsplitHead(p + [sep] + tail, sep) == p
  {
    var s := p + [sep] + tail;
    assert s[|p|] == sep;
    assert s[|p| + 1..] == tail;
    var r := RsplitHead(s, sep);
    assert r == s[..|p|];
  }

  /** Leading whitespace does not change the split. */
  lemma WordsOfTrimStart(s: string)
    ensures Words(TrimStart(s)) == Words(s)
  {
    var n := LeadingSpace(s);
    assert s == s[..n] + s[n..];
    WordsAfterWhitespace(s[..n], s[n..]);
  }

  /** Trailing whitespace does not change the split. */
  lemma WordsOfTrimEnd(s: string)
    ensures Words(TrimEnd(s)) == Words(s)
  {
    var r := TrimEnd(s);
    assert s == r + s[|r|..];
    WordsAppendWhitespace(r, s[|r|..]);
  }

  /** `(t + w).split() == t.split()` when `w` is all whitespace. */
  lemma {:induction false} WordsAppendWhitespace(t: string, w: string)
    requires forall i :: 0 <= i < |w| ==> IsWhitespace(w[i])
    ensures Words(t + w) == Words(t)
    decreases |t| + |w|
  {
    if t == [] {
      assert t + w == w;
      if w != [] {
        assert w[1..] == [] + w[1..];
        WordsAppendWhitespace([], w[1..]);
      }
    } else if IsWhitespace(t[0]) {
      assert (t + w)[1..] == t[1..] + w;
      WordsAppendWhitespace(t[1..], w);
    } else {
      var n := WordLength(t);
      assert t + w == t[..n] + (t[n..] + w);
      WordLengthOf(t[..n], t[n..] + w);
      assert (t + w)[..n] == t[..n] && (t + w)[n..] == t[n..] + w;
      WordsAppendWhitespace(t[n..], w);
    }
  }

  /** A prefix `r` of `s[n..]` followed there only by whitespace is a slice of `s` followed only by whitespace. */
  lemma SliceOfSuffix(s: string, n: nat, t: string, r: string)
    requires n <= |s| && t == s[n..] && |r| <= |t| && r == t[..|r|]
    requires forall i :: |r| <= i < |t| ==> IsWhitespace(t[i])
    ensures r == s[n..n + |r|]
    ensures forall k :: n + |r| <= k < |s| ==> IsWhitespace(s[k])
  {
    forall k | n + |r| <= k < |s|
      ensures IsWhitespace(s[k])
    {
      assert s[k] == t[k - n];
    }
  }

  /** `strip()` leaves a string without whitespace at its ends as it is. */
  lemma StripKeepsTrimmed(s: string)
    requires s != [] && !IsWhitespace(s[0]) && !IsWhitespace(s[|s| - 1])
    ensures Strip(s) == s
  {
    assert TrimStart(s) == s;
  }

  /** A character absent from every word is absent from their join unless the separator has it. */
  lemma {:induction false} JoinAvoids(ws: seq<string>, sep: string, c: char)
    requires c !in sep
    requires forall i :: 0 <= i < |ws| ==> c !in ws[i]
    ensures c !in JoinWith(ws, sep)
  {
    if |ws| > 1 {
      JoinAvoids(ws[1..], sep, c);
    }
  }

  /** Every word of `s` is made of characters of `s`. */
  lemma {:induction false} WordsAvoid(s: string, c: char)
    requires c !in s
    ensures forall i :: 0 <= i < |Words(s)| ==> c !in Words(s)[i]
    decreases |s|
  {
    if s == [] {
    } else if IsWhitespace(s[0]) {
      WordsAvoid(s[1..], c);
    } else {
      var n := WordLength(s);
      assert s[..n] + s[n..] == s;
      WordsAvoid(s[n..], c);
    }
  }

  /** A non-space character absent from `s` is absent from `Collapse(s)`. */
  lemma CollapseAvoids(s: string, c: char)
    requires c !in s && c != ' '
    ensures c !in Collapse(s)
  {
    WordsAvoid(s, c);
    JoinAvoids(Words(s), " ", c);
  }

  /** Joining whitespace-free non-empty words with single spaces gives a single-spaced string. */
  lemma {:induction false} JoinWordsSingleSpaced(ws: seq<string>)
    requires AreWords(ws)
    ensures SingleSpaced(JoinWith(ws, " "))
  {
    if |ws| > 1 {
      JoinWordsSingleSpaced(ws[1..]);
      var w, rest := ws[0], JoinWith(ws[1..], " ");
      var j := JoinWith(ws, " ");
      assert j == w + " " + rest;
      assert rest != [];
      forall i | 0 <= i < |j| ensures IsWhitespace(j[i]) ==> j[i] == ' ' {
        if i < |w| { assert j[i] == w[i]; } else if i > |w| { assert j[i] == rest[i - |w| - 1]; }
      }
      forall i | 0 <= i < |j| - 1 ensures j[i] == ' ' ==> j[i + 1] != ' ' {
        if i < |w| {
          assert j[i] == w[i];
        } else if i == |w| {
          assert j[i + 1] == rest[0];
        } else {
          assert j[i] == rest[i - |w| - 1] && j[i + 1] == rest[i - |w|];
        }
      }
      assert |w| + 1 < |j| && j[|w| + 1] == rest[0];
      assert j[|j| - 1] == rest[|rest| - 1];
      assert j[0] == w[0] && !IsWhitespace(w[0]);
    } else if |ws| == 1 {
      assert !IsWhitespace(ws[0][0]) && !IsWhitespace(ws[0][|ws[0]| - 1]);
    }
  }

  /** `" ".join(s.split())` never leaves leading, trailing, doubled or non-space whitespace. */
  lemma CollapseSingleSpaced(s: string)
    ensures SingleSpaced(Collapse(s))
  {
    JoinWordsSingleSpaced(Words(s));
  }

  /** Splitting a run that starts with a word. */
  lemma WordsOfWordThenRest(w: string, rest: string)
    requires w != [] && NoWhitespace(w)
    requires rest == [] || IsWhitespace(rest[0])
    ensures Words(w + rest) == [w] + Words(rest)
  {
    var s := w + rest;
    WordLengthOf(w, rest);
    assert s[..|w|] == w && s[|w|..] == rest;
  }

  lemma {:induction false} WordLengthOf(w: string, rest: string)
    requires NoWhitespace(w)
    requires rest == [] || IsWhitespace(rest[0])
    ensures WordLength(w + rest) == |w|
  {
    if w != [] {
      assert (w + rest)[1..] == w[1..] + rest;
      WordLengthOf(w[1..], rest);
    }
  }

  /** Round trip: splitting a single-space join gives back the words. */
  lemma {:induction false} WordsOfJoin(ws: seq<string>)
    requires AreWords(ws)
    ensures Words(JoinWith(ws, " ")) == ws
  {
    if |ws| == 1 {
      WordsOfWordThenRest(ws[0], []);
      assert ws[0] + [] == ws[0];
    } else if |ws| > 1 {
      var rest := JoinWith(ws[1..], " ");
      assert JoinWith(ws, " ") == ws[0] + (" " + rest);
      WordsOfWordThenRest(ws[0], " " + rest);
      assert (" " + rest)[1..] == rest;
      WordsOfJoin(ws[1..]);
    }
  }

  /** Collapsing whitespace keeps exactly the words of the text. */
  lemma CollapseKeepsWords(s: string)
    ensures Words(Collapse(s)) == Words(s)
  {
    WordsOfJoin(Words(s));
  }

  /** `" ".join(s.split())` is idempotent. */
  lemma CollapseIdempotent(s: string)
    ensures Collapse(Collapse(s)) == Collapse(s)
  {
    WordsOfJoin(Words(s));
  }

  /** Leading whitespace does not change the split: `(gap + b).split() == b.split()`. */
  lemma {:induction false} WordsAfterWhitespace(gap: string, b: string)
    requires forall i :: 0 <= i < |gap| ==> IsWhitespace(gap[i])
    ensures Words(gap + b) == Words(b)
  {
    if gap == [] {
      assert gap + b == b;
    } else {
      assert (gap + b)[1..] == gap[1..] + b;
      WordsAfterWhitespace(gap[1..], b);
    }
  }

  /** A whitespace gap separates the split of what is before it from the split of what follows. */
  lemma {:induction false} WordsAroundGap(a: string, gap: string, b: string)
    requires gap != [] && forall i :: 0 <= i < |gap| ==> IsWhitespace(gap[i])
    ensures Words(a + gap + b) == Words(a) + Words(b)
    decreases |a|
  {
    var s := a + gap + b;
    if a == [] {
      assert s == gap + b;
      WordsAfterWhitespace(gap, b);
    } else if IsWhitespace(a[0]) {
      assert s[1..] == a[1..] + gap + b;
      WordsAroundGap(a[1..], gap, b);
    } else {
      WordsAroundGapWord(a, gap, b);
    }
  }

  lemma {:induction false} WordsAroundGapWord(a: string, gap: string, b: string)
    requires gap != [] && forall i :: 0 <= i < |gap| ==> IsWhitespace(gap[i])
    requires a != [] && !IsWhitespace(a[0])
    ensures Words(a + gap + b) == Words(a) + Words(b)
    decreases |a|, 0
  {
    var n := WordLength(a);
    var w, r := a[..n], a[n..];
    assert a == w + r && a + gap + b == w + (r + gap + b);
    assert (r + gap + b)[0] == if r == [] then gap[0] else a[n];
    WordsOfWordThenRest(w, r + gap + b);
    WordsOfWordThenRest(w, r);
    WordsAroundGap(r, gap, b);
  }

  /** A single whitespace-free word splits to itself. */
  lemma WordsOfWord(w: string)
    requires w != [] && NoWhitespace(w)
    ensures Words(w) == [w]
  {
    WordsOfJoin([w]);
  }

  /**
   * A join grows at its end: one more entry adds `sep` and that entry after
   * the join so far. With the first-entry clause above this fixes the join
   * for every separator, entry by entry.
   */
  lemma {:induction false} JoinWithSnoc(ws: seq<string>, w: string, sep: string)
    ensures JoinWith(ws + [w], sep) == if ws == [] then w else JoinWith(ws, sep) + sep + w
    decreases |ws|
  {
    if ws == [] {
      assert ws + [w] == [w];
    } else if |ws| == 1 {
      assert (ws + [w])[1..] == [w];
    } else {
      assert (ws + [w])[1..] == ws[1..] + [w];
      JoinWithSnoc(ws[1..], w, sep);
    }
  }
}
