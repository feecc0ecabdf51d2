/**
 * The part of `generate_keywords` (app.py) that runs after the NLP parser:
 * keep the multi-word noun phrases, strip them, drop repeats, put the brand
 * phrases derived from the file name in front, keep the first ten and join
 * them with `", "`. The parser itself is outside the model: its noun-chunk
 * texts are the input `chunkTexts`.
 */
module Keywords {
  import opened Text
  import opened Filename

  const MaxKeywords: nat := 10
  const Brand: string := "Audi"
  const ModelTag: string := "R8"
  const TrimTag: string := "GT"
  const CompositePhrase: string := "Audi R8 GT"
  const KeywordSeparator: string := ", "

  predicate Distinct<T(==)>(xs: seq<T>) {
    forall i, j :: 0 <= i < j < |xs| ==> xs[i] != xs[j]
  }

  /**
   * `[c.strip() for c in chunks if len(c.split()) > 1]`: the stripped texts
   * of the chunks with at least two words, in chunk order.
   */
  function KeptChunks(chunkTexts: seq<string>): (kept: seq<string>)
    ensures |kept| <= |chunkTexts|
    ensures forall k :: k in kept <==> exists c :: c in chunkTexts && |Words(c)| > 1 && k == Strip(c)
    ensures forall i :: 0 <= i < |kept| ==> |Words(kept[i])| > 1
  {
    if chunkTexts == [] then []
    else
      var c := chunkTexts[0];
      var rest := KeptChunks(chunkTexts[1..]);
      assert forall d :: d in chunkTexts <==> d == c || d in chunkTexts[1..];
      if |Words(c)| > 1 then [Strip(c)] + rest else rest
  }

  /**
   * `list(dict.fromkeys(xs))`: each value once, at the place where it first
   * occurs in `xs`.
   */
  function Dedupe(xs: seq<string>): (r: seq<string>)
    ensures Distinct(r)
    ensures forall x :: x in r <==> x in xs
    ensures |r| <= |xs|
  {
    if xs == [] then []
    else
      var init, x := xs[..|xs| - 1], xs[|xs| - 1];
      assert xs == init + [x];
      var d := Dedupe(init);
      if x in d then d else d + [x]
  }

  /** `xs.insert(i, x)` on a copy: `x` lands at `i`, or at the end when `i` is past it. */
  function Insert<T>(xs: seq<T>, i: nat, x: T): (r: seq<T>)
    ensures |r| == |xs| + 1
    ensures r[Min(i, |xs|)] == x
    ensures r[..Min(i, |xs|)] == xs[..Min(i, |xs|)] && r[Min(i, |xs|) + 1..] == xs[Min(i, |xs|)..]
  {
    var k := Min(i, |xs|);
    xs[..k] + [x] + xs[k..]
  }

  /** `xs[:n]`. */
  function Take<T>(xs: seq<T>, n: nat): (r: seq<T>)
    ensures |r| == Min(n, |xs|) && r == xs[..|r|]
  {
    xs[..Min(n, |xs|)]
  }

  /** The phrases the brand rule puts in front of the chunk keywords (app.py:56-59). */
  function BrandPhrases(baseName: string): (phrases: seq<string>)
    ensures Contains(baseName, Brand) <==> phrases != [] && phrases[0] == baseName
    ensures !Contains(baseName, Brand) ==> phrases == []
    ensures |phrases| <= 2
    ensures |phrases| == 2 <==>
              Contains(baseName, Brand) && Contains(baseName, ModelTag) && Contains(baseName, TrimTag)
    ensures |phrases| == 2 ==> phrases[1] == CompositePhrase
  {
    if Contains(baseName, Brand) then
      [baseName] + (if Contains(baseName, ModelTag) && Contains(baseName, TrimTag) then [CompositePhrase] else [])
    else []
  }

  /** The keyword list `generate_keywords` joins, as a value. */
  function KeywordList(chunkTexts: seq<string>, filename: string): (kws: seq<string>)
    ensures |kws| <= MaxKeywords
  {
    var chunks := Dedupe(KeptChunks(chunkTexts));
    Take(BrandPhrases(CleanFilename(filename, true)) + chunks, MaxKeywords)
  }

  /**
   * `generate_keywords(caption, filename)` once the caption has been parsed
   * into noun chunks: builds the list step by step as app.py:49-62 does,
   * including the two positional inserts.
   */
  method GenerateKeywords(chunkTexts: seq<string>, filename: string) returns (joined: string)
    ensures joined == JoinWith(KeywordList(chunkTexts, filename), KeywordSeparator)
  {
    var nounChunks := KeptChunks(chunkTexts);
    var keywords := Dedupe(nounChunks);
    ghost var chunks := keywords;
    var baseName := CleanFilename(filename, true);
    if Contains(baseName, Brand) {
      InsertAtFront(keywords, baseName);
      keywords := Insert(keywords, 0, baseName);
      if Contains(baseName, ModelTag) && Contains(baseName, TrimTag) {
        InsertSecond(baseName, CompositePhrase, chunks);
        keywords := Insert(keywords, 1, CompositePhrase);
        assert BrandPhrases(baseName) == [baseName, CompositePhrase];
      } else {
        assert BrandPhrases(baseName) == [baseName];
      }
    } else {
      assert BrandPhrases(baseName) + chunks == chunks;
    }
    assert keywords == BrandPhrases(baseName) + chunks;
    joined := JoinWith(Take(keywords, MaxKeywords), KeywordSeparator);
  }

  // ---------------------------------------------------------------------
  // Lemmas
  // ---------------------------------------------------------------------

  lemma InsertAtFront<T>(xs: seq<T>, x: T)
    ensures Insert(xs, 0, x) == [x] + xs
  {
  }

  lemma InsertSecond<T>(x: T, y: T, xs: seq<T>)
    ensures Insert([x] + xs, 1, y) == [x, y] + xs
  {
    assert ([x] + xs)[..1] == [x] && ([x] + xs)[1..] == xs;
  }

  lemma {:induction false} IndexOfInPrefix<T>(xs: seq<T>, m: nat, x: T)
    requires m <= |xs| && x in xs[..m]
    ensures x in xs && IndexOf(xs, x) == IndexOf(xs[..m], x)
  {
    if xs[0] != x {
      assert xs[1..][..m - 1] == xs[..m][1..];
      IndexOfInPrefix(xs[1..], m - 1, x);
    }
  }

  /** One chunk is kept, stripped, exactly when it has two or more words. */
  lemma KeptChunk(c: string)
    ensures KeptChunks([c]) == if |Words(c)| > 1 then [Strip(c)] else []
  {
    assert [c][1..] == [];
  }

  /**
   * The filter works chunk by chunk: the kept entries of two runs of chunks
   * are those of the first run followed by those of the second, so the
   * kept entries keep the parser's order and repeats.
   */
  lemma {:induction false} KeptChunksAppend(a: seq<string>, b: seq<string>)
    ensures KeptChunks(a + b) == KeptChunks(a) + KeptChunks(b)
  {
    if a == [] {
      assert a + b == b;
    } else {
      assert (a + b)[0] == a[0] && (a + b)[1..] == a[1..] + b;
      KeptChunksAppend(a[1..], b);
    }
  }

  /** Deduplication keeps values in the order of their first occurrence. */
  lemma {:induction false} DedupeFirstOccurrenceOrder(xs: seq<string>)
    ensures forall i, j :: 0 <= i < j < |Dedupe(xs)| ==> IndexOf(xs, Dedupe(xs)[i]) < IndexOf(xs, Dedupe(xs)[j])
    decreases |xs|
  {
    if xs != [] {
      var init, x := xs[..|xs| - 1], xs[|xs| - 1];
      assert xs[..|xs| - 1] == init;
      DedupeFirstOccurrenceOrder(init);
      var d := Dedupe(init);
      var r := Dedupe(xs);
      forall i | 0 <= i < |d| ensures IndexOf(xs, d[i]) == IndexOf(init, d[i]) < |init| {
        assert d[i] in init;
        IndexOfInPrefix(xs, |xs| - 1, d[i]);
      }
      if x in d {
        assert r == d;
      } else {
        assert r == d + [x];
        assert x !in init;
        assert IndexOf(xs, x) == |xs| - 1;
        forall i, j | 0 <= i < j < |r| ensures IndexOf(xs, r[i]) < IndexOf(xs, r[j]) {
          assert r[i] == d[i];
          if j < |d| { assert r[j] == d[j]; } else { assert r[j] == x; }
        }
      }
    }
  }

  /**
   * The keywords taken from the chunks (app.py:49-52) are distinct, come in
   * first-occurrence order, and are exactly the stripped texts of the chunks
   * that have two or more words.
   */
  lemma ChunkKeywords(chunkTexts: seq<string>)
    ensures Distinct(Dedupe(KeptChunks(chunkTexts)))
    ensures forall k :: k in Dedupe(KeptChunks(chunkTexts)) <==>
              exists c :: c in chunkTexts && |Words(c)| > 1 && k == Strip(c)
    ensures forall i, j :: 0 <= i < j < |Dedupe(KeptChunks(chunkTexts))| ==>
              IndexOf(KeptChunks(chunkTexts), Dedupe(KeptChunks(chunkTexts))[i])
              < IndexOf(KeptChunks(chunkTexts), Dedupe(KeptChunks(chunkTexts))[j])
  {
    DedupeFirstOccurrenceOrder(KeptChunks(chunkTexts));
  }

  /** With "Audi" in the title-cased base name, that name is the first keyword. */
  lemma BrandNameFirst(chunkTexts: seq<string>, filename: string)
    requires Contains(CleanFilename(filename, true), Brand)
    ensures var kws := KeywordList(chunkTexts, filename);
            kws != [] && kws[0] == CleanFilename(filename, true)
  {
  }

  /** Without "Audi" in it, the keywords are the first ten deduplicated chunks. */
  lemma NoBrandOnlyChunks(chunkTexts: seq<string>, filename: string)
    requires !Contains(CleanFilename(filename, true), Brand)
    ensures KeywordList(chunkTexts, filename) == Take(Dedupe(KeptChunks(chunkTexts)), MaxKeywords)
  {
    var chunks := Dedupe(KeptChunks(chunkTexts));
    assert BrandPhrases(CleanFilename(filename, true)) + chunks == chunks;
  }

  /**
   * The `"Audi R8 GT"` insertion (app.py:58-59) never happens: the base name
   * is title-cased, so it never contains `"GT"`. The composite phrase can
   * appear only when the caption produced it as a chunk.
   */
  lemma CompositeNeverInserted(chunkTexts: seq<string>, filename: string)
    ensures var b := CleanFilename(filename, true);
            var chunks := Dedupe(KeptChunks(chunkTexts));
            KeywordList(chunkTexts, filename) == Take((if Contains(b, Brand) then [b] else []) + chunks, MaxKeywords)
    ensures CompositePhrase in KeywordList(chunkTexts, filename) ==> CompositePhrase in KeptChunks(chunkTexts)
  {
    var b := CleanFilename(filename, true);
    var chunks := Dedupe(KeptChunks(chunkTexts));
    var phrases := if Contains(b, Brand) then [b] else [];
    assert BrandPhrases(b) == phrases by {
      CleanFilenameNoGt(filename);
    }
    var kws := Take(phrases + chunks, MaxKeywords);
    assert KeywordList(chunkTexts, filename) == kws;
    if CompositePhrase in kws {
      assert CompositePhrase in phrases + chunks;
      assert CompositePhrase !in phrases by {
        CleanFilenameNoGt(filename);
        CompositeHasTrimTag();
      }
    }
  }

  /** `"GT" in "Audi R8 GT"`. */
  lemma CompositeHasTrimTag()
    ensures Contains(CompositePhrase, TrimTag)
  {
    assert "GT" <= CompositePhrase[8..];
    assert Contains(CompositePhrase[8..], TrimTag);
    ContainsSuffix(CompositePhrase, 8, TrimTag);
  }

  lemma {:induction false} ContainsSuffix(s: string, k: nat, needle: string)
    requires k <= |s| && Contains(s[k..], needle)
    ensures Contains(s, needle)
    decreases k
  {
    if k > 0 {
      assert s[1..][k - 1..] == s[k..];
      ContainsSuffix(s[1..], k - 1, needle);
    }
  }
}
