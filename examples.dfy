/**
 * Worked examples of the pipeline on concrete file names and captions.
 * Each is assembled from the general lemmas; the small step lemmas take
 * their strings as parameters so that the verifier reasons about the
 * step rather than unfolding whole literals.
 */
module Examples {
  import opened Text
  import opened Filename
  import opened Meta
  import opened Keywords
  import opened Seo

  // ---------------------------------------------------------------------
  // Word splitting steps
  // ---------------------------------------------------------------------

  /** Two words separated, and followed, by whitespace. */
  lemma TwoWordsSpaced(s: string, a: string, gap: string, b: string, tail: string)
    requires a != [] && NoWhitespace(a) && b != [] && NoWhitespace(b)
    requires gap != [] && forall i :: 0 <= i < |gap| ==> IsWhitespace(gap[i])
    requires forall i :: 0 <= i < |tail| ==> IsWhitespace(tail[i])
    requires s == a + gap + (b + tail)
    ensures Words(s) == [a, b]
  {
    WordsAroundGap(a, gap, b + tail);
    WordsAppendWhitespace(b, tail);
    WordsOfWord(a);
    WordsOfWord(b);
  }

  /** Three words separated by single spaces, with whitespace after them. */
  lemma ThreeWordsSpaced(s: string, a: string, b: string, c: string, tail: string)
    requires a != [] && NoWhitespace(a) && b != [] && NoWhitespace(b) && c != [] && NoWhitespace(c)
    requires forall i :: 0 <= i < |tail| ==> IsWhitespace(tail[i])
    requires s == a + " " + (b + " " + (c + tail))
    ensures Words(s) == [a, b, c]
  {
    WordsAroundGap(a, " ", b + " " + (c + tail));
    TwoWordsSpaced(b + " " + (c + tail), b, " ", c, tail);
    WordsOfWord(a);
  }

  /**
   * The normalisation of a name part without `(`, given its steps: the
   * separators replaced, the words split off and joined again, and the
   * optional title-casing.
   */
  lemma NormalizeSteps(before: string, spaced: string, ws: seq<string>, collapsed: string,
                       titleCase: bool, result: string)
    requires '(' !in before
    requires ReplaceSeparators(before) == spaced
    requires Words(spaced) == ws && JoinWith(ws, " ") == collapsed
    requires result == if titleCase then TitleCase(collapsed) else collapsed
    ensures NormalizeName(before, titleCase) == result
  {
    RemoveParensKeepsPrefix(before, []);
    assert before + [] == before;
  }

  // ---------------------------------------------------------------------
  // clean_filename
  // ---------------------------------------------------------------------

  /** Title-casing a literal is kept out of the larger proof. */
  lemma AudiR8Titled(s: string)
    requires s == "Audi R8"
    ensures TitleCase(s) == s
  {
    TitleCaseAt(s, s);
  }

  lemma AudiR8Normalized(before: string, name: string)
    requires before == "Audi-R8_" && name == "Audi R8"
    ensures NormalizeName(before, true) == name
  {
    var spaced, a, b := "Audi R8 ", "Audi", "R8";
    assert '(' !in before && ReplaceSeparators(before) == spaced;
    assert Words(spaced) == [a, b] && JoinWith([a, b], " ") == name by {
      TwoWordsSpaced(spaced, a, " ", b, " ");
    }
    AudiR8Titled(name);
    NormalizeSteps(before, spaced, [a, b], name, true, name);
  }

  /** The pieces of a literal file name are kept out of the larger proof. */
  lemma AudiR8File(filename: string)
    requires filename == "Audi-R8_(35).jpg"
    ensures filename == filename[..8] + "(" + filename[9..11] + ")" + "." + filename[13..]
    ensures '(' !in filename[..8] && ')' !in filename[9..11] && '.' !in filename[13..]
    ensures filename[..8] == "Audi-R8_"
  {
  }

  /** `clean_filename("Audi-R8_(35).jpg")` is `"Audi R8"`. */
  lemma ExampleAudiR8(filename: string, name: string)
    requires filename == "Audi-R8_(35).jpg" && name == "Audi R8"
    ensures CleanFilename(filename) == name
  {
    AudiR8File(filename);
    var before, inner, extension := filename[..8], filename[9..11], filename[13..];
    CleanFilenameOfCounted(before, inner, extension, true);
    AudiR8Normalized(before, name);
  }

  /** Splitting a literal with wider gaps is kept out of the larger proof. */
  lemma MyCarWords(rest: string, a: string, b: string, name: string)
    requires rest == "my  car    " && a == "my" && b == "car" && name == "my car"
    ensures Words(rest) == [a, b] && JoinWith([a, b], " ") == name
  {
    TwoWordsSpaced(rest, a, "  ", b, "    ");
  }

  lemma MyCarNormalized(before: string, name: string)
    requires before == "  my__car -- " && name == "my car"
    ensures NormalizeName(before, false) == name
  {
    var spaced, gap, rest := "  my  car    ", "  ", "my  car    ";
    var a, b := "my", "car";
    assert '(' !in before && ReplaceSeparators(before) == spaced;
    assert spaced == gap + rest;
    WordsAfterWhitespace(gap, rest);
    MyCarWords(rest, a, b, name);
    NormalizeSteps(before, spaced, [a, b], name, false, name);
  }

  /** Without title-casing, `"  my__car -- (v2).png"` cleans to `"my car"`. */
  lemma ExampleMyCar(filename: string, name: string)
    requires filename == "  my__car -- (v2).png" && name == "my car"
    ensures CleanFilename(filename, false) == name
  {
    var before, inner, extension := filename[..13], filename[14..16], filename[18..];
    assert CleanFilename(filename, false) == NormalizeName(before, false) by {
      assert filename == before + "(" + inner + ")" + "." + extension;
      CleanFilenameOfCounted(before, inner, extension, false);
    }
    assert NormalizeName(before, false) == name by {
      MyCarNormalized(before, name);
    }
  }

  lemma AudiGtWords(spaced: string, a: string, b: string, c: string, collapsed: string)
    requires spaced == "audi r8 gt " && a == "audi" && b == "r8" && c == "gt"
    requires collapsed == "audi r8 gt"
    ensures Words(spaced) == [a, b, c] && JoinWith([a, b, c], " ") == collapsed
  {
    ThreeWordsSpaced(spaced, a, b, c, " ");
    assert [a, b, c][1..] == [b, c] && [b, c][1..] == [c];
    assert JoinWith([b, c], " ") == b + " " + c;
    assert JoinWith([a, b, c], " ") == a + " " + (b + " " + c);
  }

  /** Replacing the separators of a literal is kept out of the larger proof. */
  lemma AudiGtSpaced(before: string, spaced: string)
    requires before == "audi-r8-gt-" && spaced == "audi r8 gt "
    ensures '(' !in before && ReplaceSeparators(before) == spaced
  {
  }

  /** Title-casing a literal is kept out of the larger proof. */
  lemma AudiGtTitled(collapsed: string, titled: string)
    requires collapsed == "audi r8 gt" && titled == "Audi R8 Gt"
    ensures TitleCase(collapsed) == titled
  {
    TitleCaseAt(collapsed, titled);
  }

  /**
   * `clean_filename("audi-r8-gt-(2).jpg")` is `"Audi R8 Gt"`: title-casing
   * turns the trim tag into `"Gt"`.
   */
  lemma ExampleAudiGt(filename: string, name: string)
    requires filename == "audi-r8-gt-(2).jpg" && name == "Audi R8 Gt"
    ensures CleanFilename(filename) == name
  {
    var before, inner, extension := filename[..11], filename[12..13], filename[15..];
    assert CleanFilename(filename) == NormalizeName(before, true) by {
      assert filename == before + "(" + inner + ")" + "." + extension;
      CleanFilenameOfCounted(before, inner, extension, true);
    }
    assert NormalizeName(before, true) == name by {
      var spaced, collapsed := "audi r8 gt ", "audi r8 gt";
      var a, b, c := "audi", "r8", "gt";
      AudiGtSpaced(before, spaced);
      AudiGtWords(spaced, a, b, c, collapsed);
      AudiGtTitled(collapsed, name);
      NormalizeSteps(before, spaced, [a, b, c], collapsed, true, name);
    }
  }

  /** A name that is only a counter cleans to the empty string. */
  lemma ExampleOnlyCounter(filename: string)
    requires filename == "(1).jpg"
    ensures CleanFilename(filename) == ""
  {
    var inner, extension := filename[1..2], filename[4..];
    assert filename == [] + "(" + inner + ")" + "." + extension;
    CleanFilenameOfCounted([], inner, extension, true);
  }

  // ---------------------------------------------------------------------
  // Keywords
  // ---------------------------------------------------------------------

  lemma AudiA4Words(name: string, a: string, b: string)
    requires name == "Audi A4" && a == "Audi" && b == "A4"
    ensures Words(name) == [a, b] && JoinWith([a, b], " ") == name
  {
    TwoWordsSpaced(name, a, " ", b, []);
  }

  /** Replacing the separators of a literal is kept out of the larger proof. */
  lemma AudiA4Spaced(name: string)
    requires name == "Audi A4"
    ensures '(' !in name && ReplaceSeparators(name) == name
  {
  }

  /** Title-casing a literal is kept out of the larger proof. */
  lemma AudiA4Titled(name: string)
    requires name == "Audi A4"
    ensures TitleCase(name) == name
  {
    TitleCaseAt(name, name);
  }

  lemma AudiA4Name(filename: string, name: string)
    requires filename == "Audi A4.jpg" && name == "Audi A4"
    ensures CleanFilename(filename) == name
  {
    var extension := filename[8..];
    assert CleanFilename(filename) == NormalizeName(name, true) by {
      assert filename == name + "." + extension;
      CleanFilenameDropsLastSegment(name, extension, true);
    }
    assert NormalizeName(name, true) == name by {
      var a, b := "Audi", "A4";
      AudiA4Spaced(name);
      AudiA4Words(name, a, b);
      AudiA4Titled(name);
      NormalizeSteps(name, name, [a, b], name, true, name);
    }
  }

  lemma AudiA4Chunks(chunk: string)
    requires chunk == "Audi A4"
    ensures KeptChunks([chunk]) == [chunk]
  {
    AudiA4Words(chunk, "Audi", "A4");
    StripKeepsTrimmed(chunk);
    assert [chunk][1..] == [];
  }

  /**
   * The keyword list can repeat an entry: the base name is put in front
   * after the chunks have been deduplicated, so a chunk equal to it stays.
   */
  lemma ExampleDuplicateKeyword(filename: string, chunk: string)
    requires filename == "Audi A4.jpg" && chunk == "Audi A4"
    ensures KeywordList([chunk], filename) == [chunk, chunk]
  {
    assert CleanFilename(filename) == chunk by {
      AudiA4Name(filename, chunk);
    }
    assert BrandPhrases(chunk) == [chunk] by {
      CleanFilenameNoGt(filename);
      assert Brand <= chunk;
    }
    assert Dedupe(KeptChunks([chunk])) == [chunk] by {
      AudiA4Chunks(chunk);
      assert [chunk][..0] == [];
    }
  }

  // ---------------------------------------------------------------------
  // Meta description
  // ---------------------------------------------------------------------

  lemma SpaceThenLetters(caption: string, raw: string)
    requires raw == Repeat('a', 200) && caption == " " + raw
    ensures MetaDescription(caption) == Ellipsis
  {
    var draft := caption + MetaSuffix;
    var window := draft[..DefaultMaxLen];
    assert window[0] == ' ';
    assert forall i :: 1 <= i < DefaultMaxLen ==> window[i] == 'a';
    assert ' ' !in window[1..];
    assert window == [] + [' '] + window[1..];
    RsplitHeadOfJoin([], ' ', window[1..]);
  }

  /**
   * The meta description can be far below 150 characters: for the file
   * `"(1).jpg"` and a 200-character caption without spaces, the alt text
   * starts with a space and the shaped description is just `"..."`.
   */
  lemma ExampleMetaOnlyEllipsis(filename: string, raw: string)
    requires filename == "(1).jpg" && raw == Repeat('a', 200)
    ensures MetaDescription(AltText(filename, raw)) == "..."
  {
    ExampleOnlyCounter(filename);
    assert AltText(filename, raw) == " " + raw;
    SpaceThenLetters(" " + raw, raw);
  }

  // ---------------------------------------------------------------------
  // The whole pipeline for one upload
  // ---------------------------------------------------------------------

  /**
   * For `"audi-r8-gt-(2).jpg"` with the caption "a red sports car parked on
   * a street", the alt text is the cleaned name and the caption, the meta
   * description is padded to 160 characters, and the first keyword is the
   * cleaned name, never followed by an inserted `"Audi R8 GT"`.
   */
  lemma ExamplePipeline(filename: string, raw: string, name: string, chunkTexts: seq<string>)
    requires filename == "audi-r8-gt-(2).jpg" && raw == "a red sports car parked on a street"
    requires name == "Audi R8 Gt"
    ensures AltText(filename, raw) == name + " " + raw
    ensures |MetaDescription(AltText(filename, raw))| == DefaultMaxLen
    ensures KeywordList(chunkTexts, filename) == Take([name] + Dedupe(KeptChunks(chunkTexts)), MaxKeywords)
  {
    ExampleAudiGt(filename, name);
    assert |name + " " + raw| == 46;
    MetaDescriptionLength(name + " " + raw);
    assert Contains(name, Brand) by {
      assert Brand <= name;
    }
    CompositeNeverInserted(chunkTexts, filename);
  }
}
