/**
 * The string assembly around the three helpers (app.py): the alt text that
 * `generate_caption` builds from the cleaned file name and the raw image
 * caption, and `generate_seo_text`, which drafts a meta description from
 * the caption, shapes it and computes the keywords.
 */
module Seo {
  import opened Text
  import opened Filename
  import opened Meta
  import opened Keywords

  /** The sentence appended to the caption to draft a meta description (app.py:66). */
  const MetaSuffix: string := ", showcasing luxury design, performance, and premium details."

  /** The tail of `generate_caption`: cleaned file name, one space, raw caption. */
  function AltText(filename: string, rawCaption: string, titleCase: bool := true): (alt: string)
    ensures |alt| == |CleanFilename(filename, titleCase)| + 1 + |rawCaption|
  {
    CleanFilename(filename, titleCase) + " " + rawCaption
  }

  /** The meta description `generate_seo_text` returns for `caption`. */
  function MetaDescription(caption: string): (meta: string)
    ensures |meta| <= DefaultMaxLen + |Ellipsis|
  {
    AdjustMetaLength(caption + MetaSuffix)
  }

  /**
   * `generate_seo_text(caption, filename)`, with the parse of `caption`
   * given as its noun-chunk texts.
   */
  method GenerateSeoText(caption: string, filename: string, chunkTexts: seq<string>)
    returns (metaDescription: string, keywords: string)
    ensures metaDescription == MetaDescription(caption)
    ensures keywords == JoinWith(KeywordList(chunkTexts, filename), KeywordSeparator)
    ensures |metaDescription| <= DefaultMaxLen + |Ellipsis|
  {
    var draft := caption + MetaSuffix;
    metaDescription := AdjustMetaLength(draft);
    keywords := GenerateKeywords(chunkTexts, filename);
  }

  // ---------------------------------------------------------------------
  // Lemmas
  // ---------------------------------------------------------------------

  /**
   * The alt text is the cleaned name, a space and the raw caption, and its
   * words are the name's words followed by the caption's words.
   */
  lemma AltTextWords(filename: string, rawCaption: string, titleCase: bool)
    ensures var name := CleanFilename(filename, titleCase);
            var alt := AltText(filename, rawCaption, titleCase);
            && alt[..|name|] == name && alt[|name|] == ' ' && alt[|name| + 1..] == rawCaption
            && Words(alt) == Words(name) + Words(rawCaption)
  {
    var name := CleanFilename(filename, titleCase);
    WordsAroundGap(name, " ", rawCaption);
  }

  /**
   * How long the meta description is, by the length of the caption: a
   * caption of fewer than 89 characters is padded to 160 characters (to
   * 157, 158 or 159 when it has 0, 1 or 2 characters), one of 89 to 99 is kept
   * with its suffix as it is, and a longer one is cut to at most 163
   * characters ending in `"..."`.
   */
  lemma MetaDescriptionLength(caption: string)
    ensures var meta := MetaDescription(caption);
            && (|caption| < 89 ==> |meta| == Min(DefaultMaxLen, |caption| + |MetaSuffix| + |Padding|))
            && (|caption| < 89 ==> (|meta| == DefaultMaxLen <==> |caption| >= 3))
            && (89 <= |caption| <= 99 ==> meta == caption + MetaSuffix)
            && (|caption| > 99 ==> |Ellipsis| <= |meta| <= DefaultMaxLen + |Ellipsis| && meta[|meta| - 3..] == Ellipsis)
  {
    assert |MetaSuffix| == 61;
    assert |Padding| == 96;
  }

  /**
   * An alt text always holds at least the space between name and caption,
   * so when it is padded its meta description has 158 to 160 characters.
   */
  lemma AltTextMetaLength(filename: string, rawCaption: string)
    ensures var alt := AltText(filename, rawCaption);
            |alt| < 89 ==> 158 <= |MetaDescription(alt)| <= DefaultMaxLen
  {
    MetaDescriptionLength(AltText(filename, rawCaption));
  }

  /**
   * The padded meta description starts with the whole draft: the caption
   * and then the suffix, so the caption is never cut when it is short.
   */
  lemma ShortCaptionKept(caption: string)
    requires |caption| < 89
    ensures var meta := MetaDescription(caption);
            meta[..|caption|] == caption && meta[|caption|..|caption| + |MetaSuffix|] == MetaSuffix
  {
    assert |MetaSuffix| == 61;
    assert |Padding| == 96;
    var draft := caption + MetaSuffix;
    var meta := MetaDescription(caption);
    assert meta[..|draft|] == draft;
  }
}
