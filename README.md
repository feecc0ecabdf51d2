# Bulk Image SEO Generator — text pipeline model

The application is a Streamlit page that captions uploaded car photos with an
image-captioning model and turns each caption into SEO text. This project
models its deterministic text pipeline in `app.py`:

- `clean_filename` turns an upload's file name into readable text. It drops
  the last `.`-segment, deletes parenthesised counters such as `(35)`, turns
  `-` and `_` into spaces, collapses whitespace and can title-case the result.
- the alt text is the cleaned name, one space and the raw caption.
- `adjust_meta_length` shapes a meta description towards 150–160 characters
  by cutting at a word boundary and adding `"..."`, by padding with a fixed
  sentence, or by leaving it alone.
- `generate_seo_text` drafts the meta description as the caption followed by
  a fixed sentence and shapes it.
- `generate_keywords` runs after the parser has found the caption's noun
  chunks. It keeps the multi-word chunks, strips and deduplicates them, puts
  the base name in front when it mentions "Audi", and joins the first ten
  with `", "`.

The modules follow the code:

- `Text` holds the Python string primitives the code relies on. These are
  `str.split()`, `" ".join`, `str.strip()`, `in` on strings and
  `rsplit(sep, 1)[0]`. Whitespace is Python's complete `isspace` set, so
  splitting and stripping are exact.
- `Filename` models `clean_filename`.
- `Meta` models `adjust_meta_length`.
- `Keywords` models `generate_keywords`. The two positional `insert` calls are
  kept in `GenerateKeywords`, and that method is proved to return the `", "`-join
  of the list the function `KeywordList` computes.
- `Seo` holds the string assembly and `generate_seo_text`.
- `Examples` holds concrete file names and captions worked through the
  model.

Some behaviour of the code differs from what its docstring, its comments and
the brand rule's evident purpose suggest. The model follows the code:

- Title-casing turns `"GT"` into `"Gt"` (`"Audi R8 GT Coupe.jpg"` becomes
  `"Audi R8 Gt Coupe"`), so the `"GT"` test at app.py:58 never succeeds and
  `"Audi R8 GT"` is never inserted (`CompositeNeverInserted`). For
  `"audi-r8-gt-(2).jpg"` the keywords begin with `"Audi R8 Gt"`, followed
  directly by the caption's chunks (`ExamplePipeline`).
- The comment at app.py:51 says duplicates are removed. The chunks are
  deduplicated before the base name is put in front, so the name can appear
  twice (`ExampleDuplicateKeyword`).
- The docstring at app.py:37 promises 150–160 characters. The code does not
  keep that promise:
  - the cut branch returns between 3 and 163 characters, and
    `ExampleMetaOnlyEllipsis` gives exactly `"..."`;
  - the pad branch returns `min(160, len(text) + 96)` characters, so a
    caption of fewer than 3 characters gives 157 to 159 characters rather
    than 160 (`MetaDescriptionLength`); the captions the pipeline builds
    always contain the separating space, so they get 158 or 159
    (`AltTextMetaLength`);
  - when the 160-character window holds no space, the cut keeps the whole
    window and so can split a word before the `"..."`;
  - shaping twice can give a different result (`ShapingNotIdempotent`).

## Model

| member | source | states |
|---|---|---|
| `Text.Words` | app.py:19 | `str.split()` yields only non-empty words with no whitespace in them |
| `Text.WordsOfJoin` | app.py:19 | joining words with single spaces and splitting again gives back the same words |
| `Text.JoinWith` | app.py:62 | `sep.join(ws)` (also the `" ".join` of app.py:19) is empty for no entries; otherwise it starts with the first entry and its length is the entries' total length plus one `sep` between each neighbouring pair |
| `Text.JoinWithSnoc` | app.py:62 | one more entry adds `sep` and then that entry at the end of the join, so with the first-entry clause the join of any list under any separator is fixed entry by entry |
| `Text.Collapse` | app.py:19 | `" ".join(s.split())`; as a function it carries no contract of its own, and its properties are the lemmas `CollapseSingleSpaced`, `CollapseKeepsWords`, `CollapseIdempotent` and `CollapseAvoids` |
| `Text.CollapseIdempotent` | app.py:19 | collapsing whitespace a second time changes nothing |
| `Text.CollapseKeepsWords` | app.py:19 | the collapsed text has exactly the words of the original |
| `Text.CollapseSingleSpaced` | app.py:19 | `" ".join(s.split())` has whitespace only as single interior spaces, and no space at either end |
| `Text.CollapseAvoids` | app.py:18-19 | collapsing whitespace introduces no character other than the space |
| `Text.WordsAppendWhitespace` | app.py:19 | trailing whitespace adds no word |
| `Text.WordsAroundGap` | app.py:19 | a run of whitespace between two texts splits them: the words of the whole are the words of the left part followed by those of the right part |
| `Text.Strip` | app.py:49 | `strip()` returns the slice of the text that starts after its leading whitespace, with only whitespace after it and no whitespace at either end, so the interior is kept as it is; it has the same words |
| `Text.LeadingSpace` | app.py:49 | the count of whitespace characters a text starts with: all of them whitespace, and the next character, if any, not |
| `Text.TrailingSpace` | app.py:49 | the count of whitespace characters a text ends with: all of them whitespace, and the character before them, if any, not |
| `Text.StripKeepsTrimmed` | app.py:49 | a text with no whitespace at either end is stripped to itself |
| `Text.RsplitHead` | app.py:16 | `rsplit(sep, 1)[0]` is the whole text when `sep` is absent; otherwise it is the prefix ending just before the last `sep` |
| `Text.RsplitHeadOfJoin` | app.py:16 | for `p + sep + tail` with no `sep` in `tail`, the head is exactly `p` |
| `Text.Contains` | app.py:56-58 | the `in` test on strings; as a function it carries no contract of its own, and `ContainsAt` and `Occurrence` prove it holds exactly when the needle occurs at some index |
| `Text.ContainsAt` | app.py:56-58 | a needle found at any index makes the `in` test succeed |
| `Text.Occurrence` | app.py:56-58 | when the `in` test succeeds, the needle occurs at the returned index |
| `Filename.RemoveParens` | app.py:17 | the `\([^)]*\)` deletion pass never lengthens, keeps only characters of the input, and leaves no `(` followed anywhere later by `)` |
| `Filename.RemoveParensKeepsClean` | app.py:17 | a name without a closed group passes through the deletion unchanged |
| `Filename.RemoveParensIdempotent` | app.py:17 | one pass already deletes every closed group |
| `Filename.RemoveParensKeepsPrefix` | app.py:17 | text before the first `(` is kept as it is |
| `Filename.RemoveParensDeletesGroup` | app.py:17 | a group `(inner)` with no `)` inside is removed together with its parentheses |
| `Filename.ReplaceSeparators` | app.py:18 | same length; every `-` and `_` becomes a space and every other character is kept |
| `Filename.TitleFrom` | app.py:21 | `str.title()` keeps the length, lower-cases each letter that follows a letter and upper-cases every other letter |
| `Filename.TitleCase` | app.py:21 | `name_part.title()` keeps the length; a letter right after a letter is lower-cased, every other letter is upper-cased, and every other character is unchanged |
| `Filename.TitleCaseAt` | app.py:21 | a candidate result that agrees with that rule at every position is the title-cased text |
| `Filename.TitleCaseIdempotent` | app.py:21 | title-casing twice is title-casing once |
| `Filename.TitleCaseKeepsNonLetters` | app.py:21 | title-casing changes only letters, and letters stay letters |
| `Filename.TitleNoUpperAfterLetter` | app.py:21 | in a title-cased text no upper-case letter directly follows a letter |
| `Filename.TitleCaseNoGt` | app.py:21 | a title-cased text never contains `"GT"` |
| `Filename.TitleCaseKeepsNormalForm` | app.py:20-21 | title-casing keeps a single-spaced text single-spaced and free of `-` and `_` |
| `Filename.NoClosedGroupConcat` | app.py:17 | two joined texts have no closed group exactly when neither has one and no `(` of the first meets a `)` of the second |
| `Filename.ReplaceSeparatorsKeepsNoClosedGroup` | app.py:17-18 | replacing separators creates no closed group |
| `Filename.CollapseKeepsNoClosedGroup` | app.py:17-19 | collapsing whitespace creates no closed group |
| `Filename.TitleCaseKeepsNoClosedGroup` | app.py:17-21 | title-casing creates no closed group |
| `Filename.NormalizeName` | app.py:17-21 | the four rewriting steps of `clean_filename` on the name part; as a function it carries no contract of its own: `CleanFilenameOfCounted` and `CleanFilenameDropsLastSegment` reduce `clean_filename` to it, and `CleanFilenameNormalForm` states the form of its result |
| `Filename.CleanFilename` | app.py:15-22 | `clean_filename(filename, title_case)`; as a function it carries no contract of its own, and its properties are the lemmas `CleanFilenameNormalForm`, `CleanFilenameDropsLastSegment`, `CleanFilenameOfCounted` and `CleanFilenameNoGt` |
| `Filename.CleanFilenameNormalForm` | app.py:15-22 | the cleaned name has no `-` or `_`, no space at either end, no whitespace other than single spaces between words, and no `(` followed anywhere later by `)` |
| `Filename.CleanFilenameDropsLastSegment` | app.py:16 | only the text after the last `.` is dropped, and a name without `.` is used whole |
| `Filename.CleanFilenameOfCounted` | app.py:16-17 | for `before(inner).ext`, the counter group and the extension disappear and only `before` is normalised |
| `Filename.CleanFilenameNoGt` | app.py:55-58 | the title-cased base name never contains `"GT"` |
| `Meta.AdjustMetaLength` | app.py:36-43 | a text over `max_len` becomes its window up to the last space in the window, or the whole window when it has no space, followed by `"..."`; a text under `min_len` becomes itself plus the first `min(max_len, len + 96) - len` padding characters; a text inside the window is returned unchanged |
| `Meta.ShapedLengthBounds` | app.py:36-43 | the result is never longer than `max_len + 3`, and a text of at most `max_len` characters is never shortened |
| `Meta.ShapingNotIdempotent` | app.py:38-39 | a 161-character text shapes to 161 characters and then to 163, so shaping is not a projection onto the window |
| `Keywords.KeptChunks` | app.py:49 | the kept entries are exactly the stripped texts of the chunks with two or more words, and each has two or more words |
| `Keywords.KeptChunk` | app.py:49 | one chunk is kept, stripped, exactly when it has two or more words |
| `Keywords.KeptChunksAppend` | app.py:49 | the filter works chunk by chunk, so the kept entries keep the chunks' order and repeats |
| `Keywords.Dedupe` | app.py:52 | `dict.fromkeys` keeps each value once, loses none, and adds none |
| `Keywords.DedupeFirstOccurrenceOrder` | app.py:52 | the kept values are in the order of their first occurrence |
| `Keywords.ChunkKeywords` | app.py:49-52 | the chunk keywords are distinct, in first-occurrence order, and exactly the distinct stripped multi-word chunks |
| `Keywords.Insert` | app.py:57-59 | `list.insert(i, x)` puts `x` at `i`, or at the end when `i` is past it, and shifts the rest |
| `Keywords.InsertAtFront` | app.py:57 | inserting at 0 puts the base name in front of the chunks |
| `Keywords.InsertSecond` | app.py:59 | inserting at 1 puts the phrase right after the base name |
| `Keywords.Take` | app.py:62 | `keywords[:10]` is the prefix of length `min(10, len)` |
| `Keywords.BrandPhrases` | app.py:56-59 | without `"Audi"` in the base name nothing is added; with it the base name comes first, and a second entry, `"Audi R8 GT"`, is added exactly when the name also contains `"R8"` and `"GT"` |
| `Keywords.KeywordList` | app.py:62 | at most ten keywords |
| `Keywords.GenerateKeywords` | app.py:45-62 | the filter, deduplication, two inserts, cap and join produce the `", "`-join of `KeywordList` |
| `Keywords.BrandNameFirst` | app.py:55-57 | when the title-cased base name contains `"Audi"`, it is the first keyword |
| `Keywords.NoBrandOnlyChunks` | app.py:55-62 | otherwise the keywords are exactly the first ten deduplicated chunks |
| `Keywords.CompositeNeverInserted` | app.py:58-59 | the keywords are the first ten of the base name (when it contains `"Audi"`) and the chunks, with no inserted `"Audi R8 GT"`; that phrase can appear only as a caption chunk |
| `Keywords.CompositeHasTrimTag` | app.py:58 | the inserted phrase `"Audi R8 GT"` itself contains `"GT"` |
| `Seo.AltText` | app.py:30-33 | the alt text is one character longer than the cleaned name and the raw caption together |
| `Seo.AltTextWords` | app.py:33 | the alt text is the cleaned name, a space and the raw caption, and its words are the name's words followed by the caption's words |
| `Seo.MetaDescription` | app.py:66-67 | the meta description has at most 163 characters |
| `Seo.MetaDescriptionLength` | app.py:66-67 | by caption length: under 89 characters the draft is padded to `min(160, len + 157)` characters, which is exactly 160 when the caption has at least 3 (157 for the empty caption); from 89 to 99 the draft is returned unchanged; above 99 it is cut to between 3 and 163 characters ending in `"..."` |
| `Seo.AltTextMetaLength` | app.py:33 | a padded meta description built from an alt text has 158 to 160 characters |
| `Seo.ShortCaptionKept` | app.py:66-67 | a padded meta description starts with the whole caption followed by the whole suffix sentence |
| `Seo.GenerateSeoText` | app.py:64-72 | returns the shaped draft (at most 163 characters) and the joined keyword list |
| `Examples.ExampleAudiR8` | app.py:15-22 | `"Audi-R8_(35).jpg"` cleans to `"Audi R8"` |
| `Examples.ExampleMyCar` | app.py:15-22 | without title-casing, `"  my__car -- (v2).png"` cleans to `"my car"` |
| `Examples.ExampleAudiGt` | app.py:15-22 | `"audi-r8-gt-(2).jpg"` cleans to `"Audi R8 Gt"` |
| `Examples.ExampleOnlyCounter` | app.py:16-17 | `"(1).jpg"` cleans to the empty string |
| `Examples.ExampleDuplicateKeyword` | app.py:52-57 | the chunk `"Audi A4"` and the file `"Audi A4.jpg"` give the keywords `["Audi A4", "Audi A4"]` |
| `Examples.ExampleMetaOnlyEllipsis` | app.py:38-39 | the file `"(1).jpg"` with a 200-letter caption that has no spaces gives the meta description `"..."` |
| `Examples.ExamplePipeline` | app.py:64-72 | for `"audi-r8-gt-(2).jpg"` and the caption "a red sports car parked on a street", the alt text is `"Audi R8 Gt a red sports car parked on a street"`, the meta description has 160 characters, and the keywords are the first ten of that name followed by the chunks |

## Left out

- Model loading (app.py:9-11) and image captioning (app.py:24-27) are calls
  into machine-learning libraries. The raw caption is an input string.
- The spaCy parse (app.py:46) is an NLP library call. Its noun-chunk texts
  are an input `seq<string>`. Which chunks the parser finds is not modelled.
- Image decoding (app.py:81), the Streamlit page and upload loop
  (app.py:75-98) and the CSV export (app.py:100-103) are UI and
  serialisation code around libraries.
- `str.title()` is modelled on ASCII letters only. Any other character
  counts as uncased and is left unchanged. Python would also case non-ASCII
  letters, so the `"GT"` results are proved for this ASCII rule.
- Only the one regular expression `\([^)]*\)` is modelled, as a
  left-to-right scan. General regular expressions are not.
- `Meta.AdjustMetaLength`: `min_len` and `max_len` are natural numbers.
  Python's meaning of negative bounds, where slices count from the end, is
  not modelled. The code only ever calls it with the defaults 150 and 160.
