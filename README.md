# Chapter-manifest scraper and repair pass, in Dafny

This project models the two scripts that produce a book's import manifest.

- `scrape_import.py` builds the manifest from a site's pages. It picks the chapter links off the index page and orders them by the number in the file name. For each chapter page it turns the content element into a plain-text body and picks a title. It then assembles the chapter records, the book record and the manifest dictionary.
- `fix_manifest.py` repairs a manifest that already exists. It removes control characters from every string, then normalises each record of the chapter list. That list sits either at the top level or under `book`. For each record the pass coerces `number` and `order`, derives `slug`, `title` and `summary`, turns `tags` into a list of strings, and recovers `body` from the legacy `content`, `paragraphs` and `text` entries. It then discards those legacy entries.

Both scripts work on values, and so does most of the model. A parsed JSON document is the datatype `Json.JValue`. An object is an ordered list of key/value pairs, with Python's dictionary behaviour:

- a lookup finds the first entry with the key;
- an assignment replaces that entry in place, or appends a new one;
- `pop` removes the key.

Assignment and `pop` keep the keys of an object distinct, as a dictionary's are (`Json.AssignDistinct`, `Json.RemoveDistinct`). Sanitising keeps every key as it is (`Sanitize.SanitizeKeepsShape`).

The Python built-ins the scripts rely on are written out in `PyStr`, as far as the scripts can observe them:

- `isspace`/`strip`, `strip("-")`, `lower`, `join` and `replace`;
- `str(int)` and `str(bool)`, and `repr` of lists and dictionaries;
- `int(str)`.

The loops of the source are methods, each proved against a function:

| method | function it is proved against |
|---|---|
| `transform_chapter`'s sequence of updates to its copy of the record | `Chapter.NormalizeChapter` |
| the list comprehensions of `main` | `Manifest.NormalizeAll` |
| the link filter | `Links.KeptLinks` |
| the walk over the page's descendants | `Scrape.TextBlock` |
| the chapter loop of `build_manifest` | `ScrapeManifest.Chapters` |

The laws about those functions are lemmas.

Modules, leaves first:

| module | source |
|---|---|
| `Wrappers` | `Option` |
| `PyStr` | string built-ins |
| `Control` | `clean_str` and `CTRL_CHARS_RE` |
| `Slug` | `slugify` and the slug rule of `transform_chapter` |
| `Json` | the JSON value tree, and `str`/`repr` of it |
| `Sanitize` | `sanitize_strings` |
| `Flatten` | `extract_text_from_block` |
| `Chapter` | `to_int` and `transform_chapter` |
| `ChapterLaws` | properties of `transform_chapter` |
| `Manifest` | lines 102-109 of `main` in `fix_manifest.py` |
| `Links` | `extract_chapter_links` and `list.sort` |
| `Scrape` | `html_to_text_block` and `extract_title` |
| `ScrapeManifest` | `build_manifest`, and how its output meets the repair pass |

Some behaviours of the code are proved as stated lemmas:

- **A body can start with a space.** The scraper strips whitespace before it removes control characters. A paragraph `"\x01 a"` therefore gives the body `" a"` (`Scrape.BodyMayStartWithSpace`).
- **Repairing twice can change the result.** A chapter whose only body source is `content: " "` gets the body `" "`. A second repair replaces that body with `""` (`ChapterLaws.BlankBodyNotStable`). The same happens to every chapter whose derived body is blank but not empty, such as `content: "\t"` or `paragraphs: [" "]`. When no chapter of the sanitised list derives such a body, repairing the whole manifest twice gives the same result as repairing it once (`Manifest.RepairTwice`, built on the per-chapter law `ChapterLaws.NormalizeTwice`).
- **A capital letter is kept by the filter but loses its number.**
  - The link filter lower-cases the `href`, so `Chapter_3.html` is kept.
  - The sort key's pattern is case-sensitive, so that link gets the key 999. It then gets an `order` from its position in the list (`Links.CaseBlindFilter`).
- **The slug encodes the order.** The scraper's slug starts with `chapter-<order>-`, so two chapters with different orders never share a slug (`ScrapeManifest.SlugDeterminesOrder`).

The pipeline's design, as it was described apart from the code, intends more than the code does. In each of these places the model follows the code:

- **Tags.** The design describes splitting a scalar `tags` value on commas, slashes, pipes and semicolons. The code wraps the scalar in a one-element list.
- **Object parts.** The design says an object's parts are joined by blank lines. The code joins them with a single `"\n"`.
- **`text` and `paragraph`.** The design says the first of `text` and `paragraph` wins. The code collects both.
- **Empty list elements.** The design says empty fragments are dropped from a flattened list. The code drops only `None` elements, so an empty text still produces a separator.
- **Missing stages.** The design also describes a byte-level cleanup stage, a book normaliser and word counts. `fix_manifest.py` has none of them.

## Model

| member | source | states |
|---|---|---|
| PyStr.LStrip | scrape_import.py:50 | the result is a suffix of the input that does not start with whitespace, and everything removed is whitespace |
| PyStr.RStrip | scrape_import.py:50 | the result is a prefix of the input that does not end with whitespace, and everything removed is whitespace |
| PyStr.BlankIffAllSpace | fix_manifest.py:78 | `s.strip()` is empty exactly when every character of `s` is whitespace |
| PyStr.StripTrimmed | scrape_import.py:59 | a non-empty result of `strip()` neither starts nor ends with whitespace |
| PyStr.StripChar | scrape_import.py:15 | `strip("-")` never lengthens a string, and a non-empty result neither starts nor ends with the stripped character |
| PyStr.LowerConcat | scrape_import.py:14 | the modelled `lower()` works character by character: it distributes over concatenation |
| PyStr.JoinConcat | fix_manifest.py:35 | joining two non-empty lists of parts is joining each, with one separator between them |
| PyStr.ReplaceAbsent | scrape_import.py:109 | `replace` leaves a string with no occurrence of the pattern unchanged |
| PyStr.NatToString | scrape_import.py:99 | `str(n)` of a natural number is a non-empty run of decimal digits |
| PyStr.DigitsValueOfNat | scrape_import.py:35 | reading the digits of `str(n)` back gives `n` |
| PyStr.NatToStringInjective | scrape_import.py:99 | different numbers have different decimal texts |
| PyStr.DropUnderscores | fix_manifest.py:40 | removing the grouping underscores of a digit string leaves only digits |
| PyStr.ParseIntOfIntToString | fix_manifest.py:40 | the modelled `int(str(i)) == i` for every integer, negative ones included (Python's digit limit is under "## Left out") |
| Control.CleanStr | fix_manifest.py:4-9 | the result holds none of the removed control characters and is never longer than the input |
| Control.CleanStrConcat | fix_manifest.py:4-9 | the substitution acts character by character: it distributes over concatenation |
| Control.CleanStrFixpoint | fix_manifest.py:4-9 | a string is left unchanged exactly when it holds none of the removed characters |
| Control.CleanStrIdempotent | fix_manifest.py:4-9 | cleaning twice is cleaning once |
| Control.CleanStrCounts | fix_manifest.py:4-9 | every removed character occurs zero times in the result; every other character keeps its number of occurrences |
| Control.CleanStrSubsequence | fix_manifest.py:4-9 | the kept characters remain in their original order |
| Control.NoCtrlConcat | fix_manifest.py:33 | concatenating two clean strings gives a clean string |
| Control.JoinNoCtrl | fix_manifest.py:33-35 | joining clean parts with a clean separator gives a clean string |
| Slug.DropRun | scrape_import.py:11-15 | dropping a leading run of non-slug characters leaves a string that starts with a slug character and keeps every `[a-z0-9]` character |
| Slug.Collapse | scrape_import.py:11-15 | the substitution of `[^a-z0-9]+` by "-" is empty only on empty input and starts with "-" exactly when the input starts with a non-slug character; its result uses only `[a-z0-9-]`, has no "--" and keeps the `[a-z0-9]` characters in order |
| Slug.StripDashIsSlice | scrape_import.py:15 | `strip("-")` returns a slice of its input with only dashes cut off on either side |
| Slug.StripDashKeepsSlugChars | scrape_import.py:15 | `strip("-")` keeps every `[a-z0-9]` character |
| Slug.SlugifyAlphabet | scrape_import.py:13-16 | a slug uses only `[a-z0-9-]` |
| Slug.SlugifyDashes | scrape_import.py:13-16 | a non-empty slug neither starts nor ends with "-", and no slug has "--" |
| Slug.SlugifyKeepsSlugChars | scrape_import.py:13-16 | the slug keeps exactly the `[a-z0-9]` characters of the lower-cased text, in order |
| Slug.LowerOfSlugAlphabet | scrape_import.py:14 | `lower()` leaves a string over `[a-z0-9-]` unchanged |
| Slug.CollapseFixpoint | scrape_import.py:15 | the substitution leaves a string over `[a-z0-9-]` without "--" unchanged |
| Slug.SlugifyIdempotent | scrape_import.py:13-16 | slugifying a slug gives the same slug |
| Json.Keys | fix_manifest.py:46 | the keys of an object are listed one per entry, in entry order |
| Json.HasIffInKeys | fix_manifest.py:55 | `k in d` holds exactly when `k` is one of the object's keys |
| Json.IndexOf | fix_manifest.py:56 | the position found holds the key and the value a lookup returns; no position means the lookup finds nothing |
| Json.AssignKeys | fix_manifest.py:105 | assigning an existing key keeps the key order; a new key is appended at the end |
| Json.AssignLookup | fix_manifest.py:56 | after `d[k] = v`, `d[k]` reads `v` and every other key reads as before |
| Json.Remove | fix_manifest.py:88-90 | `pop` never adds entries |
| Json.RemoveLookup | fix_manifest.py:88-90 | after `d.pop(k, None)`, `k` is absent and every other key reads as before |
| Json.AssignDistinct | fix_manifest.py:105 | assigning a key keeps the keys of a dictionary distinct |
| Json.RemoveDistinct | fix_manifest.py:88-90 | popping a key keeps the keys of a dictionary distinct |
| Json.AssignSame | fix_manifest.py:105 | assigning the value a key already holds changes nothing |
| Json.RemoveAbsent | fix_manifest.py:88-90 | popping an absent key changes nothing |
| Sanitize.SanitizeKeepsShape | fix_manifest.py:44-51 | sanitising keeps the tree's shape: strings stay strings, every other scalar is unchanged, and lists and objects keep their lengths and their keys in order |
| Sanitize.SanitizeCleans | fix_manifest.py:44-51 | no string value anywhere in the result holds a removed control character; keys are left as they are |
| Sanitize.SanitizeFixpoint | fix_manifest.py:44-51 | a tree is left unchanged exactly when all its strings are already clean |
| Sanitize.SanitizeIdempotent | fix_manifest.py:44-51 | sanitising twice is sanitising once |
| Sanitize.LookupSanitized | fix_manifest.py:46 | a key of a sanitised object reads as the sanitised value it read before, and an absent key stays absent |
| Sanitize.AssignClean | fix_manifest.py:105 | storing a clean value into a clean object keeps the object clean |
| Sanitize.RemoveClean | fix_manifest.py:88-90 | popping a key from a clean object keeps it clean |
| Flatten.NonEmpty | fix_manifest.py:33 | every part kept by the `if p` filter is non-empty and comes from the input |
| Flatten.NonEmptyConcat | fix_manifest.py:33 | the `if p` filter distributes over concatenation |
| Flatten.ExtractText | fix_manifest.py:11-36 | the flattened text of any block holds no removed control character |
| Flatten.ExtractNonNull | fix_manifest.py:35 | the texts of a list's non-null elements are clean |
| Flatten.ExtractEach | fix_manifest.py:24 | one clean text per element of a `content` or `children` list |
| Flatten.TextParts | fix_manifest.py:18-20 | the parts from `text` and `paragraph` are clean |
| Flatten.ContentParts | fix_manifest.py:21-26 | the parts from `content` are clean |
| Flatten.ChildParts | fix_manifest.py:27-28 | the parts from `children` are clean |
| Flatten.ScalarValues | fix_manifest.py:29-32 | the fallback parts from scalar values are clean |
| Flatten.StructuredParts | fix_manifest.py:17-28 | the parts from the structural keys are clean |
| Flatten.ObjectParts | fix_manifest.py:17-32 | the parts an object collects are clean |
| Flatten.ExtractNonNullConcat | fix_manifest.py:35 | flattening the elements of a concatenated list is flattening each list's elements |
| Flatten.ExtractNonNullDropNulls | fix_manifest.py:35 | the `None` elements contribute nothing; a list contributes no text exactly when it holds only `None` elements |
| Flatten.ExtractIgnoresNulls | fix_manifest.py:34-35 | a list flattens as the same list without its `None` elements |
| Flatten.ExtractSingleton | fix_manifest.py:34-35 | a one-element list flattens to its element's text |
| Flatten.ExtractListConcat | fix_manifest.py:34-35 | two lists that each hold a non-null element flatten, once concatenated, to their texts joined by a blank line, even when a text is empty |
| Flatten.ScalarValuesAppend | fix_manifest.py:30-32 | appending an entry adds its text to the fallback parts exactly when its value is a scalar |
| Flatten.TextPartsAppend | fix_manifest.py:18-20 | an entry under any other key adds no `text`/`paragraph` part |
| Flatten.ContentPartsAppend | fix_manifest.py:21-26 | an entry under a non-structural key adds no `content` part |
| Flatten.ChildPartsAppend | fix_manifest.py:27-28 | an entry under a non-structural key adds no `children` part |
| Flatten.ExtractObjectExtraScalar | fix_manifest.py:16-33 | an extra scalar under a non-structural key is ignored when structural parts exist; otherwise it joins the fallback parts |
| Flatten.NoStructuredParts | fix_manifest.py:17-29 | an object without `text`, `paragraph`, `content` and `children` has no structural parts |
| Flatten.ExtractPlainObject | fix_manifest.py:29-33 | an object without structural keys flattens to its non-empty scalar values joined by "\n", in entry order |
| Flatten.OnlyTextParts | fix_manifest.py:17-28 | without `content` and `children` the structural parts are the `text`/`paragraph` parts |
| Flatten.ExtractTextAndParagraph | fix_manifest.py:18-20 | an object with both `text` and `paragraph` gives both, `text` first, joined by "\n" |
| Flatten.ScalarTextSanitized | fix_manifest.py:14-15 | sanitising a scalar leaves its cleaned text unchanged |
| Flatten.ScalarValuesSanitized | fix_manifest.py:29-32 | the fallback parts are the same before and after sanitising |
| Flatten.ExtractSanitized | fix_manifest.py:11-36 | flattening a sanitised block gives the same text as flattening the block |
| Flatten.ExtractNonNullSanitized | fix_manifest.py:35 | a list's element texts are the same before and after sanitising |
| Flatten.ExtractEachSanitized | fix_manifest.py:24 | the texts of `content`/`children` elements are the same before and after sanitising |
| Flatten.SanitizedEntry | fix_manifest.py:46 | sanitising keeps each key at its position, holding the sanitised value |
| Flatten.TextPartsSanitized | fix_manifest.py:18-20 | the `text`/`paragraph` parts are the same before and after sanitising |
| Flatten.ContentPartsSanitized | fix_manifest.py:21-26 | the `content` parts are the same before and after sanitising |
| Flatten.ChildPartsSanitized | fix_manifest.py:27-28 | the `children` parts are the same before and after sanitising |
| Flatten.ObjectPartsSanitized | fix_manifest.py:17-32 | an object's parts are the same before and after sanitising |
| Chapter.TagStrings | fix_manifest.py:77 | one string per non-null tag, in order, each the cleaned `str` of the tag |
| Chapter.FallbackBody | fix_manifest.py:81-86 | the body recovered from `content`, `paragraphs` or `text` is clean |
| Chapter.NormalizedLookup | fix_manifest.py:53-91 | every key of the normalised record reads as the derived value for it: the new `order`, `slug`, `title`, `summary`, `tags` and `body`, no legacy entries, and everything else as before |
| Chapter.NormalizedFields | fix_manifest.py:53-91 | the normalised record holds the coerced `number` when there was one, the derived `order`, `slug`, `title`, `summary`, `tags` and `body`, and none of `content`, `paragraphs` and `text` |
| Chapter.TransformChapter | fix_manifest.py:53-91 | the method's updates to its copy of the record produce the normalised record |
| ChapterLaws.ToIntOfDecimal | fix_manifest.py:38-42 | the modelled `to_int` reads back the decimal text of any integer (Python's digit limit is under "## Left out") |
| ChapterLaws.CleanStrOfTruthy | fix_manifest.py:66-67 | a truthy clean title stays non-empty after `clean_str` |
| ChapterLaws.FallbackSlugNonEmpty | fix_manifest.py:62-63 | the fallback base `chapter-{order}` always gives a non-empty slug |
| ChapterLaws.RebuiltSlugShape | fix_manifest.py:61-63 | a rebuilt slug uses only `[a-z0-9-]`, has no "--", and neither starts nor ends with "-" |
| ChapterLaws.UntitledSlug | fix_manifest.py:61-63 | without a slug and a title, a non-negative order `n` gives the slug `chapter-n` |
| ChapterLaws.DerivedStringsClean | fix_manifest.py:53-91 | the derived slug, title, summary, body and tags hold no removed control character |
| ChapterLaws.NormalizeKeepsClean | fix_manifest.py:53-91 | normalising a clean record gives a clean record |
| ChapterLaws.TagStringsIdempotent | fix_manifest.py:77 | converting the converted tags again changes nothing |
| ChapterLaws.TagsWrapped | fix_manifest.py:74-77 | absent or `None` tags give no tags; a scalar tag is wrapped into a one-element list |
| ChapterLaws.NumberStable | fix_manifest.py:55-56 | a second normalisation keeps the presence and the value of `number` |
| ChapterLaws.OrderStable | fix_manifest.py:57-60 | a second normalisation derives the same `order` |
| ChapterLaws.TitleStable | fix_manifest.py:66-69 | a second normalisation of a clean record derives the same `title` |
| ChapterLaws.SlugStable | fix_manifest.py:61-65 | a second normalisation of a clean record derives the same `slug` |
| ChapterLaws.SummaryStable | fix_manifest.py:70-73 | a second normalisation derives the same `summary` |
| ChapterLaws.TagsStable | fix_manifest.py:74-77 | a second normalisation derives the same `tags` |
| ChapterLaws.FallbackOfBare | fix_manifest.py:81-86 | without legacy entries the recovered body is empty |
| ChapterLaws.BodyKept | fix_manifest.py:78-79 | without legacy entries a clean body that is non-blank, or empty, is kept as it is |
| ChapterLaws.BodyStable | fix_manifest.py:78-87 | unless the derived body is blank but not empty, a second normalisation derives the same body |
| ChapterLaws.NormalizeTwice | fix_manifest.py:53-91 | on a clean record whose derived body is not blank-but-non-empty, normalising twice is normalising once |
| ChapterLaws.BlankBodyNotStable | fix_manifest.py:78-87 | a record whose `content` is `" "` gets the body `" "`, and a second normalisation changes it to `""` |
| Manifest.NormalizeAll | fix_manifest.py:105 | one normalised chapter per input chapter, in order |
| Manifest.TransformAll | fix_manifest.py:105 | the comprehension of `transform_chapter` calls produces the normalised list |
| Manifest.RepairManifest | fix_manifest.py:102-109 | sanitising and then rewriting whichever chapter list is present produces the repaired tree |
| Manifest.UnifyChapterList | fix_manifest.py:104-109 | the chapter list is found where it was and holds the normalised chapters in order; without a list the tree is unchanged |
| Manifest.UnifyKeepsOthers | fix_manifest.py:104-109 | every other top-level entry, and every other entry of `book`, reads as before, and the keys keep their order |
| Manifest.NormalizeAllClean | fix_manifest.py:105 | normalising clean chapters gives clean chapters |
| Manifest.RepairClean | fix_manifest.py:102-109 | no string value anywhere in the repaired manifest holds a removed control character |
| Manifest.NormalizeAllTwice | fix_manifest.py:105 | on clean chapters whose derived bodies are not blank-but-non-empty, the normalised list is accepted again and a second normalisation leaves it unchanged |
| Manifest.UnifyOfNormalized | fix_manifest.py:104-109 | a tree whose chapter list is already normalised is left unchanged by the chapter-list step |
| Manifest.RepairTwice | fix_manifest.py:102-109 | when no chapter of the sanitised list derives a blank-but-non-empty body, the repaired manifest is accepted again and repairing it changes nothing |
| Links.DigitRun | scrape_import.py:34 | `\d+` takes the longest run of digits at the front |
| Links.ExtractChapterLinks | scrape_import.py:23-37 | the method's loop and sort give the kept links sorted by key |
| Links.InsertPerm | scrape_import.py:36 | inserting adds exactly one element |
| Links.InsertSorted | scrape_import.py:36 | inserting into a sorted list keeps it sorted |
| Links.SortBySorted | scrape_import.py:36 | the sorted list is ordered by key |
| Links.SortByPerm | scrape_import.py:36 | the sorted list is a permutation of its input |
| Links.InsertWithKey | scrape_import.py:36 | an inserted link comes after every link of its own key |
| Links.SortByStable | scrape_import.py:36 | the sort is stable: the links of each key keep their relative order |
| Links.KeptLinksSound | scrape_import.py:26-30 | every kept link comes from an anchor that passes the filter, and its relative `href` passes the test |
| Links.KeptLinksComplete | scrape_import.py:26-30 | every anchor that passes the filter gives a kept link |
| Links.ExtractedLinksShape | scrape_import.py:23-37 | the returned links are sorted by key, are a permutation of the kept links, and all pass the filename test |
| Links.ChapterNumberOf | scrape_import.py:32-35 | `chapter_<n>.html` gets the key `n` |
| Links.CaseBlindFilter | scrape_import.py:29-35 | without a "c" after the first character, a capital `C` passes the filter exactly when a small one does, but finds no number |
| Scrape.ScrapedBody | scrape_import.py:86-88 | the stored body holds no removed control character and is never longer than the text block |
| Scrape.HtmlToTextBlock | scrape_import.py:39-60 | the walk over the descendants builds the text block |
| Scrape.ExtractTitle | scrape_import.py:62-71 | the `<h1>` text wins when it is non-empty; without it a non-empty `<title>` string gives exactly that string stripped, so the title is empty exactly when that string is all whitespace; with neither it is "Untitled Chapter" |
| Scrape.NonBlankExact | scrape_import.py:59 | a part survives the filter exactly when it is not blank |
| Scrape.NonBlankEmpty | scrape_import.py:59 | nothing survives exactly when every part is blank |
| Scrape.TextBlockEmpty | scrape_import.py:46-59 | the text block is empty exactly when every collected part is blank |
| Scrape.TextBlockTrimmed | scrape_import.py:59 | the text block neither starts nor ends with whitespace |
| Scrape.MarkerKept | scrape_import.py:53-57 | a section break or an image placeholder always gives a part that is kept |
| Scrape.ParagraphBlock | scrape_import.py:46-60 | a lone, already stripped paragraph is the whole text block |
| Scrape.BodyMayStartWithSpace | scrape_import.py:86-88 | a paragraph of a control character, a space and clean text gives a body that starts with the space |
| ScrapeManifest.Indexed | scrape_import.py:78-101 | one record per link, in order, each built from its link and its position |
| ScrapeManifest.BuildChapters | scrape_import.py:78-101 | the chapter loop builds the chapter records |
| ScrapeManifest.BuildManifest | scrape_import.py:74-126 | the method builds the scraped manifest from the index page and the fetched pages |
| ScrapeManifest.AuthorOf | scrape_import.py:108-109 | a leading "by " is dropped from the author, a name without "by " is kept, and without the element the author is "Unknown" |
| ScrapeManifest.BookLookups | scrape_import.py:103-118 | the book holds the fixed title, the author, the subtitle or `None`, and a `None` publication date |
| ScrapeManifest.NumberedOrder | scrape_import.py:84-85 | `chapter_<n>.html` gets the order `n` |
| ScrapeManifest.SlugOrderRoundTrip | scrape_import.py:99 | the order can be read back from the digits after `chapter-` in the slug |
| ScrapeManifest.SlugDeterminesOrder | scrape_import.py:99 | two chapters with the same slug have the same order |
| ScrapeManifest.SlugNoCtrl | scrape_import.py:99 | the slug holds no removed control character |
| ScrapeManifest.RecordLookups | scrape_import.py:89-100 | a record holds its order, its title and its slug, and no `number` |
| ScrapeManifest.SanitizedRecord | scrape_import.py:89-100 | a sanitised record is one `transform_chapter` accepts, and still holds its order and slug |
| ScrapeManifest.RepairKeepsScrapedOrderAndSlug | scrape_import.py:89-100 | repairing a scraped record keeps its order and its slug |
| ScrapeManifest.SanitizedRecordOk | scrape_import.py:89-100 | every scraped chapter record, once sanitised, is one `transform_chapter` accepts |
| ScrapeManifest.SanitizedChaptersOk | scrape_import.py:78-101 | every record of the sanitised chapter list is one `transform_chapter` accepts |
| ScrapeManifest.WrapRepairable | scrape_import.py:120-125 | the manifest dictionary holds its chapter list at the top level, where the repair pass looks first |
| ScrapeManifest.ScrapedRepairable | scrape_import.py:74-126 | the repair pass accepts every scraped manifest, and finds the chapter list at the top level |

## Left out

- The network and HTML parsing: `fetch`, `requests` and BeautifulSoup are not modelled.
  - A page arrives as a `ScrapeManifest.Page` value: the `<h1>` text, the `<title>` string, the descendants of the content element, and the clock reading.
  - The index page arrives as a `ScrapeManifest.IndexPage` value: the anchors under `.chapter-list`, the subtitle and the author text.
  - The fallback to `soup.body` when there is no `.content` element is the caller's choice of descendants.
- `urljoin` with the base URL becomes the parameter `resolve`, and the page download becomes the parameter `fetch`.
- `datetime.utcnow().isoformat()` becomes the clock string of a page. As `fetch` is a function of the URL, two links with the same absolute URL get the same `scraped_at`, where Python reads the clock once per iteration. No property here depends on the clock.
- File I/O is not modelled: the JSON decoding and writing of both `main` functions, the byte-level retry after a decode error in `fix_manifest.py`, the round-trip check, and the POST to the local back end.
- Floating-point numbers are not part of `Json.JValue`. `to_int` of a float, and `str` of a float, are not modelled.
- PyStr.ParseInt: accepts only ASCII digits. Python's `int` also accepts other Unicode decimal digits.
- Chapter.ToInt: has no digit limit. From Python 3.11 on, `int()` raises `ValueError` on a string of more than 4300 digits (the default `sys.int_max_str_digits`), which `to_int` catches, so `{"number": "1" * 5000}` gets `number` 0 in Python and the 5000-digit value in the model. `str()` of an integer of more than 4300 digits raises in Python too, but the repair pass never meets such an integer: `json.load` (fix_manifest.py:97) already raises a plain `ValueError` on a literal that long, which the `except json.JSONDecodeError` at line 98 does not catch, and `to_int` never returns one. The model takes a decoded tree as its input, so that failure is outside it.
- PyStr.ParseIntOfIntToString: holds of Python only for integers of at most 4300 digits, because beyond that both `str` and `int` raise.
- ChapterLaws.ToIntOfDecimal: holds of Python only for integers of at most 4300 digits; beyond that `str` raises, and `to_int` of such a text gives the default.
- PyStr.Lower: maps only ASCII capitals, U+0130 and U+212A. Every other character is kept as it is, because only these lower-case into ASCII, and the lower case of a character matters to the slug rule and to the `startswith`/`endswith` tests only through the ASCII characters it contains. The model's `lower()` therefore works character by character (PyStr.LowerConcat); Python's does not quite, since its Final_Sigma rule makes `"ΑΣ".lower()` end in `ς` while `"Σ".lower()` is `σ`. Neither sigma is ASCII, so the slugs and the filter do not see the difference.
- Json.Repr: writes tab, line feed and carriage return as `\t`, `\n` and `\r`, escapes the other control characters, U+007F-U+00A0 and U+00AD as `\xNN`, and treats every character above U+00FF as printable. Python escapes the non-printable ones among those, such as U+200B or U+2028, as `\u...`; no property here depends on it.
- Links.SortKey: has no digit limit. Python's `int(m.group(1))` at scrape_import.py:35 raises `ValueError` on more than 4300 digits, and `key_fn` has no `try`, so a kept href `chapter_<5000 digits>.html` ends the scrape inside `links.sort`; the model sorts it by that number, so Links.ChapterNumberOf holds of Python only for numbers of at most 4300 digits.
- ScrapeManifest.ChapterOrder: has no digit limit either. The same `int(m.group(1))` at scrape_import.py:85 would raise on that href, where the model gives the number as the `order`, so ScrapeManifest.NumberedOrder holds of Python only for numbers of at most 4300 digits.
- Links.DigitRun: only ASCII digits. Python's `\d` and `int` also accept other Unicode decimal digits, so a file name such as `chapter_\u0663.html` gets the key 3 in Python but the key 999 and a positional order (and a slug built from that order) in the model.
- Json.Remove: states only that `pop` never adds entries. What `pop` does to each key is in Json.RemoveLookup.
- Flatten.NonEmpty: states only that kept parts are non-empty and come from the input. Order and completeness are in Flatten.NonEmptyConcat and the lemmas that use it.
- Flatten.ExtractText and the part functions: state only cleanliness in their own contracts. Their composition laws are separate lemmas.
- Chapter.TransformChapter: requires a JSON object. Python's `dict(ch)` also accepts the empty string and a list of key/value pairs (any two-item iterables, e.g. `["k", 1]`, `"ab"` or `{"a": 1, "b": 2}`, which gives the pair `("a", "b")`), so `""` and `[]` both give `{}` and `{"chapters": [""]}` is repaired into a `chapter-0` record; it raises on numbers, booleans, `null` and non-empty strings. The empty string, the list form and raising are not modelled. It also requires that a record with a falsy `slug` and a truthy `title` holds a string title, since Python raises on `.lower()` of any other title. `Manifest.TransformAll`, `Manifest.RepairManifest` and `Manifest.Repair` inherit both requirements for every chapter.
- Scrape.Node: a BeautifulSoup element is reduced to what `html_to_text_block` reads: its tag name, its two `get_text` results, its class list and its `data-image-id`.
- `schemas.py` and `main.py` are not part of this model.
