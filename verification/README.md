# vexy-markliff core, modelled in Dafny

vexy-markliff converts Markdown and HTML into XLIFF 2.1 translation
documents and back. This project models the deterministic core of that
pipeline and proves what its code and tests promise:

- **Text utilities** (`utils.py`): whitespace normalisation, the
  two-letter language-code check, and naive sentence splitting
  (module `TextUtils`).
- **HTML segment extraction** (`core/parser.py`): the depth-first walk
  over an element tree (tag, attributes, optional text and tail,
  children). It emits one normalised, translatable segment per non-blank
  text or tail. Also covered: the structure summary, the empty-input
  guards of both parsers, and `reconstruct`, which joins segments into
  `<p>` lines (module `Parser`).
- **The XLIFF document model** (`models/xliff.py`):
  - the records and the document built from parsed segments, with ids
    `unit_{i+1}`;
  - `to_xml` as the element tree it serialises;
  - `from_xml` as the reading of a parsed tree, with its defaults;
  - the `content` view (modules `Xliff` and `XmlTree`).
- **The converter** (`core/converter.py`): validation order and error
  classification of the four conversions, as functions returning
  `Result<string, Error>`, where `Error` is ValidationError, ParsingError
  or ConversionError (modules `Converter` and `Errors`).
- **`ConversionConfig`** (`config.py`): the validation loop and the
  three fields, as a class whose constructor runs after validation
  succeeds (module `Config`).
- **`process_data`** (`vexy_markliff.py`): strip items, drop empties,
  count frequencies and distinct items, and echo the config (modules
  `ProcessData` and `Counting`).
- **Two helpers of the development scripts**: the dotted-version
  comparison with zero padding, and the severity and rule-code counters
  (modules `SecurityScanner` and `QualityMetrics`).

The foreign libraries are parameters of the model:

- markdown-it's `render`;
- lxml's `html.fromstring`;
- `etree.tostring`;
- `etree.fromstring`.

Each is a function that returns a value or an error message. Methods
model the source's loops, and each is proved equal to a specification
function. The lemmas state the properties of those functions.

Where the code and its documentation differ, the model follows the code:

- `validate_language_code` is documented as an ISO 639-1 check. The code
  accepts any two lower-case letters.
- The XLIFF namespace is 2.1. The code writes and reads `<trans-unit>`
  with per-file `source-language`/`target-language`, not the `<unit>` and
  `<segment>` elements of XLIFF 2.1.
- `xliff_to_*` documents a ValidationError for malformed XLIFF. The code
  turns it into a ConversionError.

## Model

| member | source | states |
|---|---|---|
| TextUtils.Strip | src/vexy_markliff/utils.py:24 | `s.strip()` is a slice `s[i..j]` with only whitespace before `i` and after `j`; it has no whitespace at either end, keeps every non-whitespace character in order, and is empty exactly when the input is blank |
| TextUtils.TrimLeft | src/vexy_markliff/utils.py:24 | `lstrip` returns a suffix of the input that is empty or starts with a non-whitespace character |
| TextUtils.TrimRight | src/vexy_markliff/utils.py:24 | `rstrip` returns a prefix of the input that is empty or ends with a non-whitespace character |
| TextUtils.TrimLeftDropsBlank | src/vexy_markliff/utils.py:24 | what `lstrip` drops is whitespace only |
| TextUtils.TrimRightDropsBlank | src/vexy_markliff/utils.py:24 | what `rstrip` drops is whitespace only |
| TextUtils.TrimBothIsSlice | src/vexy_markliff/utils.py:24 | `lstrip` then `rstrip` leaves the slice between a blank prefix and a blank suffix |
| TextUtils.NormalizeWhitespace | src/vexy_markliff/utils.py:24 | `normalize_whitespace(text)` is `" ".join(text.split())`: the maximal non-whitespace runs of the input joined by single spaces. So the output has no leading/trailing whitespace, no whitespace but a single space, never two whitespace characters in a row; it keeps the input's non-whitespace characters in order and is "" exactly for blank input |
| TextUtils.WordsAreWords | src/vexy_markliff/utils.py:24 | every piece of `text.split()`, the reference for the whitespace runs, is non-empty and has no whitespace |
| TextUtils.WordsKeepNonSpace | src/vexy_markliff/utils.py:24 | the pieces of `text.split()`, read one after the other, are the input's non-whitespace characters in order |
| TextUtils.WordsOfStrip | src/vexy_markliff/utils.py:24 | stripping the text first changes none of its `split()` pieces |
| TextUtils.CollapseRunsJoinsWords | src/vexy_markliff/utils.py:24 | on stripped text, `re.sub(r"\s+", " ", …)` equals the `split()` pieces joined by single spaces |
| TextUtils.CollapseStripped | src/vexy_markliff/utils.py:24 | collapsing `\s+` runs of the stripped text gives normalised text with the same visible characters, empty only for blank text |
| TextUtils.CollapseRunsNormalizes | src/vexy_markliff/utils.py:24 | `re.sub(r"\s+", " ", s)` of a stripped string is normalised |
| TextUtils.CollapseRunsNoDoubleSpaces | src/vexy_markliff/utils.py:24 | after the substitution no two whitespace characters are adjacent |
| TextUtils.CollapseRunsPlainSpaces | src/vexy_markliff/utils.py:24 | after the substitution the only whitespace character left is the plain space |
| TextUtils.CollapseRunsKeepsNonSpace | src/vexy_markliff/utils.py:24 | the substitution keeps every non-whitespace character in order |
| TextUtils.CollapseRunsLast | src/vexy_markliff/utils.py:24 | text ending in a visible character still ends in it after the substitution |
| TextUtils.CollapseRunsFixpoint | src/vexy_markliff/utils.py:24 | the substitution leaves text with only single plain spaces unchanged |
| TextUtils.NormalizedIsFixpoint | src/vexy_markliff/utils.py:24 | normalised text is left unchanged by `normalize_whitespace` |
| TextUtils.NormalizeIdempotent | src/vexy_markliff/utils.py:24 | `normalize_whitespace` is idempotent |
| TextUtils.NonSpaceEmptyIffBlank | src/vexy_markliff/utils.py:24 | a string has no non-whitespace character exactly when `not s.strip()` |
| TextUtils.ValidateLanguageCode | src/vexy_markliff/utils.py:36 | `validate_language_code` holds iff the code has length 2 and both characters are lower-case letters |
| TextUtils.LanguageCodeExamples | src/vexy_markliff/utils.py:36 | "en" and "fr" accepted; "english", "EN", "e" and "ESP" rejected |
| TextUtils.DropTerminators | src/vexy_markliff/utils.py:61 | the `[.!?]+` part of the separator removes a prefix and no visible character |
| TextUtils.SplitPiecesHaveNoTerminator | src/vexy_markliff/utils.py:61 | no raw piece of `re.split(r"[.!?]+\s*", …)` contains '.', '!' or '?' |
| TextUtils.SplitPiecesKeepVisible | src/vexy_markliff/utils.py:61 | the raw pieces hold every character that is neither whitespace nor terminator, in order |
| TextUtils.StripKeepsVisible | src/vexy_markliff/utils.py:63 | stripping a piece removes no visible character and adds no terminator |
| TextUtils.KeepStrippedShape | src/vexy_markliff/utils.py:63 | `[s.strip() for s in pieces if s.strip()]` of terminator-free pieces gives non-empty, unpadded, terminator-free sentences |
| TextUtils.KeepStrippedKeepsVisible | src/vexy_markliff/utils.py:63 | that comprehension keeps every visible character in order |
| TextUtils.SplitSentencesShape | src/vexy_markliff/utils.py:61-63 | every piece of `split_sentences_simple` is non-empty, not whitespace-padded and free of '.', '!' and '?' |
| TextUtils.SplitSentencesKeepVisible | src/vexy_markliff/utils.py:61-63 | the pieces hold exactly the input's visible characters, in input order |
| TextUtils.SplitSentencesEmpty | src/vexy_markliff/utils.py:61-63 | the result is [] exactly when the input holds only whitespace and terminators, so blank input gives [] |
| TextUtils.SplitSentencesPunctuated | src/vexy_markliff/utils.py:61-63 | where the cuts fall: non-empty, unpadded, terminator-free sentences, each closed by one terminator character ('.', '!' or '?', the same for all) and separated by one whitespace gap (the same for all, possibly empty), split back into exactly those sentences |
| TextUtils.SplitPunctuated | src/vexy_markliff/utils.py:61 | `re.split` of such text gives the sentences and one final empty piece |
| TextUtils.KeepStrippedSentences | src/vexy_markliff/utils.py:63 | the comprehension keeps the sentences and drops the final empty piece |
| TextUtils.StripUnpadded | src/vexy_markliff/utils.py:63 | stripping a string without surrounding whitespace changes nothing |
| TextUtils.SplitFrom | scripts/security_scanner.py:148 | `str.split(sep)` always returns at least one piece |
| TextUtils.SplitJoin | scripts/security_scanner.py:148 | splitting a join of separator-free parts gives the parts back |
| TextUtils.JoinSplit | scripts/security_scanner.py:148 | joining the pieces of a split gives the text back |
| TextUtils.SplitLacksSeparator | scripts/security_scanner.py:148 | no piece of a split contains the separator |
| TextUtils.SplitAppend | scripts/security_scanner.py:148 | appending a separator and a separator-free piece appends that piece to the split |
| Parser.ExtractSegments | src/vexy_markliff/core/parser.py:149-182 | the recursive walk with its loop over the children returns `Segments(element)`: own text first, then each child's segments followed by its tail segment |
| Parser.SlotSegmentOf | src/vexy_markliff/core/parser.py:161-170 | a present, non-blank text becomes one translatable segment of its normalised text under the given label; otherwise nothing |
| Parser.SegmentsOfSlots | src/vexy_markliff/core/parser.py:158-182 | the walk yields exactly the segments of the tree's text and tail slots, in visiting order |
| Parser.SegmentsUpToSlots | src/vexy_markliff/core/parser.py:173-180 | after `k` children, the walk holds the segments of the own-text slot and the first `k` children's slots and tails |
| Parser.SegmentsWellFormed | src/vexy_markliff/core/parser.py:161-180 | every segment is translatable, non-empty and whitespace-normalised |
| Parser.SegmentsAreFilledSlots | src/vexy_markliff/core/parser.py:161-182 | there is exactly one segment per present non-blank text/tail slot, in document order; own text is labelled with the tag, tails with "text" |
| Parser.SegmentsOfFilledSlots | src/vexy_markliff/core/parser.py:161-180 | per slot run, missing and blank texts yield nothing and filled ones one segment each |
| Parser.SegmentsOfWellFormed | src/vexy_markliff/core/parser.py:162-169 | the segments of any slot run are well formed |
| Parser.SegmentsFor | src/vexy_markliff/core/parser.py:164-169 | one segment per filled slot |
| Parser.RootTailIgnored | src/vexy_markliff/core/parser.py:173-180 | only children's tails are visited: the root's own tail never affects the segments |
| Parser.SlotsTextIsTextContent | src/vexy_markliff/core/parser.py:158-182 | the slots visited read the element's whole text content, text and tails in document order |
| Parser.SegmentsKeepText | src/vexy_markliff/core/parser.py:158-182 | extraction keeps every non-whitespace character of the tree's text, in document order |
| Parser.HtmlParseOutcome | src/vexy_markliff/core/parser.py:87-115 | blank input raises ValidationError before parsing; a parse failure is a ParsingError; on success, segments of the root and a structure with its tag, attributes and children count |
| Parser.MarkdownParseOutcome | src/vexy_markliff/core/parser.py:25-52 | blank input raises ValidationError before rendering; any later failure, even the HTML parser's ValidationError, becomes a ParsingError; success is the HTML parse of the rendering |
| Parser.RenderAll | src/vexy_markliff/core/parser.py:136-140 | one fragment per segment: translatable content wrapped verbatim in `<p>…</p>`, other content as is |
| Parser.ReconstructHtml | src/vexy_markliff/core/parser.py:117-147 | the loop over the segments and the newline join give the reconstruction; `MarkdownParser.reconstruct` calls it unchanged |
| Parser.ReconstructLines | src/vexy_markliff/core/parser.py:135-142 | for newline-free segments, splitting the HTML at newlines gives back one fragment per segment, in order |
| Parser.NormalizedHasNoNewline | src/vexy_markliff/utils.py:24 | normalised text contains no newline |
| Parser.ReconstructExtracted | src/vexy_markliff/core/parser.py:135-142 | reconstructing extracted segments gives one `<p>` line per segment, in document order |
| Xliff.NatToString | src/vexy_markliff/models/xliff.py:57 | `str(n)` is non-empty |
| Xliff.NatToStringInjective | src/vexy_markliff/models/xliff.py:57 | different numbers have different decimal forms |
| Xliff.UnitIdInjective | src/vexy_markliff/models/xliff.py:57 | `unit_{a}` equals `unit_{b}` only when a equals b |
| Xliff.TranslatableIndices | src/vexy_markliff/models/xliff.py:55-56 | the positions listed lie below the bound |
| Xliff.NewDocument | src/vexy_markliff/models/xliff.py:39-62 | the constructor's loop builds `DocumentFrom`: no content gives version 2.1 and no files; content gives one `file_1` with the languages and one unit per translatable segment |
| Xliff.UnitsUpToStep | src/vexy_markliff/models/xliff.py:55-58 | one loop step appends a unit exactly for a translatable segment |
| Xliff.IndicesIncreasing | src/vexy_markliff/models/xliff.py:55-58 | units follow segment order |
| Xliff.IndicesTranslatable | src/vexy_markliff/models/xliff.py:56 | only translatable segments get a unit |
| Xliff.IndicesComplete | src/vexy_markliff/models/xliff.py:56 | every translatable segment gets a unit |
| Xliff.UnitIdsDistinct | src/vexy_markliff/models/xliff.py:55-57 | unit ids are pairwise distinct |
| Xliff.UnitForEveryTranslatableSegment | src/vexy_markliff/models/xliff.py:55-57 | a unit with id `unit_{i+1}` exists exactly when segment `i` is translatable, so ids skip non-translatable positions |
| Xliff.SourcesUpTo | src/vexy_markliff/models/xliff.py:55-58 | the units after `n` segments hold the translatable texts among them, in order |
| Xliff.UnitsKeepTranslatableText | src/vexy_markliff/models/xliff.py:55-58 | unit sources are the translatable segments' texts in order; every unit is "new" with no target |
| Xliff.DocumentExamples | src/vexy_markliff/models/xliff.py:36-62 | no content gives version "2.1" and no files; two translatable segments and an untranslatable comment give `unit_1` and `unit_2` in `file_1` |
| Xliff.BuildXmlTree | src/vexy_markliff/models/xliff.py:126-151 | the element-building loops produce `ToXmlTree`: an `xliff` root with version and namespace, one `file` per file, one `trans-unit` per unit, with a `target` only when the target is non-empty |
| Xliff.ReadDocument | src/vexy_markliff/models/xliff.py:84-112 | the nested reading loops of `from_xml` produce `FromXmlTree` |
| Xliff.FromXmlFailures | src/vexy_markliff/models/xliff.py:77-117 | every failure of `from_xml` is a ValidationError; unparsable XML gives "Invalid XLIFF XML: " and the parser's message |
| Xliff.ReadUnitsDefaults | src/vexy_markliff/models/xliff.py:89-102 | one unit per `trans-unit`; a missing id becomes `unit_{position}` and a missing state "new" |
| Xliff.ForeignNamespaceHasNoFiles | src/vexy_markliff/models/xliff.py:81-85 | a tree with no element in the XLIFF 2.1 namespace gives a document with no files, not an error |
| Xliff.UnitVocabularyIgnored | src/vexy_markliff/models/xliff.py:85-90 | a file using `<unit>`/`<segment>` reads as a file with no units |
| Xliff.FileQs | src/vexy_markliff/models/xliff.py:132-136 | one parsed `file` element per file, in order |
| Xliff.UnitQShape | src/vexy_markliff/models/xliff.py:139-151 | a written unit reads back as a `trans-unit` with id, state, a `source` child and a `target` child only when the target is non-empty |
| Xliff.ReadUnitRoundTrip | src/vexy_markliff/models/xliff.py:91-101 | a unit with a non-empty source reads back with its id, source, state, and target (an empty target as None) |
| Xliff.EmptySourceRejected | src/vexy_markliff/models/xliff.py:96-101 | a unit written with an empty source has a text-less `source` element, which the unit model rejects |
| Xliff.UnitQLacks | src/vexy_markliff/models/xliff.py:139-151 | nothing inside a written unit is a `file` or a nested `trans-unit` |
| Xliff.FileQShape | src/vexy_markliff/models/xliff.py:133-140 | a written file reads back as a `file` element with id, languages and one child per unit |
| Xliff.FileQUnits | src/vexy_markliff/models/xliff.py:90 | the `.//trans-unit` search of a written file finds exactly its units' elements, in order |
| Xliff.ReadUnitsAll | src/vexy_markliff/models/xliff.py:89-102 | elements that each read as a known unit read as those units, in order |
| Xliff.ReadFileRoundTrip | src/vexy_markliff/models/xliff.py:85-110 | a written file with non-empty sources reads back with its id, languages and units |
| Xliff.ReadFilesAll | src/vexy_markliff/models/xliff.py:84-110 | elements that each read as a known file read as those files, in order |
| Xliff.RootQShape | src/vexy_markliff/models/xliff.py:127-133 | the written root is an `xliff` element in the XLIFF 2.1 namespace carrying the document's version, with one `file` child per file |
| Xliff.WrittenFiles | src/vexy_markliff/models/xliff.py:132-136 | the `//file` search of a written document finds one element per file, in order, with that file's id and languages |
| Xliff.RootFileElements | src/vexy_markliff/models/xliff.py:85 | the `//file` search of a written document finds exactly the file elements |
| Xliff.FileQLacks | src/vexy_markliff/models/xliff.py:133-151 | a written file is a `file` element with no `file` element below it |
| Xliff.XmlRoundTrip | src/vexy_markliff/models/xliff.py:77-154 | `from_xml(to_xml(d))` keeps file ids, languages, and unit ids, sources, targets and states in order, for non-empty sources; an empty target comes back as None |
| Xliff.ContentView | src/vexy_markliff/models/xliff.py:161-176 | the `content` loops give one translatable "text" segment per unit, file after file, and a "document" structure counting them |
| Xliff.ContentOfNewDocument | src/vexy_markliff/models/xliff.py:50-62 | the content view of a document built from content gives back the translatable segments' texts, in order |
| XmlTree.FindChild | src/vexy_markliff/models/xliff.py:93-94 | `find` returns a child with that name, or none exists |
| XmlTree.FirstNamed | src/vexy_markliff/models/xliff.py:93-94 | the first element with that name among the children, or none exists |
| XmlTree.OutsideNamespaceLacks | src/vexy_markliff/models/xliff.py:85 | a subtree outside a namespace has no element named in it |
| XmlTree.FindAllLacking | src/vexy_markliff/models/xliff.py:85 | an XPath search of a subtree without such elements finds none |
| XmlTree.FindBelowLacking | src/vexy_markliff/models/xliff.py:90 | a descendant search below children without such elements finds none |
| XmlTree.FindBelowFlat | src/vexy_markliff/models/xliff.py:90 | when every child has the name and nothing inside them does, the descendant search finds the children |
| Converter.RequestError | src/vexy_markliff/core/converter.py:45-55 | every guard failure is a ValidationError |
| Converter.MarkdownToXliffValidation | src/vexy_markliff/core/converter.py:45-55 | ValidationError exactly for blank content or an invalid code; blank is checked first, then source, then target, with the source's messages |
| Converter.HtmlToXliffValidation | src/vexy_markliff/core/converter.py:91-101 | the same guard order and messages for `html_to_xliff` |
| Converter.MarkdownToXliffOutcome | src/vexy_markliff/core/converter.py:57-74 | past the guards: the serialised document built from the parsed content and languages; any failure is a ConversionError embedding the original message |
| Converter.HtmlToXliffOutcome | src/vexy_markliff/core/converter.py:103-120 | past the guards: the serialised document built from the parsed HTML; any failure is a ConversionError embedding the original message |
| Converter.XliffToHtmlFailures | src/vexy_markliff/core/converter.py:169-188 | ValidationError exactly for blank input; a malformed document, even unparsable XML, becomes a ConversionError |
| Converter.XliffToMarkdownIsXliffToHtml | src/vexy_markliff/core/converter.py:135-154 | `xliff_to_markdown` and `xliff_to_html` succeed together with the same text, `reconstruct(from_xml(x).content)`, and fail with the same kind of error |
| Converter.IndicesOfAllTranslatable | src/vexy_markliff/models/xliff.py:55-56 | when every segment is translatable, every position gets a unit |
| Converter.RenderUnitsOfWellFormed | src/vexy_markliff/core/parser.py:136-140 | the units made from extracted segments, viewed as content again, render exactly as the segments do |
| Converter.NewDocumentIsCanonical | src/vexy_markliff/models/xliff.py:57 | a document built from content has no targets, so the XML trip does not change it |
| Converter.NewDocumentSourcesNonEmpty | src/vexy_markliff/models/xliff.py:57 | a document built from extracted segments has no empty source |
| Converter.HtmlRoundTrip | src/vexy_markliff/core/converter.py:76-188 | `html_to_xliff` succeeds exactly when the guards pass, the HTML parses and the serialiser accepts the document; when it succeeds, `xliff_to_html` of its output gives one `<p>` line per extracted segment, in document order, provided the XML parser reads back what the serialiser wrote |
| Config.FirstInvalid | src/vexy_markliff/config.py:23-26 | the loop finds no invalid code exactly when every code is two lower-case letters |
| Config.ConfigErrorCases | src/vexy_markliff/config.py:23-26 | construction fails iff a code is invalid; the source code is checked first, so with both invalid the message names `source_language` |
| Config.ValidateLanguages | src/vexy_markliff/config.py:23-26 | the validation loop gives the first failing code's message, or none |
| Config.ConversionConfig.constructor | src/vexy_markliff/config.py:28-30 | the three fields equal the arguments and both codes are valid |
| Config.Create | src/vexy_markliff/config.py:14-30 | ValueError exactly when validation fails, with its message; otherwise a new object holding the arguments exactly |
| Config.CreateDefault | src/vexy_markliff/config.py:14 | the defaults are "en", "es" and sentence splitting on |
| Config.ConfigExamples | src/vexy_markliff/config.py:23-26 | "fr"/"de" accepted; "english" as source, "ESP" as target and "e" as source rejected with the matching field name |
| ProcessData.Process | src/vexy_markliff/vexy_markliff.py:41-70 | the normalising loop and the summary give `ReportOf`: ValueError for no kept item, otherwise the summary of the kept items |
| ProcessData.Echo | src/vexy_markliff/vexy_markliff.py:62-67 | the config's name and value are echoed, with `options` defaulting to an empty map |
| ProcessData.KeptShape | src/vexy_markliff/vexy_markliff.py:44-46 | an item is kept, stripped, exactly when it is not blank |
| ProcessData.NormalizedItems | src/vexy_markliff/vexy_markliff.py:42-46 | every kept item is non-empty and has no whitespace at either end |
| ProcessData.NormalizedKeepsText | src/vexy_markliff/vexy_markliff.py:42-46 | the kept items carry every non-whitespace character of the input, in order |
| ProcessData.NormalizedEmpty | src/vexy_markliff/vexy_markliff.py:42-50 | ValueError is raised exactly when every item is blank |
| ProcessData.NormalizedIdempotent | src/vexy_markliff/vexy_markliff.py:42-46 | normalising the kept items again changes nothing |
| ProcessData.SummaryCounts | src/vexy_markliff/vexy_markliff.py:52-61 | `count` = `summary.total` = number of items; `unique` = `summary.unique` = number of distinct items = number of keys; each frequency is its item's count, at least 1, and they sum to `count` |
| ProcessData.SummaryEcho | src/vexy_markliff/vexy_markliff.py:62-67 | a given config is echoed with its options or {}; without one there is no "config" entry |
| ProcessData.SummaryExample | src/vexy_markliff/vexy_markliff.py:80 | "alpha", "beta", "alpha" give count 3, unique 2, and alpha twice |
| Counting.FrequenciesKeys | src/vexy_markliff/vexy_markliff.py:52 | the counter's keys are exactly the distinct items |
| Counting.FrequenciesCount | src/vexy_markliff/vexy_markliff.py:52 | each count is the item's number of occurrences, so at least 1 |
| Counting.FrequenciesSum | src/vexy_markliff/vexy_markliff.py:52 | the counts add up to the number of items |
| SecurityScanner.ParseEach | scripts/security_scanner.py:148-149 | a parsed component list has one integer per component |
| SecurityScanner.ParseEachSpec | scripts/security_scanner.py:148-149 | parsing succeeds exactly when every component parses, and gives their values in order |
| SecurityScanner.ParseIntDigits | scripts/security_scanner.py:148 | `int()` of a run of digits is its decimal value |
| SecurityScanner.Zeros | scripts/security_scanner.py:153-154 | `[0] * n` is n zeros |
| SecurityScanner.LexLessSameLength | scripts/security_scanner.py:156 | list `<` on equal lengths: the first differing component is smaller |
| SecurityScanner.LexLessPadded | scripts/security_scanner.py:151-156 | comparing the zero-padded lists with `<` is the padded version order |
| SecurityScanner.VersionIsLessThan | scripts/security_scanner.py:144-159 | `_version_is_less_than` is true exactly when both versions parse and the first is less after zero padding |
| SecurityScanner.TrailingZeroIgnored | scripts/security_scanner.py:151-156 | a trailing zero component changes neither direction of the comparison |
| SecurityScanner.TrailingZeroComponent | scripts/security_scanner.py:147-156 | "v.0" compares like "v" in both directions, e.g. "2.0" and "2.0.0" |
| SecurityScanner.PaddedLessIrreflexive | scripts/security_scanner.py:156 | no version is less than itself |
| SecurityScanner.PaddedLessAsymmetric | scripts/security_scanner.py:156 | if a is less than b then b is not less than a |
| SecurityScanner.PaddedLessTotal | scripts/security_scanner.py:151-156 | versions neither less than the other agree on every padded component |
| SecurityScanner.NonIntegerIsNotLess | scripts/security_scanner.py:157-159 | a component that is not an integer makes the result false |
| SecurityScanner.ComponentsCompareAsIntegers | scripts/security_scanner.py:148-156 | "a.b" < "a.c" exactly when b < c as integers |
| SecurityScanner.GroupSecurityIssues | scripts/security_scanner.py:193-200 | the counter loop gives `SeverityCounts`: per HIGH/MEDIUM/LOW, the number of issues of that severity |
| SecurityScanner.SeverityCountsTotal | scripts/security_scanner.py:195-200 | the keys are exactly HIGH/MEDIUM/LOW; the counts sum to at most the number of issues, and to exactly that when every severity is one of the three |
| SecurityScanner.MissingSeverityIsLow | scripts/quality_metrics.py:273-277 | an issue without severity counts as LOW (the same counter as `_group_bandit_issues`) |
| SecurityScanner.UnknownSeverityIgnored | scripts/security_scanner.py:197-199 | an issue with another severity changes no count |
| QualityMetrics.Codes | scripts/quality_metrics.py:174 | each issue's code, "unknown" when absent, in order |
| QualityMetrics.GroupRuffIssues | scripts/quality_metrics.py:170-178 | the counter loop gives the frequencies of the issues' codes |
| QualityMetrics.RuffGroupsKeys | scripts/quality_metrics.py:172-177 | the keys are exactly the codes that occur |
| QualityMetrics.RuffGroupsCounts | scripts/quality_metrics.py:175-177 | each count is that code's number of issues, at least 1 |
| QualityMetrics.RuffGroupsSum | scripts/quality_metrics.py:172-178 | the counts sum to the number of issues |
| QualityMetrics.MissingCodeIsUnknown | scripts/quality_metrics.py:174 | an issue with no code counts under "unknown" |

## Left out

- I/O is not modelled: the CLI, `validate_file_path`, YAML loading in `ConversionConfig.load`, and logging, including the logger-level save/restore around `process_data`.
- Pydantic coercion and validation are not modelled. The one pydantic rejection that matters, a `source` element without text in `from_xml`, is modelled as a failure with a fixed message; the library's exact wording is not.
- The foreign libraries (markdown-it, lxml's HTML parser, XML parser and serialiser) are function parameters. `Reparse` states what the XML parser returns for a serialised tree. Pretty-print whitespace and lxml comment or processing-instruction nodes are not modelled.
- `to_xml` builds the tree as a value; the in-place `SubElement`/`set` calls are not modelled. XML escaping belongs to the serialiser parameter.
- TextUtils.ValidateLanguageCode: letters are ASCII only. Python's `isalpha`/`islower` also accept non-ASCII lower-case letters such as "éà", which the model rejects.
- TextUtils.IsSpace lists the code points of `str.isspace()`. It is not Unicode-complete beyond that list.
- SecurityScanner.ParseInt: `int()` is modelled for ASCII digits with an optional sign and surrounding whitespace. Underscores between digits and non-ASCII digits are not accepted by the model.
- SecurityScanner.VersionIsLessThan: the `AttributeError` branch (a non-string argument) cannot arise, because arguments are strings.
- QualityMetrics.CodeOf: issues are maps from string to string, so a JSON `code: null` or a non-string code is not modelled.
- SecurityScanner.SeverityOf: issues are maps from string to string, so a non-string severity is not modelled.
- `_group_bandit_issues` of scripts/quality_metrics.py:271-278 is the same code as `_group_security_issues`. It is modelled by SecurityScanner.GroupSecurityIssues and the lemmas beside it.
- `process_data`: items are taken as the strings `str(item)` gives, and the non-list TypeError cannot arise. `Config.value` floats are not modelled.
- ProcessData.SummaryEcho: `if config:` is always true for a `Config` dataclass instance, so a given config is always echoed.
- A parsed-content dict that is empty is falsy in `XLIFFDocument.__init__`. The model's `Content` always has a segment list and a structure, so it is never falsy; an absent content is `None`.
- The exception path of `reconstruct` cannot arise: every modelled segment has a content, so no KeyError is raised.
- The `critical_issues` list and the subprocess scans of scripts/security_scanner.py and scripts/quality_metrics.py are not modelled.
- Converter.HtmlRoundTrip: the way back is proved under an assumption about the black boxes, stated as its requires: whatever the serialiser produces is never blank, and the XML parser reads it back as `Reparse` describes. A serialisation failure is not assumed away. lxml rejects XML-incompatible characters in a unit's text, and the ConversionError that follows is the failing side of the lemma's if-and-only-if. Which characters the serialiser rejects is not modelled.
- The modules that other files import but that are not shown (`element_classifier`, `skeleton_generator` and others) are not part of this model.
