/**
 * src/vexy_markliff/core/converter.py: the four conversions of
 * `VexyMarkliff`. Each is a run of guard clauses followed by a chain of
 * calls whose every failure is re-raised as a ConversionError embedding
 * the original message. The black boxes of the chain (markdown-it's
 * render, lxml's HTML parse, XML serialisation and XML parse) are passed
 * in as functions.
 */
module Converter {
  import opened Wrappers
  import opened Errors
  import opened TextUtils
  import opened Parser
  import opened XmlTree
  import opened Xliff

  const XliffEmptyMessage: string := "XLIFF content cannot be empty"

  /** The guard clauses of `markdown_to_xliff` and `html_to_xliff`, in
      their order: blank content, then the source code, then the target code. */
  function RequestError(content: string, sourceLang: string, targetLang: string): (r: Option<Error>)
    ensures r.Some? ==> r.value.ValidationError?
  {
    if IsBlank(content) then Some(ValidationError(EmptyContentMessage))
    else if !ValidateLanguageCode(sourceLang) then Some(ValidationError("Invalid source language code: " + sourceLang))
    else if !ValidateLanguageCode(targetLang) then Some(ValidationError("Invalid target language code: " + targetLang))
    else None
  }

  /** The `try` block after parsing: build the document from the parsed
      content and serialise it; any error becomes a ConversionError whose
      message names the conversion and embeds the original message. */
  function BuildXliff(
    failurePrefix: string,
    parsed: Result<Content, Error>,
    sourceLang: string,
    targetLang: string,
    serialize: Node -> Result<string, string>): Result<string, Error>
  {
    var built := match parsed
      case Failure(e) => Failure(e)
      case Success(c) => ToXml(DocumentFrom(sourceLang, targetLang, Some(c)), serialize);
    match built
    case Failure(e) => Failure(ConversionError(failurePrefix + e.message))
    case Success(xml) => Success(xml)
  }

  /** `VexyMarkliff.markdown_to_xliff(content, source_lang, target_lang)` */
  function MarkdownToXliff(
    content: string,
    sourceLang: string,
    targetLang: string,
    render: string -> Result<string, string>,
    fromString: string -> Result<Element, string>,
    serialize: Node -> Result<string, string>): Result<string, Error>
  {
    match RequestError(content, sourceLang, targetLang)
    case Some(e) => Failure(e)
    case None =>
      BuildXliff("Failed to convert Markdown to XLIFF: ", MarkdownParse(content, render, fromString), sourceLang, targetLang, serialize)
  }

  /** `VexyMarkliff.html_to_xliff(content, source_lang, target_lang)` */
  function HtmlToXliff(
    content: string,
    sourceLang: string,
    targetLang: string,
    fromString: string -> Result<Element, string>,
    serialize: Node -> Result<string, string>): Result<string, Error>
  {
    match RequestError(content, sourceLang, targetLang)
    case Some(e) => Failure(e)
    case None =>
      BuildXliff("Failed to convert HTML to XLIFF: ", HtmlParse(content, fromString), sourceLang, targetLang, serialize)
  }

  /** The common body of `xliff_to_markdown` and `xliff_to_html`: the
      blank guard, then `from_xml` and `reconstruct(doc.content)`; the
      ValidationError of a malformed document is caught by the generic
      handler and re-raised as a ConversionError. */
  function FromXliff(failurePrefix: string, xliff: string, parseXml: string -> Result<QNode, string>): Result<string, Error> {
    if IsBlank(xliff) then Failure(ValidationError(XliffEmptyMessage))
    else match FromXml(xliff, parseXml)
      case Failure(e) => Failure(ConversionError(failurePrefix + e.message))
      case Success(d) => Success(Reconstruct(ContentOf(d).segments))
  }

  /** `VexyMarkliff.xliff_to_markdown(xliff_content)` */
  function XliffToMarkdown(xliff: string, parseXml: string -> Result<QNode, string>): Result<string, Error> {
    FromXliff("Failed to convert XLIFF to Markdown: ", xliff, parseXml)
  }

  /** `VexyMarkliff.xliff_to_html(xliff_content)` */
  function XliffToHtml(xliff: string, parseXml: string -> Result<QNode, string>): Result<string, Error> {
    FromXliff("Failed to convert XLIFF to HTML: ", xliff, parseXml)
  }

  // ---------------------------------------------------------------------
  // Guards and error classification
  // ---------------------------------------------------------------------

  /** A conversion to XLIFF fails with a ValidationError exactly when the
      content is blank or a language code is invalid; the blank check comes
      before any language check, and the source code is checked before the
      target code. */
  lemma MarkdownToXliffValidation(
    content: string,
    sourceLang: string,
    targetLang: string,
    render: string -> Result<string, string>,
    fromString: string -> Result<Element, string>,
    serialize: Node -> Result<string, string>)
    ensures var r := MarkdownToXliff(content, sourceLang, targetLang, render, fromString, serialize);
      && (r.Failure? && r.error.ValidationError? <==>
            IsBlank(content) || !ValidateLanguageCode(sourceLang) || !ValidateLanguageCode(targetLang))
      && (IsBlank(content) ==> r == Failure(ValidationError(EmptyContentMessage)))
      && (!IsBlank(content) && !ValidateLanguageCode(sourceLang) ==>
            r == Failure(ValidationError("Invalid source language code: " + sourceLang)))
      && (!IsBlank(content) && ValidateLanguageCode(sourceLang) && !ValidateLanguageCode(targetLang) ==>
            r == Failure(ValidationError("Invalid target language code: " + targetLang)))
  {
  }

  lemma HtmlToXliffValidation(
    content: string,
    sourceLang: string,
    targetLang: string,
    fromString: string -> Result<Element, string>,
    serialize: Node -> Result<string, string>)
    ensures var r := HtmlToXliff(content, sourceLang, targetLang, fromString, serialize);
      && (r.Failure? && r.error.ValidationError? <==>
            IsBlank(content) || !ValidateLanguageCode(sourceLang) || !ValidateLanguageCode(targetLang))
      && (IsBlank(content) ==> r == Failure(ValidationError(EmptyContentMessage)))
      && (!IsBlank(content) && !ValidateLanguageCode(sourceLang) ==>
            r == Failure(ValidationError("Invalid source language code: " + sourceLang)))
      && (!IsBlank(content) && ValidateLanguageCode(sourceLang) && !ValidateLanguageCode(targetLang) ==>
            r == Failure(ValidationError("Invalid target language code: " + targetLang)))
  {
  }

  /** Past the guards, the Markdown conversion yields the serialised
      document built from the parsed content with the given languages, and
      every failure -- of the render, the HTML parse or the serialisation --
      is a ConversionError that embeds the original message. */
  lemma MarkdownToXliffOutcome(
    content: string,
    sourceLang: string,
    targetLang: string,
    render: string -> Result<string, string>,
    fromString: string -> Result<Element, string>,
    serialize: Node -> Result<string, string>)
    requires RequestError(content, sourceLang, targetLang).None?
    ensures var r := MarkdownToXliff(content, sourceLang, targetLang, render, fromString, serialize);
      var parsed := MarkdownParse(content, render, fromString);
      && (r.Failure? ==> r.error.ConversionError?)
      && (parsed.Failure? ==>
            r == Failure(ConversionError("Failed to convert Markdown to XLIFF: " + parsed.error.message)))
      && (parsed.Success? ==>
            var tree := ToXmlTree(DocumentFrom(sourceLang, targetLang, Some(parsed.value)));
            && (serialize(tree).Success? ==> r == Success(serialize(tree).value))
            && (serialize(tree).Failure? ==>
                  r == Failure(ConversionError(
                    "Failed to convert Markdown to XLIFF: " + ("Failed to create XLIFF XML: " + serialize(tree).error)))))
  {
  }

  lemma HtmlToXliffOutcome(
    content: string,
    sourceLang: string,
    targetLang: string,
    fromString: string -> Result<Element, string>,
    serialize: Node -> Result<string, string>)
    requires RequestError(content, sourceLang, targetLang).None?
    ensures var r := HtmlToXliff(content, sourceLang, targetLang, fromString, serialize);
      && (r.Failure? ==> r.error.ConversionError?)
      && (fromString(content).Failure? ==>
            r == Failure(ConversionError(
              "Failed to convert HTML to XLIFF: " + ("Failed to parse HTML content: " + fromString(content).error))))
      && (fromString(content).Success? ==>
            var root := fromString(content).value;
            var c := Content(Segments(root), ExtractStructure(root));
            var tree := ToXmlTree(DocumentFrom(sourceLang, targetLang, Some(c)));
            && (serialize(tree).Success? ==> r == Success(serialize(tree).value))
            && (serialize(tree).Failure? ==>
                  r == Failure(ConversionError(
                    "Failed to convert HTML to XLIFF: " + ("Failed to create XLIFF XML: " + serialize(tree).error)))))
  {
  }

  /** Converting back from XLIFF fails with a ValidationError exactly on
      blank input; a document `from_xml` rejects, unparsable XML included,
      surfaces as a ConversionError. */
  lemma XliffToHtmlFailures(xliff: string, parseXml: string -> Result<QNode, string>)
    ensures var r := XliffToHtml(xliff, parseXml);
      && (r.Failure? && r.error.ValidationError? <==> IsBlank(xliff))
      && (IsBlank(xliff) ==> r == Failure(ValidationError(XliffEmptyMessage)))
      && (!IsBlank(xliff) && parseXml(xliff).Failure? ==>
            r == Failure(ConversionError("Failed to convert XLIFF to HTML: " + ("Invalid XLIFF XML: " + parseXml(xliff).error))))
      && (!IsBlank(xliff) ==> (r.Failure? <==> FromXml(xliff, parseXml).Failure?))
  {
  }

  /** `xliff_to_markdown` and `xliff_to_html` return the same text, the
      reconstruction of the document's content, and fail on the same
      inputs with the same kind of error. */
  lemma XliffToMarkdownIsXliffToHtml(xliff: string, parseXml: string -> Result<QNode, string>)
    ensures var m, h := XliffToMarkdown(xliff, parseXml), XliffToHtml(xliff, parseXml);
      && (m.Success? <==> h.Success?)
      && (m.Success? ==> m.value == h.value && m.value == Reconstruct(ContentOf(FromXml(xliff, parseXml).value).segments))
      && (m.Failure? ==> m.error.ValidationError? == h.error.ValidationError?)
  {
  }

  // ---------------------------------------------------------------------
  // HTML -> XLIFF -> HTML
  // ---------------------------------------------------------------------

  /** When every segment is translatable, every position is listed. */
  lemma {:induction false} IndicesOfAllTranslatable(segments: seq<Segment>, n: nat)
    requires n <= |segments|
    requires forall i :: 0 <= i < |segments| ==> IsTranslatable(segments[i])
    ensures |TranslatableIndices(segments, n)| == n
    ensures forall k :: 0 <= k < n ==> TranslatableIndices(segments, n)[k] == k
  {
    if n > 0 {
      IndicesOfAllTranslatable(segments, n - 1);
    }
  }

  /** The units made from extracted segments, viewed as content again,
      render exactly as the segments do. */
  lemma RenderUnitsOfWellFormed(segments: seq<Segment>)
    requires WellFormedSegments(segments)
    ensures RenderAll(UnitSegments(UnitsFor(segments))) == RenderAll(segments)
  {
    IndicesOfAllTranslatable(segments, |segments|);
    var units := UnitsFor(segments);
    var a, b := RenderAll(UnitSegments(units)), RenderAll(segments);
    forall k | 0 <= k < |segments| ensures a[k] == b[k] {
      assert units[k] == UnitAt(segments, k);
    }
  }

  /** A document built from content has no targets, so nothing changes on
      its way through XML except what `Canonical` already says. */
  lemma NewDocumentIsCanonical(sourceLang: string, targetLang: string, c: Content)
    ensures var d := DocumentFrom(sourceLang, targetLang, Some(c));
      Canonical(d) == d
  {
    var d := DocumentFrom(sourceLang, targetLang, Some(c));
    var f := d.files[0];
    UnitsKeepTranslatableText(c.segments);
    assert CanonicalFile(f).units == f.units;
    assert Canonical(d).files == d.files;
  }

  lemma NewDocumentSourcesNonEmpty(sourceLang: string, targetLang: string, c: Content)
    requires WellFormedSegments(c.segments)
    ensures SourcesNonEmpty(DocumentFrom(sourceLang, targetLang, Some(c)))
  {
    var segments := c.segments;
    var idx := TranslatableIndices(segments, |segments|);
    var units := UnitsFor(segments);
    forall k | 0 <= k < |units| ensures units[k].source != "" {
      assert units[k] == UnitAt(segments, idx[k]);
    }
  }

  /** HTML converted to XLIFF and back gives the reconstruction of the
      segments extracted from the HTML: one `<p>` line per non-blank text
      slot, in document order. The conversion to XLIFF succeeds exactly
      when the guards pass, the HTML parses and the serialiser accepts the
      document; the way back holds when the XML parser reads back what the
      serialiser wrote, as `Reparse` describes, and a serialisation is
      never blank. */
  lemma HtmlRoundTrip(
    content: string,
    sourceLang: string,
    targetLang: string,
    fromString: string -> Result<Element, string>,
    serialize: Node -> Result<string, string>,
    parseXml: string -> Result<QNode, string>)
    requires forall t :: serialize(t).Success? ==> !IsBlank(serialize(t).value)
    requires forall t :: serialize(t).Success? ==> parseXml(serialize(t).value) == Success(Reparse(t, ""))
    ensures var xliff := HtmlToXliff(content, sourceLang, targetLang, fromString, serialize);
      && (xliff.Success? <==>
            && RequestError(content, sourceLang, targetLang).None?
            && fromString(content).Success?
            && var root := fromString(content).value;
               serialize(ToXmlTree(DocumentFrom(sourceLang, targetLang, Some(Content(Segments(root), ExtractStructure(root)))))).Success?)
      && (xliff.Success? ==>
            XliffToHtml(xliff.value, parseXml) == Success(Reconstruct(Segments(fromString(content).value))))
  {
    var xliff := HtmlToXliff(content, sourceLang, targetLang, fromString, serialize);
    if RequestError(content, sourceLang, targetLang).None? {
      HtmlToXliffOutcome(content, sourceLang, targetLang, fromString, serialize);
      if fromString(content).Success? {
        var root := fromString(content).value;
        var c := Content(Segments(root), ExtractStructure(root));
        var d := DocumentFrom(sourceLang, targetLang, Some(c));
        if serialize(ToXmlTree(d)).Success? {
          var xml := serialize(ToXmlTree(d)).value;
          assert xliff == Success(xml);
          SegmentsWellFormed(root);
          NewDocumentSourcesNonEmpty(sourceLang, targetLang, c);
          XmlRoundTrip(d);
          NewDocumentIsCanonical(sourceLang, targetLang, c);
          assert FromXml(xml, parseXml) == Success(d);
          ContentOfNewDocument(sourceLang, targetLang, c);
          RenderUnitsOfWellFormed(c.segments);
        }
      }
    }
  }
}
