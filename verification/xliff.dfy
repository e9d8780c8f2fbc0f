/**
 * src/vexy_markliff/models/xliff.py: the XLIFF records, the document built
 * from parsed content, `to_xml` as the element tree it serialises, `from_xml`
 * as the reading of a parsed tree, and the `content` view.
 */
module Xliff {
  import opened Wrappers
  import opened Errors
  import opened Parser
  import opened XmlTree

  const XliffNamespace: string := "urn:oasis:names:tc:xliff:document:2.1"
  const XliffVersion: string := "2.1"
  const DefaultSourceLanguage: string := "en"
  const DefaultTargetLanguage: string := "es"
  const DefaultFileId: string := "file_1"
  const NewState: string := "new"

  /** The message of the model validation error `from_xml` hits when a
      `<source>` element has no text. */
  const SourceNotText: string := "source: Input should be a valid string"

  datatype TranslationUnit = TranslationUnit(id: string, source: string, target: Option<string>, state: string)

  datatype XliffFile = XliffFile(id: string, sourceLanguage: string, targetLanguage: string, units: seq<TranslationUnit>)

  datatype XliffDocument = XliffDocument(version: string, files: seq<XliffFile>)

  // ---------------------------------------------------------------------
  // Unit ids: f"unit_{n}"
  // ---------------------------------------------------------------------

  function DigitChar(d: nat): char
    requires d < 10
  {
    ('0' as int + d) as char
  }

  /** `str(n)` for a natural number: its decimal digits. */
  function NatToString(n: nat): (s: string)
    ensures s != []
  {
    if n < 10 then [DigitChar(n)] else NatToString(n / 10) + [DigitChar(n % 10)]
  }

  /** Different numbers have different decimal forms. */
  lemma {:induction false} NatToStringInjective(a: nat, b: nat)
    requires NatToString(a) == NatToString(b)
    ensures a == b
  {
    var s, t := NatToString(a), NatToString(b);
    assert |s| == 1 <==> a < 10;
    assert |t| == 1 <==> b < 10;
    if a < 10 {
      assert s[0] == DigitChar(a) && t[0] == DigitChar(b);
    } else {
      var p, q := NatToString(a / 10), NatToString(b / 10);
      assert s == p + [DigitChar(a % 10)] && t == q + [DigitChar(b % 10)];
      assert p == s[..|s| - 1] && q == t[..|t| - 1];
      NatToStringInjective(a / 10, b / 10);
      assert s[|s| - 1] == DigitChar(a % 10) && t[|t| - 1] == DigitChar(b % 10);
    }
  }

  function UnitId(position: nat): string {
    "unit_" + NatToString(position)
  }

  lemma UnitIdInjective(a: nat, b: nat)
    requires UnitId(a) == UnitId(b)
    ensures a == b
  {
    assert NatToString(a) == UnitId(a)[5..];
    assert NatToString(b) == UnitId(b)[5..];
    NatToStringInjective(a, b);
  }

  // ---------------------------------------------------------------------
  // XLIFFDocument.__init__ (xliff.py:39-62)
  // ---------------------------------------------------------------------

  /** The positions, among the first `n` segments, of the translatable ones. */
  function TranslatableIndices(segments: seq<Segment>, n: nat): (r: seq<nat>)
    requires n <= |segments|
    ensures forall k :: 0 <= k < |r| ==> r[k] < n
  {
    if n == 0 then []
    else TranslatableIndices(segments, n - 1) + (if IsTranslatable(segments[n - 1]) then [n - 1] else [])
  }

  /** The unit made for the segment at index `i`. */
  function UnitAt(segments: seq<Segment>, i: nat): TranslationUnit
    requires i < |segments|
  {
    TranslationUnit(UnitId(i + 1), segments[i].content, None, NewState)
  }

  /** The units made for the translatable segments among the first `n`. */
  function UnitsUpTo(segments: seq<Segment>, n: nat): seq<TranslationUnit>
    requires n <= |segments|
  {
    var idx := TranslatableIndices(segments, n);
    seq(|idx|, k requires 0 <= k < |idx| => UnitAt(segments, idx[k]))
  }

  function UnitsFor(segments: seq<Segment>): seq<TranslationUnit> {
    UnitsUpTo(segments, |segments|)
  }

  /** The document `XLIFFDocument(source_lang, target_lang, content)` holds:
      without content, version 2.1 and no files; with content, one file
      `file_1` with the given languages and one unit per translatable segment. */
  function DocumentFrom(sourceLang: string, targetLang: string, content: Option<Content>): XliffDocument {
    match content
    case None => XliffDocument(XliffVersion, [])
    case Some(c) =>
      XliffDocument(XliffVersion, [XliffFile(DefaultFileId, sourceLang, targetLang, UnitsFor(c.segments))])
  }

  lemma UnitsUpToStep(segments: seq<Segment>, i: nat)
    requires i < |segments|
    ensures UnitsUpTo(segments, i + 1) ==
      UnitsUpTo(segments, i) + (if IsTranslatable(segments[i]) then [UnitAt(segments, i)] else [])
  {
  }

  /** `XLIFFDocument.__init__`: the loop over the segments that appends a
      unit for each translatable one, then the single file. */
  method NewDocument(sourceLang: string, targetLang: string, content: Option<Content>) returns (doc: XliffDocument)
    ensures doc == DocumentFrom(sourceLang, targetLang, content)
  {
    doc := XliffDocument(XliffVersion, []);
    if content.Some? {
      var segments := content.value.segments;
      var units: seq<TranslationUnit> := [];
      for i := 0 to |segments|
        invariant units == UnitsUpTo(segments, i)
      {
        UnitsUpToStep(segments, i);
        var segment := segments[i];
        if IsTranslatable(segment) {
          units := units + [TranslationUnit(UnitId(i + 1), segment.content, None, NewState)];
        }
      }
      assert units == UnitsFor(segments);
      doc := doc.(files := [XliffFile(DefaultFileId, sourceLang, targetLang, units)]);
    }
  }

  predicate Increasing(idx: seq<nat>) {
    forall k, l :: 0 <= k < l < |idx| ==> idx[k] < idx[l]
  }

  predicate AllTranslatable(segments: seq<Segment>, idx: seq<nat>) {
    forall k :: 0 <= k < |idx| ==> idx[k] < |segments| && IsTranslatable(segments[idx[k]])
  }

  /** The translatable positions are listed in increasing order. */
  lemma {:induction false} IndicesIncreasing(segments: seq<Segment>, n: nat)
    requires n <= |segments|
    ensures Increasing(TranslatableIndices(segments, n))
  {
    if n > 0 {
      var prev := TranslatableIndices(segments, n - 1);
      var idx := TranslatableIndices(segments, n);
      IndicesIncreasing(segments, n - 1);
      forall k, l | 0 <= k < l < |idx| ensures idx[k] < idx[l] {
        assert idx[k] == prev[k];
        if l < |prev| {
          assert idx[l] == prev[l];
        }
      }
    }
  }

  /** Only translatable positions are listed. */
  lemma {:induction false} IndicesTranslatable(segments: seq<Segment>, n: nat)
    requires n <= |segments|
    ensures AllTranslatable(segments, TranslatableIndices(segments, n))
  {
    if n > 0 {
      var prev := TranslatableIndices(segments, n - 1);
      var idx := TranslatableIndices(segments, n);
      IndicesTranslatable(segments, n - 1);
      forall k | 0 <= k < |idx| ensures idx[k] < |segments| && IsTranslatable(segments[idx[k]]) {
        if k < |prev| {
          assert idx[k] == prev[k];
        }
      }
    }
  }

  /** Every translatable position is listed. */
  lemma {:induction false} IndicesComplete(segments: seq<Segment>, n: nat, j: nat)
    requires n <= |segments|
    requires j < n && IsTranslatable(segments[j])
    ensures j in TranslatableIndices(segments, n)
  {
    var prev := TranslatableIndices(segments, n - 1);
    var idx := TranslatableIndices(segments, n);
    if j < n - 1 {
      IndicesComplete(segments, n - 1, j);
      var k :| 0 <= k < |prev| && prev[k] == j;
      assert idx[k] == j;
    } else {
      assert idx[|idx| - 1] == j;
    }
  }

  /** Unit ids are `unit_{i+1}` for the segment index `i`, so they are
      pairwise distinct and follow segment order; every translatable
      segment has its unit, and only those do. */
  lemma UnitIdsDistinct(segments: seq<Segment>)
    ensures forall k, l :: 0 <= k < l < |UnitsFor(segments)| ==>
      UnitsFor(segments)[k].id != UnitsFor(segments)[l].id
  {
    var idx := TranslatableIndices(segments, |segments|);
    var units := UnitsFor(segments);
    IndicesIncreasing(segments, |segments|);
    forall k, l | 0 <= k < l < |units| ensures units[k].id != units[l].id {
      assert units[k].id == UnitId(idx[k] + 1) && units[l].id == UnitId(idx[l] + 1);
      if units[k].id == units[l].id {
        UnitIdInjective(idx[k] + 1, idx[l] + 1);
      }
    }
  }

  /** The unit for segment `i` exists exactly when that segment is translatable. */
  lemma UnitForEveryTranslatableSegment(segments: seq<Segment>, i: nat)
    requires i < |segments|
    ensures (exists k :: 0 <= k < |UnitsFor(segments)| && UnitsFor(segments)[k].id == UnitId(i + 1))
      <==> IsTranslatable(segments[i])
  {
    var idx := TranslatableIndices(segments, |segments|);
    var units := UnitsFor(segments);
    if IsTranslatable(segments[i]) {
      IndicesComplete(segments, |segments|, i);
      var k :| 0 <= k < |idx| && idx[k] == i;
      assert units[k].id == UnitId(i + 1);
    } else {
      IndicesTranslatable(segments, |segments|);
      forall k | 0 <= k < |units| ensures units[k].id != UnitId(i + 1) {
        assert units[k].id == UnitId(idx[k] + 1);
        assert IsTranslatable(segments[idx[k]]);
        if units[k].id == UnitId(i + 1) {
          UnitIdInjective(idx[k] + 1, i + 1);
        }
      }
    }
  }

  /** The texts of the translatable segments, in order. */
  function TranslatableContents(segments: seq<Segment>): seq<string> {
    if segments == [] then []
    else
      var last := segments[|segments| - 1];
      TranslatableContents(segments[..|segments| - 1]) + (if IsTranslatable(last) then [last.content] else [])
  }

  function Sources(units: seq<TranslationUnit>): seq<string> {
    seq(|units|, k requires 0 <= k < |units| => units[k].source)
  }

  lemma {:induction false} SourcesUpTo(segments: seq<Segment>, n: nat)
    requires n <= |segments|
    ensures Sources(UnitsUpTo(segments, n)) == TranslatableContents(segments[..n])
  {
    if n > 0 {
      SourcesUpTo(segments, n - 1);
      UnitsUpToStep(segments, n - 1);
      assert segments[..n][..n - 1] == segments[..n - 1];
    } else {
      assert segments[..0] == [];
    }
  }

  /** The units hold the translatable segments' texts, in segment order;
      every unit is new and has no target. */
  lemma UnitsKeepTranslatableText(segments: seq<Segment>)
    ensures Sources(UnitsFor(segments)) == TranslatableContents(segments)
    ensures forall k :: 0 <= k < |UnitsFor(segments)| ==>
      UnitsFor(segments)[k].state == NewState && UnitsFor(segments)[k].target == None
  {
    SourcesUpTo(segments, |segments|);
    assert segments[..|segments|] == segments;
  }

  /** The documents of xliff.py's tests: one with no content, and one built
      from two translatable segments and a comment marked untranslatable. */
  lemma DocumentExamples()
    ensures DocumentFrom(DefaultSourceLanguage, DefaultTargetLanguage, None) == XliffDocument("2.1", [])
    ensures var c := Content([
        Segment("Hello world", Some(true), "p"),
        Segment("How are you?", Some(true), "p"),
        Segment("<!-- Comment -->", Some(false), "p")], Structure("div", map[], 3));
      DocumentFrom("en", "es", Some(c)) == XliffDocument("2.1", [XliffFile("file_1", "en", "es", [
        TranslationUnit("unit_1", "Hello world", None, "new"),
        TranslationUnit("unit_2", "How are you?", None, "new")])])
  {
    var segments := [
      Segment("Hello world", Some(true), "p"),
      Segment("How are you?", Some(true), "p"),
      Segment("<!-- Comment -->", Some(false), "p")];
    assert TranslatableIndices(segments, 1) == [0];
    assert TranslatableIndices(segments, 2) == [0, 1];
    assert TranslatableIndices(segments, 3) == [0, 1];
    assert NatToString(1) == "1" && NatToString(2) == "2";
    assert UnitsFor(segments) == [UnitAt(segments, 0), UnitAt(segments, 1)];
    assert UnitId(1) == "unit_1" && UnitId(2) == "unit_2";
    assert UnitAt(segments, 0) == TranslationUnit("unit_1", "Hello world", None, "new");
    assert UnitAt(segments, 1) == TranslationUnit("unit_2", "How are you?", None, "new");
  }

  // ---------------------------------------------------------------------
  // to_xml (xliff.py:119-159)
  // ---------------------------------------------------------------------

  /** `if unit.target:` -- a missing or empty target is not written. */
  predicate HasTarget(u: TranslationUnit) {
    u.target.Some? && u.target.value != ""
  }

  function UnitNode(u: TranslationUnit): Node {
    Node("trans-unit", map["id" := u.id, "state" := u.state], None,
      [Node("source", map[], Some(u.source), [])]
      + (if HasTarget(u) then [Node("target", map[], u.target, [])] else []))
  }

  function FileNode(f: XliffFile): Node {
    Node("file", map["id" := f.id, "source-language" := f.sourceLanguage, "target-language" := f.targetLanguage], None,
      seq(|f.units|, j requires 0 <= j < |f.units| => UnitNode(f.units[j])))
  }

  /** The tree `to_xml` builds: an `xliff` root with the version and the
      XLIFF namespace, one `file` per file and one `trans-unit` per unit. */
  function ToXmlTree(d: XliffDocument): Node {
    Node("xliff", map["version" := d.version, "xmlns" := XliffNamespace], None,
      seq(|d.files|, i requires 0 <= i < |d.files| => FileNode(d.files[i])))
  }

  /** The element-building loops of `to_xml`. */
  method BuildXmlTree(d: XliffDocument) returns (root: Node)
    ensures root == ToXmlTree(d)
  {
    var fileNodes: seq<Node> := [];
    for i := 0 to |d.files|
      invariant fileNodes == seq(i, k requires 0 <= k < i => FileNode(d.files[k]))
    {
      var f := d.files[i];
      var unitNodes: seq<Node> := [];
      for j := 0 to |f.units|
        invariant unitNodes == seq(j, k requires 0 <= k < j => UnitNode(f.units[k]))
      {
        var unit := f.units[j];
        var children := [Node("source", map[], Some(unit.source), [])];
        if unit.target.Some? && unit.target.value != "" {
          children := children + [Node("target", map[], unit.target, [])];
        } else {
          assert children == children + [];
        }
        var unitNode := Node("trans-unit", map["id" := unit.id, "state" := unit.state], None, children);
        assert unitNode == UnitNode(unit);
        unitNodes := unitNodes + [unitNode];
      }
      var attrs := map["id" := f.id, "source-language" := f.sourceLanguage, "target-language" := f.targetLanguage];
      var fileNode := Node("file", attrs, None, unitNodes);
      assert fileNode == FileNode(f);
      fileNodes := fileNodes + [fileNode];
    }
    root := Node("xliff", map["version" := d.version, "xmlns" := XliffNamespace], None, fileNodes);
    assert root == ToXmlTree(d);
  }

  /** `to_xml()`: the tree, serialised by `etree.tostring`, which is passed
      in; its failure becomes a ValidationError. */
  function ToXml(d: XliffDocument, serialize: Node -> Result<string, string>): Result<string, Error> {
    match serialize(ToXmlTree(d))
    case Failure(msg) => Failure(ValidationError("Failed to create XLIFF XML: " + msg))
    case Success(xml) => Success(xml)
  }

  // ---------------------------------------------------------------------
  // from_xml (xliff.py:64-117)
  // ---------------------------------------------------------------------

  /** One `trans-unit` element read as the unit at `position` (1-based) of
      its file: the id defaults to `unit_{position}`, the state to "new";
      a missing `source` element reads as "", a `source` element without
      text is rejected, a missing `target` element or text reads as None. */
  function ReadUnit(u: QNode, position: nat): Result<TranslationUnit, string> {
    var sourceElem := FindChild(u, XliffNamespace, "source");
    var targetElem := FindChild(u, XliffNamespace, "target");
    var sourceText := if sourceElem.Some? then sourceElem.value.text else Some("");
    var targetText := if targetElem.Some? then targetElem.value.text else None;
    if sourceText.None? then Failure(SourceNotText)
    else Success(TranslationUnit(Get(u, "id", UnitId(position)), sourceText.value, targetText, Get(u, "state", NewState)))
  }

  /** The units read from `us` after the units `acc` already read. */
  function ReadUnits(us: seq<QNode>, acc: seq<TranslationUnit>): Result<seq<TranslationUnit>, string>
    decreases |us|
  {
    if us == [] then Success(acc)
    else match ReadUnit(us[0], |acc| + 1)
      case Failure(msg) => Failure(msg)
      case Success(unit) => ReadUnits(us[1..], acc + [unit])
  }

  /** The `trans-unit` elements inside `f`. */
  function UnitElements(f: QNode): seq<QNode> {
    FindBelow(f, XliffNamespace, "trans-unit", |f.children|)
  }

  /** One `file` element: its units, with languages defaulting to en/es
      and the id to `file_1`. */
  function ReadFile(f: QNode): Result<XliffFile, string> {
    match ReadUnits(UnitElements(f), [])
    case Failure(msg) => Failure(msg)
    case Success(units) =>
      Success(XliffFile(
        Get(f, "id", DefaultFileId),
        Get(f, "source-language", DefaultSourceLanguage),
        Get(f, "target-language", DefaultTargetLanguage),
        units))
  }

  function ReadFiles(fs: seq<QNode>, acc: seq<XliffFile>): Result<seq<XliffFile>, string>
    decreases |fs|
  {
    if fs == [] then Success(acc)
    else match ReadFile(fs[0])
      case Failure(msg) => Failure(msg)
      case Success(file) => ReadFiles(fs[1..], acc + [file])
  }

  /** The `file` elements of the document, the root included. */
  function FileElements(root: QNode): seq<QNode> {
    FindAll(root, XliffNamespace, "file")
  }

  /** The document read from a parsed tree; the version is always 2.1. */
  function FromXmlTree(root: QNode): Result<XliffDocument, string> {
    match ReadFiles(FileElements(root), [])
    case Failure(msg) => Failure(msg)
    case Success(files) => Success(XliffDocument(XliffVersion, files))
  }

  /** `XLIFFDocument.from_xml(xml_content)`: `parseXml` is lxml's
      `etree.fromstring`; every failure becomes a ValidationError. */
  function FromXml(xml: string, parseXml: string -> Result<QNode, string>): Result<XliffDocument, Error> {
    match parseXml(xml)
    case Failure(msg) => Failure(ValidationError("Invalid XLIFF XML: " + msg))
    case Success(root) =>
      match FromXmlTree(root)
      case Failure(msg) => Failure(ValidationError("Invalid XLIFF XML: " + msg))
      case Success(d) => Success(d)
  }

  /** The nested reading loops of `from_xml`, on the parsed tree. */
  method ReadDocument(root: QNode) returns (r: Result<XliffDocument, string>)
    ensures r == FromXmlTree(root)
  {
    var fileElems := FileElements(root);
    var files: seq<XliffFile> := [];
    for i := 0 to |fileElems|
      invariant ReadFiles(fileElems, []) == ReadFiles(fileElems[i..], files)
    {
      var fileElem := fileElems[i];
      var unitElems := UnitElements(fileElem);
      var units: seq<TranslationUnit> := [];
      for j := 0 to |unitElems|
        invariant ReadUnits(unitElems, []) == ReadUnits(unitElems[j..], units)
      {
        var unitElem := unitElems[j];
        var unitId := Get(unitElem, "id", UnitId(|units| + 1));
        var sourceElem := FindChild(unitElem, XliffNamespace, "source");
        var targetElem := FindChild(unitElem, XliffNamespace, "target");
        var sourceText := if sourceElem.Some? then sourceElem.value.text else Some("");
        var targetText := if targetElem.Some? then targetElem.value.text else None;
        if sourceText.None? {
          assert ReadUnits(unitElems[j..], units) == Failure(SourceNotText);
          assert ReadFile(fileElem) == Failure(SourceNotText);
          assert ReadFiles(fileElems[i..], files) == Failure(SourceNotText);
          return Failure(SourceNotText);
        }
        var unit := TranslationUnit(unitId, sourceText.value, targetText, Get(unitElem, "state", NewState));
        assert unitElems[j..][1..] == unitElems[j + 1..];
        units := units + [unit];
      }
      var file := XliffFile(
        Get(fileElem, "id", DefaultFileId),
        Get(fileElem, "source-language", DefaultSourceLanguage),
        Get(fileElem, "target-language", DefaultTargetLanguage),
        units);
      assert fileElems[i..][1..] == fileElems[i + 1..];
      files := files + [file];
    }
    r := Success(XliffDocument(XliffVersion, files));
  }

  /** Reading never fails on the tree it is given except through a
      `source` element without text; every failure of `from_xml` is a
      ValidationError. */
  lemma FromXmlFailures(xml: string, parseXml: string -> Result<QNode, string>)
    ensures var r := FromXml(xml, parseXml);
      r.Failure? ==> r.error.ValidationError?
    ensures parseXml(xml).Failure? ==>
      FromXml(xml, parseXml) == Failure(ValidationError("Invalid XLIFF XML: " + parseXml(xml).error))
  {
  }

  /** `r` begins with `acc` and then holds one unit per element of `us`,
      whose id and state are the element's attributes when present and
      otherwise the positional id and "new". */
  predicate UnitsDefaulted(us: seq<QNode>, acc: seq<TranslationUnit>, r: seq<TranslationUnit>) {
    && |r| == |acc| + |us|
    && r[..|acc|] == acc
    && forall k :: 0 <= k < |us| ==>
         && (r[|acc| + k].id == if "id" in us[k].attrs then us[k].attrs["id"] else UnitId(|acc| + k + 1))
         && (r[|acc| + k].state == if "state" in us[k].attrs then us[k].attrs["state"] else NewState)
  }

  /** The units read after `acc`: as many as there are elements; a unit
      whose element has no id is named after its position in the file, and
      one without a state is "new". */
  lemma {:induction false} ReadUnitsDefaults(us: seq<QNode>, acc: seq<TranslationUnit>)
    requires ReadUnits(us, acc).Success?
    ensures UnitsDefaulted(us, acc, ReadUnits(us, acc).value)
    decreases |us|
  {
    if us != [] {
      var unit := ReadUnit(us[0], |acc| + 1).value;
      ReadUnitsDefaults(us[1..], acc + [unit]);
      assert ReadUnits(us, acc) == ReadUnits(us[1..], acc + [unit]);
      DefaultedCons(us, acc, unit, ReadUnits(us, acc).value);
    }
  }

  lemma {:induction false} DefaultedCons(us: seq<QNode>, acc: seq<TranslationUnit>, unit: TranslationUnit, r: seq<TranslationUnit>)
    requires us != []
    requires unit.id == if "id" in us[0].attrs then us[0].attrs["id"] else UnitId(|acc| + 1)
    requires unit.state == if "state" in us[0].attrs then us[0].attrs["state"] else NewState
    requires UnitsDefaulted(us[1..], acc + [unit], r)
    ensures UnitsDefaulted(us, acc, r)
  {
    assert r[..|acc|] == r[..|acc + [unit]|][..|acc|];
    assert r[|acc|] == r[..|acc + [unit]|][|acc|];
    forall k | 0 <= k < |us|
      ensures r[|acc| + k].id == if "id" in us[k].attrs then us[k].attrs["id"] else UnitId(|acc| + k + 1)
      ensures r[|acc| + k].state == if "state" in us[k].attrs then us[k].attrs["state"] else NewState
    {
      if k > 0 {
        assert us[k] == us[1..][k - 1];
        assert |acc| + k == |acc + [unit]| + (k - 1);
      }
    }
  }

  /** A document whose elements all lie outside the XLIFF 2.1 namespace
      yields a document with no files rather than an error. */
  lemma ForeignNamespaceHasNoFiles(root: QNode)
    requires OutsideNamespace(root, XliffNamespace)
    ensures FromXmlTree(root) == Success(XliffDocument(XliffVersion, []))
  {
    OutsideNamespaceLacks(root, XliffNamespace, "file");
    FindAllLacking(root, XliffNamespace, "file");
  }

  /** The XLIFF 2.1 `<unit>`/`<segment>` vocabulary is not read: a file whose
      units are written that way yields a file with no units. This is the
      document of xliff.py's `test_create_from_xml`. */
  lemma UnitVocabularyIgnored()
    ensures var ns := XliffNamespace;
      var segment := QNode(ns, "segment", map[], None, [
        QNode(ns, "source", map[], Some("Hello"), []),
        QNode(ns, "target", map[], Some("Hola"), [])]);
      var unit := QNode(ns, "unit", map["id" := "u1"], None, [segment]);
      var file := QNode(ns, "file", map["id" := "f1", "source-language" := "en", "target-language" := "es"], None, [unit]);
      var root := QNode(ns, "xliff", map["version" := "2.1"], None, [file]);
      FromXmlTree(root) == Success(XliffDocument("2.1", [XliffFile("f1", "en", "es", [])]))
  {
    var ns := XliffNamespace;
    var segment := QNode(ns, "segment", map[], None, [
      QNode(ns, "source", map[], Some("Hello"), []),
      QNode(ns, "target", map[], Some("Hola"), [])]);
    var unit := QNode(ns, "unit", map["id" := "u1"], None, [segment]);
    var file := QNode(ns, "file", map["id" := "f1", "source-language" := "en", "target-language" := "es"], None, [unit]);
    var root := QNode(ns, "xliff", map["version" := "2.1"], None, [file]);
    assert Lacks(unit, ns, "trans-unit") by {
      assert Lacks(segment, ns, "trans-unit") by {
        assert Lacks(segment.children[0], ns, "trans-unit");
        assert Lacks(segment.children[1], ns, "trans-unit");
      }
    }
    FindAllLacking(unit, ns, "trans-unit");
    assert FindBelow(file, ns, "trans-unit", 1) == FindBelow(file, ns, "trans-unit", 0) + FindAll(unit, ns, "trans-unit");
    assert UnitElements(file) == [];
    assert Lacks(unit, ns, "file") by {
      assert Lacks(segment, ns, "file") by {
        assert Lacks(segment.children[0], ns, "file");
        assert Lacks(segment.children[1], ns, "file");
      }
    }
    FindAllLacking(unit, ns, "file");
    assert FindBelow(file, ns, "file", 1) == FindBelow(file, ns, "file", 0) + FindAll(unit, ns, "file");
    assert FindAll(file, ns, "file") == [file];
    assert FindBelow(root, ns, "file", 1) == FindBelow(root, ns, "file", 0) + FindAll(file, ns, "file");
    assert FileElements(root) == [file];
    assert ReadFile(file) == Success(XliffFile("f1", "en", "es", []));
    var fs := [file];
    var acc: seq<XliffFile> := [];
    var f1 := XliffFile("f1", "en", "es", []);
    assert fs[0] == file && fs[1..] == [] && acc + [f1] == [f1];
    assert ReadFiles(fs, acc) == ReadFiles(fs[1..], acc + [f1]);
    assert ReadFiles([file], []) == ReadFiles([], [XliffFile("f1", "en", "es", [])]);
  }

  // ---------------------------------------------------------------------
  // Round trip: from_xml(to_xml(d))
  // ---------------------------------------------------------------------

  /** What survives the trip through XML: a unit's empty target is not
      written and so reads back as None; the version reads back as 2.1. */
  function CanonicalUnit(u: TranslationUnit): TranslationUnit {
    u.(target := if HasTarget(u) then u.target else None)
  }

  function CanonicalFile(f: XliffFile): XliffFile {
    f.(units := seq(|f.units|, j requires 0 <= j < |f.units| => CanonicalUnit(f.units[j])))
  }

  function Canonical(d: XliffDocument): XliffDocument {
    XliffDocument(XliffVersion, seq(|d.files|, i requires 0 <= i < |d.files| => CanonicalFile(d.files[i])))
  }

  predicate SourcesNonEmpty(d: XliffDocument) {
    forall i, j :: 0 <= i < |d.files| && 0 <= j < |d.files[i].units| ==> d.files[i].units[j].source != ""
  }

  /** The parsed `trans-unit` element of a unit. */
  function UnitQ(u: TranslationUnit): QNode {
    Reparse(UnitNode(u), XliffNamespace)
  }

  function FileQ(f: XliffFile): QNode {
    Reparse(FileNode(f), XliffNamespace)
  }

  /** The parsed `file` elements of the files, in order. */
  function FileQs(files: seq<XliffFile>): (qs: seq<QNode>)
    ensures |qs| == |files|
    ensures forall i :: 0 <= i < |files| ==> qs[i] == FileQ(files[i])
  {
    seq(|files|, i requires 0 <= i < |files| => FileQ(files[i]))
  }

  lemma UnitQShape(u: TranslationUnit)
    ensures var q := UnitQ(u);
      && q.ns == XliffNamespace && q.local == "trans-unit"
      && Get(q, "id", "") == u.id && Get(q, "state", "") == u.state
      && |q.children| == (if HasTarget(u) then 2 else 1)
      && q.children[0] == QNode(XliffNamespace, "source", map[], if u.source == "" then None else Some(u.source), [])
      && (HasTarget(u) ==> q.children[1] == QNode(XliffNamespace, "target", map[], u.target, []))
  {
    var q := UnitQ(u);
    var n := UnitNode(u);
    var attrs := map["id" := u.id, "state" := u.state];
    var empty: map<string, string> := map[];
    assert "xmlns" !in attrs;
    assert q.attrs == attrs;
    assert empty - {"xmlns"} == empty;
    assert n.children[0] == Node("source", empty, Some(u.source), []);
    assert q.children[0] == Reparse(n.children[0], XliffNamespace);
    if HasTarget(u) {
      assert n.children[1] == Node("target", empty, u.target, []);
      assert q.children[1] == Reparse(n.children[1], XliffNamespace);
    }
  }

  lemma ReadUnitRoundTrip(u: TranslationUnit, position: nat)
    requires u.source != ""
    ensures ReadUnit(UnitQ(u), position) == Success(CanonicalUnit(u))
  {
    var q := UnitQ(u);
    UnitQShape(u);
    assert FindChild(q, XliffNamespace, "source") == Some(q.children[0]);
    if HasTarget(u) {
      assert q.children[1..] == [q.children[1]];
      assert FindChild(q, XliffNamespace, "target") == Some(q.children[1]);
    } else {
      assert FindChild(q, XliffNamespace, "target") == None;
    }
  }

  /** Nothing in a unit's element is a `file` or a nested `trans-unit`. */
  lemma UnitQLacks(u: TranslationUnit, local: string)
    requires local == "file" || local == "trans-unit"
    ensures forall j :: 0 <= j < |UnitQ(u).children| ==> Lacks(UnitQ(u).children[j], XliffNamespace, local)
    ensures local == "file" ==> Lacks(UnitQ(u), XliffNamespace, local)
  {
    UnitQShape(u);
  }

  lemma FileQShape(f: XliffFile)
    ensures var q := FileQ(f);
      && q.ns == XliffNamespace && q.local == "file"
      && Get(q, "id", "") == f.id
      && Get(q, "source-language", "") == f.sourceLanguage
      && Get(q, "target-language", "") == f.targetLanguage
      && q.children == seq(|f.units|, j requires 0 <= j < |f.units| => UnitQ(f.units[j]))
  {
    var attrs := map["id" := f.id, "source-language" := f.sourceLanguage, "target-language" := f.targetLanguage];
    assert "xmlns" !in attrs;
    assert FileQ(f).attrs == attrs;
  }

  /** The `trans-unit` elements of a written file are its units, in order. */
  lemma FileQUnits(f: XliffFile)
    ensures UnitElements(FileQ(f)) == FileQ(f).children
  {
    var q := FileQ(f);
    FileQShape(f);
    forall i | 0 <= i < |q.children|
      ensures Named(q.children[i], XliffNamespace, "trans-unit")
      ensures forall j :: 0 <= j < |q.children[i].children| ==> Lacks(q.children[i].children[j], XliffNamespace, "trans-unit")
    {
      UnitQShape(f.units[i]);
      UnitQLacks(f.units[i], "trans-unit");
    }
    FindBelowFlat(q, XliffNamespace, "trans-unit", |q.children|);
    assert q.children[..|q.children|] == q.children;
  }

  /** Elements that each read as a known unit, whatever their position,
      read as those units in order. */
  lemma {:induction false} ReadUnitsAll(qs: seq<QNode>, cs: seq<TranslationUnit>, acc: seq<TranslationUnit>)
    requires |cs| == |qs|
    requires forall j, p :: 0 <= j < |qs| ==> ReadUnit(qs[j], p) == Success(cs[j])
    ensures ReadUnits(qs, acc) == Success(acc + cs)
    decreases |qs|
  {
    if qs == [] {
      assert acc + cs == acc;
    } else {
      assert ReadUnit(qs[0], |acc| + 1) == Success(cs[0]);
      assert ReadUnits(qs, acc) == ReadUnits(qs[1..], acc + [cs[0]]);
      forall j, p | 0 <= j < |qs[1..]| ensures ReadUnit(qs[1..][j], p) == Success(cs[1..][j]) {
        assert qs[1..][j] == qs[j + 1];
      }
      ReadUnitsAll(qs[1..], cs[1..], acc + [cs[0]]);
      assert acc + cs == acc + [cs[0]] + cs[1..];
    }
  }

  lemma ReadFileRoundTrip(f: XliffFile)
    requires forall j :: 0 <= j < |f.units| ==> f.units[j].source != ""
    ensures ReadFile(FileQ(f)) == Success(CanonicalFile(f))
  {
    var q := FileQ(f);
    var cs := CanonicalFile(f).units;
    FileQShape(f);
    FileQUnits(f);
    forall j, p | 0 <= j < |q.children| ensures ReadUnit(q.children[j], p) == Success(cs[j]) {
      ReadUnitRoundTrip(f.units[j], p);
    }
    ReadUnitsAll(q.children, cs, []);
    assert [] + cs == cs;
  }

  /** Elements that each read as a known file read as those files in order. */
  lemma {:induction false} ReadFilesAll(qs: seq<QNode>, cs: seq<XliffFile>, acc: seq<XliffFile>)
    requires |cs| == |qs|
    requires forall i :: 0 <= i < |qs| ==> ReadFile(qs[i]) == Success(cs[i])
    ensures ReadFiles(qs, acc) == Success(acc + cs)
    decreases |qs|
  {
    if qs == [] {
      assert acc + cs == acc;
    } else {
      forall i | 0 <= i < |qs[1..]| ensures ReadFile(qs[1..][i]) == Success(cs[1..][i]) {
        assert qs[1..][i] == qs[i + 1];
      }
      ReadFilesAll(qs[1..], cs[1..], acc + [cs[0]]);
      ReadFilesStep(qs, cs, acc);
    }
  }

  lemma {:induction false} ReadFilesStep(qs: seq<QNode>, cs: seq<XliffFile>, acc: seq<XliffFile>)
    requires |cs| == |qs| > 0
    requires ReadFile(qs[0]) == Success(cs[0])
    requires ReadFiles(qs[1..], acc + [cs[0]]) == Success(acc + [cs[0]] + cs[1..])
    ensures ReadFiles(qs, acc) == Success(acc + cs)
  {
    assert acc + cs == acc + [cs[0]] + cs[1..];
  }

  lemma RootQShape(d: XliffDocument)
    ensures var q := Reparse(ToXmlTree(d), "");
      && q.ns == XliffNamespace && q.local == "xliff"
      && Get(q, "version", "") == d.version
      && q.children == FileQs(d.files)
  {
    var attrs := map["version" := d.version, "xmlns" := XliffNamespace];
    assert Reparse(ToXmlTree(d), "").attrs == attrs - {"xmlns"};
    assert "version" in attrs - {"xmlns"};
  }

  /** The written document has one `file` element per file, in order, each
      carrying that file's id and languages. */
  lemma WrittenFiles(d: XliffDocument)
    ensures var q := Reparse(ToXmlTree(d), "");
      && FileElements(q) == FileQs(d.files)
      && forall i :: 0 <= i < |d.files| ==>
           && Get(FileElements(q)[i], "id", "") == d.files[i].id
           && Get(FileElements(q)[i], "source-language", "") == d.files[i].sourceLanguage
           && Get(FileElements(q)[i], "target-language", "") == d.files[i].targetLanguage
  {
    RootFileElements(d);
    forall i | 0 <= i < |d.files|
      ensures Get(FileQ(d.files[i]), "id", "") == d.files[i].id
      ensures Get(FileQ(d.files[i]), "source-language", "") == d.files[i].sourceLanguage
      ensures Get(FileQ(d.files[i]), "target-language", "") == d.files[i].targetLanguage
    {
      FileQShape(d.files[i]);
    }
  }

  lemma RootFileElements(d: XliffDocument)
    ensures FileElements(Reparse(ToXmlTree(d), "")) == FileQs(d.files)
  {
    var q := Reparse(ToXmlTree(d), "");
    RootQShape(d);
    forall i | 0 <= i < |q.children|
      ensures Named(q.children[i], XliffNamespace, "file")
      ensures forall j :: 0 <= j < |q.children[i].children| ==> Lacks(q.children[i].children[j], XliffNamespace, "file")
    {
      FileQLacks(d.files[i]);
    }
    FindBelowFlat(q, XliffNamespace, "file", |q.children|);
    assert q.children[..|q.children|] == q.children;
    assert !Named(q, XliffNamespace, "file");
  }

  /** A written file is a `file` element with no `file` element below it. */
  lemma FileQLacks(f: XliffFile)
    ensures Named(FileQ(f), XliffNamespace, "file")
    ensures forall j :: 0 <= j < |FileQ(f).children| ==> Lacks(FileQ(f).children[j], XliffNamespace, "file")
  {
    FileQShape(f);
    forall j | 0 <= j < |f.units| ensures Lacks(FileQ(f).children[j], XliffNamespace, "file") {
      UnitQLacks(f.units[j], "file");
    }
  }

  /** Writing a document and reading it back keeps its files' ids and
      languages and its units' ids, sources, targets and states, in order,
      provided no source is empty; an empty target comes back as None and
      the version as 2.1. */
  lemma XmlRoundTrip(d: XliffDocument)
    requires SourcesNonEmpty(d)
    ensures FromXmlTree(Reparse(ToXmlTree(d), "")) == Success(Canonical(d))
  {
    WrittenFiles(d);
    var qs := FileElements(Reparse(ToXmlTree(d), ""));
    var cs := Canonical(d).files;
    forall i | 0 <= i < |qs| ensures ReadFile(qs[i]) == Success(cs[i]) {
      ReadFileRoundTrip(d.files[i]);
    }
    ReadFilesAll(qs, cs, []);
    assert [] + cs == cs;
  }

  /** A unit whose `source` element has no text -- as an empty source is
      written -- makes `from_xml` fail. */
  lemma EmptySourceRejected(u: TranslationUnit, position: nat)
    requires u.source == ""
    ensures ReadUnit(UnitQ(u), position) == Failure(SourceNotText)
  {
    UnitQShape(u);
    assert FindChild(UnitQ(u), XliffNamespace, "source") == Some(UnitQ(u).children[0]);
  }

  // ---------------------------------------------------------------------
  // content (xliff.py:161-177)
  // ---------------------------------------------------------------------

  /** The units of all files, file after file. */
  function AllUnits(files: seq<XliffFile>): seq<TranslationUnit> {
    if files == [] then [] else AllUnits(files[..|files| - 1]) + files[|files| - 1].units
  }

  function UnitSegments(units: seq<TranslationUnit>): seq<Segment> {
    seq(|units|, k requires 0 <= k < |units| => Segment(units[k].source, Some(true), "text"))
  }

  /** The `content` view: one translatable "text" segment per unit, and a
      "document" structure counting them. */
  function ContentOf(d: XliffDocument): Content {
    var units := AllUnits(d.files);
    Content(UnitSegments(units), Structure("document", map[], |units|))
  }

  /** The loops of the `content` property. */
  method ContentView(d: XliffDocument) returns (c: Content)
    ensures c == ContentOf(d)
  {
    var segments: seq<Segment> := [];
    for i := 0 to |d.files|
      invariant segments == UnitSegments(AllUnits(d.files[..i]))
    {
      var f := d.files[i];
      assert d.files[..i + 1][..i] == d.files[..i];
      for j := 0 to |f.units|
        invariant segments == UnitSegments(AllUnits(d.files[..i]) + f.units[..j])
      {
        assert f.units[..j + 1] == f.units[..j] + [f.units[j]];
        segments := segments + [Segment(f.units[j].source, Some(true), "text")];
      }
      assert f.units[..|f.units|] == f.units;
    }
    assert d.files[..|d.files|] == d.files;
    c := Content(segments, Structure("document", map[], |segments|));
  }

  /** The content view of a document built from parsed content gives back
      the translatable segments' texts, in order, each as a translatable
      "text" segment. */
  lemma ContentOfNewDocument(sourceLang: string, targetLang: string, c: Content)
    ensures var view := ContentOf(DocumentFrom(sourceLang, targetLang, Some(c)));
      && Sources(UnitsFor(c.segments)) == TranslatableContents(c.segments)
      && view.segments == UnitSegments(UnitsFor(c.segments))
      && view.structure.childrenCount == |TranslatableContents(c.segments)|
  {
    var d := DocumentFrom(sourceLang, targetLang, Some(c));
    UnitsKeepTranslatableText(c.segments);
    assert d.files[..0] == [];
    assert AllUnits(d.files) == [] + UnitsFor(c.segments);
  }
}
