/**
 * src/vexy_markliff/core/parser.py: segment extraction from an HTML element
 * tree, the paragraph reconstruction, the structure summary and the input
 * guards of the Markdown and HTML parsers. The lxml HTML parse and the
 * markdown-it renderer are black boxes, passed in as functions.
 */
module Parser {
  import opened Wrappers
  import opened Errors
  import opened TextUtils
  import opened Sequences

  /** An element of the parsed HTML tree: tag, attributes, the text before
      its first child, the text after its end tag, and its children. */
  datatype Element = Element(
    tag: string,
    attrib: map<string, string>,
    text: Option<string>,
    tail: Option<string>,
    children: seq<Element>)

  /** One entry of the "segments" list. `translatable` is None where the
      dictionary has no "translatable" key; readers take that as true. */
  datatype Segment = Segment(content: string, translatable: Option<bool>, element: string)

  /** `segment.get("translatable", True)` */
  predicate IsTranslatable(s: Segment) {
    s.translatable.GetOr(true)
  }

  /** The "structure" entry: the root's tag, attributes and child count. */
  datatype Structure = Structure(tag: string, attributes: map<string, string>, childrenCount: nat)

  /** The structured content a parser returns and the XLIFF model consumes. */
  datatype Content = Content(segments: seq<Segment>, structure: Structure)

  // ---------------------------------------------------------------------
  // _extract_segments (parser.py:149-182)
  // ---------------------------------------------------------------------

  /** A text-bearing place of the tree: an element's text, labelled with
      its tag, or an element's tail, labelled "text". */
  datatype Slot = Slot(text: Option<string>, tagName: string)

  /** The slots of `e` in the order the walk visits them: its own text, then
      for each child the child's slots followed by the child's tail. The
      tail of `e` itself is not visited. */
  function Slots(e: Element): seq<Slot>
    decreases e, 1, 0
  {
    [Slot(e.text, e.tag)] + ChildSlots(e, |e.children|)
  }

  /** The slots visited for the first `k` children of `e`. */
  function ChildSlots(e: Element, k: nat): seq<Slot>
    requires k <= |e.children|
    decreases e, 0, k
  {
    if k == 0 then []
    else
      var child := e.children[k - 1];
      ChildSlots(e, k - 1) + Slots(child) + [Slot(child.tail, "text")]
  }

  /** A slot yields a segment when its text is present and not blank. */
  predicate IsFilled(s: Slot) {
    s.text.Some? && !IsBlank(s.text.value)
  }

  /** The segment list one slot contributes: nothing for a missing or blank
      text, otherwise the normalised text under the slot's label. */
  function SlotSegment(s: Slot): seq<Segment> {
    if IsFilled(s) then
      var text := NormalizeWhitespace(s.text.value);
      if text == [] then [] else [Segment(text, Some(true), s.tagName)]
    else []
  }

  /** The segments a run of slots contributes, in order. */
  function SegmentsOf(slots: seq<Slot>): seq<Segment> {
    ConcatMap(slots, SlotSegment)
  }

  /** The segments extracted from the tree rooted at `e`, in the order the
      walk appends them. */
  function Segments(e: Element): seq<Segment>
    decreases e, 1, 0
  {
    SegmentsUpTo(e, |e.children|)
  }

  /** What the walk has appended after the first `k` children of `e`: its
      own text's segment, then each child's segments and tail segment. */
  function SegmentsUpTo(e: Element, k: nat): seq<Segment>
    requires k <= |e.children|
    decreases e, 0, k
  {
    if k == 0 then SlotSegment(Slot(e.text, e.tag))
    else
      var child := e.children[k - 1];
      SegmentsUpTo(e, k - 1) + Segments(child) + SlotSegment(Slot(child.tail, "text"))
  }

  /** The walk yields exactly the segments of the slots of the tree. */
  lemma {:induction false} SegmentsOfSlots(e: Element)
    ensures Segments(e) == SegmentsOf(Slots(e))
    decreases e, 1, 0
  {
    SegmentsUpToSlots(e, |e.children|);
  }

  lemma {:induction false} SegmentsUpToSlots(e: Element, k: nat)
    requires k <= |e.children|
    ensures SegmentsUpTo(e, k) == SegmentsOf([Slot(e.text, e.tag)] + ChildSlots(e, k))
    decreases e, 0, k
  {
    var own := Slot(e.text, e.tag);
    if k == 0 {
      assert [own] + ChildSlots(e, 0) == [own];
      ConcatMapSingle(own, SlotSegment);
    } else {
      var child := e.children[k - 1];
      SegmentsUpToSlots(e, k - 1);
      SegmentsOfSlots(child);
      SlotsStep(e, k);
    }
  }

  lemma SlotsStep(e: Element, k: nat)
    requires 0 < k <= |e.children|
    ensures var child := e.children[k - 1];
      SegmentsOf([Slot(e.text, e.tag)] + ChildSlots(e, k)) ==
        SegmentsOf([Slot(e.text, e.tag)] + ChildSlots(e, k - 1)) + SegmentsOf(Slots(child))
        + SlotSegment(Slot(child.tail, "text"))
  {
    var child := e.children[k - 1];
    var visited := [Slot(e.text, e.tag)] + ChildSlots(e, k - 1);
    var tailSlot := Slot(child.tail, "text");
    assert [Slot(e.text, e.tag)] + ChildSlots(e, k) == visited + Slots(child) + [tailSlot];
    ConcatMapAppend(visited, Slots(child), SlotSegment);
    ConcatMapAppend(visited + Slots(child), [tailSlot], SlotSegment);
    ConcatMapSingle(tailSlot, SlotSegment);
  }

  /** The per-slot step of `HTMLParser._extract_segments`: a present,
      non-blank text is normalised and, if anything is left, becomes one
      translatable segment labelled `tagName`. */
  method SlotSegmentOf(text: Option<string>, tagName: string) returns (segments: seq<Segment>)
    ensures segments == SlotSegment(Slot(text, tagName))
  {
    segments := [];
    if text.Some? && !IsBlank(text.value) {
      var normalized := NormalizeWhitespace(text.value);
      if normalized != [] {
        segments := [Segment(normalized, Some(true), tagName)];
      }
    }
  }

  /** `HTMLParser._extract_segments(element)`: the depth-first walk that
      appends the element's text segment, then each child's segments and
      tail segment, to a local list. */
  method ExtractSegments(element: Element) returns (segments: seq<Segment>)
    ensures segments == Segments(element)
    decreases element
  {
    segments := SlotSegmentOf(element.text, element.tag);
    for i := 0 to |element.children|
      invariant segments == SegmentsUpTo(element, i)
    {
      var child := element.children[i];
      var sub := ExtractSegments(child);
      var tailSegments := SlotSegmentOf(child.tail, "text");
      SegmentsUpToNext(element, i);
      segments := segments + sub + tailSegments;
    }
  }

  lemma SegmentsUpToNext(e: Element, k: nat)
    requires k < |e.children|
    ensures SegmentsUpTo(e, k + 1) ==
      SegmentsUpTo(e, k) + Segments(e.children[k]) + SlotSegment(Slot(e.children[k].tail, "text"))
  {
  }

  /** The filled slots, in order. */
  function FilledSlots(slots: seq<Slot>): seq<Slot> {
    if slots == [] then []
    else
      var last := slots[|slots| - 1];
      FilledSlots(slots[..|slots| - 1]) + (if IsFilled(last) then [last] else [])
  }

  /** The segment a filled slot yields. */
  function SegmentFor(s: Slot): Segment {
    Segment(NormalizeWhitespace(s.text.GetOr("")), Some(true), s.tagName)
  }

  /** Each slot, mapped to its segment. */
  function SegmentsFor(slots: seq<Slot>): (r: seq<Segment>)
    ensures |r| == |slots|
  {
    if slots == [] then [] else SegmentsFor(slots[..|slots| - 1]) + [SegmentFor(slots[|slots| - 1])]
  }

  /** Exactly one segment per filled slot, in order: the slot's text with
      whitespace normalised, marked translatable, labelled like the slot.
      Missing and blank texts yield nothing. */
  lemma {:induction false} SegmentsOfFilledSlots(slots: seq<Slot>)
    ensures SegmentsOf(slots) == SegmentsFor(FilledSlots(slots))
  {
    if slots != [] {
      var init, last := slots[..|slots| - 1], slots[|slots| - 1];
      var f := FilledSlots(init);
      SegmentsOfFilledSlots(init);
      if IsFilled(last) {
        assert (f + [last])[..|f + [last]| - 1] == f;
      } else {
        assert f + [] == f;
      }
    }
  }

  /** What every extracted segment looks like. */
  predicate WellFormedSegments(segments: seq<Segment>) {
    forall i :: 0 <= i < |segments| ==>
      && segments[i].translatable == Some(true)
      && segments[i].content != []
      && IsNormalized(segments[i].content)
  }

  lemma {:induction false} SegmentsOfWellFormed(slots: seq<Slot>)
    ensures WellFormedSegments(SegmentsOf(slots))
  {
    if slots != [] {
      var init := slots[..|slots| - 1];
      var a, b := SegmentsOf(init), SlotSegment(slots[|slots| - 1]);
      SegmentsOfWellFormed(init);
      forall i | 0 <= i < |a + b|
        ensures (a + b)[i] == if i < |a| then a[i] else b[i - |a|]
      {
      }
    }
  }

  /** Every segment is translatable and holds non-empty, whitespace-normalised text. */
  lemma SegmentsWellFormed(e: Element)
    ensures WellFormedSegments(Segments(e))
  {
    SegmentsOfSlots(e);
    SegmentsOfWellFormed(Slots(e));
  }

  /** The segments of a tree are its filled text and tail slots, normalised,
      in document order; in particular there is one per filled slot. */
  lemma SegmentsAreFilledSlots(e: Element)
    ensures Segments(e) == SegmentsFor(FilledSlots(Slots(e)))
    ensures |Segments(e)| == |FilledSlots(Slots(e))|
  {
    SegmentsOfSlots(e);
    SegmentsOfFilledSlots(Slots(e));
  }

  lemma {:induction false} ChildSlotsSameChildren(e: Element, f: Element, k: nat)
    requires e.children == f.children && k <= |e.children|
    ensures ChildSlots(e, k) == ChildSlots(f, k)
  {
    if k > 0 {
      ChildSlotsSameChildren(e, f, k - 1);
    }
  }

  /** The root's own tail is never visited: it does not affect the segments. */
  lemma RootTailIgnored(e: Element, tail: Option<string>)
    ensures Segments(e.(tail := tail)) == Segments(e)
  {
    SegmentsOfSlots(e);
    SegmentsOfSlots(e.(tail := tail));
    ChildSlotsSameChildren(e.(tail := tail), e, |e.children|);
  }

  /** The text an element holds, as lxml's `itertext` reads it: its own
      text, then each child's text followed by that child's tail. */
  function TextContent(e: Element): string
    decreases e, 1, 0
  {
    e.text.GetOr("") + ChildTextContent(e, |e.children|)
  }

  function ChildTextContent(e: Element, k: nat): string
    requires k <= |e.children|
    decreases e, 0, k
  {
    if k == 0 then ""
    else
      var child := e.children[k - 1];
      ChildTextContent(e, k - 1) + TextContent(child) + child.tail.GetOr("")
  }

  /** The slots' texts, one after the other. */
  function SlotsText(slots: seq<Slot>): string {
    if slots == [] then "" else SlotsText(slots[..|slots| - 1]) + slots[|slots| - 1].text.GetOr("")
  }

  lemma {:induction false} SlotsTextAppend(a: seq<Slot>, b: seq<Slot>)
    ensures SlotsText(a + b) == SlotsText(a) + SlotsText(b)
    decreases |b|
  {
    if b == [] {
      assert a + b == a;
    } else {
      var b' := b[..|b| - 1];
      SlotsTextAppend(a, b');
      assert (a + b)[..|a + b| - 1] == a + b';
      assert (a + b)[|a + b| - 1] == b[|b| - 1];
    }
  }

  /** Visiting the slots reads the whole text of the tree. */
  lemma {:induction false} SlotsTextIsTextContent(e: Element)
    ensures SlotsText(Slots(e)) == TextContent(e)
    decreases e, 1, 0
  {
    var own := Slot(e.text, e.tag);
    SlotsTextAppend([own], ChildSlots(e, |e.children|));
    assert [own][..0] == [];
    ChildSlotsTextIsTextContent(e, |e.children|);
  }

  lemma {:induction false} ChildSlotsTextIsTextContent(e: Element, k: nat)
    requires k <= |e.children|
    ensures SlotsText(ChildSlots(e, k)) == ChildTextContent(e, k)
    decreases e, 0, k
  {
    if k > 0 {
      var child := e.children[k - 1];
      var tailSlot := Slot(child.tail, "text");
      ChildSlotsTextIsTextContent(e, k - 1);
      SlotsTextIsTextContent(child);
      SlotsTextAppend(ChildSlots(e, k - 1) + Slots(child), [tailSlot]);
      SlotsTextAppend(ChildSlots(e, k - 1), Slots(child));
      assert [tailSlot][..0] == [];
    }
  }

  /** The segments' texts, one after the other. */
  function JoinedContents(segments: seq<Segment>): string {
    if segments == [] then "" else JoinedContents(segments[..|segments| - 1]) + segments[|segments| - 1].content
  }

  lemma {:induction false} JoinedContentsAppend(a: seq<Segment>, b: seq<Segment>)
    ensures JoinedContents(a + b) == JoinedContents(a) + JoinedContents(b)
    decreases |b|
  {
    if b == [] {
      assert a + b == a;
    } else {
      var b', last := b[..|b| - 1], b[|b| - 1].content;
      JoinedContentsAppend(a, b');
      assert (a + b)[..|a + b| - 1] == a + b';
      assert (a + b)[|a + b| - 1] == b[|b| - 1];
      assert JoinedContents(a + b) == (JoinedContents(a) + JoinedContents(b')) + last;
      assert (JoinedContents(a) + JoinedContents(b')) + last == JoinedContents(a) + (JoinedContents(b') + last);
    }
  }

  lemma JoinedContentsSingle(x: Segment)
    ensures JoinedContents([x]) == x.content
  {
    assert [x][..0] == [];
  }

  lemma SlotSegmentKeepsText(s: Slot)
    ensures NonSpace(JoinedContents(SlotSegment(s))) == NonSpace(s.text.GetOr(""))
  {
    if IsFilled(s) {
      var text := NormalizeWhitespace(s.text.value);
      assert SlotSegment(s) == [Segment(text, Some(true), s.tagName)];
      JoinedContentsSingle(Segment(text, Some(true), s.tagName));
    } else if s.text.Some? {
      NonSpaceEmptyIffBlank(s.text.value);
    }
  }

  lemma {:induction false} SegmentsOfKeepText(slots: seq<Slot>)
    ensures NonSpace(JoinedContents(SegmentsOf(slots))) == NonSpace(SlotsText(slots))
  {
    if slots != [] {
      var init, last := slots[..|slots| - 1], slots[|slots| - 1];
      SegmentsOfKeepText(init);
      SlotSegmentKeepsText(last);
      JoinedContentsAppend(SegmentsOf(init), SlotSegment(last));
      NonSpaceAppend(JoinedContents(SegmentsOf(init)), JoinedContents(SlotSegment(last)));
      NonSpaceAppend(SlotsText(init), last.text.GetOr(""));
    }
  }

  /** Extraction keeps every visible character of the element's text, in
      document order: only whitespace is lost or merged. */
  lemma SegmentsKeepText(e: Element)
    ensures NonSpace(JoinedContents(Segments(e))) == NonSpace(TextContent(e))
  {
    SegmentsOfSlots(e);
    SegmentsOfKeepText(Slots(e));
    SlotsTextIsTextContent(e);
  }

  // ---------------------------------------------------------------------
  // _extract_structure (parser.py:184-197) and the parse entry points
  // ---------------------------------------------------------------------

  /** `HTMLParser._extract_structure(element)` */
  function ExtractStructure(e: Element): Structure {
    Structure(e.tag, e.attrib, |e.children|)
  }

  const EmptyContentMessage: string := "Content cannot be empty"

  /** `HTMLParser.parse(content)` (parser.py:87-115). `fromString` is lxml's
      `html.fromstring`, which returns the root or an error message. */
  function HtmlParse(content: string, fromString: string -> Result<Element, string>): Result<Content, Error> {
    if IsBlank(content) then Failure(ValidationError(EmptyContentMessage))
    else match fromString(content)
      case Failure(msg) => Failure(ParsingError("Failed to parse HTML content: " + msg))
      case Success(root) => Success(Content(Segments(root), ExtractStructure(root)))
  }

  /** `MarkdownParser.parse(content)` (parser.py:25-52). `render` is
      markdown-it's `render`; its HTML goes through `HtmlParse`. Any failure
      after the guard, including the HTML parser's own ValidationError on a
      blank rendering, is re-raised as a ParsingError. */
  function MarkdownParse(
    content: string,
    render: string -> Result<string, string>,
    fromString: string -> Result<Element, string>): Result<Content, Error>
  {
    if IsBlank(content) then Failure(ValidationError(EmptyContentMessage))
    else match render(content)
      case Failure(msg) => Failure(ParsingError("Failed to parse Markdown content: " + msg))
      case Success(html) =>
        match HtmlParse(html, fromString)
        case Failure(err) => Failure(ParsingError("Failed to parse Markdown content: " + err.message))
        case Success(c) => Success(c)
  }

  /** The HTML parser rejects empty or blank input with a ValidationError
      before parsing; every other failure is a ParsingError; on success the
      segments are those of the parsed root and the structure summarises it. */
  lemma HtmlParseOutcome(content: string, fromString: string -> Result<Element, string>)
    ensures var r := HtmlParse(content, fromString);
      && (r.Failure? && r.error.ValidationError? <==> IsBlank(content))
      && (r.Failure? && !IsBlank(content) ==> r.error.ParsingError?)
      && (r.Success? ==>
            && !IsBlank(content)
            && fromString(content).Success?
            && r.value.segments == Segments(fromString(content).value)
            && r.value.structure.tag == fromString(content).value.tag
            && r.value.structure.attributes == fromString(content).value.attrib
            && r.value.structure.childrenCount == |fromString(content).value.children|)
  {
  }

  /** The Markdown parser rejects empty or blank input with a ValidationError
      before rendering; a render or HTML-parse failure, even the HTML
      parser's own ValidationError, surfaces as a ParsingError; on success the
      result is the HTML parse of the rendering. */
  lemma MarkdownParseOutcome(
    content: string,
    render: string -> Result<string, string>,
    fromString: string -> Result<Element, string>)
    ensures var r := MarkdownParse(content, render, fromString);
      && (r.Failure? && r.error.ValidationError? <==> IsBlank(content))
      && (r.Failure? && !IsBlank(content) ==> r.error.ParsingError?)
      && (r.Success? ==>
            && !IsBlank(content)
            && render(content).Success?
            && r == HtmlParse(render(content).value, fromString))
  {
  }

  // ---------------------------------------------------------------------
  // reconstruct (parser.py:117-147 and 54-77)
  // ---------------------------------------------------------------------

  /** The HTML fragment for one segment: translatable text wrapped verbatim
      in a paragraph, anything else copied as it is. */
  function RenderSegment(s: Segment): string {
    if IsTranslatable(s) then "<p>" + s.content + "</p>" else s.content
  }

  function RenderAll(segments: seq<Segment>): (parts: seq<string>)
    ensures |parts| == |segments|
    ensures forall i :: 0 <= i < |segments| ==> parts[i] == RenderSegment(segments[i])
  {
    seq(|segments|, i requires 0 <= i < |segments| => RenderSegment(segments[i]))
  }

  /** The reconstructed HTML: one fragment per segment, newline-separated. */
  function Reconstruct(segments: seq<Segment>): string {
    Join(RenderAll(segments), '\n')
  }

  /** `HTMLParser.reconstruct(structured_content)`: the loop that appends one
      fragment per segment to `html_parts`, then the newline join.
      `MarkdownParser.reconstruct` calls this same method. */
  method ReconstructHtml(content: Content) returns (html: string)
    ensures html == Reconstruct(content.segments)
  {
    var segments := content.segments;
    var parts: seq<string> := [];
    for i := 0 to |segments|
      invariant parts == RenderAll(segments[..i])
    {
      var segment := segments[i];
      if IsTranslatable(segment) {
        parts := parts + ["<p>" + segment.content + "</p>"];
      } else {
        parts := parts + [segment.content];
      }
    }
    assert segments[..|segments|] == segments;
    html := Join(parts, '\n');
  }

  /** Reconstruction can be undone: for a non-empty segment list whose texts
      hold no newline, line `i` of the HTML is segment `i`'s fragment, that
      is its text in a paragraph when translatable and the text itself
      otherwise. */
  lemma ReconstructLines(segments: seq<Segment>)
    requires segments != []
    requires forall i :: 0 <= i < |segments| ==> '\n' !in segments[i].content
    ensures |Split(Reconstruct(segments), '\n')| == |segments|
    ensures forall i :: 0 <= i < |segments| ==>
      Split(Reconstruct(segments), '\n')[i] ==
        if IsTranslatable(segments[i]) then "<p>" + segments[i].content + "</p>" else segments[i].content
  {
    var parts := RenderAll(segments);
    forall i | 0 <= i < |parts| ensures '\n' !in parts[i] {
      assert parts[i] == RenderSegment(segments[i]);
      if IsTranslatable(segments[i]) {
        assert parts[i] == "<p>" + segments[i].content + "</p>";
      }
    }
    SplitJoin(parts, '\n');
  }

  /** Normalised text holds no newline. */
  lemma NormalizedHasNoNewline(s: string)
    requires IsNormalized(s)
    ensures '\n' !in s
  {
    if '\n' in s {
      var i :| 0 <= i < |s| && s[i] == '\n';
      assert IsSpace(s[i]);
    }
  }

  /** For the segments of a parsed tree, every line of the reconstruction is
      one segment's text wrapped in a paragraph, in document order. */
  lemma ReconstructExtracted(e: Element)
    requires Segments(e) != []
    ensures var segments := Segments(e);
      && |Split(Reconstruct(segments), '\n')| == |segments|
      && forall i :: 0 <= i < |segments| ==>
           Split(Reconstruct(segments), '\n')[i] == "<p>" + segments[i].content + "</p>"
  {
    var segments := Segments(e);
    SegmentsWellFormed(e);
    forall i | 0 <= i < |segments| ensures '\n' !in segments[i].content {
      NormalizedHasNoNewline(segments[i].content);
    }
    ReconstructLines(segments);
  }
}
