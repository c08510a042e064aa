/** The layout engine of src/ui/layout.rs.  Box layout runs in two passes
    over the element tree: sizing, bottom-up, writes every element's
    computed size (a div's from its fixed lengths, padding and children; a
    text's from laying its glyphs out in lines), then placement, top-down,
    writes every element's position from its parent's position, alignment
    and the sizes of the first pass.  The tree is held by value here, so
    each pass returns the updated tree.

    Every method is proved equal to a specification function: the sizing
    methods to `Sized`, the placement methods to `Placed`, and the methods
    of `TextLayout` to the step functions over `TextState` (`WithGlyph`,
    `BrokenLine`, `Carried`, `AfterChar`, `AfterChars`, `AfterTextSection`,
    `LaidOutSections`, `Finalized`).  The properties of the layout are
    proved as lemmas about those functions. */
module Layout {
  import opened Common
  import Colors
  import opened Rects
  import opened Elements
  import opened Batching

  /** `f64::MAX`, the "unbounded" length of `DVec2::MAX`. */
  const UNBOUNDED: real := 179769313486231570814527423731704356798070567525844996598917476803157260780028538760589558632766878171540458953514382464234321326889464182768467546703537516986049910576551282076245490090389328944075868508455133942304583236903222948165808559332123348274797826204144723168738177180919299881250404026184124858368.0

  // ----- Main axis and cross axis -----

  /** `disassemble`: (main, cross) components of a vector. */
  function MainOf(axis: Axis, v: Vec2): real { if axis == X then v.x else v.y }

  function CrossOf(axis: Axis, v: Vec2): real { if axis == X then v.y else v.x }

  /** `assemble`: the vector with the given main and cross components. */
  function Assemble(axis: Axis, main: real, cross: real): (r: Vec2)
    ensures MainOf(axis, r) == main && CrossOf(axis, r) == cross
  {
    if axis == X then Vec2(main, cross) else Vec2(cross, main)
  }

  /** `main_offset_and_step`: the main-axis offset of the first child and
      the gap added after each child, for `n` children whose main sizes add
      up to `contentSize` in a main length of `mainSize`.  The only caller
      returns before it when there are no children. */
  function MainOffsetAndStep(align: MainAlign, mainSize: real, contentSize: real, n: nat): (real, real)
    requires n > 0
  {
    var free := mainSize - contentSize;
    match align
    case Start => (0.0, 0.0)
    case Center => (free * 0.5, 0.0)
    case End => (free, 0.0)
    case SpaceBetween => (0.0, if n == 1 then 0.0 else free / (n - 1) as real)
    case SpaceAround => var step := free / n as real; (step / 2.0, step)
  }

  /** Where the run of `n` children placed with this offset and step ends:
      after the last child, before any further step. */
  function RunEnd(offset: real, step: real, contentSize: real, n: nat): real
    requires n > 0
  {
    offset + contentSize + (n - 1) as real * step
  }

  /** How each alignment distributes the free main-axis space: `Start` puts
      all of it after the run, `End` all of it before, `Center` half on
      each side; `SpaceBetween` puts none at the ends once there are two
      children, and `SpaceAround` puts half a step at each end. */
  lemma MainAxisDistribution(align: MainAlign, mainSize: real, contentSize: real, n: nat)
    requires n > 0
    ensures var (offset, step) := MainOffsetAndStep(align, mainSize, contentSize, n);
            var end := RunEnd(offset, step, contentSize, n);
            && (align == Start ==> offset == 0.0 && step == 0.0 && end == contentSize)
            && (align == Center ==> step == 0.0 && offset == mainSize - end)
            && (align == End ==> step == 0.0 && end == mainSize)
            && (align == SpaceBetween ==> offset == 0.0 && (n > 1 ==> end == mainSize) &&
                                          (n == 1 ==> end == contentSize))
            && (align == SpaceAround ==> offset == step / 2.0 && mainSize - end == step / 2.0)
  {
    var free := mainSize - contentSize;
    var (offset, step) := MainOffsetAndStep(align, mainSize, contentSize, n);
    match align
    case SpaceBetween =>
      if n > 1 {
        assert (n - 1) as real * (free / (n - 1) as real) == free;
      }
    case SpaceAround =>
      assert n as real * step == free;
      assert (n - 1) as real * step == free - step;
    case _ =>
  }

  /** The cross-axis offset of a child of cross size `item` in a cross
      length of `parent`. */
  function CrossOffset(align: Align, parent: real, item: real): real
  {
    match align
    case AlignStart => 0.0
    case AlignCenter => (parent - item) * 0.5
    case AlignEnd => parent - item
  }

  /** `AlignStart` is flush with the start, `AlignEnd` with the end, and
      `AlignCenter` leaves the same space on both sides. */
  lemma CrossAlignment(align: Align, parent: real, item: real)
    ensures var o := CrossOffset(align, parent, item);
            && (align == AlignStart ==> o == 0.0)
            && (align == AlignCenter ==> o == parent - (o + item))
            && (align == AlignEnd ==> o + item == parent)
  {
  }

  // ----- Line metrics -----

  /** `LineRun::merge_metrics_take_max`: the larger ascent, the lower
      descent (descents are negative), the larger line gap, and the line
      size they add up to. */
  function MergeMetrics(m: LineMetrics, n: LineMetrics): (r: LineMetrics)
    ensures r.ascent == Max(m.ascent, n.ascent) && r.descent == Min(m.descent, n.descent)
    ensures r.lineGap == Max(m.lineGap, n.lineGap)
    ensures r.newLineSize == r.ascent - r.descent + r.lineGap
  {
    var a := Max(m.ascent, n.ascent);
    var d := Min(m.descent, n.descent);
    var g := Max(m.lineGap, n.lineGap);
    LineMetrics(a, d, g, a - d + g)
  }

  /** Merging is commutative and associative, merging the same metrics a
      second time changes nothing, and the merged line is at least as tall
      (ascent, depth and gap) as each of the two. */
  lemma MergeMetricsLaws(m: LineMetrics, n: LineMetrics, o: LineMetrics)
    ensures MergeMetrics(m, n) == MergeMetrics(n, m)
    ensures MergeMetrics(MergeMetrics(m, n), o) == MergeMetrics(m, MergeMetrics(n, o))
    ensures MergeMetrics(MergeMetrics(m, n), n) == MergeMetrics(m, n)
    ensures var r := MergeMetrics(m, n);
            r.ascent >= m.ascent && r.ascent >= n.ascent && r.descent <= m.descent &&
            r.descent <= n.descent && r.lineGap >= m.lineGap && r.lineGap >= n.lineGap
  {
  }

  // ----- Absolute positioning -----

  /** `absolute_unit_pos`: a div's `absolute` anchor; a text has none. */
  function AbsoluteUnitPos(e: ElementWithComputed): Option<Vec2>
  {
    match e
    case DivWith(d, _) => d.style.absolute
    case TextWith(_, _) => None
  }

  /** `is_absolute`. */
  function IsAbsolute(e: ElementWithComputed): (r: bool)
    ensures r <==> AbsoluteUnitPos(e).Some?
    ensures e.TextWith? ==> !r
  {
    match e
    case DivWith(d, _) => d.style.absolute.Some?
    case TextWith(_, _) => false
  }

  // ----- Div sizing rules -----

  function PadX(s: DivStyle): real { s.padding.left + s.padding.right }

  function PadY(s: DivStyle): real { s.padding.top + s.padding.bottom }

  /** The length of a div along one axis: its own length fixed against the
      maximum when it has one, otherwise its content plus padding. */
  function AxisSize(len: Option<Len>, max: real, content: real, pad: real): real
  {
    if len.Some? then Fixed(len.value, max) else content + pad
  }

  /** The maximum length a div gives its children along one axis: its own
      fixed length minus padding, otherwise its own maximum. */
  function AxisInner(len: Option<Len>, max: real, pad: real): real
  {
    if len.Some? then Fixed(len.value, max) - pad else max
  }

  function DivSize(s: DivStyle, maxSize: Vec2, content: Vec2): Vec2
  {
    Vec2(AxisSize(s.width, maxSize.x, content.x, PadX(s)), AxisSize(s.height, maxSize.y, content.y, PadY(s)))
  }

  function InnerMax(s: DivStyle, maxSize: Vec2): Vec2
  {
    Vec2(AxisInner(s.width, maxSize.x, PadX(s)), AxisInner(s.height, maxSize.y, PadY(s)))
  }

  /** One child's contribution to the children's size: along the main axis
      the sizes add up, across it the largest one counts; an absolute child
      contributes nothing. */
  function Accumulate(axis: Axis, acc: Vec2, child: ElementWithComputed): Vec2
  {
    var s := ComputedSize(child);
    if IsAbsolute(child) then acc
    else if axis == X then Vec2(acc.x + s.x, Max(acc.y, s.y))
    else Vec2(Max(acc.x, s.x), acc.y + s.y)
  }

  /** The size all (already sized) children take together. */
  function ChildrenSize(axis: Axis, cs: seq<ElementBox>): Vec2
  {
    if cs == [] then ZERO2 else Accumulate(axis, ChildrenSize(axis, cs[..|cs| - 1]), cs[|cs| - 1].element)
  }

  /** The main sizes of the non-absolute children, in order. */
  function MainSizes(axis: Axis, cs: seq<ElementBox>): seq<real>
  {
    if cs == [] then []
    else
      var last := cs[|cs| - 1].element;
      MainSizes(axis, cs[..|cs| - 1]) + (if IsAbsolute(last) then [] else [MainOf(axis, ComputedSize(last))])
  }

  /** Along the main axis the children's size is the sum of the main sizes
      of the non-absolute children; it is 0 on both axes without children. */
  lemma {:induction false} ChildrenSizeSum(axis: Axis, cs: seq<ElementBox>)
    ensures MainOf(axis, ChildrenSize(axis, cs)) == Sum(MainSizes(axis, cs))
    ensures cs == [] ==> ChildrenSize(axis, cs) == ZERO2
  {
    if cs != [] {
      var init := cs[..|cs| - 1];
      ChildrenSizeSum(axis, init);
      var ms := MainSizes(axis, init);
      var last := cs[|cs| - 1].element;
      AccumulateMain(axis, ChildrenSize(axis, init), last);
      if !IsAbsolute(last) {
        var x := MainOf(axis, ComputedSize(last));
        assert MainSizes(axis, cs) == ms + [x];
        SumSnoc(ms, x);
      } else {
        assert MainSizes(axis, cs) == ms;
      }
    }
  }

  /** Along the main axis a child adds its main size, unless it is absolute. */
  lemma AccumulateMain(axis: Axis, acc: Vec2, child: ElementWithComputed)
    ensures MainOf(axis, Accumulate(axis, acc, child)) ==
            MainOf(axis, acc) + (if IsAbsolute(child) then 0.0 else MainOf(axis, ComputedSize(child)))
  {
  }

  /** Across the main axis the children's size is at least 0 and at least
      the cross size of every non-absolute child. */
  lemma {:induction false} ChildrenSizeMax(axis: Axis, cs: seq<ElementBox>)
    ensures CrossOf(axis, ChildrenSize(axis, cs)) >= 0.0
    ensures forall i :: 0 <= i < |cs| && !IsAbsolute(cs[i].element) ==>
      CrossOf(axis, ComputedSize(cs[i].element)) <= CrossOf(axis, ChildrenSize(axis, cs))
    ensures CrossOf(axis, ChildrenSize(axis, cs)) == 0.0 ||
            exists i :: 0 <= i < |cs| && !IsAbsolute(cs[i].element) &&
                        CrossOf(axis, ChildrenSize(axis, cs)) == CrossOf(axis, ComputedSize(cs[i].element))
  {
    if cs != [] {
      var init := cs[..|cs| - 1];
      ChildrenSizeMax(axis, init);
      forall i | 0 <= i < |cs| - 1 && !IsAbsolute(cs[i].element)
        ensures CrossOf(axis, ComputedSize(cs[i].element)) <= CrossOf(axis, ChildrenSize(axis, cs))
      {
        assert cs[i] == init[i];
      }
      if CrossOf(axis, ChildrenSize(axis, cs)) != CrossOf(axis, ChildrenSize(axis, init)) {
        assert !IsAbsolute(cs[|cs| - 1].element);
      } else if CrossOf(axis, ChildrenSize(axis, init)) != 0.0 {
        var i :| 0 <= i < |init| && !IsAbsolute(init[i].element) &&
                 CrossOf(axis, ChildrenSize(axis, init)) == CrossOf(axis, ComputedSize(init[i].element));
        assert cs[i] == init[i];
      }
    }
  }

  /** An absolute child leaves the children's size as it was. */
  lemma AbsoluteChildIgnored(axis: Axis, cs: seq<ElementBox>, c: ElementBox)
    requires IsAbsolute(c.element)
    ensures ChildrenSize(axis, cs + [c]) == ChildrenSize(axis, cs)
  {
    assert (cs + [c])[..|cs|] == cs;
  }

  // ----- Text layout state -----

  /** `LineRun`: a line's baseline (set by `finalize`), the advance where
      the next glyph goes, the merged metrics and the glyphs on it. */
  datatype LineRun = LineRun(baselineY: real, advance: real, maxMetrics: LineMetrics, glyphRange: Range)

  const METRICS_ZERO: LineMetrics := LineMetrics(0.0, 0.0, 0.0, 0.0)

  /** `LineRun::new` (no metrics) or `LineRun::from_metrics`, with its
      range's start set to `start`; the end stays 0 until the line is
      finished. */
  function NewLine(metrics: Option<LineMetrics>, start: nat): LineRun
  {
    LineRun(0.0, 0.0, if metrics.Some? then metrics.value else METRICS_ZERO, Range(start, 0))
  }

  /** `XOffsetAndAdance`: what is kept of each glyph of the current word. */
  datatype OffsetAndAdvance = OffsetAndAdvance(offset: real, advance: real)

  /** The fields of `TextLayout` as a value; `word` is
      `last_non_ws_glyph_advances`. */
  datatype TextState = TextState(maxWidth: real, glyphs: seq<GlyphBoundsAndUv>, textSectionGlyphs: seq<Range>,
                                 lines: seq<LineRun>, current: LineRun, word: seq<OffsetAndAdvance>,
                                 elementLineIndices: seq<nat>)

  /** The state `layout_text` starts from. */
  function InitialState(maxWidth: real): TextState
  {
    TextState(maxWidth, [], [], [], LineRun(0.0, 0.0, METRICS_ZERO, Range(0, 0)), [], [])
  }

  /** What every step keeps: the word's glyphs are among the glyphs, every
      finished line and every section range ends within the glyphs, section
      ranges do not run backwards, and every inline element names a line
      that exists once the current line is pushed. */
  predicate Valid(s: TextState)
  {
    && |s.word| <= |s.glyphs|
    && (forall l :: 0 <= l < |s.lines| ==> s.lines[l].glyphRange.end <= |s.glyphs|)
    && (forall r :: 0 <= r < |s.textSectionGlyphs| ==>
          s.textSectionGlyphs[r].start <= s.textSectionGlyphs[r].end <= |s.glyphs|)
    && (forall i :: 0 <= i < |s.elementLineIndices| ==> s.elementLineIndices[i] <= |s.lines|)
  }

  /** `char::is_whitespace`: the characters with Unicode's White_Space
      property. */
  predicate IsWhitespace(c: char)
  {
    c == ' ' || ('\t' <= c <= '\r') || c == '\U{85}' || c == '\U{A0}' || c == '\U{1680}' ||
    ('\U{2000}' <= c <= '\U{200A}') || c == '\U{2028}' || c == '\U{2029}' || c == '\U{202F}' ||
    c == '\U{205F}' || c == '\U{3000}'
  }

  /** The glyph quad of a visible glyph at the current advance, its top
      left `height` above the baseline, shifted by the glyph's offsets (y
      points down). */
  function GlyphAt(advance: real, g: GlyphInfo): GlyphBoundsAndUv
    requires g.uv.Some?
  {
    var m := g.metrics;
    GlyphBoundsAndUv(Rect(Vec2(advance + m.xmin, -m.height + -m.ymin), Vec2(m.width, m.height)), g.uv.value)
  }

  /** `add_glyph_to_current_line`: a visible glyph is pushed and joins the
      current word, whitespace ends the word; either way the advance grows
      by the glyph's advance. */
  function WithGlyph(s: TextState, g: GlyphInfo): (r: TextState)
    ensures Valid(s) ==> Valid(r)
    ensures r.lines == s.lines && r.textSectionGlyphs == s.textSectionGlyphs
    ensures r.elementLineIndices == s.elementLineIndices && r.maxWidth == s.maxWidth
    ensures r.current.advance == s.current.advance + g.metrics.advance
    ensures r.current.glyphRange == s.current.glyphRange && r.current.maxMetrics == s.current.maxMetrics
    ensures g.uv.Some? ==> r.glyphs == s.glyphs + [GlyphAt(s.current.advance, g)] &&
                           r.word == s.word + [OffsetAndAdvance(g.metrics.xmin, g.metrics.advance)]
    ensures g.uv.None? ==> r.glyphs == s.glyphs && r.word == []
  {
    var advance := s.current.advance;
    var s' := if g.uv.Some? then
                s.(glyphs := s.glyphs + [GlyphAt(advance, g)],
                   word := s.word + [OffsetAndAdvance(g.metrics.xmin, g.metrics.advance)])
              else s.(word := []);
    s'.(current := s'.current.(advance := advance + g.metrics.advance))
  }

  /** `break_line`: the current line ends at the last glyph and is pushed;
      the new line starts there, with the given metrics or none. */
  function BrokenLine(s: TextState, metrics: Option<LineMetrics>): (r: TextState)
    ensures Valid(s) ==> Valid(r)
    ensures r.lines == s.lines + [s.current.(glyphRange := Range(s.current.glyphRange.start, |s.glyphs|))]
    ensures r.current == NewLine(metrics, |s.glyphs|)
    ensures r.glyphs == s.glyphs && r.word == s.word && r.textSectionGlyphs == s.textSectionGlyphs
    ensures r.elementLineIndices == s.elementLineIndices && r.maxWidth == s.maxWidth
  {
    s.(lines := s.lines + [s.current.(glyphRange := s.current.glyphRange.(end := |s.glyphs|))],
       current := NewLine(metrics, |s.glyphs|))
  }

  /** The sum of the advances of a word's glyphs. */
  function WordAdvance(ws: seq<OffsetAndAdvance>): real
  {
    if ws == [] then 0.0 else WordAdvance(ws[..|ws| - 1]) + ws[|ws| - 1].advance
  }

  function WithX(g: GlyphBoundsAndUv, x: real): GlyphBoundsAndUv
  {
    g.(bounds := g.bounds.(pos := g.bounds.pos.(x := x)))
  }

  /** The word's glyphs laid again from `advance`: each one at the advance
      of the word glyphs before it plus its own offset. */
  function Relaid(gs: seq<GlyphBoundsAndUv>, ws: seq<OffsetAndAdvance>, advance: real): (r: seq<GlyphBoundsAndUv>)
    requires |gs| == |ws|
    ensures |r| == |gs|
  {
    seq(|gs|, i requires 0 <= i < |gs| => WithX(gs[i], advance + WordAdvance(ws[..i]) + ws[i].offset))
  }

  /** Re-laying a word moves its glyphs only horizontally: each keeps its
      size, its height and its texture coordinates, and starts where the
      word glyphs before it end, plus its own offset. */
  lemma RelaidMovesX(gs: seq<GlyphBoundsAndUv>, ws: seq<OffsetAndAdvance>, advance: real)
    requires |gs| == |ws|
    ensures var r := Relaid(gs, ws, advance);
            forall i :: 0 <= i < |gs| ==>
              r[i].uv == gs[i].uv && r[i].bounds.size == gs[i].bounds.size &&
              r[i].bounds.pos.y == gs[i].bounds.pos.y &&
              r[i].bounds.pos.x == advance + WordAdvance(ws[..i]) + ws[i].offset
  {
  }

  /** The word carried over a line break (`layout_text_section` after an
      overflow at a visible glyph): the finished line gives up the word's
      glyphs, the new line takes them, and they are laid again from its
      advance. */
  function Carried(s: TextState): (r: TextState)
    requires Valid(s) && s.lines != []
    requires |s.word| <= s.lines[|s.lines| - 1].glyphRange.end && |s.word| <= s.current.glyphRange.start
    ensures Valid(r)
    ensures |r.glyphs| == |s.glyphs| && r.word == s.word && |r.lines| == |s.lines|
    ensures r.textSectionGlyphs == s.textSectionGlyphs && r.elementLineIndices == s.elementLineIndices
    ensures r.maxWidth == s.maxWidth
  {
    var n := |s.word|;
    var gn := |s.glyphs|;
    var last := s.lines[|s.lines| - 1];
    var lines := s.lines[..|s.lines| - 1] + [last.(glyphRange := last.glyphRange.(end := last.glyphRange.end - n))];
    var current := s.current.(glyphRange := s.current.glyphRange.(start := s.current.glyphRange.start - n),
                              advance := s.current.advance + WordAdvance(s.word));
    s.(glyphs := s.glyphs[..gn - n] + Relaid(s.glyphs[gn - n..], s.word, s.current.advance),
       lines := lines, current := current)
  }

  /** Carrying moves the word from the finished line to the new line: the
      finished line's range ends `|word|` glyphs earlier, the new line's
      range starts that much earlier and its advance grows by the word's
      advance; the earlier lines and the glyphs before the word stay, and
      the word's glyphs are laid again from the new line's advance. */
  lemma CarriedMoves(s: TextState)
    requires Valid(s) && s.lines != []
    requires |s.word| <= s.lines[|s.lines| - 1].glyphRange.end && |s.word| <= s.current.glyphRange.start
    ensures var r := Carried(s);
            && r.lines[..|s.lines| - 1] == s.lines[..|s.lines| - 1]
            && var l := s.lines[|s.lines| - 1];
               r.lines[|s.lines| - 1] == l.(glyphRange := Range(l.glyphRange.start, l.glyphRange.end - |s.word|))
    ensures var r := Carried(s);
            var c := s.current;
            r.current == c.(glyphRange := Range(c.glyphRange.start - |s.word|, c.glyphRange.end),
                            advance := c.advance + WordAdvance(s.word))
    ensures var r := Carried(s);
            && r.glyphs[..|s.glyphs| - |s.word|] == s.glyphs[..|s.glyphs| - |s.word|]
            && r.glyphs[|s.glyphs| - |s.word|..] == Relaid(s.glyphs[|s.glyphs| - |s.word|..], s.word, s.current.advance)
  {
    var r := Carried(s);
    var k := |s.glyphs| - |s.word|;
    assert r.glyphs == s.glyphs[..k] + Relaid(s.glyphs[k..], s.word, s.current.advance);
    assert r.glyphs[k..] == Relaid(s.glyphs[k..], s.word, s.current.advance);
  }

  /** One character of `layout_text_section`, with its glyph info `g` and
      the section's line metrics `lm`. */
  function AfterChar(s: TextState, ch: char, g: GlyphInfo, lm: LineMetrics): (r: TextState)
    requires Valid(s)
    ensures Valid(r)
    ensures r.textSectionGlyphs == s.textSectionGlyphs && r.elementLineIndices == s.elementLineIndices
    ensures r.maxWidth == s.maxWidth && |r.lines| >= |s.lines| && |r.glyphs| >= |s.glyphs|
  {
    if ch == '\n' then BrokenLine(s, Some(lm))
    else if s.current.advance + g.metrics.advance > s.maxWidth then
      var b := BrokenLine(s, Some(lm));
      if IsWhitespace(ch) then b.(word := []) else WithGlyph(Carried(b), g)
    else WithGlyph(s, g)
  }

  /** The line breaking rule of one character: a new line opens exactly at
      `'\n'` or when the glyph's advance would pass the maximum width.  A
      newline keeps the glyphs and the word; whitespace that overflows is
      dropped and clears the word; any other overflowing character opens the
      new line at the carried word's first glyph, with the word's advance
      plus its own; otherwise the line goes on with the glyph's advance.  A
      glyph is added exactly when the character is kept and has a uv
      rectangle. */
  lemma AfterCharRules(s: TextState, ch: char, g: GlyphInfo, lm: LineMetrics)
    requires Valid(s)
    ensures var r := AfterChar(s, ch, g, lm);
            |r.lines| == |s.lines| + (if ch == '\n' || s.current.advance + g.metrics.advance > s.maxWidth then 1 else 0)
    ensures var r := AfterChar(s, ch, g, lm);
            ch == '\n' ==> r.glyphs == s.glyphs && r.word == s.word && r.current.advance == 0.0
    ensures var r := AfterChar(s, ch, g, lm);
            ch != '\n' && s.current.advance + g.metrics.advance > s.maxWidth && IsWhitespace(ch) ==>
              r.glyphs == s.glyphs && r.word == [] && r.current.advance == 0.0
    ensures var r := AfterChar(s, ch, g, lm);
            ch != '\n' && s.current.advance + g.metrics.advance > s.maxWidth && !IsWhitespace(ch) ==>
              r.current.glyphRange.start == |s.glyphs| - |s.word| &&
              r.current.advance == WordAdvance(s.word) + g.metrics.advance
    ensures var r := AfterChar(s, ch, g, lm);
            ch != '\n' && s.current.advance + g.metrics.advance <= s.maxWidth ==>
              r.lines == s.lines && r.current.glyphRange == s.current.glyphRange &&
              r.current.advance == s.current.advance + g.metrics.advance
    ensures var r := AfterChar(s, ch, g, lm);
            ch == '\n' || !IsWhitespace(ch) || s.current.advance + g.metrics.advance <= s.maxWidth ==>
              |r.glyphs| == |s.glyphs| + (if ch != '\n' && g.uv.Some? then 1 else 0)
  {
    if ch != '\n' && s.current.advance + g.metrics.advance > s.maxWidth && !IsWhitespace(ch) {
      CarriedMoves(BrokenLine(s, Some(lm)));
    }
  }

  /** The first `k` characters of a section's string. */
  function AfterChars(s: TextState, ts: TextSection, lm: LineMetrics, k: nat): (r: TextState)
    requires Valid(s) && k <= |ts.text|
    ensures Valid(r)
    ensures r.textSectionGlyphs == s.textSectionGlyphs && r.elementLineIndices == s.elementLineIndices
    ensures r.maxWidth == s.maxWidth && |r.lines| >= |s.lines| && |r.glyphs| >= |s.glyphs|
  {
    if k == 0 then s
    else
      var ch := ts.text[k - 1];
      AfterChar(AfterChars(s, ts, lm, k - 1), ch, ts.font.glyphInfo(ch, ts.fontSize), lm)
  }

  lemma AfterCharsStep(s: TextState, ts: TextSection, lm: LineMetrics, k: nat)
    requires Valid(s) && k < |ts.text|
    ensures AfterChars(s, ts, lm, k + 1) ==
            AfterChar(AfterChars(s, ts, lm, k), ts.text[k], ts.font.glyphInfo(ts.text[k], ts.fontSize), lm)
  {
  }

  /** `layout_text_section`: the section's metrics merge into the current
      line, its characters are laid out, and it records the range of the
      glyphs it added. */
  function AfterTextSection(s: TextState, ts: TextSection): (r: TextState)
    requires Valid(s)
    ensures Valid(r)
    ensures r.textSectionGlyphs == s.textSectionGlyphs + [Range(|s.glyphs|, |r.glyphs|)]
    ensures r.elementLineIndices == s.elementLineIndices && r.maxWidth == s.maxWidth
  {
    var lm := ts.font.lineMetrics(ts.fontSize);
    var s1 := s.(current := s.current.(maxMetrics := MergeMetrics(s.current.maxMetrics, lm)));
    var s2 := AfterChars(s1, ts, lm, |ts.text|);
    s2.(textSectionGlyphs := s2.textSectionGlyphs + [Range(|s.glyphs|, |s2.glyphs|)])
  }

  /** The state before an inline element of width `width` is placed: a
      fresh line without metrics when it does not fit on the current one. */
  function ElementLine(s: TextState, width: real): TextState
  {
    if s.current.advance + width > s.maxWidth then BrokenLine(s, None) else s
  }

  /** `layout_element_section`, once the element is sized: it takes its
      width on the line that can hold it, records that line's index, and may
      raise the line's ascent to its height. */
  function AfterElementSection(s: TextState, size: Vec2, setsLineHeight: bool): (r: TextState)
    requires Valid(s)
    ensures Valid(r)
    ensures r.textSectionGlyphs == s.textSectionGlyphs && r.glyphs == s.glyphs && r.maxWidth == s.maxWidth
    ensures r.elementLineIndices == s.elementLineIndices + [|r.lines|]
  {
    var b := ElementLine(s, size.x);
    var c := b.current.(advance := b.current.advance + size.x);
    var c' := if setsLineHeight then c.(maxMetrics := c.maxMetrics.(ascent := Max(c.maxMetrics.ascent, size.y))) else c;
    b.(current := c', elementLineIndices := b.elementLineIndices + [|b.lines|])
  }

  // ----- Finalizing a text -----

  /** Where line `k` starts vertically: the heights of the lines above it,
      each `ascent - descent + line_gap`, plus `gap` between lines. */
  function LineTop(lines: seq<LineRun>, k: nat, gap: real): real
    requires k <= |lines|
  {
    if k == 0 then 0.0
    else
      var m := lines[k - 1].maxMetrics;
      LineTop(lines, k - 1, gap) + m.ascent - m.descent + m.lineGap + (if k < |lines| then gap else 0.0)
  }

  /** The baseline of line `k`: its top plus its ascent. */
  function Baseline(lines: seq<LineRun>, k: nat, gap: real): real
    requires k < |lines|
  {
    LineTop(lines, k, gap) + lines[k].maxMetrics.ascent
  }

  /** The widest line, and 0 without lines. */
  function MaxAdvance(lines: seq<LineRun>, k: nat): real
    requires k <= |lines|
  {
    if k == 0 then 0.0 else Max(MaxAdvance(lines, k - 1), lines[k - 1].advance)
  }

  function WithY(g: GlyphBoundsAndUv, dy: real): GlyphBoundsAndUv
  {
    g.(bounds := g.bounds.(pos := g.bounds.pos.(y := g.bounds.pos.y + dy)))
  }

  /** The glyphs with those in `r` moved down by `dy`. */
  function ShiftRange(gs: seq<GlyphBoundsAndUv>, r: Range, dy: real): (res: seq<GlyphBoundsAndUv>)
    ensures |res| == |gs|
  {
    seq(|gs|, j requires 0 <= j < |gs| => if r.Contains(j) then WithY(gs[j], dy) else gs[j])
  }

  /** The glyphs of the first `k` lines moved down by their line's baseline. */
  function ShiftLines(gs: seq<GlyphBoundsAndUv>, lines: seq<LineRun>, gap: real, k: nat): (res: seq<GlyphBoundsAndUv>)
    requires k <= |lines|
    ensures |res| == |gs|
  {
    if k == 0 then gs
    else ShiftRange(ShiftLines(gs, lines, gap, k - 1), lines[k - 1].glyphRange, Baseline(lines, k - 1, gap))
  }

  /** The number of inline element sections in `ss`. */
  function ElementCount(ss: seq<Section>): nat
  {
    if ss == [] then 0 else ElementCount(ss[..|ss| - 1]) + (if ss[|ss| - 1].ElementSec? then 1 else 0)
  }

  lemma {:induction false} ElementCountPrefix(ss: seq<Section>, k: nat)
    requires k <= |ss|
    ensures ElementCount(ss[..k]) <= ElementCount(ss)
    decreases |ss|
  {
    if k < |ss| {
      assert ss[..|ss| - 1][..k] == ss[..k];
      ElementCountPrefix(ss[..|ss| - 1], k);
    } else {
      assert ss[..k] == ss;
    }
  }

  function SetPos(e: ElementWithComputed, pos: Vec2): (r: ElementWithComputed)
    ensures Bounds(r) == Bounds(e).(pos := pos) && ElementOf(r) == ElementOf(e)
  {
    match e
    case DivWith(d, c) => DivWith(d, c.(bounds := c.bounds.(pos := pos)))
    case TextWith(t, c) => TextWith(t, c.(bounds := c.bounds.(pos := pos)))
  }

  /** The inline elements of the first `k` sections, each moved to the
      bottom of its line: `eli[i]` is the line of the `i`-th element. */
  function PlaceInline(ss: seq<Section>, lines: seq<LineRun>, gap: real, eli: seq<nat>, k: nat): (r: seq<Section>)
    requires k <= |ss| && |eli| == ElementCount(ss)
    requires forall i :: 0 <= i < |eli| ==> eli[i] < |lines|
    ensures |r| == k
  {
    if k == 0 then []
    else
      PlaceInline(ss, lines, gap, eli, k - 1) +
      match ss[k - 1]
      case TextSec(_) => [ss[k - 1]]
      case ElementSec(b, slh) =>
        ElementCountPrefix(ss, k);
        assert ss[..k][..k - 1] == ss[..k - 1];
        var l := eli[ElementCount(ss[..k - 1])];
        var bottom := Baseline(lines, l, gap) - lines[l].maxMetrics.descent;
        var pos := Bounds(b.element).pos.(y := bottom - ComputedSize(b.element).y);
        [ElementSec(b.(element := SetPos(b.element, pos)), slh)]
  }

  /** The finished lines followed by the current one, ended at the last
      glyph: the lines `finalize` works on. */
  function FinalLines(s: TextState): (r: seq<LineRun>)
    ensures |r| == |s.lines| + 1 && r[..|s.lines|] == s.lines
    ensures r[|s.lines|] == s.current.(glyphRange := Range(s.current.glyphRange.start, |s.glyphs|))
  {
    s.lines + [s.current.(glyphRange := s.current.glyphRange.(end := |s.glyphs|))]
  }

  /** `finalize`: the current line is pushed, glyphs are moved down to
      their line's baseline, inline elements to the bottom of theirs, and
      the text is as wide as its widest line and as tall as its lines. */
  function Finalized(s: TextState, ss: seq<Section>, gap: real): (r: (seq<Section>, TextComputed))
    requires Valid(s) && |s.elementLineIndices| == ElementCount(ss)
    ensures |r.0| == |ss| && r.1.textSectionGlyphs == s.textSectionGlyphs && |r.1.glyphs| == |s.glyphs|
  {
    var lines := FinalLines(s);
    var size := Vec2(MaxAdvance(lines, |lines|), LineTop(lines, |lines|, gap));
    (PlaceInline(ss, lines, gap, s.elementLineIndices, |ss|),
     TextComputed(ComputedBounds(ZERO2, size), s.textSectionGlyphs, ShiftLines(s.glyphs, lines, gap, |lines|)))
  }

  // ----- Sizing -----

  /** `get_and_set_size`: the element with its size (and, for a text,
      its glyphs and inline elements) computed for at most `maxSize`.  A
      div keeps its position; a text's computed data is replaced whole. */
  function Sized(e: ElementWithComputed, maxSize: Vec2): (r: ElementWithComputed)
    decreases e, Width(e) + 1
  {
    match e
    case DivWith(d, c) =>
      var children := SizedChildren(e, |d.children|, InnerMax(d.style, maxSize));
      var content := ChildrenSize(d.style.axis, children);
      DivWith(d.(children := children), DivComputed(c.bounds.(size := DivSize(d.style, maxSize, content)), content))
    case TextWith(t, _) =>
      var (sections, computed) := LaidOutText(e, maxSize.x);
      TextWith(t.(sections := sections), computed)
  }

  /** The first `k` children of a div, each sized for at most `inner`. */
  function SizedChildren(e: ElementWithComputed, k: nat, inner: Vec2): (r: seq<ElementBox>)
    requires e.DivWith? && k <= |e.div.children|
    ensures |r| == k
    decreases e, k
  {
    if k == 0 then []
    else
      var b := e.div.children[k - 1];
      SizedChildren(e, k - 1, inner) + [b.(element := Sized(b.element, inner))]
  }

  /** `layout_text`: the sections laid out from the initial state, then
      finalized. */
  function LaidOutText(e: ElementWithComputed, maxWidth: real): (r: (seq<Section>, TextComputed))
    requires e.TextWith?
    decreases e, Width(e)
  {
    var (s, ss) := LaidOutSections(e, |e.text.sections|, maxWidth);
    Finalized(s, ss, e.text.additionalLineGap)
  }

  /** `TextLayout::layout` over the first `k` sections: the state reached
      and the sections as updated so far (inline elements sized and placed
      along their line). */
  function LaidOutSections(e: ElementWithComputed, k: nat, maxWidth: real): (r: (TextState, seq<Section>))
    requires e.TextWith? && k <= |e.text.sections|
    ensures Valid(r.0) && |r.1| == k && r.0.maxWidth == maxWidth
    ensures |r.0.elementLineIndices| == ElementCount(r.1) && |r.0.textSectionGlyphs| == TextCount(r.1)
    decreases e, k
  {
    if k == 0 then (InitialState(maxWidth), [])
    else
      var (s, ss) := LaidOutSections(e, k - 1, maxWidth);
      var sec := e.text.sections[k - 1];
      var next := match sec
        case TextSec(ts) => (AfterTextSection(s, ts), sec)
        case ElementSec(b, slh) =>
          var sized := Sized(b.element, Vec2(maxWidth, UNBOUNDED));
          var size := ComputedSize(sized);
          var x := ElementLine(s, size.x).current.advance;
          (AfterElementSection(s, size, slh), ElementSec(b.(element := SetPos(sized, Bounds(sized).pos.(x := x))), slh));
      assert (ss + [next.1])[..|ss|] == ss;
      (next.0, ss + [next.1])
  }

  /** One more section: a text section steps the state and is kept, an
      inline element is sized, placed along the line and steps the state. */
  lemma LaidOutSectionsNext(e: ElementWithComputed, k: nat, maxWidth: real)
    requires e.TextWith? && k < |e.text.sections|
    ensures var (s, ss) := LaidOutSections(e, k, maxWidth);
            match e.text.sections[k]
              case TextSec(ts) =>
                LaidOutSections(e, k + 1, maxWidth) == (AfterTextSection(s, ts), ss + [e.text.sections[k]])
              case ElementSec(b, slh) =>
                var sized := Sized(b.element, Vec2(maxWidth, UNBOUNDED));
                var size := ComputedSize(sized);
                LaidOutSections(e, k + 1, maxWidth) ==
                  (AfterElementSection(s, size, slh),
                   ss + [ElementSec(b.(element := SetPos(sized, Bounds(sized).pos.(x := ElementLine(s, size.x).current.advance))), slh)])
  {
  }

  // ----- Placement -----

  /** The inner size of a div (its size minus padding) and the top left
      corner of its inner area. */
  function InnerSize(s: DivStyle, c: DivComputed): Vec2
  {
    Vec2(c.bounds.size.x - PadX(s), c.bounds.size.y - PadY(s))
  }

  function InnerPos(s: DivStyle, c: DivComputed): Vec2
  {
    c.bounds.pos.Add(Vec2(s.padding.left, s.padding.top))
  }

  /** The offset and step of a div's non-empty list of children. */
  function OffsetAndStep(d: Div, c: DivComputed): (real, real)
    requires |d.children| > 0
  {
    MainOffsetAndStep(d.style.mainAlign, MainOf(d.style.axis, InnerSize(d.style, c)),
                      MainOf(d.style.axis, c.contentSize), |d.children|)
  }

  /** The running main offset before child `k`: the first offset, then
      each non-absolute child's main size plus the step. */
  function MainOffset(d: Div, c: DivComputed, k: nat): real
    requires 0 < |d.children| && k <= |d.children|
  {
    RunOffset(d.style.axis, d.children, OffsetAndStep(d, c).0, OffsetAndStep(d, c).1, k)
  }

  /** The running offset before child `k` of `cs`, from `offset` and with
      `step` after each non-absolute child. */
  function RunOffset(axis: Axis, cs: seq<ElementBox>, offset: real, step: real, k: nat): real
    requires k <= |cs|
  {
    if k == 0 then offset
    else
      var ch := cs[k - 1].element;
      RunOffset(axis, cs, offset, step, k - 1) + (if IsAbsolute(ch) then 0.0 else MainOf(axis, ComputedSize(ch)) + step)
  }

  /** The position a div gives child `k`: an absolute child at its anchor
      within the inner area, any other at the running main offset and its
      cross offset. */
  function ChildPos(d: Div, c: DivComputed, k: nat): Vec2
    requires k < |d.children|
  {
    var s := d.style;
    var inner := InnerSize(s, c);
    var size := ComputedSize(d.children[k].element);
    match AbsoluteUnitPos(d.children[k].element)
    case Some(unit) => inner.Sub(size).Mul(unit).Add(InnerPos(s, c))
    case None =>
      var cross := CrossOffset(s.crossAlign, CrossOf(s.axis, inner), CrossOf(s.axis, size));
      Assemble(s.axis, MainOffset(d, c, k), cross).Add(InnerPos(s, c))
  }

  function MovedGlyphs(gs: seq<GlyphBoundsAndUv>, delta: Vec2): (r: seq<GlyphBoundsAndUv>)
    ensures |r| == |gs|
  {
    seq(|gs|, j requires 0 <= j < |gs| => gs[j].(bounds := RectAdd(gs[j].bounds, delta)))
  }

  /** `set_position`: the element and everything in it placed, the element
      itself at `pos` plus its offset. */
  function Placed(e: ElementWithComputed, pos: Vec2): (r: ElementWithComputed)
    decreases e, Width(e)
  {
    match e
    case DivWith(d, c) =>
      var c' := c.(bounds := c.bounds.(pos := pos.Add(d.style.offset)));
      DivWith(d.(children := PlacedChildren(e, c', |d.children|)), c')
    case TextWith(t, c) =>
      var origin := pos.Add(t.offset);
      TextWith(t.(sections := PlacedSections(e, origin, |t.sections|)),
               c.(bounds := c.bounds.(pos := origin), glyphs := MovedGlyphs(c.glyphs, origin)))
  }

  /** The first `k` children of a div placed, given the div's own computed
      data with its position already set. */
  function PlacedChildren(e: ElementWithComputed, c: DivComputed, k: nat): (r: seq<ElementBox>)
    requires e.DivWith? && k <= |e.div.children|
    ensures |r| == k
    decreases e, k
  {
    if k == 0 then []
    else
      var b := e.div.children[k - 1];
      PlacedChildren(e, c, k - 1) + [b.(element := Placed(b.element, ChildPos(e.div, c, k - 1)))]
  }

  /** The first `k` sections of a text placed from its `origin`: an inline
      element at the origin plus its position within the text. */
  function PlacedSections(e: ElementWithComputed, origin: Vec2, k: nat): (r: seq<Section>)
    requires e.TextWith? && k <= |e.text.sections|
    ensures |r| == k
    decreases e, k
  {
    if k == 0 then []
    else
      var sec := e.text.sections[k - 1];
      PlacedSections(e, origin, k - 1) +
      match sec
      case TextSec(_) => [sec]
      case ElementSec(b, slh) => [ElementSec(b.(element := Placed(b.element, origin.Add(Bounds(b.element).pos))), slh)]
  }

  // ----- The text layout state machine -----

  /** `TextLayout`: the state of laying out one text, grown section by
      section and character by character. */
  class TextLayout {
    var maxWidth: real
    var glyphs: seq<GlyphBoundsAndUv>
    var textSectionGlyphs: seq<Range>
    var lines: seq<LineRun>
    var currentLine: LineRun
    var word: seq<OffsetAndAdvance>
    var elementLineIndices: seq<nat>

    function State(): TextState
      reads this
    {
      TextState(maxWidth, glyphs, textSectionGlyphs, lines, currentLine, word, elementLineIndices)
    }

    /** The layout `layout_text` creates. */
    constructor (maxWidth: real)
      ensures State() == InitialState(maxWidth)
    {
      this.maxWidth := maxWidth;
      glyphs := [];
      textSectionGlyphs := [];
      lines := [];
      currentLine := LineRun(0.0, 0.0, METRICS_ZERO, Range(0, 0));
      word := [];
      elementLineIndices := [];
    }

    /** `add_glyph_to_current_line`. */
    method AddGlyphToCurrentLine(g: GlyphInfo)
      modifies this
      ensures State() == WithGlyph(old(State()), g)
    {
      if g.uv.Some? {
        var xOffset := g.metrics.xmin;
        var yOffset := -g.metrics.ymin;
        var height := g.metrics.height;
        var pos := Vec2(currentLine.advance + xOffset, -height + yOffset);
        var size := Vec2(g.metrics.width, g.metrics.height);
        glyphs := glyphs + [GlyphBoundsAndUv(Rect(pos, size), g.uv.value)];
        word := word + [OffsetAndAdvance(xOffset, g.metrics.advance)];
      } else {
        word := [];
      }
      currentLine := currentLine.(advance := currentLine.advance + g.metrics.advance);
    }

    /** `break_line`. */
    method BreakLine(metrics: Option<LineMetrics>)
      modifies this
      ensures State() == BrokenLine(old(State()), metrics)
    {
      currentLine := currentLine.(glyphRange := currentLine.glyphRange.(end := |glyphs|));
      var newLine := match metrics
        case Some(m) => LineRun(0.0, 0.0, m, Range(0, 0))
        case None => LineRun(0.0, 0.0, METRICS_ZERO, Range(0, 0));
      newLine := newLine.(glyphRange := newLine.glyphRange.(start := |glyphs|));
      var oldLine := currentLine;
      currentLine := newLine;
      lines := lines + [oldLine];
    }

    /** The carrying of the current word onto the new line in
      `layout_text_section`, right after an overflow break. */
    method CarryWord()
      requires Valid(State()) && lines != []
      requires |word| <= lines[|lines| - 1].glyphRange.end && |word| <= currentLine.glyphRange.start
      modifies this
      ensures State() == Carried(old(State()))
    {
      var lastN := |word|;
      var last := lines[|lines| - 1];
      var gs, advance := RelayWord(glyphs, word, currentLine.advance);
      lines := lines[..|lines| - 1] + [last.(glyphRange := last.glyphRange.(end := last.glyphRange.end - lastN))];
      currentLine := currentLine.(glyphRange := currentLine.glyphRange.(start := currentLine.glyphRange.start - lastN),
                                  advance := advance);
      glyphs := gs;
    }

    /** The body of the character loop of `layout_text_section`. */
    method LayoutChar(ch: char, g: GlyphInfo, lm: LineMetrics)
      requires Valid(State())
      modifies this
      ensures State() == AfterChar(old(State()), ch, g, lm)
    {
      if ch == '\n' {
        BreakLine(Some(lm));
        return;
      }
      var lineBreak := currentLine.advance + g.metrics.advance > maxWidth;
      if lineBreak {
        BreakLine(Some(lm));
        if IsWhitespace(ch) {
          word := [];
        } else {
          CarryWord();
          AddGlyphToCurrentLine(g);
        }
      } else {
        AddGlyphToCurrentLine(g);
      }
    }

    /** The character loop of `layout_text_section`. */
    method LayoutChars(ts: TextSection, lm: LineMetrics)
      requires Valid(State())
      modifies this
      ensures State() == AfterChars(old(State()), ts, lm, |ts.text|)
    {
      ghost var s0 := State();
      var i := 0;
      while i < |ts.text|
        invariant 0 <= i <= |ts.text| && Valid(s0)
        invariant State() == AfterChars(s0, ts, lm, i)
      {
        var ch := ts.text[i];
        LayoutChar(ch, ts.font.glyphInfo(ch, ts.fontSize), lm);
        AfterCharsStep(s0, ts, lm, i);
        i := i + 1;
      }
    }

    /** `layout_text_section`. */
    method LayoutTextSection(ts: TextSection)
      requires Valid(State())
      modifies this
      ensures State() == AfterTextSection(old(State()), ts)
    {
      var before := |glyphs|;
      var lm := ts.font.lineMetrics(ts.fontSize);
      currentLine := currentLine.(maxMetrics := MergeMetrics(currentLine.maxMetrics, lm));
      LayoutChars(ts, lm);
      textSectionGlyphs := textSectionGlyphs + [Range(before, |glyphs|)];
    }

    /** `layout_element_section` for section `k` of `e`: the inline element
      sized for the text's width and unbounded height, then placed along
      the line. */
    method LayoutElementSection(e: ElementWithComputed, k: nat) returns (b': ElementBox)
      requires e.TextWith? && k < |e.text.sections| && e.text.sections[k].ElementSec? && Valid(State())
      modifies this
      ensures var b := e.text.sections[k].element;
              var sized := Sized(b.element, Vec2(old(maxWidth), UNBOUNDED));
              var size := ComputedSize(sized);
              && State() == AfterElementSection(old(State()), size, e.text.sections[k].setsLineHeight)
              && b' == b.(element := SetPos(sized, Bounds(sized).pos.(x := ElementLine(old(State()), size.x).current.advance)))
      decreases e, 0, k
    {
      var b := e.text.sections[k].element;
      var element, size := GetAndSetSize(b.element, Vec2(maxWidth, UNBOUNDED));
      ghost var s0 := State();
      var lineBreak := currentLine.advance + size.x > maxWidth;
      if lineBreak {
        BreakLine(None);
      }
      assert State() == ElementLine(s0, size.x);
      element := SetPos(element, Bounds(element).pos.(x := currentLine.advance));
      currentLine := currentLine.(advance := currentLine.advance + size.x);
      var lineIndex := |lines|;
      elementLineIndices := elementLineIndices + [lineIndex];
      if e.text.sections[k].setsLineHeight {
        currentLine := currentLine.(maxMetrics := currentLine.maxMetrics.(ascent := Max(currentLine.maxMetrics.ascent, size.y)));
      }
      b' := b.(element := element);
    }

    /** `TextLayout::layout`: every section of `e` in order. */
    method Layout(e: ElementWithComputed) returns (ss: seq<Section>)
      requires e.TextWith? && State() == InitialState(maxWidth)
      modifies this
      ensures (State(), ss) == LaidOutSections(e, |e.text.sections|, old(maxWidth))
      decreases e, 0
    {
      ss := [];
      var k := 0;
      while k < |e.text.sections|
        invariant k <= |e.text.sections|
        invariant (State(), ss) == LaidOutSections(e, k, old(maxWidth))
      {
        LaidOutSectionsNext(e, k, old(maxWidth));
        match e.text.sections[k] {
          case TextSec(ts) =>
            LayoutTextSection(ts);
            ss := ss + [e.text.sections[k]];
          case ElementSec(_, slh) =>
            var b' := LayoutElementSection(e, k);
            ss := ss + [ElementSec(b', slh)];
        }
        k := k + 1;
      }
    }

    /** `finalize`. */
    method Finalize(ss: seq<Section>, gap: real) returns (ss': seq<Section>, computed: TextComputed)
      requires Valid(State()) && |elementLineIndices| == ElementCount(ss)
      ensures (ss', computed) == Finalized(State(), ss, gap)
    {
      var current := currentLine.(glyphRange := currentLine.glyphRange.(end := |glyphs|));
      var ls := lines + [current];
      var gs, baselines, height, width := SetBaselines(glyphs, ls, gap);
      ss' := PlaceInlineElements(ss, ls, baselines, elementLineIndices, gap);
      computed := TextComputed(ComputedBounds(ZERO2, Vec2(width, height)), textSectionGlyphs, gs);
    }
  }

  /** The re-laying loop of the carried word: the last `|word|` glyphs
      moved to `advance` plus the advances of the word glyphs before each,
      plus its own offset. */
  method RelayWord(glyphs: seq<GlyphBoundsAndUv>, word: seq<OffsetAndAdvance>, advance: real)
    returns (gs: seq<GlyphBoundsAndUv>, advance': real)
    requires |word| <= |glyphs|
    ensures gs == glyphs[..|glyphs| - |word|] + Relaid(glyphs[|glyphs| - |word|..], word, advance)
    ensures advance' == advance + WordAdvance(word)
  {
    var from := |glyphs| - |word|;
    ghost var relaid := Relaid(glyphs[from..], word, advance);
    gs := glyphs;
    advance' := advance;
    var i := 0;
    while i < |word|
      invariant 0 <= i <= |word| && |gs| == |glyphs|
      invariant gs[..from] == glyphs[..from]
      invariant forall j :: 0 <= j < i ==> gs[from + j] == relaid[j]
      invariant forall j :: from + i <= j < |glyphs| ==> gs[j] == glyphs[j]
      invariant advance' == advance + WordAdvance(word[..i])
    {
      gs := gs[from + i := WithX(gs[from + i], advance' + word[i].offset)];
      assert word[..i + 1][..i] == word[..i];
      advance' := advance' + word[i].advance;
      i := i + 1;
    }
    assert word[..|word|] == word;
    assert gs[from..] == relaid;
    assert gs == gs[..from] + gs[from..];
  }

  /** The line loop of `finalize`: each line's baseline, its glyphs moved
      down to it, the widest line and the total height. */
  method SetBaselines(glyphs: seq<GlyphBoundsAndUv>, lines: seq<LineRun>, gap: real)
    returns (gs: seq<GlyphBoundsAndUv>, baselines: seq<real>, height: real, width: real)
    requires forall l :: 0 <= l < |lines| ==> lines[l].glyphRange.end <= |glyphs|
    ensures gs == ShiftLines(glyphs, lines, gap, |lines|)
    ensures |baselines| == |lines| && forall l :: 0 <= l < |lines| ==> baselines[l] == Baseline(lines, l, gap)
    ensures height == LineTop(lines, |lines|, gap) && width == MaxAdvance(lines, |lines|)
  {
    var baseY := 0.0;
    width := 0.0;
    gs := glyphs;
    baselines := [];
    var i := 0;
    while i < |lines|
      invariant 0 <= i <= |lines|
      invariant baseY == LineTop(lines, i, gap) && width == MaxAdvance(lines, i)
      invariant gs == ShiftLines(glyphs, lines, gap, i)
      invariant |baselines| == i && forall l :: 0 <= l < i ==> baselines[l] == Baseline(lines, l, gap)
    {
      var line := lines[i];
      baseY := baseY + line.maxMetrics.ascent;
      baselines := baselines + [baseY];
      width := Max(width, line.advance);
      gs := ShiftGlyphRange(gs, line.glyphRange, baseY);
      baseY := baseY + (-line.maxMetrics.descent + line.maxMetrics.lineGap);
      if i < |lines| - 1 {
        baseY := baseY + gap;
      }
      i := i + 1;
    }
    height := baseY;
  }

  /** The glyph loop of one line in `finalize`. */
  method ShiftGlyphRange(glyphs: seq<GlyphBoundsAndUv>, r: Range, dy: real) returns (gs: seq<GlyphBoundsAndUv>)
    requires r.end <= |glyphs|
    ensures gs == ShiftRange(glyphs, r, dy)
  {
    gs := glyphs;
    var j := r.start;
    while j < r.end
      invariant |gs| == |glyphs| && r.start <= j && (r.start <= r.end ==> j <= r.end) && (r.end < r.start ==> j == r.start)
      invariant forall i :: 0 <= i < |gs| ==>
        gs[i] == if r.start <= i < j then WithY(glyphs[i], dy) else glyphs[i]
    {
      gs := gs[j := WithY(gs[j], dy)];
      j := j + 1;
    }
    assert forall i :: 0 <= i < |gs| ==> (r.start <= i < j <==> r.Contains(i));
  }

  /** The inline-element loop of `finalize`: element `i` goes to the bottom
      of line `lineIndices[i]`, less its height. */
  method PlaceInlineElements(ss: seq<Section>, lines: seq<LineRun>, baselines: seq<real>, lineIndices: seq<nat>, gap: real)
    returns (ss': seq<Section>)
    requires |lineIndices| == ElementCount(ss) && forall i :: 0 <= i < |lineIndices| ==> lineIndices[i] < |lines|
    requires |baselines| == |lines| && forall l :: 0 <= l < |lines| ==> baselines[l] == Baseline(lines, l, gap)
    ensures ss' == PlaceInline(ss, lines, gap, lineIndices, |ss|)
  {
    ss' := [];
    var n := 0;
    var k := 0;
    while k < |ss|
      invariant k <= |ss| && n == ElementCount(ss[..k])
      invariant ss' == PlaceInline(ss, lines, gap, lineIndices, k)
    {
      assert ss[..k + 1][..k] == ss[..k];
      match ss[k] {
        case TextSec(_) =>
          ss' := ss' + [ss[k]];
        case ElementSec(b, slh) =>
          ElementCountPrefix(ss, k + 1);
          var line := lineIndices[n];
          var bottomY := baselines[line] - lines[line].maxMetrics.descent;
          var element := SetPos(b.element, Bounds(b.element).pos.(y := bottomY - ComputedSize(b.element).y));
          ss' := ss' + [ElementSec(b.(element := element), slh)];
          n := n + 1;
      }
      k := k + 1;
    }
  }

  // ----- The passes as methods -----

  /** `ElementWithComputed::get_and_set_size`. */
  method GetAndSetSize(e: ElementWithComputed, maxSize: Vec2) returns (e': ElementWithComputed, size: Vec2)
    ensures e' == Sized(e, maxSize) && size == ComputedSize(e')
    decreases e, 3
  {
    match e {
      case DivWith(_, _) => e', size := DivGetAndSetSize(e, maxSize);
      case TextWith(_, _) => e', size := TextGetAndSetSize(e, maxSize);
    }
  }

  /** `Div::get_and_set_size`, case by case on which lengths are fixed. */
  method DivGetAndSetSize(e: ElementWithComputed, maxSize: Vec2) returns (e': ElementWithComputed, size: Vec2)
    requires e.DivWith?
    ensures e' == Sized(e, maxSize) && size == ComputedSize(e')
    decreases e, 2
  {
    var d := e.div;
    var width := if d.style.width.Some? then Some(Fixed(d.style.width.value, maxSize.x)) else None;
    var height := if d.style.height.Some? then Some(Fixed(d.style.height.value, maxSize.y)) else None;
    var padX := d.style.padding.left + d.style.padding.right;
    var padY := d.style.padding.top + d.style.padding.bottom;
    var children, contentSize;
    ghost var inner := InnerMax(d.style, maxSize);
    match (width, height) {
      case (Some(w), Some(h)) =>
        size := Vec2(w, h);
        assert size.Sub(Vec2(padX, padY)) == inner;
        children, contentSize := GetAndSetChildSizes(e, size.Sub(Vec2(padX, padY)));
      case (Some(w), None) =>
        assert Vec2(w - padX, maxSize.y) == inner;
        children, contentSize := GetAndSetChildSizes(e, Vec2(w - padX, maxSize.y));
        size := Vec2(w, contentSize.y + padY);
      case (None, Some(h)) =>
        assert Vec2(maxSize.x, h - padY) == inner;
        children, contentSize := GetAndSetChildSizes(e, Vec2(maxSize.x, h - padY));
        size := Vec2(contentSize.x + padX, h);
      case (None, None) =>
        children, contentSize := GetAndSetChildSizes(e, maxSize);
        size := Vec2(contentSize.x + padX, contentSize.y + padY);
    }
    assert size == DivSize(d.style, maxSize, contentSize);
    e' := DivWith(d.(children := children), DivComputed(e.divComputed.bounds.(size := size), contentSize));
    SizedDiv(e, maxSize);
  }

  /** `Sized` of a div, unfolded. */
  lemma SizedDiv(e: ElementWithComputed, maxSize: Vec2)
    requires e.DivWith?
    ensures var children := SizedChildren(e, |e.div.children|, InnerMax(e.div.style, maxSize));
            var content := ChildrenSize(e.div.style.axis, children);
            Sized(e, maxSize) ==
              DivWith(e.div.(children := children),
                      DivComputed(e.divComputed.bounds.(size := DivSize(e.div.style, maxSize, content)), content))
  {
  }

  /** `get_and_set_child_sizes`: every child sized for `maxSize`, and the
      size they take together. */
  method GetAndSetChildSizes(e: ElementWithComputed, maxSize: Vec2) returns (children: seq<ElementBox>, all: Vec2)
    requires e.DivWith?
    ensures children == SizedChildren(e, |e.div.children|, maxSize)
    ensures all == ChildrenSize(e.div.style.axis, children)
    decreases e, 1
  {
    var axis := e.div.style.axis;
    all := ZERO2;
    children := [];
    var k := 0;
    while k < |e.div.children|
      invariant k <= |e.div.children|
      invariant children == SizedChildren(e, k, maxSize) && all == ChildrenSize(axis, children)
    {
      var b := e.div.children[k];
      var child, childSize := GetAndSetSize(b.element, maxSize);
      if !IsAbsolute(child) {
        if axis == X {
          all := Vec2(all.x + childSize.x, Max(all.y, childSize.y));
        } else {
          all := Vec2(Max(all.x, childSize.x), all.y + childSize.y);
        }
      }
      assert (children + [b.(element := child)])[..k] == children;
      children := children + [b.(element := child)];
      k := k + 1;
    }
  }

  /** `Text::get_and_set_size`. */
  method TextGetAndSetSize(e: ElementWithComputed, maxSize: Vec2) returns (e': ElementWithComputed, size: Vec2)
    requires e.TextWith?
    ensures e' == Sized(e, maxSize) && size == ComputedSize(e')
    decreases e, 2
  {
    var sections, computed := LayoutText(e, maxSize.x);
    e' := TextWith(e.text.(sections := sections), computed);
    size := computed.bounds.size;
  }

  /** `layout_text`. */
  method LayoutText(e: ElementWithComputed, maxWidth: real) returns (ss: seq<Section>, computed: TextComputed)
    requires e.TextWith?
    ensures (ss, computed) == LaidOutText(e, maxWidth)
    decreases e, 1
  {
    var layout := new TextLayout(maxWidth);
    ss := layout.Layout(e);
    ss, computed := layout.Finalize(ss, e.text.additionalLineGap);
  }

  /** `ElementWithComputed::set_position`; sizes must have been set. */
  method SetPosition(e: ElementWithComputed, pos: Vec2) returns (e': ElementWithComputed)
    ensures e' == Placed(e, pos)
    decreases e, 2
  {
    match e {
      case DivWith(_, _) => e' := DivSetPosition(e, pos);
      case TextWith(_, _) => e' := TextSetPosition(e, pos);
    }
  }

  /** `Div::set_position`: its own position, then its children's. */
  method DivSetPosition(e: ElementWithComputed, pos: Vec2) returns (e': ElementWithComputed)
    requires e.DivWith?
    ensures e' == Placed(e, pos)
    decreases e, 1
  {
    var c := e.divComputed.(bounds := e.divComputed.bounds.(pos := pos.Add(e.div.style.offset)));
    var children := SetChildPositions(e, c);
    e' := DivWith(e.div.(children := children), c);
  }

  /** `set_child_positions`: the children placed along the main axis from
      the offset and step of the alignment, across it by the cross
      alignment; absolute children at their anchor. */
  method SetChildPositions(e: ElementWithComputed, c: DivComputed) returns (children: seq<ElementBox>)
    requires e.DivWith?
    ensures children == PlacedChildren(e, c, |e.div.children|)
    decreases e, 0
  {
    var d := e.div;
    var n := |d.children|;
    if n == 0 {
      return [];
    }
    var padX := d.style.padding.left + d.style.padding.right;
    var padY := d.style.padding.top + d.style.padding.bottom;
    var innerSize := Vec2(c.bounds.size.x - padX, c.bounds.size.y - padY);
    var innerPos := c.bounds.pos.Add(Vec2(d.style.padding.left, d.style.padding.top));
    var axis := d.style.axis;
    var mainSize, crossSize := MainOf(axis, innerSize), CrossOf(axis, innerSize);
    var mainContentSize := MainOf(axis, c.contentSize);
    var mainOffset, mainStep := MainOffsetAndStep(d.style.mainAlign, mainSize, mainContentSize, n).0,
                                MainOffsetAndStep(d.style.mainAlign, mainSize, mainContentSize, n).1;
    children := [];
    var k := 0;
    while k < n
      invariant k <= n && mainStep == OffsetAndStep(d, c).1
      invariant children == PlacedChildren(e, c, k) && mainOffset == MainOffset(d, c, k)
    {
      var ch := d.children[k];
      var chSize := ComputedSize(ch.element);
      var cross := CrossOffset(d.style.crossAlign, crossSize, CrossOf(axis, chSize));
      var relPos;
      match AbsoluteUnitPos(ch.element) {
        case Some(unitPos) =>
          relPos := innerSize.Sub(chSize).Mul(unitPos);
        case None =>
          relPos := Assemble(axis, mainOffset, cross);
          mainOffset := mainOffset + MainOf(axis, chSize) + mainStep;
      }
      var placed := SetPosition(ch.element, relPos.Add(innerPos));
      children := children + [ch.(element := placed)];
      k := k + 1;
    }
  }

  /** `Text::set_position`: its own position, then its inline elements'
      relative to it, then its glyphs moved by it. */
  method TextSetPosition(e: ElementWithComputed, pos: Vec2) returns (e': ElementWithComputed)
    requires e.TextWith?
    ensures e' == Placed(e, pos)
    decreases e, 1
  {
    var origin := pos.Add(e.text.offset);
    var sections := SetSectionPositions(e, origin);
    var glyphs := MoveGlyphs(e.textComputed.glyphs, origin);
    e' := TextWith(e.text.(sections := sections),
                   e.textComputed.(bounds := e.textComputed.bounds.(pos := origin), glyphs := glyphs));
  }

  /** The inline-element loop of `Text::set_position`. */
  method SetSectionPositions(e: ElementWithComputed, origin: Vec2) returns (ss: seq<Section>)
    requires e.TextWith?
    ensures ss == PlacedSections(e, origin, |e.text.sections|)
    decreases e, 0
  {
    ss := [];
    var k := 0;
    while k < |e.text.sections|
      invariant k <= |e.text.sections| && ss == PlacedSections(e, origin, k)
    {
      match e.text.sections[k] {
        case TextSec(_) =>
          ss := ss + [e.text.sections[k]];
        case ElementSec(b, slh) =>
          var relativePosInText := Bounds(b.element).pos;
          var placed := SetPosition(b.element, origin.Add(relativePosInText));
          ss := ss + [ElementSec(b.(element := placed), slh)];
      }
      k := k + 1;
    }
  }

  /** The glyph loop of `Text::set_position`. */
  method MoveGlyphs(glyphs: seq<GlyphBoundsAndUv>, delta: Vec2) returns (gs: seq<GlyphBoundsAndUv>)
    ensures gs == MovedGlyphs(glyphs, delta)
  {
    gs := glyphs;
    var j := 0;
    while j < |gs|
      invariant j <= |gs| == |glyphs|
      invariant forall i :: 0 <= i < |gs| ==> gs[i] == if i < j then MovedGlyphs(glyphs, delta)[i] else glyphs[i]
    {
      var g := gs[j];
      var pos := Vec2(g.bounds.pos.x + delta.x, g.bounds.pos.y + delta.y);
      gs := gs[j := g.(bounds := g.bounds.(pos := pos))];
      j := j + 1;
    }
  }

  // ----- Entry points -----

  /** `ElementBox::layout_in_size`: sized for at most `size`, then placed at
      `posOffset`. */
  method LayoutInSize(b: ElementBox, size: Vec2, posOffset: Vec2) returns (b': ElementBox)
    ensures b' == b.(element := Placed(Sized(b.element, size), posOffset))
    ensures Consistent(b'.element)
  {
    var sized, _ := GetAndSetSize(b.element, size);
    var placed := SetPosition(sized, posOffset);
    b' := b.(element := placed);
    LaidOutConsistent(b.element, size, posOffset);
  }

  /** `ElementBox::layout`: unbounded, at the origin. */
  method LayoutBox(b: ElementBox) returns (b': ElementBox)
    ensures b' == b.(element := Placed(Sized(b.element, Vec2(UNBOUNDED, UNBOUNDED)), ZERO2))
    ensures Consistent(b'.element)
  {
    b' := LayoutInSize(b, Vec2(UNBOUNDED, UNBOUNDED), ZERO2);
  }

  /** `ElementBox::layout_relative_to_own_size`: sized unbounded, then
      placed so that the point at `unitPos` of its own size lands on
      `posOffset`. */
  method LayoutRelativeToOwnSize(b: ElementBox, unitPos: Vec2, posOffset: Vec2) returns (b': ElementBox)
    ensures var sized := Sized(b.element, Vec2(UNBOUNDED, UNBOUNDED));
            b' == b.(element := Placed(sized, ComputedSize(sized).Neg().Mul(unitPos).Add(posOffset)))
    ensures Consistent(b'.element)
  {
    var sized, ownSize := GetAndSetSize(b.element, Vec2(UNBOUNDED, UNBOUNDED));
    var placed := SetPosition(sized, ownSize.Neg().Mul(unitPos).Add(posOffset));
    b' := b.(element := placed);
    LaidOutConsistent(b.element, Vec2(UNBOUNDED, UNBOUNDED), ownSize.Neg().Mul(unitPos).Add(posOffset));
  }

  // ----- Properties of text layout -----

  /** The texture coordinates of glyphs, in order. */
  function Uvs(gs: seq<GlyphBoundsAndUv>): (r: seq<Aabb>)
    ensures |r| == |gs|
  {
    seq(|gs|, i requires 0 <= i < |gs| => gs[i].uv)
  }

  /** The font gives texture coordinates exactly to the non-whitespace
      characters of the section (the source's debug assertion). */
  predicate MarksWhitespace(ts: TextSection)
  {
    forall i :: 0 <= i < |ts.text| ==>
      (ts.font.glyphInfo(ts.text[i], ts.fontSize).uv.Some? <==> !IsWhitespace(ts.text[i]))
  }

  /** The texture coordinates of the visible characters among the first
      `k` of a section. */
  function VisibleUvs(ts: TextSection, k: nat): seq<Aabb>
    requires k <= |ts.text| && MarksWhitespace(ts)
  {
    if k == 0 then []
    else
      var ch := ts.text[k - 1];
      VisibleUvs(ts, k - 1) + (if IsWhitespace(ch) then [] else [ts.font.glyphInfo(ch, ts.fontSize).uv.value])
  }

  /** Carrying a word moves glyphs sideways only: their number and texture
      coordinates stay. */
  lemma CarriedKeepsUvs(s: TextState)
    requires Valid(s) && s.lines != []
    requires |s.word| <= s.lines[|s.lines| - 1].glyphRange.end && |s.word| <= s.current.glyphRange.start
    ensures Uvs(Carried(s).glyphs) == Uvs(s.glyphs)
  {
    var n := |s.glyphs| - |s.word|;
    var r := Carried(s).glyphs;
    forall i | 0 <= i < |r|
      ensures r[i].uv == s.glyphs[i].uv
    {
      if i >= n {
        assert r[i] == Relaid(s.glyphs[n..], s.word, s.current.advance)[i - n];
      }
    }
  }

  /** One character adds one glyph, carrying its texture coordinates, when
      it is visible and none when it is whitespace (a newline included),
      wherever the line breaks. */
  lemma AfterCharUvs(s: TextState, ch: char, g: GlyphInfo, lm: LineMetrics)
    requires Valid(s) && (g.uv.Some? <==> !IsWhitespace(ch))
    ensures Uvs(AfterChar(s, ch, g, lm).glyphs) == Uvs(s.glyphs) + (if IsWhitespace(ch) then [] else [g.uv.value])
  {
    if ch != '\n' && s.current.advance + g.metrics.advance > s.maxWidth && !IsWhitespace(ch) {
      var b := BrokenLine(s, Some(lm));
      CarriedKeepsUvs(b);
      assert Uvs(Carried(b).glyphs + [GlyphAt(Carried(b).current.advance, g)]) == Uvs(Carried(b).glyphs) + [g.uv.value];
    } else if ch != '\n' && s.current.advance + g.metrics.advance <= s.maxWidth && !IsWhitespace(ch) {
      assert Uvs(s.glyphs + [GlyphAt(s.current.advance, g)]) == Uvs(s.glyphs) + [g.uv.value];
    }
  }

  /** Laying out a section's characters adds exactly the glyphs of its
      visible characters, in order, and keeps the earlier glyphs' texture
      coordinates. */
  lemma {:induction false} AfterCharsUvs(s: TextState, ts: TextSection, lm: LineMetrics, k: nat)
    requires Valid(s) && k <= |ts.text| && MarksWhitespace(ts)
    ensures Uvs(AfterChars(s, ts, lm, k).glyphs) == Uvs(s.glyphs) + VisibleUvs(ts, k)
  {
    if k > 0 {
      var j: nat := k - 1;
      AfterCharsUvs(s, ts, lm, j);
      AfterCharsUvsStep(s, ts, lm, j);
    }
  }

  lemma AfterCharsUvsStep(s: TextState, ts: TextSection, lm: LineMetrics, k: nat)
    requires Valid(s) && k < |ts.text| && MarksWhitespace(ts)
    requires Uvs(AfterChars(s, ts, lm, k).glyphs) == Uvs(s.glyphs) + VisibleUvs(ts, k)
    ensures Uvs(AfterChars(s, ts, lm, k + 1).glyphs) == Uvs(s.glyphs) + VisibleUvs(ts, k + 1)
  {
    var ch := ts.text[k];
    var g := ts.font.glyphInfo(ch, ts.fontSize);
    AfterCharsStep(s, ts, lm, k);
    assert g.uv.Some? <==> !IsWhitespace(ch);
    AfterCharUvs(AfterChars(s, ts, lm, k), ch, g, lm);
    var x := if IsWhitespace(ch) then [] else [g.uv.value];
    assert VisibleUvs(ts, k + 1) == VisibleUvs(ts, k) + x;
    assert (Uvs(s.glyphs) + VisibleUvs(ts, k)) + x == Uvs(s.glyphs) + (VisibleUvs(ts, k) + x);
  }

  /** Ranges that follow each other without gap or overlap from 0 to `n`
      (none at all when `n` is 0). */
  predicate RangesTile(rs: seq<Range>, n: nat)
  {
    && (rs == [] ==> n == 0)
    && (rs != [] ==> rs[0].start == 0 && rs[|rs| - 1].end == n)
    && (forall r :: 0 <= r < |rs| ==> rs[r].start <= rs[r].end)
    && (forall r :: 0 < r < |rs| ==> rs[r].start == rs[r - 1].end)
  }

  /** The glyph ranges of a text's sections tile its glyphs: each section
      owns the glyphs laid out while it was processed, and inline elements
      add none. */
  lemma {:induction false} SectionRangesTile(e: ElementWithComputed, k: nat, maxWidth: real)
    requires e.TextWith? && k <= |e.text.sections|
    ensures var s := LaidOutSections(e, k, maxWidth).0;
            RangesTile(s.textSectionGlyphs, |s.glyphs|)
    decreases k
  {
    if k > 0 {
      SectionRangesTile(e, k - 1, maxWidth);
      var s := LaidOutSections(e, k - 1, maxWidth).0;
      var r := LaidOutSections(e, k, maxWidth).0;
      match e.text.sections[k - 1]
      case TextSec(ts) =>
        assert r == AfterTextSection(s, ts);
        AppendRangeTiles(s.textSectionGlyphs, |s.glyphs|, |r.glyphs|);
      case ElementSec(b, slh) =>
        assert r.glyphs == s.glyphs && r.textSectionGlyphs == s.textSectionGlyphs;
    }
  }

  lemma AppendRangeTiles(rs: seq<Range>, n: nat, m: nat)
    requires RangesTile(rs, n) && n <= m
    ensures RangesTile(rs + [Range(n, m)], m)
  {
  }

  // ----- Properties of finalizing -----

  /** A line's height: `ascent - descent + line_gap`. */
  function LineHeight(l: LineRun): real
  {
    l.maxMetrics.ascent - l.maxMetrics.descent + l.maxMetrics.lineGap
  }

  function Heights(lines: seq<LineRun>): (r: seq<real>)
    ensures |r| == |lines|
  {
    seq(|lines|, l requires 0 <= l < |lines| => LineHeight(lines[l]))
  }

  /** Line `k` starts below the heights of the lines above it and one `gap`
      after each of them; the text is as tall as all its lines with `gap`
      between neighbours, and consecutive baselines are one descent, one
      line gap, one `gap` and the next ascent apart. */
  lemma {:induction false} LineTopSum(lines: seq<LineRun>, k: nat, gap: real)
    requires k <= |lines|
    ensures LineTop(lines, k, gap) == Sum(Heights(lines)[..k]) + (if 0 < k == |lines| then k - 1 else k) as real * gap
    ensures 0 < k == |lines| ==> LineTop(lines, k, gap) == Sum(Heights(lines)) + (k - 1) as real * gap
    ensures k + 1 < |lines| ==>
      Baseline(lines, k + 1, gap) == Baseline(lines, k, gap) - lines[k].maxMetrics.descent
                                     + lines[k].maxMetrics.lineGap + gap + lines[k + 1].maxMetrics.ascent
  {
    if k > 0 {
      LineTopSum(lines, k - 1, gap);
      assert Heights(lines)[..k][..k - 1] == Heights(lines)[..k - 1];
    }
    assert Heights(lines)[..|lines|] == Heights(lines);
  }

  /** The text's width is the largest advance of its lines, and 0 when
      every line is empty. */
  lemma {:induction false} MaxAdvanceIsMax(lines: seq<LineRun>, k: nat)
    requires k <= |lines|
    ensures MaxAdvance(lines, k) >= 0.0
    ensures forall l :: 0 <= l < k ==> lines[l].advance <= MaxAdvance(lines, k)
    ensures MaxAdvance(lines, k) == 0.0 || exists l :: 0 <= l < k && lines[l].advance == MaxAdvance(lines, k)
  {
    if k > 0 {
      MaxAdvanceIsMax(lines, k - 1);
    }
  }

  function GlyphRanges(lines: seq<LineRun>): (r: seq<Range>)
    ensures |r| == |lines|
  {
    seq(|lines|, l requires 0 <= l < |lines| => lines[l].glyphRange)
  }

  /** In ranges that tile, an earlier range ends before a later one starts. */
  lemma {:induction false} TiledOrdered(rs: seq<Range>, n: nat, l: nat, m: nat)
    requires RangesTile(rs, n) && l < m < |rs|
    ensures rs[l].end <= rs[m].start
    decreases m - l
  {
    if l + 1 < m {
      TiledOrdered(rs, n, l + 1, m);
    }
  }

  /** Every position below `n` lies in exactly one of ranges that tile. */
  lemma {:induction false} OwningRange(rs: seq<Range>, n: nat, j: nat) returns (l: nat)
    requires RangesTile(rs, n) && j < n
    ensures l < |rs| && rs[l].Contains(j)
    ensures forall m :: 0 <= m < |rs| && rs[m].Contains(j) ==> m == l
    decreases |rs|
  {
    var last := |rs| - 1;
    if rs[last].Contains(j) {
      l := last;
    } else {
      var rs' := rs[..last];
      assert RangesTile(rs', rs[last].start);
      l := OwningRange(rs', rs[last].start, j);
    }
    forall m | 0 <= m < |rs| && rs[m].Contains(j)
      ensures m == l
    {
      if m < l {
        TiledOrdered(rs, n, m, l);
      } else if l < m {
        TiledOrdered(rs, n, l, m);
      }
    }
  }

  /** Ranges that tile `[0, n)` lie within it. */
  lemma TiledBounded(rs: seq<Range>, n: nat)
    requires RangesTile(rs, n)
    ensures forall r :: 0 <= r < |rs| ==> rs[r].end <= n
  {
    forall r | 0 <= r < |rs|
      ensures rs[r].end <= n
    {
      if r < |rs| - 1 {
        TiledOrdered(rs, n, r, |rs| - 1);
      }
    }
  }

  /** Moving the first `k` lines down: a glyph of one of them is moved by
      that line's baseline, once; a glyph after them is not moved. */
  lemma {:induction false} ShiftLinesTiled(gs: seq<GlyphBoundsAndUv>, lines: seq<LineRun>, gap: real, k: nat)
    requires RangesTile(GlyphRanges(lines), |gs|) && k <= |lines|
    ensures forall l: nat, j: nat :: l < k && lines[l].glyphRange.start <= j < lines[l].glyphRange.end && j < |gs| ==>
              ShiftLines(gs, lines, gap, k)[j] == WithY(gs[j], Baseline(lines, l, gap))
    ensures forall j: nat :: (k == 0 || lines[k - 1].glyphRange.end <= j) && j < |gs| ==>
              ShiftLines(gs, lines, gap, k)[j] == gs[j]
  {
    var rs := GlyphRanges(lines);
    if k > 0 {
      ShiftLinesTiled(gs, lines, gap, k - 1);
      var prev := ShiftLines(gs, lines, gap, k - 1);
      var r := lines[k - 1].glyphRange;
      forall l: nat, j: nat | l < k && lines[l].glyphRange.start <= j < lines[l].glyphRange.end && j < |gs|
        ensures ShiftLines(gs, lines, gap, k)[j] == WithY(gs[j], Baseline(lines, l, gap))
      {
        assert rs[l] == lines[l].glyphRange;
        assert ShiftLines(gs, lines, gap, k)[j] == if r.Contains(j) then WithY(prev[j], Baseline(lines, k - 1, gap)) else prev[j];
        if l < k - 1 {
          TiledOrdered(rs, |gs|, l, k - 1);
          assert !r.Contains(j);
        } else if k > 1 {
          assert rs[k - 1].start == rs[k - 2].end;
          assert prev[j] == gs[j];
        }
      }
      forall j: nat | lines[k - 1].glyphRange.end <= j < |gs|
        ensures ShiftLines(gs, lines, gap, k)[j] == gs[j]
      {
        assert ShiftLines(gs, lines, gap, k)[j] == prev[j];
        if k > 1 {
          assert rs[k - 1].start == rs[k - 2].end && rs[k - 1].start <= rs[k - 1].end;
        }
      }
    }
  }

  // ----- Lines tile the glyphs -----

  /** The finished lines and the current one tile the glyphs, and the word
      being built lies on the current line. */
  predicate Tiled(s: TextState)
  {
    && RangesTile(GlyphRanges(FinalLines(s)), |s.glyphs|)
    && s.current.glyphRange.start + |s.word| <= |s.glyphs|
  }

  lemma InitialTiled(maxWidth: real)
    ensures Tiled(InitialState(maxWidth)) && Valid(InitialState(maxWidth))
  {
    assert GlyphRanges(FinalLines(InitialState(maxWidth))) == [Range(0, 0)];
  }

  /** Adding a glyph extends the current line; whitespace ends the word. */
  lemma WithGlyphTiled(s: TextState, g: GlyphInfo)
    requires Tiled(s)
    ensures Tiled(WithGlyph(s, g))
  {
    var r := WithGlyph(s, g);
    var a := GlyphRanges(FinalLines(s));
    var b := GlyphRanges(FinalLines(r));
    assert b[..|s.lines|] == a[..|s.lines|];
    assert b[|s.lines|] == Range(s.current.glyphRange.start, |r.glyphs|);
  }

  /** Breaking a line splits the current range at the last glyph; the word
      stays on the new line only when it is empty. */
  lemma BrokenLineTiled(s: TextState, m: Option<LineMetrics>)
    requires Tiled(s)
    ensures RangesTile(GlyphRanges(FinalLines(BrokenLine(s, m))), |s.glyphs|)
    ensures Tiled(BrokenLine(s, m).(word := []))
    ensures s.word == [] ==> Tiled(BrokenLine(s, m))
  {
    var r := BrokenLine(s, m);
    var a := GlyphRanges(FinalLines(s));
    var b := GlyphRanges(FinalLines(r));
    assert b[..|s.lines|] == a[..|s.lines|];
    assert b[|s.lines|] == Range(s.current.glyphRange.start, |s.glyphs|);
    assert b[|s.lines| + 1] == Range(|s.glyphs|, |s.glyphs|);
  }

  /** Splitting the last of ranges that tile keeps them tiling. */
  lemma SplitLastTiles(p: seq<Range>, x: nat, y: nat, n: nat)
    requires RangesTile(p + [Range(x, n)], n) && x <= y <= n
    ensures RangesTile(p + [Range(x, y), Range(y, n)], n)
  {
    var a := p + [Range(x, n)];
    var b := p + [Range(x, y), Range(y, n)];
    forall r | 0 <= r < |b|
      ensures b[r].start <= b[r].end
    {
      if r < |p| {
        assert b[r] == a[r];
      }
    }
    forall r | 0 < r < |b|
      ensures b[r].start == b[r - 1].end
    {
      if r < |p| {
        assert b[r] == a[r] && b[r - 1] == a[r - 1];
      } else if r == |p| {
        assert b[r] == Range(x, y) && a[r] == Range(x, n) && b[r - 1] == a[r - 1];
      }
    }
    assert |p| > 0 ==> b[0] == a[0];
  }

  /** Carrying the word after a break hands its glyphs from the finished
      line to the new one: the lines still tile the glyphs. */
  lemma CarriedTiled(s: TextState, m: Option<LineMetrics>)
    requires Valid(s) && Tiled(s)
    ensures var b := BrokenLine(s, m);
            |b.word| <= b.lines[|b.lines| - 1].glyphRange.end && |b.word| <= b.current.glyphRange.start &&
            Tiled(Carried(b))
  {
    var b := BrokenLine(s, m);
    var c := Carried(b);
    var n := |s.word|;
    var gn := |s.glyphs|;
    var x := s.current.glyphRange.start;
    var p := GlyphRanges(s.lines);
    assert GlyphRanges(FinalLines(s)) == p + [Range(x, gn)];
    assert c.lines == s.lines + [s.current.(glyphRange := Range(x, gn - n))];
    assert c.current.glyphRange.start == gn - n;
    assert GlyphRanges(FinalLines(c)) == p + [Range(x, gn - n), Range(gn - n, gn)];
    SplitLastTiles(p, x, gn - n, gn);
  }

  /** One character keeps the lines tiling the glyphs, provided a newline
      only comes when no word is pending. */
  lemma AfterCharTiled(s: TextState, ch: char, g: GlyphInfo, lm: LineMetrics)
    requires Valid(s) && Tiled(s) && (ch == '\n' ==> s.word == [])
    ensures Tiled(AfterChar(s, ch, g, lm))
  {
    if ch == '\n' {
      BrokenLineTiled(s, Some(lm));
    } else if s.current.advance + g.metrics.advance > s.maxWidth {
      if IsWhitespace(ch) {
        BrokenLineTiled(s, Some(lm));
      } else {
        CarriedTiled(s, Some(lm));
        WithGlyphTiled(Carried(BrokenLine(s, Some(lm))), g);
      }
    } else {
      WithGlyphTiled(s, g);
    }
  }

  /** Characters without a newline keep the lines tiling the glyphs. */
  lemma {:induction false} AfterCharsTiled(s: TextState, ts: TextSection, lm: LineMetrics, k: nat)
    requires Valid(s) && Tiled(s) && k <= |ts.text| && '\n' !in ts.text
    ensures Tiled(AfterChars(s, ts, lm, k))
  {
    if k > 0 {
      var j: nat := k - 1;
      AfterCharsTiled(s, ts, lm, j);
      AfterCharsStep(s, ts, lm, j);
      AfterCharTiled(AfterChars(s, ts, lm, j), ts.text[j], ts.font.glyphInfo(ts.text[j], ts.fontSize), lm);
    }
  }

  /** A text section without a newline keeps the lines tiling the glyphs. */
  lemma AfterTextSectionTiled(s: TextState, ts: TextSection)
    requires Valid(s) && Tiled(s) && '\n' !in ts.text
    ensures Tiled(AfterTextSection(s, ts))
  {
    var lm := ts.font.lineMetrics(ts.fontSize);
    var s1 := s.(current := s.current.(maxMetrics := MergeMetrics(s.current.maxMetrics, lm)));
    assert GlyphRanges(FinalLines(s1)) == GlyphRanges(FinalLines(s));
    AfterCharsTiled(s1, ts, lm, |ts.text|);
    var s2 := AfterChars(s1, ts, lm, |ts.text|);
    assert GlyphRanges(FinalLines(AfterTextSection(s, ts))) == GlyphRanges(FinalLines(s2));
  }

  /** An inline element keeps the lines tiling the glyphs, provided it only
      forces a break when no word is pending. */
  lemma AfterElementSectionTiled(s: TextState, size: Vec2, setsLineHeight: bool)
    requires Valid(s) && Tiled(s) && (s.current.advance + size.x > s.maxWidth ==> s.word == [])
    ensures Tiled(AfterElementSection(s, size, setsLineHeight))
  {
    var b := ElementLine(s, size.x);
    if s.current.advance + size.x > s.maxWidth {
      BrokenLineTiled(s, None);
    }
    assert Tiled(b);
    var r := AfterElementSection(s, size, setsLineHeight);
    assert GlyphRanges(FinalLines(r)) == GlyphRanges(FinalLines(b));
  }

  /** Once the lines tile the glyphs, `finalize` moves every glyph exactly
      once, down to the baseline of the one line that holds it. */
  lemma FinalizedGlyphs(s: TextState, ss: seq<Section>, gap: real)
    requires Valid(s) && |s.elementLineIndices| == ElementCount(ss) && Tiled(s)
    ensures var lines := FinalLines(s);
            var gs := Finalized(s, ss, gap).1.glyphs;
            && (forall l: nat, j: nat :: l < |lines| && lines[l].glyphRange.start <= j < lines[l].glyphRange.end && j < |gs| ==>
                  gs[j] == WithY(s.glyphs[j], Baseline(lines, l, gap)))
            && (forall j: nat :: j < |gs| ==>
                  exists l: nat :: l < |lines| && lines[l].glyphRange.start <= j < lines[l].glyphRange.end &&
                                   gs[j] == WithY(s.glyphs[j], Baseline(lines, l, gap)))
  {
    var lines := FinalLines(s);
    var gs := Finalized(s, ss, gap).1.glyphs;
    assert gs == ShiftLines(s.glyphs, lines, gap, |lines|);
    assert RangesTile(GlyphRanges(lines), |s.glyphs|);
    ShiftLinesTiled(s.glyphs, lines, gap, |lines|);
    forall j: nat | j < |gs|
      ensures exists l: nat :: l < |lines| && lines[l].glyphRange.start <= j < lines[l].glyphRange.end &&
                               gs[j] == WithY(s.glyphs[j], Baseline(lines, l, gap))
    {
      var l := OwningRange(GlyphRanges(lines), |s.glyphs|, j);
      assert GlyphRanges(lines)[l] == lines[l].glyphRange;
      assert gs[j] == WithY(s.glyphs[j], Baseline(lines, l, gap));
    }
  }

  /** A section of plain text: no inline element and no explicit newline. */
  predicate PlainText(sec: Section)
  {
    sec.TextSec? && '\n' !in sec.section.text
  }

  /** For plain text the lines always tile the glyphs, so `finalize` moves
      every glyph once, by its own line's baseline. */
  lemma {:induction false} PlainTextTiled(e: ElementWithComputed, k: nat, maxWidth: real)
    requires e.TextWith? && k <= |e.text.sections|
    requires forall i :: 0 <= i < k ==> PlainText(e.text.sections[i])
    ensures Tiled(LaidOutSections(e, k, maxWidth).0)
    decreases k
  {
    if k == 0 {
      InitialTiled(maxWidth);
    } else {
      PlainTextTiled(e, k - 1, maxWidth);
      var s := LaidOutSections(e, k - 1, maxWidth).0;
      var ts := e.text.sections[k - 1].section;
      assert LaidOutSections(e, k, maxWidth).0 == AfterTextSection(s, ts);
      AfterTextSectionTiled(s, ts);
    }
  }

  // A newline leaves the pending word behind: `layout_text_section` does
  // not clear it.  The example below lays out "a\nbc" on lines 15 wide with
  // glyphs 10 wide: "c" overflows the second line, the third line opens,
  // and the word carried to it is "a", "b" rather than "b" alone.

  const EX_GLYPH: GlyphInfo := GlyphInfo(Metrics(0.0, 0.0, 1.0, 1.0, 10.0), Some(AABB_UNIT))
  const EX_BLANK: GlyphInfo := GlyphInfo(Metrics(0.0, 0.0, 0.0, 0.0, 0.0), None)
  const EX_METRICS: LineMetrics := LineMetrics(1.0, 0.0, 0.0, 1.0)
  function ExampleGlyphInfo(c: char, size: real): GlyphInfo
  {
    if c == '\n' then EX_BLANK else EX_GLYPH
  }

  function ExampleLineMetrics(size: real): LineMetrics
  {
    EX_METRICS
  }

  const EX_FONT: SdfFont := SdfFont(0, ExampleGlyphInfo, ExampleLineMetrics)
  const EX_SECTION: TextSection := TextSection("a\nbc", EX_FONT, Colors.BLACK, 1.0, 0.0)
  const EX_WORD_GLYPH: OffsetAndAdvance := OffsetAndAdvance(0.0, 10.0)

  /** The initial state once the section's metrics are on the line. */
  function ExampleStart(): (r: TextState)
    ensures Valid(r) && Tiled(r)
  {
    var s := InitialState(15.0);
    assert GlyphRanges(FinalLines(s)) == [Range(0, 0)];
    s.(current := s.current.(maxMetrics := EX_METRICS))
  }

  function ExampleAfter(k: nat): TextState
    requires k <= 4
  {
    AfterChars(ExampleStart(), EX_SECTION, EX_METRICS, k)
  }

  const EX_LINE: LineRun := LineRun(0.0, 10.0, EX_METRICS, Range(0, 1))

  /** The states after "a", "a\n" and "a\nb". */
  function ExampleA(): TextState
  {
    TextState(15.0, [GlyphAt(0.0, EX_GLYPH)], [], [], LineRun(0.0, 10.0, EX_METRICS, Range(0, 0)), [EX_WORD_GLYPH], [])
  }

  function ExampleNewline(): TextState
  {
    TextState(15.0, [GlyphAt(0.0, EX_GLYPH)], [], [EX_LINE], LineRun(0.0, 0.0, EX_METRICS, Range(1, 0)),
              [EX_WORD_GLYPH], [])
  }

  function ExampleB(): TextState
  {
    TextState(15.0, [GlyphAt(0.0, EX_GLYPH), GlyphAt(0.0, EX_GLYPH)], [], [EX_LINE],
              LineRun(0.0, 10.0, EX_METRICS, Range(1, 0)), [EX_WORD_GLYPH, EX_WORD_GLYPH], [])
  }

  lemma ExampleSteps()
    ensures ExampleAfter(1) == ExampleA()
    ensures ExampleAfter(2) == ExampleNewline()
    ensures ExampleAfter(3) == ExampleB()
  {
    AfterCharsStep(ExampleStart(), EX_SECTION, EX_METRICS, 0);
    AfterCharsStep(ExampleStart(), EX_SECTION, EX_METRICS, 1);
    AfterCharsStep(ExampleStart(), EX_SECTION, EX_METRICS, 2);
  }

  /** "c" overflows the second line: the word "a", "b" is carried to the
      third line, while "a" stays in the first line's range. */
  lemma ExampleCarry()
    ensures var b := BrokenLine(ExampleB(), Some(EX_METRICS));
            && |b.word| <= b.lines[|b.lines| - 1].glyphRange.end && |b.word| <= b.current.glyphRange.start
            && var c := Carried(b);
               && |c.glyphs| == 2 && c.glyphs[0].bounds.pos.y == -1.0 && c.glyphs[1].bounds.pos.y == -1.0
               && GlyphRanges(c.lines) == [Range(0, 1), Range(1, 0)] && c.current.glyphRange == Range(0, 0)
               && c.lines[0].maxMetrics == EX_METRICS && c.lines[1].maxMetrics == EX_METRICS
               && c.current.maxMetrics == EX_METRICS
  {
    var b := BrokenLine(ExampleB(), Some(EX_METRICS));
    assert b.lines[1].glyphRange == Range(1, 2);
  }

  /** The state after "a\nbc". */
  function ExampleC(): TextState
  {
    ExampleCarry();
    WithGlyph(Carried(BrokenLine(ExampleB(), Some(EX_METRICS))), EX_GLYPH)
  }

  lemma ExampleCFacts()
    ensures var s := ExampleC();
            |s.glyphs| == 3 && s.glyphs[0].bounds.pos.y == -1.0 && s.glyphs[1].bounds.pos.y == -1.0
            && GlyphRanges(FinalLines(s)) == [Range(0, 1), Range(1, 0), Range(0, 3)]
            && FinalLines(s)[0].maxMetrics == EX_METRICS && FinalLines(s)[1].maxMetrics == EX_METRICS
            && FinalLines(s)[2].maxMetrics == EX_METRICS
  {
    ExampleCarry();
  }

  lemma ExampleLast()
    ensures ExampleAfter(4) == ExampleC()
  {
    ExampleSteps();
    AfterCharsStep(ExampleStart(), EX_SECTION, EX_METRICS, 3);
    assert EX_SECTION.text[3] == 'c';
    assert EX_SECTION.font.glyphInfo('c', EX_SECTION.fontSize) == EX_GLYPH;
    ExampleOverflow();
    assert ExampleAfter(4) == AfterChar(ExampleB(), 'c', EX_GLYPH, EX_METRICS);
  }

  /** "c" after "a\nb" passes the line's width of 15. */
  lemma ExampleOverflow()
    ensures AfterChar(ExampleB(), 'c', EX_GLYPH, EX_METRICS) == ExampleC()
  {
    var s := ExampleB();
    assert s.current.advance + EX_GLYPH.metrics.advance > s.maxWidth;
  }

  /** After "a\nbc" the lines no longer tile the glyphs: glyph 0 lies in
      the first and the third line, and `finalize` moves it down by both
      baselines, one line below "b", with which it was carried. */
  lemma NewlineKeepsWord()
    ensures var r := ExampleAfter(4);
            var lines := FinalLines(r);
            && !Tiled(r)
            && |lines| == 3 && lines[0].glyphRange.Contains(0) && lines[2].glyphRange.Contains(0)
            && Finalized(r, [], 0.0).1.glyphs[0].bounds.pos.y == 3.0
            && Finalized(r, [], 0.0).1.glyphs[1].bounds.pos.y == 2.0
  {
    ExampleLast();
    ExampleNotTiled();
    ExampleFinalized();
  }

  lemma ExampleFinalized()
    ensures var r := ExampleC();
            && Finalized(r, [], 0.0).1.glyphs[0].bounds.pos.y == 3.0
            && Finalized(r, [], 0.0).1.glyphs[1].bounds.pos.y == 2.0
  {
    ExampleCFacts();
    FinalizedLikeExample(ExampleC());
  }

  /** `finalize` on any state laid out like the example. */
  lemma FinalizedLikeExample(r: TextState)
    requires Valid(r) && r.elementLineIndices == []
    requires |r.glyphs| == 3 && r.glyphs[0].bounds.pos.y == -1.0 && r.glyphs[1].bounds.pos.y == -1.0
    requires GlyphRanges(FinalLines(r)) == [Range(0, 1), Range(1, 0), Range(0, 3)]
    requires FinalLines(r)[0].maxMetrics == EX_METRICS && FinalLines(r)[1].maxMetrics == EX_METRICS
    requires FinalLines(r)[2].maxMetrics == EX_METRICS
    ensures Finalized(r, [], 0.0).1.glyphs[0].bounds.pos.y == 3.0
    ensures Finalized(r, [], 0.0).1.glyphs[1].bounds.pos.y == 2.0
  {
    var lines := FinalLines(r);
    assert lines[0].glyphRange == GlyphRanges(lines)[0] && lines[1].glyphRange == GlyphRanges(lines)[1];
    assert lines[2].glyphRange == GlyphRanges(lines)[2];
    ExampleBaselines(lines);
    FinalizedShiftTwice(r, lines);
  }

  lemma ExampleNotTiled()
    ensures var r := ExampleC();
            var lines := FinalLines(r);
            && !Tiled(r)
            && |lines| == 3 && lines[0].glyphRange.Contains(0) && lines[2].glyphRange.Contains(0)
  {
    var r := ExampleC();
    ExampleCFacts();
    var lines := FinalLines(r);
    assert GlyphRanges(lines)[1] == Range(1, 0);
    assert lines[0].glyphRange == GlyphRanges(lines)[0] && lines[2].glyphRange == GlyphRanges(lines)[2];
  }

  lemma ExampleBaselines(lines: seq<LineRun>)
    requires |lines| == 3 && forall l :: 0 <= l < 3 ==> lines[l].maxMetrics == EX_METRICS
    ensures Baseline(lines, 0, 0.0) == 1.0 && Baseline(lines, 2, 0.0) == 3.0
  {
    assert LineTop(lines, 1, 0.0) == 1.0;
  }

  lemma FinalizedShiftTwice(s: TextState, lines: seq<LineRun>)
    requires Valid(s) && s.elementLineIndices == [] && lines == FinalLines(s) && |lines| == 3 && |s.glyphs| == 3
    requires lines[0].glyphRange == Range(0, 1) && lines[1].glyphRange == Range(1, 0) && lines[2].glyphRange == Range(0, 3)
    ensures var gs := Finalized(s, [], 0.0).1.glyphs;
            gs[0].bounds.pos.y == s.glyphs[0].bounds.pos.y + Baseline(lines, 0, 0.0) + Baseline(lines, 2, 0.0)
            && gs[1].bounds.pos.y == s.glyphs[1].bounds.pos.y + Baseline(lines, 2, 0.0)
  {
    var g0 := ShiftLines(s.glyphs, lines, 0.0, 0);
    var g1 := ShiftLines(s.glyphs, lines, 0.0, 1);
    var g2 := ShiftLines(s.glyphs, lines, 0.0, 2);
    var g3 := ShiftLines(s.glyphs, lines, 0.0, 3);
    assert g0 == s.glyphs;
    assert g1 == ShiftRange(g0, lines[0].glyphRange, Baseline(lines, 0, 0.0));
    assert g2 == ShiftRange(g1, lines[1].glyphRange, Baseline(lines, 1, 0.0));
    assert g3 == ShiftRange(g2, lines[2].glyphRange, Baseline(lines, 2, 0.0));
    assert g1[0] == WithY(s.glyphs[0], Baseline(lines, 0, 0.0)) && g1[1] == s.glyphs[1];
    assert g2[0] == g1[0] && g2[1] == g1[1];
  }

  // ----- Properties of sizing and placement -----

  /** Child `i` among the first `k` sized children is the `i`-th child,
      sized for the inner maximum. */
  lemma {:induction false} SizedChildAt(e: ElementWithComputed, k: nat, inner: Vec2, i: nat)
    requires e.DivWith? && i < k <= |e.div.children|
    ensures SizedChildren(e, k, inner)[i] == e.div.children[i].(element := Sized(e.div.children[i].element, inner))
  {
    if i < k - 1 {
      SizedChildAt(e, k - 1, inner, i);
    }
  }

  /** `Div::get_and_set_size`: every child keeps its place and is sized for
      what the div leaves it (its fixed size minus padding, or its own
      maximum); the content size is what the sized children take together;
      along each axis the div has its fixed length, or else its content
      plus padding, so an empty div without fixed lengths is its padding;
      its position stays. */
  lemma DivSizeRules(e: ElementWithComputed, maxSize: Vec2)
    requires e.DivWith?
    ensures var r := Sized(e, maxSize);
            var st := e.div.style;
            var inner := InnerMax(st, maxSize);
            var content := r.divComputed.contentSize;
            && r.DivWith? && r.div.style == st && |r.div.children| == |e.div.children|
            && (forall i :: 0 <= i < |e.div.children| ==>
                  r.div.children[i] == e.div.children[i].(element := Sized(e.div.children[i].element, inner)))
            && content == ChildrenSize(st.axis, r.div.children)
            && MainOf(st.axis, content) == Sum(MainSizes(st.axis, r.div.children))
            && ComputedSize(r).x == (if st.width.Some? then Fixed(st.width.value, maxSize.x) else content.x + PadX(st))
            && ComputedSize(r).y == (if st.height.Some? then Fixed(st.height.value, maxSize.y) else content.y + PadY(st))
            && (e.div.children == [] && st.width.None? && st.height.None? ==> ComputedSize(r) == Vec2(PadX(st), PadY(st)))
            && Bounds(r).pos == Bounds(e).pos
  {
    var r := Sized(e, maxSize);
    var inner := InnerMax(e.div.style, maxSize);
    forall i | 0 <= i < |e.div.children|
      ensures r.div.children[i] == e.div.children[i].(element := Sized(e.div.children[i].element, inner))
    {
      SizedChildAt(e, |e.div.children|, inner, i);
    }
    ChildrenSizeSum(e.div.style.axis, r.div.children);
  }

  /** The offset an element adds to the position it is given. */
  function OwnOffset(e: ElementWithComputed): Vec2
  {
    match e
    case DivWith(d, _) => d.style.offset
    case TextWith(t, _) => t.offset
  }

  /** `set_position`: the element lands at the given position plus its own
      offset, keeps its size and its kind; a text's glyphs all move by that
      same amount. */
  lemma PlacedBounds(e: ElementWithComputed, pos: Vec2)
    ensures var r := Placed(e, pos);
            && Bounds(r) == Bounds(e).(pos := pos.Add(OwnOffset(e)))
            && r.DivWith? == e.DivWith? && OwnOffset(r) == OwnOffset(e)
            && (r.TextWith? ==> |r.textComputed.glyphs| == |e.textComputed.glyphs| &&
                                forall j :: 0 <= j < |r.textComputed.glyphs| ==>
                                  r.textComputed.glyphs[j].bounds.pos == e.textComputed.glyphs[j].bounds.pos.Add(pos.Add(OwnOffset(e))))
  {
  }

  /** Child `i` among the first `k` placed children is the `i`-th child,
      placed at the position the div gives it. */
  lemma {:induction false} PlacedChildAt(e: ElementWithComputed, c: DivComputed, k: nat, i: nat)
    requires e.DivWith? && i < k <= |e.div.children|
    ensures PlacedChildren(e, c, k)[i] == e.div.children[i].(element := Placed(e.div.children[i].element, ChildPos(e.div, c, i)))
  {
    if i < k - 1 {
      PlacedChildAt(e, c, k - 1, i);
    }
  }

  /** `Div::set_position`: every child is placed where the div, now at its
      position plus offset, puts it, and lands there plus its own offset. */
  lemma DivPlacement(e: ElementWithComputed, pos: Vec2)
    requires e.DivWith?
    ensures var r := Placed(e, pos);
            var c := e.divComputed.(bounds := e.divComputed.bounds.(pos := pos.Add(e.div.style.offset)));
            && r.DivWith? && |r.div.children| == |e.div.children| && r.divComputed == c
            && forall i :: 0 <= i < |e.div.children| ==>
                 && r.div.children[i] == e.div.children[i].(element := Placed(e.div.children[i].element, ChildPos(e.div, c, i)))
                 && Bounds(r.div.children[i].element).pos == ChildPos(e.div, c, i).Add(OwnOffset(e.div.children[i].element))
  {
    var r := Placed(e, pos);
    var c := e.divComputed.(bounds := e.divComputed.bounds.(pos := pos.Add(e.div.style.offset)));
    forall i | 0 <= i < |e.div.children|
      ensures r.div.children[i] == e.div.children[i].(element := Placed(e.div.children[i].element, ChildPos(e.div, c, i)))
      ensures Bounds(r.div.children[i].element).pos == ChildPos(e.div, c, i).Add(OwnOffset(e.div.children[i].element))
    {
      PlacedChildAt(e, c, |e.div.children|, i);
      PlacedBounds(e.div.children[i].element, ChildPos(e.div, c, i));
    }
  }

  /** The running main offset before child `k` is the first offset, plus
      the main sizes of the non-absolute children before it, plus one step
      after each of them. */
  lemma {:induction false} RunOffsetClosedForm(axis: Axis, cs: seq<ElementBox>, offset: real, step: real, k: nat)
    requires k <= |cs|
    ensures var ms := MainSizes(axis, cs[..k]);
            RunOffset(axis, cs, offset, step, k) == offset + Sum(ms) + Steps(|ms|, step)
  {
    if k == 0 {
      assert cs[..k] == [];
    } else {
      var j: nat := k - 1;
      RunOffsetClosedForm(axis, cs, offset, step, j);
      MainSizesPrefix(axis, cs, j);
      var ms := MainSizes(axis, cs[..j]);
      var ch := cs[j].element;
      if !IsAbsolute(ch) {
        var x := MainOf(axis, ComputedSize(ch));
        assert (ms + [x])[..|ms|] == ms;
        assert Sum(ms + [x]) == Sum(ms) + x;
        assert |ms + [x]| == |ms| + 1;
        assert Steps(|ms| + 1, step) == Steps(|ms|, step) + step;
        assert RunOffset(axis, cs, offset, step, k) == RunOffset(axis, cs, offset, step, j) + (x + step);
      } else {
        assert MainSizes(axis, cs[..k]) == ms;
        assert RunOffset(axis, cs, offset, step, k) == RunOffset(axis, cs, offset, step, j);
      }
    }
  }

  /** Extending a prefix of the children by one adds that child's main size,
      unless it is absolute. */
  lemma MainSizesPrefix(axis: Axis, cs: seq<ElementBox>, j: nat)
    requires j < |cs|
    ensures MainSizes(axis, cs[..j + 1]) ==
            MainSizes(axis, cs[..j]) + (if IsAbsolute(cs[j].element) then [] else [MainOf(axis, ComputedSize(cs[j].element))])
  {
    assert cs[..j + 1][..j] == cs[..j];
  }

  /** A div's running main offset before child `k`: its first offset, the
      main sizes of the earlier non-absolute children and one step after
      each of them (`StepsProduct` turns the steps into a product). */
  lemma {:induction false} MainOffsetClosedForm(d: Div, c: DivComputed, k: nat)
    requires 0 < |d.children| && k <= |d.children|
    ensures var ms := MainSizes(d.style.axis, d.children[..k]);
            MainOffset(d, c, k) == OffsetAndStep(d, c).0 + Sum(ms) + Steps(|ms|, OffsetAndStep(d, c).1)
  {
    RunOffsetClosedForm(d.style.axis, d.children, OffsetAndStep(d, c).0, OffsetAndStep(d, c).1, k);
  }

  /** Without absolute children every child has a main size. */
  lemma {:induction false} MainSizesCount(axis: Axis, cs: seq<ElementBox>)
    ensures |MainSizes(axis, cs)| <= |cs|
    ensures (forall i :: 0 <= i < |cs| ==> !IsAbsolute(cs[i].element)) ==> |MainSizes(axis, cs)| == |cs|
  {
    if cs != [] {
      MainSizesCount(axis, cs[..|cs| - 1]);
    }
  }

  /** When a div's content size is what its children take together (as
      sizing leaves it) and none of them is absolute, the run of children
      ends where `main_offset_and_step` says: the offset, the content and a
      step between neighbours; with `MainAxisDistribution` this places the
      run at the start, centre or end of the inner area. */
  lemma RunEndsAsAligned(d: Div, c: DivComputed)
    requires 0 < |d.children| && c.contentSize == ChildrenSize(d.style.axis, d.children)
    requires forall i :: 0 <= i < |d.children| ==> !IsAbsolute(d.children[i].element)
    ensures var (offset, step) := OffsetAndStep(d, c);
            MainOffset(d, c, |d.children|) - step == RunEnd(offset, step, MainOf(d.style.axis, c.contentSize), |d.children|)
  {
    var j: nat := |d.children| - 1;
    var (offset, step) := OffsetAndStep(d, c);
    RunEnds(d.style.axis, d.children, offset, step, j);
    ChildrenSizeSum(d.style.axis, d.children);
    RunEndSteps(offset, step, MainOf(d.style.axis, c.contentSize), j);
  }

  /** The end of a run of `j + 1` children has `j` steps in it. */
  lemma RunEndSteps(offset: real, step: real, contentSize: real, j: nat)
    ensures RunEnd(offset, step, contentSize, j + 1) == offset + contentSize + Steps(j, step)
  {
    StepsProduct(j, step);
  }

  /** Without absolute children the running offset after the last child is
      the offset, the main sizes and one step after each child. */
  lemma RunEnds(axis: Axis, cs: seq<ElementBox>, offset: real, step: real, j: nat)
    requires |cs| == j + 1 && forall i :: 0 <= i < |cs| ==> !IsAbsolute(cs[i].element)
    ensures RunOffset(axis, cs, offset, step, |cs|) - step == offset + Sum(MainSizes(axis, cs)) + Steps(j, step)
  {
    RunOffsetClosedForm(axis, cs, offset, step, |cs|);
    assert cs[..|cs|] == cs;
    MainSizesCount(axis, cs);
    assert Steps(j + 1, step) == Steps(j, step) + step;
  }

  /** An absolute child is placed so that the point at its unit position
      of its own size meets the point at the same unit position of the
      div's inner area. */
  lemma AbsoluteAnchor(d: Div, c: DivComputed, k: nat)
    requires k < |d.children| && AbsoluteUnitPos(d.children[k].element).Some?
    ensures var u := AbsoluteUnitPos(d.children[k].element).value;
            ChildPos(d, c, k).Add(ComputedSize(d.children[k].element).Mul(u)) ==
            InnerPos(d.style, c).Add(InnerSize(d.style, c).Mul(u))
  {
    var u := AbsoluteUnitPos(d.children[k].element).value;
    var inner := InnerSize(d.style, c);
    var size := ComputedSize(d.children[k].element);
    assert (inner.x - size.x) * u.x + size.x * u.x == inner.x * u.x;
    assert (inner.y - size.y) * u.y + size.y * u.y == inner.y * u.y;
  }

  /** Sizing keeps the element's own offset. */
  lemma SizedKeepsOffset(e: ElementWithComputed, maxSize: Vec2)
    ensures OwnOffset(Sized(e, maxSize)) == OwnOffset(e)
  {
    match e
    case DivWith(d, c) =>
    case TextWith(t, c) =>
  }

  /** An element placed at minus its size times `unitPos`, plus
      `posOffset`, has the point at `unitPos` of its size on `posOffset`
      plus its own offset. */
  lemma PlacedAtOwnSize(e: ElementWithComputed, unitPos: Vec2, posOffset: Vec2)
    ensures var r := Placed(e, ComputedSize(e).Neg().Mul(unitPos).Add(posOffset));
            Bounds(r).pos.Add(ComputedSize(r).Mul(unitPos)) == posOffset.Add(OwnOffset(e))
  {
    var size := ComputedSize(e);
    PlacedBounds(e, size.Neg().Mul(unitPos).Add(posOffset));
    assert -size.x * unitPos.x + size.x * unitPos.x == 0.0;
    assert -size.y * unitPos.y + size.y * unitPos.y == 0.0;
  }

  /** `layout_relative_to_own_size`: the point at `unitPos` of the laid out
      element's own size lands on `posOffset` (plus the element's offset). */
  lemma RelativeToOwnSizeAnchor(e: ElementWithComputed, unitPos: Vec2, posOffset: Vec2)
    ensures var sized := Sized(e, Vec2(UNBOUNDED, UNBOUNDED));
            var r := Placed(sized, ComputedSize(sized).Neg().Mul(unitPos).Add(posOffset));
            Bounds(r).pos.Add(ComputedSize(r).Mul(unitPos)) == posOffset.Add(OwnOffset(e))
  {
    var sized := Sized(e, Vec2(UNBOUNDED, UNBOUNDED));
    SizedKeepsOffset(e, Vec2(UNBOUNDED, UNBOUNDED));
    PlacedAtOwnSize(sized, unitPos, posOffset);
  }

  // ----- Laid-out elements are consistent -----

  /** Moving an element keeps it consistent, and an inconsistent one stays
      inconsistent. */
  lemma SetPosConsistent(e: ElementWithComputed)
    ensures forall pos :: Consistent(SetPos(e, pos)) <==> Consistent(e)
  {
    forall pos
      ensures Consistent(SetPos(e, pos)) <==> Consistent(e)
    {
      var e' := SetPos(e, pos);
      match e
      case DivWith(_, _) =>
        ConsistentDiv(e);
        ConsistentDiv(e');
      case TextWith(t, _) =>
        ConsistentText(e);
        ConsistentText(e');
        forall j | 0 <= j < |t.sections| ensures SectionOk(e', j) == SectionOk(e, j) {
        }
    }
  }

  /** Placing the inline elements along their lines keeps the kind of
      every section and the consistency of every inline element. */
  lemma {:induction false} PlaceInlineKinds(ss: seq<Section>, lines: seq<LineRun>, gap: real, eli: seq<nat>, k: nat)
    requires k <= |ss| && |eli| == ElementCount(ss)
    requires forall i :: 0 <= i < |eli| ==> eli[i] < |lines|
    ensures var r := PlaceInline(ss, lines, gap, eli, k);
            forall j :: 0 <= j < k ==>
              r[j].TextSec? == ss[j].TextSec? &&
              (r[j].ElementSec? ==> (Consistent(r[j].element.element) <==> Consistent(ss[j].element.element)))
    decreases k
  {
    if k > 0 {
      PlaceInlineKinds(ss, lines, gap, eli, k - 1);
      var r := PlaceInline(ss, lines, gap, eli, k);
      assert r[..k - 1] == PlaceInline(ss, lines, gap, eli, k - 1);
      if ss[k - 1].ElementSec? {
        SetPosConsistent(ss[k - 1].element.element);
      }
    }
  }

  /** Laying out the first `k` sections of a text keeps the kind of every
      section, and every inline element comes out consistent. */
  lemma {:induction false} LaidOutSectionsConsistent(e: ElementWithComputed, k: nat, maxWidth: real)
    requires e.TextWith? && k <= |e.text.sections|
    ensures var ss := LaidOutSections(e, k, maxWidth).1;
            forall j :: 0 <= j < k ==>
              ss[j].TextSec? == e.text.sections[j].TextSec? &&
              (ss[j].ElementSec? ==> Consistent(ss[j].element.element))
    decreases e, k
  {
    if k > 0 {
      LaidOutSectionsConsistent(e, k - 1, maxWidth);
      LaidOutLast(e, k, maxWidth);
      var prev := LaidOutSections(e, k - 1, maxWidth).1;
      var ss := LaidOutSections(e, k, maxWidth).1;
      if ss[k - 1].ElementSec? {
        var b := e.text.sections[k - 1].element;
        var sized := Sized(b.element, Vec2(maxWidth, UNBOUNDED));
        SizedConsistent(b.element, Vec2(maxWidth, UNBOUNDED));
        SetPosConsistent(sized);
      }
      forall j | 0 <= j < k - 1
        ensures ss[j].TextSec? == e.text.sections[j].TextSec? &&
                (ss[j].ElementSec? ==> Consistent(ss[j].element.element))
      {
        assert ss[j] == prev[j];
      }
    }
  }

  /** The `k`-th section laid out: the earlier ones as they were, a text
      section kept, an inline element sized for the maximum width and
      moved. */
  lemma LaidOutLast(e: ElementWithComputed, k: nat, maxWidth: real)
    requires e.TextWith? && 0 < k <= |e.text.sections|
    ensures var ss := LaidOutSections(e, k, maxWidth).1;
            var sec := e.text.sections[k - 1];
            && ss[..k - 1] == LaidOutSections(e, k - 1, maxWidth).1
            && ss[k - 1].TextSec? == sec.TextSec?
            && (sec.ElementSec? ==>
                  var sized := Sized(sec.element.element, Vec2(maxWidth, UNBOUNDED));
                  ss[k - 1].element.element == SetPos(sized, Bounds(ss[k - 1].element.element).pos))
  {
    LaidOutSectionsNext(e, k - 1, maxWidth);
    var ss := LaidOutSections(e, k, maxWidth).1;
    assert ss == LaidOutSections(e, k - 1, maxWidth).1 + [ss[k - 1]];
  }

  /** Sizing computes, for every text at any depth, one glyph range per
      text section, each within the text's glyphs: whatever the element
      held before, the sized element is consistent. */
  lemma {:induction false} SizedConsistent(e: ElementWithComputed, maxSize: Vec2)
    ensures Consistent(Sized(e, maxSize))
    decreases e, Width(e) + 1
  {
    var r := Sized(e, maxSize);
    match e
    case DivWith(d, _) =>
      var inner := InnerMax(d.style, maxSize);
      forall i | 0 <= i < |d.children|
        ensures Consistent(r.div.children[i].element)
      {
        SizedChildAt(e, |d.children|, inner, i);
        SizedConsistent(d.children[i].element, inner);
      }
      ConsistentDiv(r);
    case TextWith(_, _) =>
      SizedTextConsistent(e, maxSize.x);
  }

  /** The text case: the sections of the laid out text keep their kinds,
      its text sections are numbered within the recorded ranges and its
      inline elements come out consistent. */
  lemma {:induction false} SizedTextConsistent(e: ElementWithComputed, maxWidth: real)
    requires e.TextWith?
    ensures Consistent(TextWith(e.text.(sections := LaidOutText(e, maxWidth).0), LaidOutText(e, maxWidth).1))
    decreases e, Width(e)
  {
    var t := e.text;
    var (s, ss) := LaidOutSections(e, |t.sections|, maxWidth);
    LaidOutSectionsConsistent(e, |t.sections|, maxWidth);
    var lines := FinalLines(s);
    var secs := PlaceInline(ss, lines, t.additionalLineGap, s.elementLineIndices, |ss|);
    PlaceInlineKinds(ss, lines, t.additionalLineGap, s.elementLineIndices, |ss|);
    var laid := Finalized(s, ss, t.additionalLineGap);
    assert LaidOutText(e, maxWidth) == laid;
    assert laid.0 == secs;
    var r := TextWith(t.(sections := secs), laid.1);
    TextCountKinds(secs, ss);
    ConsistentTextFrom(r);
  }

  /** Section `j` among the first `k` placed sections: a text section as it
      was, an inline element placed from the text's origin. */
  lemma {:induction false} PlacedSectionAt(e: ElementWithComputed, origin: Vec2, k: nat, j: nat)
    requires e.TextWith? && j < k <= |e.text.sections|
    ensures PlacedSections(e, origin, k)[j] ==
            match e.text.sections[j]
            case TextSec(_) => e.text.sections[j]
            case ElementSec(b, slh) => ElementSec(b.(element := Placed(b.element, origin.Add(Bounds(b.element).pos))), slh)
  {
    if j < k - 1 {
      PlacedSectionAt(e, origin, k - 1, j);
    }
  }

  /** Placing keeps an element consistent, and an inconsistent one
      inconsistent: positions play no part in it. */
  lemma {:induction false} PlacedConsistent(e: ElementWithComputed, pos: Vec2)
    ensures Consistent(Placed(e, pos)) <==> Consistent(e)
    decreases e
  {
    var r := Placed(e, pos);
    match e
    case DivWith(d, c) =>
      var c' := r.divComputed;
      forall i | 0 <= i < |d.children|
        ensures Consistent(r.div.children[i].element) <==> Consistent(d.children[i].element)
      {
        PlacedChildAt(e, c', |d.children|, i);
        PlacedConsistent(d.children[i].element, ChildPos(d, c', i));
      }
      ConsistentDiv(e);
      ConsistentDiv(r);
    case TextWith(t, c) =>
      var origin := pos.Add(t.offset);
      forall j | 0 <= j < |t.sections|
        ensures SectionOk(r, j) <==> SectionOk(e, j)
      {
        forall i | 0 <= i < |t.sections|
          ensures r.text.sections[i].TextSec? == t.sections[i].TextSec?
        {
          PlacedSectionAt(e, origin, |t.sections|, i);
        }
        TextCountKinds(r.text.sections[..j], t.sections[..j]);
        PlacedSectionAt(e, origin, |t.sections|, j);
        if t.sections[j].ElementSec? {
          var b := t.sections[j].element;
          PlacedConsistent(b.element, origin.Add(Bounds(b.element).pos));
        }
      }
      ConsistentText(e);
      ConsistentText(r);
  }

  /** What `layout_in_size` produces can be batched: every text in it has a
      glyph range for each of its text sections, so the slicing in
      `get_batches` stays in bounds. */
  lemma LaidOutConsistent(e: ElementWithComputed, size: Vec2, pos: Vec2)
    ensures Consistent(Placed(Sized(e, size), pos))
  {
    SizedConsistent(e, size);
    PlacedConsistent(Sized(e, size), pos);
  }
}
