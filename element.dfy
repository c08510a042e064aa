/** The element tree of src/ui/element.rs (and the stored form of
    src/ui/element_store.rs): divs with a style and children, texts made of
    sections, and the computed layout data attached to each.  The tree is
    held by value: a child box is the stored element itself. */
module Elements {
  import opened Common
  import opened Colors
  import opened Rects
  import opened SdfSprites

  /** An element id; `NONE_ID` is `ElementId::NONE` (`u64::MAX`). */
  type Id = nat

  const NONE_ID: Id := U64_MAX

  // ----- Lengths, axes and alignment -----

  datatype Len = Px(px: real) | Fraction(fraction: real)

  const LEN_ZERO: Len := Px(0.0)
  const LEN_FULL: Len := Fraction(1.0)

  /** `Len::fixed`: pixels as they are, a fraction of the parent's length. */
  function Fixed(l: Len, full: real): real
  {
    match l
    case Px(p) => p
    case Fraction(f) => f * full
  }

  /** A pixel length ignores the parent; a fraction scales linearly with
      it, so `FULL` is the parent's length and any fraction of 0 is 0. */
  lemma FixedProperties(p: real, f: real, a: real, b: real)
    ensures Fixed(Px(p), a) == Fixed(Px(p), b) == p
    ensures Fixed(LEN_FULL, a) == a && Fixed(Fraction(f), 0.0) == 0.0
    ensures Fixed(Fraction(f), a + b) == Fixed(Fraction(f), a) + Fixed(Fraction(f), b)
    ensures Fixed(LEN_ZERO, a) == 0.0
  {
  }

  datatype Axis = X | Y

  datatype MainAlign = Start | Center | End | SpaceBetween | SpaceAround

  datatype Align = AlignStart | AlignCenter | AlignEnd

  // ----- Edges and corners -----

  datatype Corners<T> = Corners(topLeft: T, topRight: T, bottomRight: T, bottomLeft: T)

  datatype Edges<T> = Edges(left: T, right: T, top: T, bottom: T)

  function CornersAll<T>(v: T): Corners<T> { Corners(v, v, v, v) }

  function EdgesAll<T>(v: T): Edges<T> { Edges(v, v, v, v) }

  function Horizontal<T>(e: Edges<T>, v: T): Edges<T> { e.(left := v, right := v) }

  function Vertical<T>(e: Edges<T>, v: T): Edges<T> { e.(top := v, bottom := v) }

  function Top<T>(e: Edges<T>, v: T): Edges<T> { e.(top := v) }

  function Bottom<T>(e: Edges<T>, v: T): Edges<T> { e.(bottom := v) }

  function Left<T>(e: Edges<T>, v: T): Edges<T> { e.(left := v) }

  function Right<T>(e: Edges<T>, v: T): Edges<T> { e.(right := v) }

  /** The builders touch disjoint fields: they commute, the single-edge
      builders compose into the two-edge ones, both two-edge builders make
      `all`, and setting the same edge twice keeps the last value. */
  lemma EdgesBuilders<T>(e: Edges<T>, a: T, b: T)
    ensures Horizontal(Vertical(e, a), b) == Vertical(Horizontal(e, b), a)
    ensures Left(Right(e, a), a) == Horizontal(e, a) && Top(Bottom(e, a), a) == Vertical(e, a)
    ensures Horizontal(Vertical(e, a), a) == EdgesAll(a)
    ensures Top(Top(e, a), b) == Top(e, b) && Left(Left(e, a), b) == Left(e, b)
    ensures Horizontal(e, a).top == e.top && Horizontal(e, a).bottom == e.bottom
    ensures Vertical(e, a).left == e.left && Vertical(e, a).right == e.right
    ensures Top(e, a) == e.(top := a) && Bottom(e, a) == e.(bottom := a)
    ensures Left(e, a) == e.(left := a) && Right(e, a) == e.(right := a)
  {
  }

  lemma AllBuilders<T>(v: T)
    ensures var c := CornersAll(v); c.topLeft == c.topRight == c.bottomRight == c.bottomLeft == v
    ensures var e := EdgesAll(v); e.left == e.right == e.top == e.bottom == v
  {
  }

  // ----- Style -----

  datatype DivBorder = DivBorder(color: Color, radius: Corners<real>, width: real, softness: real)

  const BORDER_ZERO: DivBorder := DivBorder(TRANSPARENT, CornersAll(0.0), 0.0, 0.0)

  datatype DivShadow = DivShadow(color: Color, width: real, curveParam: real)

  const SHADOW_ZERO: DivShadow := DivShadow(TRANSPARENT, 0.0, 1.0)

  /** A texture is known by the address of its `Rc`. */
  datatype TextureRegion = TextureRegion(texture: bv64, uv: Aabb)

  datatype SdfTextureRegion = SdfTextureRegion(region: TextureRegion, params: AlphaSdfParams)

  datatype DivTexture = NoTexture | Texture(region: TextureRegion) | AlphaSdfTexture(sdf: SdfTextureRegion)

  /** `DivStyle`.  `zIndex` is the source's `i16`, kept as an integer. */
  datatype DivStyle = DivStyle(
    width: Option<Len>,
    height: Option<Len>,
    axis: Axis,
    mainAlign: MainAlign,
    crossAlign: Align,
    padding: Edges<real>,
    absolute: Option<Vec2>,
    offset: Vec2,
    color: Color,
    border: DivBorder,
    texture: DivTexture,
    zIndex: int,
    shadow: DivShadow,
    gap: real)

  /** `DivStyle::default`. */
  const DEFAULT_STYLE: DivStyle := DivStyle(None, None, Y, Start, AlignStart, EdgesAll(0.0), None, ZERO2,
                                            TRANSPARENT, BORDER_ZERO, NoTexture, 0, SHADOW_ZERO, 0.0)

  /** `DivStyle::center`: both alignments centered. */
  function CenterStyle(s: DivStyle): DivStyle
  {
    s.(mainAlign := Center, crossAlign := AlignCenter)
  }

  /** `DivStyle::size`: a fixed size in pixels from two `u32`s. */
  function SizeStyle(s: DivStyle, w: nat, h: nat): DivStyle
  {
    s.(width := Some(Px(w as real)), height := Some(Px(h as real)))
  }

  /** `DivStyle::texture` and `DivStyle::alpha_sdf`. */
  function TextureStyle(s: DivStyle, region: TextureRegion): DivStyle
  {
    s.(texture := Texture(region))
  }

  function AlphaSdfStyle(s: DivStyle, region: TextureRegion, params: AlphaSdfParams): DivStyle
  {
    s.(texture := AlphaSdfTexture(SdfTextureRegion(region, params)))
  }

  /** `center` and `size` touch different fields, so they commute and each
      is idempotent; after `size` both dimensions are fixed pixel lengths
      whatever the parent's size. */
  lemma StyleSetters(s: DivStyle, w: nat, h: nat, parent: Vec2)
    ensures CenterStyle(SizeStyle(s, w, h)) == SizeStyle(CenterStyle(s), w, h)
    ensures CenterStyle(CenterStyle(s)) == CenterStyle(s)
    ensures SizeStyle(SizeStyle(s, w, h), w, h) == SizeStyle(s, w, h)
    ensures var t := SizeStyle(s, w, h);
            t.width.Some? && t.height.Some? &&
            Fixed(t.width.value, parent.x) == w as real && Fixed(t.height.value, parent.y) == h as real
    ensures CenterStyle(s).(mainAlign := s.mainAlign, crossAlign := s.crossAlign) == s
  {
  }

  /** The default style has no fixed size, no padding, no offset, no
      absolute anchor, z-index 0 and a fully transparent color. */
  lemma DefaultStyleNeutral()
    ensures DEFAULT_STYLE.width == None && DEFAULT_STYLE.height == None
    ensures DEFAULT_STYLE.padding == EdgesAll(0.0) && DEFAULT_STYLE.offset == ZERO2
    ensures DEFAULT_STYLE.absolute == None && DEFAULT_STYLE.zIndex == 0 && DEFAULT_STYLE.gap == 0.0
    ensures DEFAULT_STYLE.color == TRANSPARENT && DEFAULT_STYLE.axis == Y
    ensures DEFAULT_STYLE.mainAlign == Start && DEFAULT_STYLE.crossAlign == AlignStart
  {
  }

  // ----- Fonts -----

  /** The glyph metrics of fontdue that the layout reads. */
  datatype Metrics = Metrics(xmin: real, ymin: real, width: real, height: real, advance: real)

  /** `GlyphInfo`: `uv` is absent exactly for whitespace. */
  datatype GlyphInfo = GlyphInfo(metrics: Metrics, uv: Option<Aabb>)

  datatype LineMetrics = LineMetrics(ascent: real, descent: real, lineGap: real, newLineSize: real)

  /** `SdfFont` as seen by layout and batching: the address of its `Rc` and
      its two queries, `glyph_info(char, size)` and `line_metrics(size)`. */
  datatype SdfFont = SdfFont(addr: bv64, glyphInfo: (char, real) -> GlyphInfo, lineMetrics: real -> LineMetrics)

  // ----- The tree -----

  datatype TextSection = TextSection(text: seq<char>, font: SdfFont, color: Color, fontSize: real,
                                     shadowIntensity: real)

  datatype ComputedBounds = ComputedBounds(pos: Vec2, size: Vec2)

  const BOUNDS_ZERO: ComputedBounds := ComputedBounds(ZERO2, ZERO2)

  datatype DivComputed = DivComputed(bounds: ComputedBounds, contentSize: Vec2)

  const DIV_COMPUTED_DEFAULT: DivComputed := DivComputed(BOUNDS_ZERO, ZERO2)

  datatype GlyphBoundsAndUv = GlyphBoundsAndUv(bounds: Rect, uv: Aabb)

  /** `TextComputed`: one glyph range per text section, into `glyphs`. */
  datatype TextComputed = TextComputed(bounds: ComputedBounds, textSectionGlyphs: seq<Range>,
                                       glyphs: seq<GlyphBoundsAndUv>)

  const TEXT_COMPUTED_DEFAULT: TextComputed := TextComputed(BOUNDS_ZERO, [], [])

  datatype Div = Div(style: DivStyle, children: seq<ElementBox>)

  datatype Text = Text(sections: seq<Section>, offset: Vec2, additionalLineGap: real)

  datatype Section = TextSec(section: TextSection) | ElementSec(element: ElementBox, setsLineHeight: bool)

  /** `Element`: what the user builds. */
  datatype Element = DivElement(div: Div) | TextElement(text: Text)

  /** `ElementWithComputed`: an element together with its layout results. */
  datatype ElementWithComputed = DivWith(div: Div, divComputed: DivComputed)
                               | TextWith(text: Text, textComputed: TextComputed)

  /** `StoredElement`, the content of an `ElementBox`. */
  datatype ElementBox = ElementBox(element: ElementWithComputed, id: Id)

  /** `ComputedBounds::contains`: inclusive on all four edges. */
  predicate BoundsContains(b: ComputedBounds, p: Vec2)
  {
    p.x >= b.pos.x && p.y >= b.pos.y && p.x <= b.pos.x + b.size.x && p.y <= b.pos.y + b.size.y
  }

  /** The bounds contain a point exactly when the `Rect` with the same
      position and size does; with a non-negative size both corners are
      inside. */
  lemma BoundsContainsRect(b: ComputedBounds, p: Vec2)
    ensures BoundsContains(b, p) <==> RectContains(Rect(b.pos, b.size), p)
    ensures b.size.x >= 0.0 && b.size.y >= 0.0 ==>
      BoundsContains(b, b.pos) && BoundsContains(b, b.pos.Add(b.size))
  {
  }

  // ----- element_store.rs accessors -----

  /** `ElementWithComputed::from_element`: the same variant with default
      computed data. */
  function FromElement(e: Element): ElementWithComputed
  {
    match e
    case DivElement(d) => DivWith(d, DIV_COMPUTED_DEFAULT)
    case TextElement(t) => TextWith(t, TEXT_COMPUTED_DEFAULT)
  }

  /** The element part of an element with computed data. */
  function ElementOf(e: ElementWithComputed): Element
  {
    match e
    case DivWith(d, _) => DivElement(d)
    case TextWith(t, _) => TextElement(t)
  }

  function Bounds(e: ElementWithComputed): ComputedBounds
  {
    match e
    case DivWith(_, c) => c.bounds
    case TextWith(_, c) => c.bounds
  }

  /** `computed_size`: the size of the bounds, for either variant. */
  function ComputedSize(e: ElementWithComputed): Vec2
  {
    Bounds(e).size
  }

  /** `div()` and `text()`: the pair for the matching variant only. */
  function DivOf(e: ElementWithComputed): Option<(Div, DivComputed)>
  {
    match e
    case DivWith(d, c) => Some((d, c))
    case TextWith(_, _) => None
  }

  function TextOf(e: ElementWithComputed): Option<(Text, TextComputed)>
  {
    match e
    case DivWith(_, _) => None
    case TextWith(t, c) => Some((t, c))
  }

  /** `from_element` keeps the element and starts from zero bounds;
      exactly one of `div()` and `text()` is present, matching the variant,
      and `computed_size` reads the bounds of whichever it is. */
  lemma AccessorsAgree(e: Element, w: ElementWithComputed)
    ensures ElementOf(FromElement(e)) == e && Bounds(FromElement(e)) == BOUNDS_ZERO
    ensures ComputedSize(FromElement(e)) == ZERO2
    ensures DivOf(w).Some? <==> TextOf(w).None?
    ensures DivOf(w).Some? <==> w.DivWith?
    ensures DivOf(w).Some? ==> ComputedSize(w) == DivOf(w).value.1.bounds.size && DivOf(w).value.0 == w.div
    ensures TextOf(w).Some? ==> ComputedSize(w) == TextOf(w).value.1.bounds.size && TextOf(w).value.0 == w.text
  {
  }

  // ----- Div builders -----

  /** `Div::child`: stores the element without an id and appends it. */
  function Child(d: Div, e: Element): Div
  {
    d.(children := d.children + [ElementBox(FromElement(e), NONE_ID)])
  }

  /** `Div::child_with_id`. */
  function ChildWithId(d: Div, id: Id, e: Element): Div
  {
    d.(children := d.children + [ElementBox(FromElement(e), id)])
  }

  /** `Div::full`: full width and height, anchored at (0, 0), transparent. */
  function Full(d: Div): Div
  {
    d.(style := d.style.(height := Some(LEN_FULL), width := Some(LEN_FULL), absolute := Some(ZERO2),
                         color := TRANSPARENT))
  }

  /** `child` appends exactly one child at the end, keeping the earlier
      children and the style; the new child carries `e` with default
      computed data and no id, and `child_with_id` differs only in the id. */
  lemma ChildAppends(d: Div, e: Element, id: Id)
    ensures |Child(d, e).children| == |d.children| + 1
    ensures Child(d, e).children[..|d.children|] == d.children && Child(d, e).style == d.style
    ensures var last := Child(d, e).children[|d.children|];
            last.id == NONE_ID && ElementOf(last.element) == e && Bounds(last.element) == BOUNDS_ZERO
    ensures ChildWithId(d, NONE_ID, e) == Child(d, e)
    ensures ChildWithId(d, id, e).children[|d.children|].id == id
  {
    assert (d.children + [ElementBox(FromElement(e), NONE_ID)])[..|d.children|] == d.children;
    AccessorsAgree(e, FromElement(e));
  }

  /** `full` fills the parent on both axes, is idempotent, and leaves every
      other field of the style and the children alone. */
  lemma FullProperties(d: Div, parent: Vec2)
    ensures Fixed(Full(d).style.width.value, parent.x) == parent.x
    ensures Fixed(Full(d).style.height.value, parent.y) == parent.y
    ensures Full(Full(d)) == Full(d) && Full(d).children == d.children
    ensures Full(d).style.absolute == Some(ZERO2) && Full(d).style.color == TRANSPARENT
    ensures Full(d).style.(width := d.style.width, height := d.style.height,
                           absolute := d.style.absolute, color := d.style.color) == d.style
  {
  }

  /** `From<TextSection> for Element`: a text of that one section. */
  function TextFromSection(s: TextSection): Element
  {
    TextElement(Text([TextSec(s)], ZERO2, 0.0))
  }
}
