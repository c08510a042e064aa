/** `get_batches` of src/ui/batching.rs: a walk over the element tree
    collects the primitives to draw, each with its stacking level; a stable
    sort orders them back to front; one pass then turns them into four
    instance arrays (plain rects, textured rects, alpha-SDF rects, glyphs)
    and a list of batches, opening a new batch whenever the batch key
    changes.  Textures and fonts are identified by the address of their
    `Rc`, an opaque 64-bit value here. */
module Batching {
  import opened Common
  import opened Colors
  import opened Rects
  import opened Sorting
  import opened SdfSprites
  import opened Elements

  // ----- Stacking levels -----

  /** `StackingLevel`: z-index, then text level, then nesting level.  The
      source's `i16`/`u16` fields are unbounded here. */
  datatype StackingLevel = StackingLevel(zIndex: int, textLevel: nat, nestingLevel: nat)

  const LEVEL_ZERO: StackingLevel := StackingLevel(0, 0, 0)

  function CmpInt(a: int, b: int): int
  {
    if a < b then -1 else if a > b then 1 else 0
  }

  /** `Ord for StackingLevel` (and the identical `PartialOrd`): -1, 0 or 1
      for less, equal or greater, compared field by field. */
  function Cmp(a: StackingLevel, b: StackingLevel): (r: int)
    ensures -1 <= r <= 1
  {
    var z := CmpInt(a.zIndex, b.zIndex);
    if z != 0 then z
    else
      var t := CmpInt(a.textLevel, b.textLevel);
      if t != 0 then t else CmpInt(a.nestingLevel, b.nestingLevel)
  }

  /** The comparison is a total order: equal exactly on equal levels,
      antisymmetric and transitive. */
  lemma CmpTotalOrder(a: StackingLevel, b: StackingLevel, c: StackingLevel)
    ensures Cmp(a, b) == 0 <==> a == b
    ensures Cmp(a, b) == -Cmp(b, a)
    ensures Cmp(a, b) <= 0 && Cmp(b, c) <= 0 ==> Cmp(a, c) <= 0
  {
  }

  /** The priority order the levels encode: a higher z-index is in front;
      at the same z-index, a higher text level; then deeper nesting. */
  lemma StackingPriority(a: StackingLevel, b: StackingLevel)
    ensures a.zIndex < b.zIndex ==> Cmp(a, b) < 0
    ensures a.zIndex == b.zIndex && a.textLevel < b.textLevel ==> Cmp(a, b) < 0
    ensures a.zIndex == b.zIndex && a.textLevel == b.textLevel && a.nestingLevel < b.nestingLevel ==> Cmp(a, b) < 0
    ensures Cmp(a, b) < 0 ==> a.zIndex <= b.zIndex
  {
  }

  // ----- Primitives and keys -----

  /** `PrimElement`: the div (with its computed data) or text section to
      draw, and the texture or glyphs it uses. */
  datatype PrimElement =
    | RectPrim(div: Div, computed: DivComputed)
    | TexturedRectPrim(div: Div, computed: DivComputed, region: TextureRegion)
    | AlphaSdfRectPrim(div: Div, computed: DivComputed, sdf: SdfTextureRegion)
    | TextPrim(section: TextSection, glyphs: seq<GlyphBoundsAndUv>)

  type Leveled = (StackingLevel, PrimElement)

  /** `BatchKind`, with the address of the texture or font it binds. */
  datatype BatchKind = KindRect | KindTexturedRect(texture: bv64) | KindAlphaSdfRect(texture: bv64) | KindGlyph(font: bv64)

  datatype Batch = Batch(key: bv64, range: Range, kind: BatchKind)

  function KindOf(p: PrimElement): BatchKind
  {
    match p
    case RectPrim(_, _) => KindRect
    case TexturedRectPrim(_, _, r) => KindTexturedRect(r.texture)
    case AlphaSdfRectPrim(_, _, s) => KindAlphaSdfRect(s.region.texture)
    case TextPrim(s, _) => KindGlyph(s.font.addr)
  }

  const SDF_KEY_MASK: bv64 := 21891209983212317

  /** `PrimElement::batch_key`. */
  function PrimKey(p: PrimElement): bv64
  {
    match p
    case RectPrim(_, _) => 0
    case TexturedRectPrim(_, _, r) => r.texture
    case TextPrim(s, _) => s.font.addr
    case AlphaSdfRectPrim(_, _, s) => s.region.texture ^ SDF_KEY_MASK
  }

  /** An `Rc` address: never null, and even because the allocation holding
      the reference counts is word aligned. */
  predicate AddrOk(a: bv64)
  {
    a != 0 && a & 1 == 0
  }

  /** Two primitives drawn together: every address is a real `Rc` address,
      and a font and a texture, being different live allocations, never
      share one. */
  predicate PairSound(p: PrimElement, q: PrimElement)
  {
    (!KindOf(p).KindRect? ==> AddrOk(PrimAddr(p))) &&
    (!KindOf(q).KindRect? ==> AddrOk(PrimAddr(q))) &&
    (p.TextPrim? && !q.TextPrim? && !q.RectPrim? ==> PrimAddr(p) != PrimAddr(q)) &&
    (q.TextPrim? && !p.TextPrim? && !p.RectPrim? ==> PrimAddr(p) != PrimAddr(q))
  }

  /** The address of the texture or font a primitive binds (0 for a plain rect). */
  function PrimAddr(p: PrimElement): bv64
  {
    match p
    case RectPrim(_, _) => 0
    case TexturedRectPrim(_, _, r) => r.texture
    case AlphaSdfRectPrim(_, _, s) => s.region.texture
    case TextPrim(s, _) => s.font.addr
  }

  /** The key tells batch kinds apart: with sound addresses, two
      primitives have the same key exactly when they bind the same kind of
      batch to the same resource.  Plain rects have key 0, which no address
      is; alpha-SDF keys are odd because the mask is odd, while texture and
      font addresses are even. */
  lemma KeyDeterminesKind(p: PrimElement, q: PrimElement)
    requires PairSound(p, q)
    ensures PrimKey(p) == PrimKey(q) <==> KindOf(p) == KindOf(q)
  {
    KeyParity(p);
    KeyParity(q);
    if p.AlphaSdfRectPrim? && q.AlphaSdfRectPrim? {
      MaskInjective(PrimAddr(p), PrimAddr(q));
    }
  }

  /** Alpha-SDF keys are odd and every other sound key is even. */
  lemma KeyParity(p: PrimElement)
    requires !KindOf(p).KindRect? ==> AddrOk(PrimAddr(p))
    ensures PrimKey(p) & 1 == if p.AlphaSdfRectPrim? then 1 else 0
  {
    if p.AlphaSdfRectPrim? {
      MaskFlipsParity(PrimAddr(p));
    }
  }

  lemma MaskFlipsParity(a: bv64)
    requires a & 1 == 0
    ensures (a ^ SDF_KEY_MASK) & 1 == 1
  {
  }

  lemma MaskInjective(a: bv64, b: bv64)
    ensures a ^ SDF_KEY_MASK == b ^ SDF_KEY_MASK <==> a == b
  {
    assert (a ^ SDF_KEY_MASK) ^ SDF_KEY_MASK == a;
    assert (b ^ SDF_KEY_MASK) ^ SDF_KEY_MASK == b;
  }

  ghost predicate AddressesSound(ps: seq<Leveled>)
  {
    forall a, b :: a in ps && b in ps ==> PairSound(a.1, b.1)
  }

  /** Equal keys mean equal kinds, for every pair of primitives in `ps`. */
  predicate KeysSound(ps: seq<Leveled>)
  {
    forall i, j :: 0 <= i < |ps| && 0 <= j < |ps| && PrimKey(ps[i].1) == PrimKey(ps[j].1) ==>
      KindOf(ps[i].1) == KindOf(ps[j].1)
  }

  lemma SoundKeys(ps: seq<Leveled>)
    requires AddressesSound(ps)
    ensures KeysSound(ps)
  {
    forall i, j | 0 <= i < |ps| && 0 <= j < |ps| && PrimKey(ps[i].1) == PrimKey(ps[j].1)
      ensures KindOf(ps[i].1) == KindOf(ps[j].1)
    {
      assert ps[i] in ps && ps[j] in ps;
      KeyDeterminesKind(ps[i].1, ps[j].1);
    }
  }

  // ----- Instances -----

  /** `RectRaw`: what the rect shader reads of a div. */
  datatype RectRaw = RectRaw(bounds: Aabb, color: Color, borderRadius: Corners<real>, borderColor: Color,
                             borderWidth: real, borderSoftness: real, shadowWidth: real, shadowCurve: real,
                             shadowColor: Color)

  datatype TexturedRectRaw = TexturedRectRaw(rect: RectRaw, uv: Aabb)

  datatype AlphaSdfRectRaw = AlphaSdfRectRaw(bounds: Aabb, color: Color, params: AlphaSdfParams, uv: Aabb)

  datatype GlyphRaw = GlyphRaw(bounds: Aabb, color: Color, uv: Aabb, shadowIntensity: real)

  /** `bounds_from_computed`: the box from `pos` to `pos + size`. */
  function BoundsFromComputed(b: ComputedBounds): (r: Aabb)
    ensures r == AabbFromRect(Rect(b.pos, b.size))
    ensures BoundsContains(b, b.pos) ==> AabbContains(r, b.pos)
  {
    Aabb(b.pos, b.pos.Add(b.size))
  }

  /** `RectRaw::new`. */
  function NewRectRaw(d: Div, c: DivComputed): (r: RectRaw)
    ensures r.bounds == BoundsFromComputed(c.bounds) && r.color == d.style.color
    ensures r.borderRadius == d.style.border.radius && r.borderColor == d.style.border.color
    ensures r.borderWidth == d.style.border.width && r.borderSoftness == d.style.border.softness
    ensures r.shadowWidth == d.style.shadow.width && r.shadowCurve == d.style.shadow.curveParam
    ensures r.shadowColor == d.style.shadow.color
  {
    RectRaw(BoundsFromComputed(c.bounds), d.style.color, d.style.border.radius, d.style.border.color,
            d.style.border.width, d.style.border.softness, d.style.shadow.width, d.style.shadow.curveParam,
            d.style.shadow.color)
  }

  function GlyphRawOf(s: TextSection, g: GlyphBoundsAndUv): GlyphRaw
  {
    GlyphRaw(AabbFromRect(g.bounds), s.color, g.uv, s.shadowIntensity)
  }

  /** The instances one primitive adds to each array. */
  function RectsOfPrim(p: PrimElement): seq<RectRaw>
  {
    if p.RectPrim? then [NewRectRaw(p.div, p.computed)] else []
  }

  function TexturedOfPrim(p: PrimElement): seq<TexturedRectRaw>
  {
    if p.TexturedRectPrim? then [TexturedRectRaw(NewRectRaw(p.div, p.computed), p.region.uv)] else []
  }

  function AlphaSdfOfPrim(p: PrimElement): seq<AlphaSdfRectRaw>
  {
    if p.AlphaSdfRectPrim? then [AlphaSdfRectRaw(BoundsFromComputed(p.computed.bounds), p.div.style.color,
                                                 p.sdf.params, p.sdf.region.uv)]
    else []
  }

  function GlyphsOfText(s: TextSection, gs: seq<GlyphBoundsAndUv>): (r: seq<GlyphRaw>)
    ensures |r| == |gs| && forall i :: 0 <= i < |gs| ==> r[i] == GlyphRawOf(s, gs[i])
  {
    if gs == [] then [] else GlyphsOfText(s, gs[..|gs| - 1]) + [GlyphRawOf(s, gs[|gs| - 1])]
  }

  function GlyphsOfPrim(p: PrimElement): seq<GlyphRaw>
  {
    if p.TextPrim? then GlyphsOfText(p.section, p.glyphs) else []
  }

  /** The instances of a sequence of primitives, in order. */
  function FlatMap<A>(ps: seq<Leveled>, f: PrimElement -> seq<A>): seq<A>
  {
    if ps == [] then [] else FlatMap(ps[..|ps| - 1], f) + f(ps[|ps| - 1].1)
  }

  lemma {:induction false} FlatMapAppend<A>(a: seq<Leveled>, b: seq<Leveled>, f: PrimElement -> seq<A>)
    ensures FlatMap(a + b, f) == FlatMap(a, f) + FlatMap(b, f)
  {
    if b != [] {
      FlatMapAppend(a, b[..|b| - 1], f);
      assert (a + b)[..|a + b| - 1] == a + b[..|b| - 1];
    } else {
      assert a + b == a;
    }
  }

  function RectsOf(ps: seq<Leveled>): seq<RectRaw> { FlatMap(ps, RectsOfPrim) }

  function TexturedOf(ps: seq<Leveled>): seq<TexturedRectRaw> { FlatMap(ps, TexturedOfPrim) }

  function AlphaSdfOf(ps: seq<Leveled>): seq<AlphaSdfRectRaw> { FlatMap(ps, AlphaSdfOfPrim) }

  function GlyphsOf(ps: seq<Leveled>): seq<GlyphRaw> { FlatMap(ps, GlyphsOfPrim) }

  /** Which instance array a batch kind draws from. */
  datatype Category = CatRect | CatTextured | CatAlphaSdf | CatGlyph

  function CategoryOf(k: BatchKind): Category
  {
    match k
    case KindRect => CatRect
    case KindTexturedRect(_) => CatTextured
    case KindAlphaSdfRect(_) => CatAlphaSdf
    case KindGlyph(_) => CatGlyph
  }

  /** The length of the array of category `c` after the primitives `ps`. */
  function CountOf(ps: seq<Leveled>, c: Category): nat
  {
    match c
    case CatRect => |RectsOf(ps)|
    case CatTextured => |TexturedOf(ps)|
    case CatAlphaSdf => |AlphaSdfOf(ps)|
    case CatGlyph => |GlyphsOf(ps)|
  }

  /** A primitive adds instances only to the array of its own category:
      one for a rect, one per glyph for a text section. */
  lemma CountOfAppend(ps: seq<Leveled>, x: Leveled, c: Category)
    ensures CountOf(ps + [x], c) == CountOf(ps, c) +
      (if CategoryOf(KindOf(x.1)) != c then 0 else if x.1.TextPrim? then |x.1.glyphs| else 1)
  {
    assert (ps + [x])[..|ps|] == ps;
  }

  lemma {:induction false} CountOfMonotone(ps: seq<Leveled>, n: nat, m: nat, c: Category)
    requires n <= m <= |ps|
    ensures CountOf(ps[..n], c) <= CountOf(ps[..m], c)
  {
    if n < m {
      CountOfMonotone(ps, n, m - 1, c);
      CountOfAppend(ps[..m - 1], ps[m - 1], c);
      assert ps[..m] == ps[..m - 1] + [ps[m - 1]];
    }
  }

  // ----- The batches -----

  /** The batches of the primitives `ps`, with `runs` the ranges of
      primitives each batch covers: the runs tile `[0, |ps|)` with non-empty
      consecutive ranges; neighbouring batches have different keys; every
      primitive of a run has its batch's kind and key; and a batch's range
      in its instance array runs from the array's length before its first
      primitive to the length after its last. */
  predicate Batched(ps: seq<Leveled>, runs: seq<Range>, bs: seq<Batch>)
  {
    |runs| == |bs| && (ps == [] <==> bs == []) &&
    RunsTile(|ps|, runs) && KeysAlternate(bs) && KindsMatch(ps, runs, bs) && RangesMatch(ps, runs, bs)
  }

  predicate RunsTile(n: nat, runs: seq<Range>)
  {
    (runs != [] ==> runs[0].start == 0 && runs[|runs| - 1].end == n) &&
    (forall k :: 0 <= k < |runs| ==> runs[k].start < runs[k].end <= n) &&
    (forall k :: 0 <= k < |runs| - 1 ==> runs[k].end == runs[k + 1].start)
  }

  predicate KeysAlternate(bs: seq<Batch>)
  {
    forall k :: 0 <= k < |bs| - 1 ==> bs[k].key != bs[k + 1].key
  }

  predicate KindsMatch(ps: seq<Leveled>, runs: seq<Range>, bs: seq<Batch>)
  {
    forall k, i :: 0 <= k < |runs| && k < |bs| && runs[k].start <= i < runs[k].end && i < |ps| ==>
      KindOf(ps[i].1) == bs[k].kind && PrimKey(ps[i].1) == bs[k].key
  }

  predicate RangesMatch(ps: seq<Leveled>, runs: seq<Range>, bs: seq<Batch>)
  {
    forall k :: 0 <= k < |runs| && k < |bs| && runs[k].start <= runs[k].end <= |ps| ==>
      bs[k].range == Range(CountOf(ps[..runs[k].start], CategoryOf(bs[k].kind)),
                           CountOf(ps[..runs[k].end], CategoryOf(bs[k].kind)))
  }

  /** A new batch for `x` after the primitives `ps`, empty so far. */
  function Open(x: PrimElement, ps: seq<Leveled>): Batch
  {
    var n := CountOf(ps, CategoryOf(KindOf(x)));
    Batch(PrimKey(x), Range(n, n), KindOf(x))
  }

  /** The batch finished after the primitives `ps`: its end is the length
      of its array. */
  function Finish(b: Batch, ps: seq<Leveled>): Batch
  {
    b.(range := b.range.(end := CountOf(ps, CategoryOf(b.kind))))
  }

  /** The batch list as it reads once its last batch is finished. */
  function View(bs: seq<Batch>, ps: seq<Leveled>): seq<Batch>
    requires |bs| > 0
  {
    bs[|bs| - 1 := Finish(bs[|bs| - 1], ps)]
  }

  lemma StartBatched(x: Leveled)
    ensures Batched([x], [Range(0, 1)], View([Open(x.1, [])], [x]))
  {
    assert [x][..0] == [] && [x][..1] == [x];
  }

  /** No batch among `bs[a..b]` is of category `c`. */
  predicate NoneOf(bs: seq<Batch>, a: nat, b: nat, c: Category)
    requires a <= b <= |bs|
  {
    forall m :: a <= m < b ==> CategoryOf(bs[m].kind) != c
  }

  /** Where run `k` starts; past the last run, the end of the primitives. */
  function RunStart(runs: seq<Range>, n: nat, k: nat): nat
    requires k <= |runs|
  {
    if k < |runs| then runs[k].start else n
  }

  /** Primitives of other categories add no instances to category `c`. */
  lemma {:induction false} CountOfSkip(ps: seq<Leveled>, i: nat, j: nat, c: Category)
    requires i <= j <= |ps|
    requires forall m :: i <= m < j ==> CategoryOf(KindOf(ps[m].1)) != c
    ensures CountOf(ps[..j], c) == CountOf(ps[..i], c)
    decreases j
  {
    if i < j {
      CountOfSkip(ps, i, j - 1, c);
      assert ps[..j] == ps[..j - 1] + [ps[j - 1]];
      CountOfAppend(ps[..j - 1], ps[j - 1], c);
    }
  }

  /** The runs of batches of other categories add no instances to category
      `c`. */
  lemma {:induction false} CountOfSkipRuns(ps: seq<Leveled>, runs: seq<Range>, bs: seq<Batch>, a: nat, b: nat, c: Category)
    requires |runs| == |bs| && RunsTile(|ps|, runs) && KindsMatch(ps, runs, bs)
    requires a <= b <= |bs| && NoneOf(bs, a, b, c)
    ensures CountOf(ps[..RunStart(runs, |ps|, b)], c) == CountOf(ps[..RunStart(runs, |ps|, a)], c)
    decreases b
  {
    if a < b {
      CountOfSkipRuns(ps, runs, bs, a, b - 1, c);
      var r := runs[b - 1];
      assert RunStart(runs, |ps|, b) == r.end;
      forall m | r.start <= m < r.end
        ensures CategoryOf(KindOf(ps[m].1)) != c
      {
        assert KindOf(ps[m].1) == bs[b - 1].kind;
      }
      CountOfSkip(ps, r.start, r.end, c);
    }
  }

  /** The batches of each category share out that category's instance
      array in order and without gaps: the first starts at 0 and each ends
      where the next of its category begins (`BatchRangesCover` adds the
      end of the array). */
  lemma BatchRangesTile(ps: seq<Leveled>, runs: seq<Range>, bs: seq<Batch>)
    requires Batched(ps, runs, bs)
    ensures forall k :: 0 <= k < |bs| ==> bs[k].range.start <= bs[k].range.end
    ensures forall l :: 0 <= l < |bs| && NoneOf(bs, 0, l, CategoryOf(bs[l].kind)) ==> bs[l].range.start == 0
    ensures forall k, l :: (0 <= k < l < |bs| && CategoryOf(bs[l].kind) == CategoryOf(bs[k].kind) &&
                            NoneOf(bs, k + 1, l, CategoryOf(bs[k].kind))) ==>
                             bs[k].range.end == bs[l].range.start
  {
    var n := |ps|;
    forall k | 0 <= k < |bs|
      ensures bs[k].range.start <= bs[k].range.end
    {
      RangeAt(ps, runs, bs, k);
    }
    forall l | 0 <= l < |bs| && NoneOf(bs, 0, l, CategoryOf(bs[l].kind))
      ensures bs[l].range.start == 0
    {
      RangeAt(ps, runs, bs, l);
      CountOfSkipRuns(ps, runs, bs, 0, l, CategoryOf(bs[l].kind));
      assert RunStart(runs, n, 0) == 0;
    }
    forall k, l | 0 <= k < l < |bs| && CategoryOf(bs[l].kind) == CategoryOf(bs[k].kind) &&
                  NoneOf(bs, k + 1, l, CategoryOf(bs[k].kind))
      ensures bs[k].range.end == bs[l].range.start
    {
      RangeAt(ps, runs, bs, k);
      RangeAt(ps, runs, bs, l);
      CountOfSkipRuns(ps, runs, bs, k + 1, l, CategoryOf(bs[k].kind));
    }
  }

  /** The last batch of each category ends at the length of that
      category's instance array, and a category without batches has no
      instances. */
  lemma BatchRangesCover(ps: seq<Leveled>, runs: seq<Range>, bs: seq<Batch>)
    requires Batched(ps, runs, bs)
    ensures forall k :: 0 <= k < |bs| && NoneOf(bs, k + 1, |bs|, CategoryOf(bs[k].kind)) ==>
                          bs[k].range.end == CountOf(ps, CategoryOf(bs[k].kind))
    ensures forall c :: NoneOf(bs, 0, |bs|, c) ==> CountOf(ps, c) == 0
  {
    var n := |ps|;
    assert ps[..n] == ps;
    forall k | 0 <= k < |bs| && NoneOf(bs, k + 1, |bs|, CategoryOf(bs[k].kind))
      ensures bs[k].range.end == CountOf(ps, CategoryOf(bs[k].kind))
    {
      RangeAt(ps, runs, bs, k);
      CountOfSkipRuns(ps, runs, bs, k + 1, |bs|, CategoryOf(bs[k].kind));
    }
    forall c | NoneOf(bs, 0, |bs|, c)
      ensures CountOf(ps, c) == 0
    {
      CountOfSkipRuns(ps, runs, bs, 0, |bs|, c);
      assert RunStart(runs, n, 0) == 0;
    }
  }

  /** Batch `k`'s range runs from the count of its category before its run
      to the count at the start of the next run. */
  lemma RangeAt(ps: seq<Leveled>, runs: seq<Range>, bs: seq<Batch>, k: nat)
    requires |runs| == |bs| && RunsTile(|ps|, runs) && RangesMatch(ps, runs, bs) && k < |bs|
    ensures var c := CategoryOf(bs[k].kind);
            bs[k].range == Range(CountOf(ps[..RunStart(runs, |ps|, k)], c), CountOf(ps[..RunStart(runs, |ps|, k + 1)], c))
    ensures bs[k].range.start <= bs[k].range.end
  {
    assert RunStart(runs, |ps|, k + 1) == runs[k].end;
    CountOfMonotone(ps, runs[k].start, runs[k].end, CategoryOf(bs[k].kind));
  }

  /** With sound keys, a primitive with the last batch's key also has its
      kind. */
  lemma SameKeySameKind(ps: seq<Leveled>, runs: seq<Range>, bs: seq<Batch>, x: Leveled)
    requires |bs| > 0 && Batched(ps, runs, View(bs, ps)) && KeysSound(ps + [x])
    requires PrimKey(x.1) == bs[|bs| - 1].key
    ensures KindOf(x.1) == bs[|bs| - 1].kind
  {
    var n := |bs| - 1;
    var s := runs[n].start;
    assert KindOf(ps[s].1) == View(bs, ps)[n].kind && PrimKey(ps[s].1) == View(bs, ps)[n].key;
    assert (ps + [x])[s] == ps[s] && (ps + [x])[|ps|] == x;
  }

  /** Prefixes of `ps` are prefixes of `ps + [x]`. */
  lemma PrefixesOfAppend(ps: seq<Leveled>, x: Leveled)
    ensures forall j :: 0 <= j <= |ps| ==> (ps + [x])[..j] == ps[..j]
    ensures (ps + [x])[..|ps| + 1] == ps + [x]
  {
    forall j | 0 <= j <= |ps|
      ensures (ps + [x])[..j] == ps[..j]
    {
    }
  }

  lemma ExtendRuns(n: nat, runs: seq<Range>)
    requires runs != [] && RunsTile(n, runs)
    ensures RunsTile(n + 1, runs[|runs| - 1 := runs[|runs| - 1].(end := n + 1)])
  {
  }

  /** Finishing the last batch at another point changes no key or kind. */
  lemma ViewKeepsKeys(bs: seq<Batch>, ps: seq<Leveled>, ps': seq<Leveled>)
    requires |bs| > 0
    ensures |View(bs, ps')| == |View(bs, ps)| == |bs|
    ensures forall k :: 0 <= k < |bs| ==>
      View(bs, ps')[k].kind == View(bs, ps)[k].kind == bs[k].kind &&
      View(bs, ps')[k].key == View(bs, ps)[k].key == bs[k].key
  {
  }

  lemma ExtendKinds(ps: seq<Leveled>, runs: seq<Range>, bs: seq<Batch>, x: Leveled)
    requires |runs| == |bs| > 0 && RunsTile(|ps|, runs) && KindsMatch(ps, runs, View(bs, ps))
    requires KindOf(x.1) == bs[|bs| - 1].kind && PrimKey(x.1) == bs[|bs| - 1].key
    ensures var n := |runs| - 1;
            KindsMatch(ps + [x], runs[n := runs[n].(end := |ps| + 1)], View(bs, ps + [x]))
  {
    var n := |runs| - 1;
    var runs' := runs[n := runs[n].(end := |ps| + 1)];
    ViewKeepsKeys(bs, ps, ps + [x]);
    forall k, i | 0 <= k < |runs'| && k < |bs| && runs'[k].start <= i < runs'[k].end && i < |ps| + 1
      ensures KindOf((ps + [x])[i].1) == bs[k].kind && PrimKey((ps + [x])[i].1) == bs[k].key
    {
      if i < |ps| {
        assert (ps + [x])[i] == ps[i];
        assert runs[k].start <= i < runs[k].end;
      }
    }
  }

  lemma ExtendRanges(ps: seq<Leveled>, runs: seq<Range>, bs: seq<Batch>, x: Leveled)
    requires |runs| == |bs| > 0 && RunsTile(|ps|, runs) && RangesMatch(ps, runs, View(bs, ps))
    ensures var n := |runs| - 1;
            RangesMatch(ps + [x], runs[n := runs[n].(end := |ps| + 1)], View(bs, ps + [x]))
  {
    var n := |runs| - 1;
    var runs' := runs[n := runs[n].(end := |ps| + 1)];
    PrefixesOfAppend(ps, x);
    forall k | 0 <= k < |runs'| && k < |bs| && runs'[k].start <= runs'[k].end <= |ps| + 1
      ensures View(bs, ps + [x])[k].range ==
              Range(CountOf((ps + [x])[..runs'[k].start], CategoryOf(View(bs, ps + [x])[k].kind)),
                    CountOf((ps + [x])[..runs'[k].end], CategoryOf(View(bs, ps + [x])[k].kind)))
    {
      if k == n {
        assert View(bs, ps + [x])[k].range.start == View(bs, ps)[k].range.start;
      } else {
        assert View(bs, ps + [x])[k] == View(bs, ps)[k];
      }
    }
  }

  /** A primitive of the last batch's kind and key extends that batch's run. */
  lemma ExtendBatched(ps: seq<Leveled>, runs: seq<Range>, bs: seq<Batch>, x: Leveled)
    requires |bs| > 0 && Batched(ps, runs, View(bs, ps))
    requires PrimKey(x.1) == bs[|bs| - 1].key && KindOf(x.1) == bs[|bs| - 1].kind
    ensures Batched(ps + [x], runs[|runs| - 1 := runs[|runs| - 1].(end := |ps| + 1)], View(bs, ps + [x]))
  {
    ExtendRuns(|ps|, runs);
    ExtendKinds(ps, runs, bs, x);
    ExtendRanges(ps, runs, bs, x);
    ViewKeepsKeys(bs, ps, ps + [x]);
  }

  lemma OpenKinds(ps: seq<Leveled>, runs: seq<Range>, v: seq<Batch>, x: Leveled)
    requires |runs| == |v| && RunsTile(|ps|, runs) && KindsMatch(ps, runs, v)
    ensures KindsMatch(ps + [x], runs + [Range(|ps|, |ps| + 1)], v + [Finish(Open(x.1, ps), ps + [x])])
  {
    var runs' := runs + [Range(|ps|, |ps| + 1)];
    var v' := v + [Finish(Open(x.1, ps), ps + [x])];
    forall k, i | 0 <= k < |runs'| && k < |v'| && runs'[k].start <= i < runs'[k].end && i < |ps| + 1
      ensures KindOf((ps + [x])[i].1) == v'[k].kind && PrimKey((ps + [x])[i].1) == v'[k].key
    {
      if k < |runs| {
        assert (ps + [x])[i] == ps[i];
      }
    }
  }

  lemma OpenRanges(ps: seq<Leveled>, runs: seq<Range>, v: seq<Batch>, x: Leveled)
    requires |runs| == |v| && RunsTile(|ps|, runs) && RangesMatch(ps, runs, v)
    ensures RangesMatch(ps + [x], runs + [Range(|ps|, |ps| + 1)], v + [Finish(Open(x.1, ps), ps + [x])])
  {
    var runs' := runs + [Range(|ps|, |ps| + 1)];
    var v' := v + [Finish(Open(x.1, ps), ps + [x])];
    PrefixesOfAppend(ps, x);
    forall k | 0 <= k < |runs'| && k < |v'| && runs'[k].start <= runs'[k].end <= |ps| + 1
      ensures v'[k].range == Range(CountOf((ps + [x])[..runs'[k].start], CategoryOf(v'[k].kind)),
                                   CountOf((ps + [x])[..runs'[k].end], CategoryOf(v'[k].kind)))
    {
      if k < |runs| {
        assert v'[k] == v[k];
      }
    }
  }

  /** A primitive with another key finishes the last batch and opens a new
      one covering just itself. */
  lemma OpenBatched(ps: seq<Leveled>, runs: seq<Range>, bs: seq<Batch>, x: Leveled)
    requires |bs| > 0 && Batched(ps, runs, View(bs, ps)) && PrimKey(x.1) != bs[|bs| - 1].key
    ensures Batched(ps + [x], runs + [Range(|ps|, |ps| + 1)], View(View(bs, ps) + [Open(x.1, ps)], ps + [x]))
  {
    var v := View(bs, ps);
    assert View(v + [Open(x.1, ps)], ps + [x]) == v + [Finish(Open(x.1, ps), ps + [x])];
    OpenRuns(|ps|, runs);
    OpenKeys(v, Finish(Open(x.1, ps), ps + [x]));
    OpenKinds(ps, runs, v, x);
    OpenRanges(ps, runs, v, x);
  }

  lemma OpenRuns(n: nat, runs: seq<Range>)
    requires RunsTile(n, runs) && (runs != [] || n == 0)
    ensures RunsTile(n + 1, runs + [Range(n, n + 1)])
  {
  }

  lemma OpenKeys(v: seq<Batch>, b: Batch)
    requires |v| > 0 && KeysAlternate(v) && v[|v| - 1].key != b.key
    ensures KeysAlternate(v + [b])
  {
  }

  // ----- Collecting primitives -----

  /** The number of children or sections of an element, plus one. */
  function Width(e: ElementWithComputed): nat
  {
    match e
    case DivWith(d, _) => |d.children| + 1
    case TextWith(t, _) => |t.sections| + 1
  }

  /** The number of text sections in `ss`. */
  function TextCount(ss: seq<Section>): nat
  {
    if ss == [] then 0 else TextCount(ss[..|ss| - 1]) + (if ss[|ss| - 1].TextSec? then 1 else 0)
  }

  lemma TextCountStep(ss: seq<Section>, k: nat)
    requires k < |ss|
    ensures TextCount(ss[..k + 1]) == TextCount(ss[..k]) + (if ss[k].TextSec? then 1 else 0)
  {
    assert ss[..k + 1][..k] == ss[..k];
  }

  /** Every text's computed data has a valid glyph range for each of its
      text sections; without it the source's slicing panics. */
  predicate Consistent(e: ElementWithComputed)
    decreases e, Width(e)
  {
    match e
    case DivWith(d, _) => ChildrenConsistent(e, |d.children|)
    case TextWith(t, _) => SectionsConsistent(e, |t.sections|)
  }

  predicate ChildrenConsistent(e: ElementWithComputed, k: nat)
    requires e.DivWith? && k <= |e.div.children|
    decreases e, k
  {
    k == 0 || (ChildrenConsistent(e, k - 1) && Consistent(e.div.children[k - 1].element))
  }

  predicate SectionsConsistent(e: ElementWithComputed, k: nat)
    requires e.TextWith? && k <= |e.text.sections|
    decreases e, k
  {
    k == 0 ||
    (SectionsConsistent(e, k - 1) &&
     match e.text.sections[k - 1]
     case TextSec(_) =>
       var i := TextCount(e.text.sections[..k - 1]);
       var c := e.textComputed;
       i < |c.textSectionGlyphs| && c.textSectionGlyphs[i].start <= c.textSectionGlyphs[i].end <= |c.glyphs|
     case ElementSec(b, _) => Consistent(b.element))
  }

  lemma {:induction false} ChildrenConsistentPrefix(e: ElementWithComputed, k: nat, n: nat)
    requires e.DivWith? && k <= n <= |e.div.children| && ChildrenConsistent(e, n)
    ensures ChildrenConsistent(e, k)
    decreases n
  {
    if k < n {
      ChildrenConsistentPrefix(e, k, n - 1);
    }
  }

  lemma {:induction false} SectionsConsistentPrefix(e: ElementWithComputed, k: nat, n: nat)
    requires e.TextWith? && k <= n <= |e.text.sections| && SectionsConsistent(e, n)
    ensures SectionsConsistent(e, k)
    decreases n
  {
    if k < n {
      SectionsConsistentPrefix(e, k, n - 1);
    }
  }

  /** Section `j` of a text is sound: a text section's index among the
      text sections names a glyph range within the text's glyphs, and an
      inline element is itself consistent. */
  predicate SectionOk(e: ElementWithComputed, j: nat)
    requires e.TextWith? && j < |e.text.sections|
  {
    match e.text.sections[j]
    case TextSec(_) =>
      var i := TextCount(e.text.sections[..j]);
      var c := e.textComputed;
      i < |c.textSectionGlyphs| && c.textSectionGlyphs[i].start <= c.textSectionGlyphs[i].end <= |c.glyphs|
    case ElementSec(b, _) => Consistent(b.element)
  }

  /** A div is consistent exactly when each of its children is. */
  lemma ConsistentDiv(e: ElementWithComputed)
    requires e.DivWith?
    ensures Consistent(e) <==> forall i :: 0 <= i < |e.div.children| ==> Consistent(e.div.children[i].element)
  {
    ChildrenConsistentAll(e, |e.div.children|);
  }

  lemma {:induction false} ChildrenConsistentAll(e: ElementWithComputed, k: nat)
    requires e.DivWith? && k <= |e.div.children|
    ensures ChildrenConsistent(e, k) <==> forall i :: 0 <= i < k ==> Consistent(e.div.children[i].element)
    decreases k
  {
    if k > 0 {
      ChildrenConsistentAll(e, k - 1);
    }
  }

  /** A text is consistent exactly when each of its sections is sound. */
  lemma ConsistentText(e: ElementWithComputed)
    requires e.TextWith?
    ensures Consistent(e) <==> forall j :: 0 <= j < |e.text.sections| ==> SectionOk(e, j)
  {
    SectionsConsistentAll(e, |e.text.sections|);
  }

  lemma {:induction false} SectionsConsistentAll(e: ElementWithComputed, k: nat)
    requires e.TextWith? && k <= |e.text.sections|
    ensures SectionsConsistent(e, k) <==> forall j :: 0 <= j < k ==> SectionOk(e, j)
    decreases k
  {
    if k > 0 {
      SectionsConsistentAll(e, k - 1);
      assert SectionsConsistent(e, k) <==> SectionsConsistent(e, k - 1) && SectionOk(e, k - 1);
    }
  }

  /** A text is consistent when it records at least one glyph range per
      text section, every range lies within its glyphs and every inline
      element is consistent. */
  lemma ConsistentTextFrom(e: ElementWithComputed)
    requires e.TextWith?
    requires TextCount(e.text.sections) <= |e.textComputed.textSectionGlyphs|
    requires forall r :: 0 <= r < |e.textComputed.textSectionGlyphs| ==>
               e.textComputed.textSectionGlyphs[r].start <= e.textComputed.textSectionGlyphs[r].end <= |e.textComputed.glyphs|
    requires forall j :: 0 <= j < |e.text.sections| && e.text.sections[j].ElementSec? ==>
               Consistent(e.text.sections[j].element.element)
    ensures Consistent(e)
  {
    forall j | 0 <= j < |e.text.sections|
      ensures SectionOk(e, j)
    {
      if e.text.sections[j].TextSec? {
        TextCountBelow(e.text.sections, j);
      }
    }
    ConsistentText(e);
  }

  /** The text count of sections depends only on which of them are text
      sections. */
  lemma {:induction false} TextCountKinds(a: seq<Section>, b: seq<Section>)
    requires |a| == |b| && forall j :: 0 <= j < |a| ==> a[j].TextSec? == b[j].TextSec?
    ensures TextCount(a) == TextCount(b)
    decreases |a|
  {
    if a != [] {
      TextCountKinds(a[..|a| - 1], b[..|b| - 1]);
    }
  }

  /** A text section comes before the end of the count: its index among
      the text sections is below their number. */
  lemma {:induction false} TextCountBelow(ss: seq<Section>, j: nat)
    requires j < |ss| && ss[j].TextSec?
    ensures TextCount(ss[..j]) < TextCount(ss)
    decreases |ss|
  {
    if j < |ss| - 1 {
      assert ss[..|ss| - 1][..j] == ss[..j];
      TextCountBelow(ss[..|ss| - 1], j);
    } else {
      assert ss[..|ss| - 1] == ss[..j];
    }
  }

  /** The primitive a visible div draws, by its texture. */
  function DivPrim(d: Div, c: DivComputed): PrimElement
  {
    match d.style.texture
    case NoTexture => RectPrim(d, c)
    case Texture(r) => TexturedRectPrim(d, c, r)
    case AlphaSdfTexture(s) => AlphaSdfRectPrim(d, c, s)
  }

  /** `collect_prim_elements` as a value: `parent` is the parent's level.
      A div adds its own z-index and draws itself only when its color is
      not fully transparent, before its children; a text raises the text
      level and draws one primitive per text section, with the glyphs of
      that section's range, and the elements inline in it in between. */
  function Collect(e: ElementWithComputed, parent: StackingLevel): seq<Leveled>
    requires Consistent(e)
    decreases e, Width(e)
  {
    var l := parent.(nestingLevel := parent.nestingLevel + 1);
    match e
    case DivWith(d, c) =>
      var dl := l.(zIndex := l.zIndex + d.style.zIndex);
      (if d.style.color != TRANSPARENT then [(dl, DivPrim(d, c))] else []) + CollectChildren(e, |d.children|, dl)
    case TextWith(t, _) =>
      CollectSections(e, |t.sections|, l.(textLevel := l.textLevel + 1))
  }

  function CollectChildren(e: ElementWithComputed, k: nat, l: StackingLevel): seq<Leveled>
    requires e.DivWith? && k <= |e.div.children| && ChildrenConsistent(e, k)
    decreases e, k
  {
    if k == 0 then [] else CollectChildren(e, k - 1, l) + Collect(e.div.children[k - 1].element, l)
  }

  function CollectSections(e: ElementWithComputed, k: nat, l: StackingLevel): seq<Leveled>
    requires e.TextWith? && k <= |e.text.sections| && SectionsConsistent(e, k)
    decreases e, k
  {
    if k == 0 then []
    else
      CollectSections(e, k - 1, l) +
      match e.text.sections[k - 1]
      case TextSec(ts) =>
        var r := e.textComputed.textSectionGlyphs[TextCount(e.text.sections[..k - 1])];
        [(l, TextPrim(ts, e.textComputed.glyphs[r.start..r.end]))]
      case ElementSec(b, _) => Collect(b.element, l)
  }

  /** Every primitive of an element sits strictly deeper than the parent
      level and at least at its text level. */
  lemma {:induction false} CollectLevels(e: ElementWithComputed, parent: StackingLevel)
    requires Consistent(e)
    ensures forall p :: p in Collect(e, parent) ==>
      p.0.nestingLevel > parent.nestingLevel && p.0.textLevel >= parent.textLevel
    decreases e, Width(e)
  {
    var l := parent.(nestingLevel := parent.nestingLevel + 1);
    match e
    case DivWith(d, c) =>
      var dl := l.(zIndex := l.zIndex + d.style.zIndex);
      ChildrenLevels(e, |d.children|, dl);
    case TextWith(t, _) =>
      SectionsLevels(e, |t.sections|, l.(textLevel := l.textLevel + 1));
  }

  lemma {:induction false} ChildrenLevels(e: ElementWithComputed, k: nat, l: StackingLevel)
    requires e.DivWith? && k <= |e.div.children| && ChildrenConsistent(e, k)
    ensures forall p :: p in CollectChildren(e, k, l) ==>
      p.0.nestingLevel > l.nestingLevel && p.0.textLevel >= l.textLevel
    decreases e, k
  {
    if k > 0 {
      ChildrenLevels(e, k - 1, l);
      CollectLevels(e.div.children[k - 1].element, l);
    }
  }

  lemma {:induction false} SectionsLevels(e: ElementWithComputed, k: nat, l: StackingLevel)
    requires e.TextWith? && k <= |e.text.sections| && SectionsConsistent(e, k)
    ensures forall p :: p in CollectSections(e, k, l) ==>
      p.0.nestingLevel >= l.nestingLevel && p.0.textLevel >= l.textLevel
    decreases e, k
  {
    if k > 0 {
      SectionsLevels(e, k - 1, l);
      match e.text.sections[k - 1]
      case TextSec(_) =>
      case ElementSec(b, _) => CollectLevels(b.element, l);
    }
  }

  /** A visible div is drawn first among its own primitives, and each
      primitive of its children at the same z-index and text level ranks
      strictly after it, so children are drawn in front of their parent. */
  lemma ChildrenInFront(e: ElementWithComputed, parent: StackingLevel)
    requires Consistent(e) && e.DivWith? && e.div.style.color != TRANSPARENT
    ensures var ps := Collect(e, parent);
            |ps| > 0 && ps[0].1 == DivPrim(e.div, e.divComputed) &&
            forall i :: 0 < i < |ps| && ps[i].0.zIndex == ps[0].0.zIndex && ps[i].0.textLevel == ps[0].0.textLevel ==>
              Cmp(ps[0].0, ps[i].0) < 0
  {
    var l := parent.(nestingLevel := parent.nestingLevel + 1);
    var dl := l.(zIndex := l.zIndex + e.div.style.zIndex);
    var ps := Collect(e, parent);
    var rest := CollectChildren(e, |e.div.children|, dl);
    ChildrenLevels(e, |e.div.children|, dl);
    assert ps == [(dl, DivPrim(e.div, e.divComputed))] + rest;
    forall i | 0 < i < |ps|
      ensures ps[i].0.nestingLevel > dl.nestingLevel
    {
      assert ps[i] == rest[i - 1];
      assert rest[i - 1] in rest;
    }
  }

  /** `collect_prim_elements`: appends the primitives of `e` below the
      parent level `level` to `prims`. */
  method CollectPrimElements(e: ElementWithComputed, level: StackingLevel, prims: seq<Leveled>)
    returns (out: seq<Leveled>)
    requires Consistent(e)
    ensures out == prims + Collect(e, level)
    decreases e, 1
  {
    var l := level.(nestingLevel := level.nestingLevel + 1);
    match e {
      case DivWith(d, c) =>
        l := l.(zIndex := l.zIndex + d.style.zIndex);
        out := prims;
        if d.style.color != TRANSPARENT {
          out := out + [(l, DivPrim(d, c))];
        }
        out := CollectChildrenInto(e, l, out);
        assert out == prims + ((if d.style.color != TRANSPARENT then [(l, DivPrim(d, c))] else []) +
                               CollectChildren(e, |d.children|, l));
      case TextWith(t, c) =>
        l := l.(textLevel := l.textLevel + 1);
        out := CollectSectionsInto(e, l, prims);
    }
  }

  /** The loop of `collect_prim_elements` over a div's children. */
  method CollectChildrenInto(e: ElementWithComputed, l: StackingLevel, prims: seq<Leveled>)
    returns (out: seq<Leveled>)
    requires e.DivWith? && ChildrenConsistent(e, |e.div.children|)
    ensures out == prims + CollectChildren(e, |e.div.children|, l)
    decreases e, 0
  {
    var children := e.div.children;
    out := prims;
    var k := 0;
    while k < |children|
      invariant 0 <= k <= |children|
      invariant ChildrenConsistent(e, k) && out == prims + CollectChildren(e, k, l)
    {
      ChildrenConsistentPrefix(e, k + 1, |children|);
      out := CollectPrimElements(children[k].element, l, out);
      k := k + 1;
    }
  }

  /** The loop of `collect_prim_elements` over a text's sections: `i`
      counts the text sections seen, indexing their glyph ranges. */
  method CollectSectionsInto(e: ElementWithComputed, l: StackingLevel, prims: seq<Leveled>)
    returns (out: seq<Leveled>)
    requires e.TextWith? && SectionsConsistent(e, |e.text.sections|)
    ensures out == prims + CollectSections(e, |e.text.sections|, l)
    decreases e, 0
  {
    out := prims;
    var i := 0;
    var k := 0;
    while k < |e.text.sections|
      invariant 0 <= k <= |e.text.sections| && i == TextCount(e.text.sections[..k])
      invariant SectionsConsistent(e, k) && out == prims + CollectSections(e, k, l)
    {
      SectionsConsistentPrefix(e, k + 1, |e.text.sections|);
      out, i := CollectSection(e, k, i, l, prims, out);
      k := k + 1;
    }
  }

  /** One iteration of the loop over a text's sections. */
  method CollectSection(e: ElementWithComputed, k: nat, i: nat, l: StackingLevel,
                        ghost prims: seq<Leveled>, out: seq<Leveled>)
    returns (out': seq<Leveled>, i': nat)
    requires e.TextWith? && k < |e.text.sections| && SectionsConsistent(e, k + 1)
    requires i == TextCount(e.text.sections[..k]) && out == prims + CollectSections(e, k, l)
    ensures i' == TextCount(e.text.sections[..k + 1]) && out' == prims + CollectSections(e, k + 1, l)
    decreases e, 0, k
  {
    TextCountStep(e.text.sections, k);
    var c := e.textComputed;
    match e.text.sections[k] {
      case TextSec(ts) =>
        var r := c.textSectionGlyphs[i];
        i' := i + 1;
        out' := out + [(l, TextPrim(ts, c.glyphs[r.start..r.end]))];
      case ElementSec(b, _) =>
        i' := i;
        out' := CollectPrimElements(b.element, l, out);
    }
  }

  /** The primitives of all root elements, in order, each below level zero. */
  function CollectAll(elements: seq<ElementWithComputed>): seq<Leveled>
    requires forall i :: 0 <= i < |elements| ==> Consistent(elements[i])
  {
    if elements == [] then []
    else CollectAll(elements[..|elements| - 1]) + Collect(elements[|elements| - 1], LEVEL_ZERO)
  }

  /** The comparator of the sort: by stacking level alone. */
  function ByLevel(): (Leveled, Leveled) -> bool
  {
    (a: Leveled, b: Leveled) => Cmp(a.0, b.0) <= 0
  }

  lemma ByLevelPreorder()
    ensures TotalPreorder(ByLevel())
  {
    forall a: Leveled, b: Leveled, c: Leveled {
      CmpTotalOrder(a.0, b.0, c.0);
    }
  }

  /** The sorted primitives are a permutation of the collected ones, in
      non-decreasing stacking level, with primitives of equal level in
      collection order (the sort is stable). */
  lemma SortedByLevel(ps: seq<Leveled>, y: Leveled)
    ensures var s := SortBy(ps, ByLevel());
            multiset(s) == multiset(ps) && |s| == |ps| &&
            (forall i, j :: 0 <= i < j < |s| ==> Cmp(s[i].0, s[j].0) <= 0) &&
            RankClass(s, y, ByLevel()) == RankClass(ps, y, ByLevel())
  {
    ByLevelPreorder();
    SortBySorted(ps, ByLevel());
    SortByStable(ps, y, ByLevel());
    SortByLength(ps, ByLevel());
  }

  /** `ElementBatches`: the four instance arrays and the batches over them. */
  datatype ElementBatches = ElementBatches(rects: seq<RectRaw>, texturedRects: seq<TexturedRectRaw>,
                                           alphaSdfRects: seq<AlphaSdfRectRaw>, glyphs: seq<GlyphRaw>,
                                           batches: seq<Batch>)

  /** The length of the array a batch kind draws from, given the lengths
      of the rect, textured rect, alpha-SDF rect and glyph arrays. */
  function ArrayLen(k: BatchKind, nr: nat, nt: nat, na: nat, ng: nat): nat
  {
    match k
    case KindRect => nr
    case KindTexturedRect(_) => nt
    case KindAlphaSdfRect(_) => na
    case KindGlyph(_) => ng
  }

  /** The batch part of one step of `get_batches`: when the key differs
      from the last batch's, the last batch is finished at the current
      length of its array and a new, empty batch for `x` is pushed. */
  method NextBatches(batches: seq<Batch>, x: Leveled, nr: nat, nt: nat, na: nat, ng: nat,
                     ghost before: seq<Leveled>, ghost runs: seq<Range>)
    returns (next: seq<Batch>, ghost runs': seq<Range>)
    requires nr == CountOf(before, CatRect) && nt == CountOf(before, CatTextured)
    requires na == CountOf(before, CatAlphaSdf) && ng == CountOf(before, CatGlyph)
    requires before == [] ==> batches == [] && runs == []
    requires before != [] ==> |batches| > 0 && Batched(before, runs, View(batches, before))
    requires KeysSound(before + [x])
    ensures |next| > 0 && Batched(before + [x], runs', View(next, before + [x]))
  {
    var key := PrimKey(x.1);
    if batches == [] {
      StartBatched(x);
      next := [Batch(key, Range(0, 0), KindOf(x.1))];
      runs' := [Range(0, 1)];
    } else if batches[|batches| - 1].key != key {
      next := FinishAndOpen(batches, x, nr, nt, na, ng, before);
      OpenBatched(before, runs, batches, x);
      runs' := runs + [Range(|before|, |before| + 1)];
    } else {
      SameKeySameKind(before, runs, batches, x);
      ExtendBatched(before, runs, batches, x);
      next := batches;
      runs' := runs[|runs| - 1 := runs[|runs| - 1].(end := |before| + 1)];
    }
  }

  /** Finishes the last batch at the current length of its array and
      pushes an empty batch for `x`. */
  method FinishAndOpen(batches: seq<Batch>, x: Leveled, nr: nat, nt: nat, na: nat, ng: nat,
                       ghost before: seq<Leveled>)
    returns (next: seq<Batch>)
    requires nr == CountOf(before, CatRect) && nt == CountOf(before, CatTextured)
    requires na == CountOf(before, CatAlphaSdf) && ng == CountOf(before, CatGlyph)
    requires |batches| > 0
    ensures next == View(batches, before) + [Open(x.1, before)]
  {
    var last := batches[|batches| - 1];
    var batchEnd := ArrayLen(last.kind, nr, nt, na, ng);
    var start := ArrayLen(KindOf(x.1), nr, nt, na, ng);
    next := batches[|batches| - 1 := last.(range := last.range.(end := batchEnd))] +
            [Batch(PrimKey(x.1), Range(start, start), KindOf(x.1))];
  }

  /** The instance part of one step of `get_batches`: `x` adds its rect,
      or one glyph per glyph of its section, to its own array. */
  method PushInstances(x: Leveled, rects: seq<RectRaw>, texturedRects: seq<TexturedRectRaw>,
                       alphaSdfRects: seq<AlphaSdfRectRaw>, glyphs: seq<GlyphRaw>, ghost before: seq<Leveled>)
    returns (rects': seq<RectRaw>, texturedRects': seq<TexturedRectRaw>,
             alphaSdfRects': seq<AlphaSdfRectRaw>, glyphs': seq<GlyphRaw>)
    requires rects == RectsOf(before) && texturedRects == TexturedOf(before)
    requires alphaSdfRects == AlphaSdfOf(before) && glyphs == GlyphsOf(before)
    ensures rects' == RectsOf(before + [x]) && texturedRects' == TexturedOf(before + [x])
    ensures alphaSdfRects' == AlphaSdfOf(before + [x]) && glyphs' == GlyphsOf(before + [x])
  {
    assert (before + [x])[..|before|] == before;
    rects', texturedRects', alphaSdfRects', glyphs' := rects, texturedRects, alphaSdfRects, glyphs;
    match x.1 {
      case RectPrim(d, c) =>
        rects' := rects + [NewRectRaw(d, c)];
      case TexturedRectPrim(d, c, region) =>
        texturedRects' := texturedRects + [TexturedRectRaw(NewRectRaw(d, c), region.uv)];
      case AlphaSdfRectPrim(d, c, sdf) =>
        alphaSdfRects' := alphaSdfRects + [AlphaSdfRectRaw(BoundsFromComputed(c.bounds), d.style.color,
                                                           sdf.params, sdf.region.uv)];
      case TextPrim(section, textGlyphs) =>
        var g := 0;
        while g < |textGlyphs|
          invariant 0 <= g <= |textGlyphs| && glyphs' == glyphs + GlyphsOfText(section, textGlyphs[..g])
        {
          assert textGlyphs[..g + 1][..g] == textGlyphs[..g];
          glyphs' := glyphs' + [GlyphRawOf(section, textGlyphs[g])];
          g := g + 1;
        }
        assert textGlyphs[..g] == textGlyphs;
    }
  }

  lemma KeysSoundPrefix(ps: seq<Leveled>, n: nat)
    requires KeysSound(ps) && n <= |ps|
    ensures KeysSound(ps[..n])
  {
    forall a, b | 0 <= a < n && 0 <= b < n && PrimKey(ps[..n][a].1) == PrimKey(ps[..n][b].1)
      ensures KindOf(ps[..n][a].1) == KindOf(ps[..n][b].1)
    {
      assert ps[..n][a] == ps[a] && ps[..n][b] == ps[b];
    }
  }

  /** The end of `get_batches`: the last batch, if any, is finished at
      the current length of its array. */
  method FinishLast(batches: seq<Batch>, nr: nat, nt: nat, na: nat, ng: nat,
                    ghost ps: seq<Leveled>, ghost runs: seq<Range>)
    returns (finished: seq<Batch>)
    requires nr == CountOf(ps, CatRect) && nt == CountOf(ps, CatTextured)
    requires na == CountOf(ps, CatAlphaSdf) && ng == CountOf(ps, CatGlyph)
    requires ps == [] ==> batches == [] && runs == []
    requires ps != [] ==> |batches| > 0 && Batched(ps, runs, View(batches, ps))
    ensures Batched(ps, runs, finished)
  {
    finished := batches;
    if batches != [] {
      var last := batches[|batches| - 1];
      var batchEnd := ArrayLen(last.kind, nr, nt, na, ng);
      finished := batches[|batches| - 1 := last.(range := last.range.(end := batchEnd))];
      assert finished == View(batches, ps);
    }
  }

  /** One iteration of the loop of `get_batches`, over `ps[i]`. */
  method BatchStep(ps: seq<Leveled>, i: nat, rects: seq<RectRaw>, texturedRects: seq<TexturedRectRaw>,
                   alphaSdfRects: seq<AlphaSdfRectRaw>, glyphs: seq<GlyphRaw>, batches: seq<Batch>,
                   ghost runs: seq<Range>)
    returns (rects': seq<RectRaw>, texturedRects': seq<TexturedRectRaw>, alphaSdfRects': seq<AlphaSdfRectRaw>,
             glyphs': seq<GlyphRaw>, batches': seq<Batch>, ghost runs': seq<Range>)
    requires KeysSound(ps) && i < |ps|
    requires rects == RectsOf(ps[..i]) && texturedRects == TexturedOf(ps[..i])
    requires alphaSdfRects == AlphaSdfOf(ps[..i]) && glyphs == GlyphsOf(ps[..i])
    requires i == 0 ==> batches == [] && runs == []
    requires i > 0 ==> |batches| > 0 && Batched(ps[..i], runs, View(batches, ps[..i]))
    ensures rects' == RectsOf(ps[..i + 1]) && texturedRects' == TexturedOf(ps[..i + 1])
    ensures alphaSdfRects' == AlphaSdfOf(ps[..i + 1]) && glyphs' == GlyphsOf(ps[..i + 1])
    ensures |batches'| > 0 && Batched(ps[..i + 1], runs', View(batches', ps[..i + 1]))
  {
    assert ps[..i + 1] == ps[..i] + [ps[i]];
    KeysSoundPrefix(ps, i + 1);
    batches', runs' := NextBatches(batches, ps[i], |rects|, |texturedRects|, |alphaSdfRects|, |glyphs|, ps[..i], runs);
    rects', texturedRects', alphaSdfRects', glyphs' := PushInstances(ps[i], rects, texturedRects, alphaSdfRects, glyphs, ps[..i]);
  }

  /** Step 3 of `get_batches`: one pass over the sorted primitives, then
      the last batch is finished. */
  method BatchPrims(ps: seq<Leveled>) returns (r: ElementBatches, ghost runs: seq<Range>)
    requires KeysSound(ps)
    ensures r.rects == RectsOf(ps) && r.texturedRects == TexturedOf(ps)
    ensures r.alphaSdfRects == AlphaSdfOf(ps) && r.glyphs == GlyphsOf(ps)
    ensures Batched(ps, runs, r.batches)
  {
    var rects: seq<RectRaw> := [];
    var texturedRects: seq<TexturedRectRaw> := [];
    var alphaSdfRects: seq<AlphaSdfRectRaw> := [];
    var glyphs: seq<GlyphRaw> := [];
    var batches: seq<Batch> := [];
    runs := [];
    var i := 0;
    while i < |ps|
      invariant 0 <= i <= |ps|
      invariant rects == RectsOf(ps[..i]) && texturedRects == TexturedOf(ps[..i])
      invariant alphaSdfRects == AlphaSdfOf(ps[..i]) && glyphs == GlyphsOf(ps[..i])
      invariant i == 0 ==> batches == [] && runs == []
      invariant i > 0 ==> |batches| > 0 && Batched(ps[..i], runs, View(batches, ps[..i]))
    {
      rects, texturedRects, alphaSdfRects, glyphs, batches, runs :=
        BatchStep(ps, i, rects, texturedRects, alphaSdfRects, glyphs, batches, runs);
      i := i + 1;
    }
    assert ps[..i] == ps;
    batches := FinishLast(batches, |rects|, |texturedRects|, |alphaSdfRects|, |glyphs|, ps, runs);
    r := ElementBatches(rects, texturedRects, alphaSdfRects, glyphs, batches);
  }

  /** Sound addresses survive a permutation. */
  lemma SoundPermutation(ps: seq<Leveled>, qs: seq<Leveled>)
    requires multiset(ps) == multiset(qs) && AddressesSound(ps)
    ensures AddressesSound(qs)
  {
    forall a, b | a in qs && b in qs
      ensures PairSound(a.1, b.1)
    {
      assert a in multiset(qs) && b in multiset(qs);
      assert a in ps && b in ps;
    }
  }

  /** `get_batches`: collects the primitives of every root element in
      order, sorts them stably by stacking level and batches the result.
      The texture and font addresses must be those of live `Rc`s. */
  method GetBatches(elements: seq<ElementWithComputed>)
    returns (r: ElementBatches, ghost sorted: seq<Leveled>, ghost runs: seq<Range>)
    requires forall i :: 0 <= i < |elements| ==> Consistent(elements[i])
    requires AddressesSound(CollectAll(elements))
    ensures sorted == SortBy(CollectAll(elements), ByLevel())
    ensures var s := SortBy(CollectAll(elements), ByLevel());
            r.rects == RectsOf(s) && r.texturedRects == TexturedOf(s) &&
            r.alphaSdfRects == AlphaSdfOf(s) && r.glyphs == GlyphsOf(s)
    ensures Batched(sorted, runs, r.batches)
  {
    var prims: seq<Leveled> := [];
    var k := 0;
    while k < |elements|
      invariant 0 <= k <= |elements| && prims == CollectAll(elements[..k])
    {
      assert elements[..k + 1][..k] == elements[..k];
      prims := CollectPrimElements(elements[k], LEVEL_ZERO, prims);
      k := k + 1;
    }
    assert elements[..k] == elements;
    ghost var collected := prims;
    prims := SortBy(prims, ByLevel());
    sorted := prims;
    ByLevelPreorder();
    SortBySorted(collected, ByLevel());
    SoundPermutation(collected, sorted);
    SoundKeys(sorted);
    r, runs := BatchPrims(prims);
  }

  /** `ElementWithComputed::get_batches`: the batches of one root element. */
  method GetBatchesOf(e: ElementWithComputed) returns (r: ElementBatches, ghost sorted: seq<Leveled>, ghost runs: seq<Range>)
    requires Consistent(e) && AddressesSound(Collect(e, LEVEL_ZERO))
    ensures sorted == SortBy(Collect(e, LEVEL_ZERO), ByLevel())
    ensures var s := SortBy(Collect(e, LEVEL_ZERO), ByLevel());
            r.rects == RectsOf(s) && r.texturedRects == TexturedOf(s) &&
            r.alphaSdfRects == AlphaSdfOf(s) && r.glyphs == GlyphsOf(s)
    ensures Batched(sorted, runs, r.batches)
  {
    assert [e][..0] == [];
    assert CollectAll([e]) == Collect(e, LEVEL_ZERO);
    r, sorted, runs := GetBatches([e]);
  }
}
