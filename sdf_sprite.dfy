/** `batch_sprites` of src/renderer/sdf_sprite.rs: sprites are sorted back
    to front by their squared distance to the camera, turned into one
    instance each, and grouped into batches of consecutive sprites sharing
    a texture.  A texture is identified by the address of its `Rc`, kept
    here as an opaque 64-bit value. */
module SdfSprites {
  import opened Common
  import opened Colors
  import opened Rects
  import opened Sorting
  import Transforms

  /** `AlphaSdfParams`: border color and the four cut-off parameters. */
  datatype AlphaSdfParams = AlphaSdfParams(borderColor: Color, inToBorderCutoff: real,
                                           inToBorderSmooth: real, borderToOutCutoff: real,
                                           borderToOutSmooth: real)

  const DEFAULT_SDF_PARAMS: AlphaSdfParams := AlphaSdfParams(BLACK, 0.5, 0.001, 0.45, 0.1)

  /** A sprite; only the position of its transform enters the sort. */
  datatype SdfSprite = SdfSprite(texture: bv64, transform: Transforms.Transform, offset: Vec2, size: Vec2,
                                 uv: Aabb, color: Color, sdfParams: AlphaSdfParams)

  /** The instance uploaded per sprite: the transform as its affine matrix. */
  datatype SpriteRaw = SpriteRaw(transform: Transforms.TransformRaw, offset: Vec2, size: Vec2, uv: Aabb,
                                 color: Color, sdfParams: AlphaSdfParams)

  datatype SpriteBatch = SpriteBatch(range: Range, texture: bv64)

  /** `SdfSprite::batch_key` and `SpriteBatch::batch_key`: the texture address. */
  function SpriteKey(s: SdfSprite): bv64 { s.texture }

  function BatchKey(b: SpriteBatch): bv64 { b.texture }

  /** `to_raw`: the transform becomes its raw affine matrix, which moves the
      origin to the sprite's position; every other field except the texture
      is copied. */
  function ToRaw(s: SdfSprite): (r: SpriteRaw)
    ensures r.transform == Transforms.ToRaw(s.transform)
    ensures Transforms.Apply(r.transform.affine, ZERO3) == s.transform.position
    ensures r.offset == s.offset && r.size == s.size
    ensures r.uv == s.uv && r.color == s.color && r.sdfParams == s.sdfParams
  {
    Transforms.ToRawMapsAxes(s.transform);
    SpriteRaw(Transforms.ToRaw(s.transform), s.offset, s.size, s.uv, s.color, s.sdfParams)
  }

  function DistanceSquared(a: Vec3, b: Vec3): real
  {
    (a.x - b.x) * (a.x - b.x) + (a.y - b.y) * (a.y - b.y) + (a.z - b.z) * (a.z - b.z)
  }

  /** The comparator of the sort: `a` may come before `b` when `b` is not
      farther from the camera than `a`. */
  function BackToFront(camera: Vec3): (SdfSprite, SdfSprite) -> bool
  {
    (a: SdfSprite, b: SdfSprite) =>
      DistanceSquared(b.transform.position, camera) <= DistanceSquared(a.transform.position, camera)
  }

  lemma BackToFrontPreorder(camera: Vec3)
    ensures TotalPreorder(BackToFront(camera))
  {
  }

  /** The sorted sprites are a permutation of the input whose distances to
      the camera never increase. */
  lemma SortedBackToFront(s: seq<SdfSprite>, camera: Vec3)
    ensures multiset(SortBy(s, BackToFront(camera))) == multiset(s)
    ensures |SortBy(s, BackToFront(camera))| == |s|
    ensures var r := SortBy(s, BackToFront(camera));
            forall i, j :: 0 <= i < j < |r| ==>
              DistanceSquared(r[j].transform.position, camera) <= DistanceSquared(r[i].transform.position, camera)
  {
    BackToFrontPreorder(camera);
    SortBySorted(s, BackToFront(camera));
    SortByLength(s, BackToFront(camera));
  }

  /** The batches tile `[0, |s|)` with non-empty, consecutive ranges, two
      neighbouring batches have different textures, and every sprite has
      the texture of its batch. */
  predicate Tiles(bs: seq<SpriteBatch>, s: seq<SdfSprite>)
  {
    |bs| > 0 && bs[0].range.start == 0 && bs[|bs| - 1].range.end == |s| &&
    (forall k :: 0 <= k < |bs| ==> bs[k].range.start < bs[k].range.end <= |s|) &&
    (forall k :: 0 <= k < |bs| - 1 ==>
      bs[k].range.end == bs[k + 1].range.start && BatchKey(bs[k]) != BatchKey(bs[k + 1])) &&
    (forall k, i :: 0 <= k < |bs| && bs[k].range.start <= i < bs[k].range.end ==>
      SpriteKey(s[i]) == BatchKey(bs[k]))
  }

  /** Every sprite lies in exactly one batch. */
  lemma {:induction false} TilesPartition(bs: seq<SpriteBatch>, s: seq<SdfSprite>, i: nat)
    requires Tiles(bs, s) && i < |s|
    ensures exists k :: 0 <= k < |bs| && bs[k].range.Contains(i)
    ensures forall k, l :: 0 <= k < |bs| && 0 <= l < |bs| && bs[k].range.Contains(i) && bs[l].range.Contains(i) ==> k == l
  {
    TilesOrdered(bs, s);
    var k := 0;
    while bs[k].range.end <= i
      invariant 0 <= k < |bs| && bs[k].range.start <= i
      decreases |bs| - k
    {
      k := k + 1;
    }
    assert bs[k].range.Contains(i);
  }

  /** A batch ends no later than any later batch starts. */
  lemma {:induction false} TilesOrdered(bs: seq<SpriteBatch>, s: seq<SdfSprite>)
    requires Tiles(bs, s)
    ensures forall k, l :: 0 <= k < l < |bs| ==> bs[k].range.end <= bs[l].range.start
  {
    forall k, l | 0 <= k < l < |bs|
      ensures bs[k].range.end <= bs[l].range.start
    {
      var m := k + 1;
      while m < l
        invariant k < m <= l && bs[k].range.end <= bs[m].range.start
      {
        m := m + 1;
      }
    }
  }

  /** Adding a sprite with the texture of the last batch extends that batch. */
  lemma ExtendTiles(bs: seq<SpriteBatch>, s: seq<SdfSprite>, x: SdfSprite)
    requires Tiles(bs, s) && SpriteKey(x) == BatchKey(bs[|bs| - 1])
    ensures var last := bs[|bs| - 1];
            Tiles(bs[..|bs| - 1] + [last.(range := last.range.(end := last.range.end + 1))], s + [x])
  {
    var last := bs[|bs| - 1];
    var bs' := bs[..|bs| - 1] + [last.(range := last.range.(end := last.range.end + 1))];
    forall k, i | 0 <= k < |bs'| && bs'[k].range.start <= i < bs'[k].range.end
      ensures SpriteKey((s + [x])[i]) == BatchKey(bs'[k])
    {
      if i < |s| {
        assert bs'[k].range.start == bs[k].range.start;
        if k < |bs| - 1 {
          assert bs'[k] == bs[k];
        }
      }
    }
  }

  /** Adding a sprite with another texture opens a batch of its own. */
  lemma OpenTiles(bs: seq<SpriteBatch>, s: seq<SdfSprite>, x: SdfSprite)
    requires Tiles(bs, s) && SpriteKey(x) != BatchKey(bs[|bs| - 1])
    ensures Tiles(bs + [SpriteBatch(Range(|s|, |s| + 1), x.texture)], s + [x])
  {
    var bs' := bs + [SpriteBatch(Range(|s|, |s| + 1), x.texture)];
    forall k, i | 0 <= k < |bs'| && bs'[k].range.start <= i < bs'[k].range.end
      ensures SpriteKey((s + [x])[i]) == BatchKey(bs'[k])
    {
      if k < |bs| {
        assert bs'[k] == bs[k];
      }
    }
  }

  /** `batch_sprites`: sorts `sprites` in place back to front, returns one
      instance per sprite in that order and the batches over it. */
  method BatchSprites(sprites: array<SdfSprite>, camera: Vec3) returns (instances: seq<SpriteRaw>, batches: seq<SpriteBatch>)
    modifies sprites
    ensures sprites.Length == 0 ==> instances == [] && batches == []
    ensures sprites[..] == if sprites.Length == 0 then old(sprites[..]) else SortBy(old(sprites[..]), BackToFront(camera))
    ensures |instances| == sprites.Length
    ensures forall i :: 0 <= i < sprites.Length ==> instances[i] == ToRaw(sprites[i])
    ensures sprites.Length > 0 ==> Tiles(batches, sprites[..])
  {
    if sprites.Length == 0 {
      return [], [];
    }
    var sorted := SortBy(sprites[..], BackToFront(camera));
    SortByLength(sprites[..], BackToFront(camera));
    forall i | 0 <= i < sprites.Length {
      sprites[i] := sorted[i];
    }
    assert sprites[..] == sorted;
    instances, batches := BatchSorted(sorted);
  }

  /** One step of the loop keeps the batches a tiling of the sprites seen. */
  lemma StepTiles(batches: seq<SpriteBatch>, current: SpriteBatch, seen: seq<SdfSprite>, s: SdfSprite, first: bv64)
    requires |seen| == 0 ==> current == SpriteBatch(Range(0, 0), first) && batches == [] && SpriteKey(s) == first
    requires |seen| > 0 ==> current.range.end == |seen| && Tiles(batches + [current], seen)
    ensures SpriteKey(s) != BatchKey(current) ==>
      Tiles(batches + [current] + [SpriteBatch(Range(current.range.end, current.range.end + 1), s.texture)], seen + [s])
    ensures SpriteKey(s) == BatchKey(current) ==>
      Tiles(batches + [current.(range := current.range.(end := current.range.end + 1))], seen + [s])
  {
    if SpriteKey(s) != BatchKey(current) {
      OpenTiles(batches + [current], seen, s);
    } else if |seen| > 0 {
      ExtendTiles(batches + [current], seen, s);
      assert (batches + [current])[..|batches|] == batches;
    } else {
      assert seen + [s] == [s];
    }
  }

  /** The loop of `batch_sprites` over the sorted sprites. */
  method BatchSorted(sorted: seq<SdfSprite>) returns (instances: seq<SpriteRaw>, batches: seq<SpriteBatch>)
    requires |sorted| > 0
    ensures |instances| == |sorted|
    ensures forall i :: 0 <= i < |sorted| ==> instances[i] == ToRaw(sorted[i])
    ensures Tiles(batches, sorted)
  {
    instances := [];
    batches := [];
    var current := SpriteBatch(Range(0, 0), sorted[0].texture);
    var i := 0;
    while i < |sorted|
      invariant 0 <= i <= |sorted|
      invariant |instances| == i && forall j :: 0 <= j < i ==> instances[j] == ToRaw(sorted[j])
      invariant i == 0 ==> current == SpriteBatch(Range(0, 0), sorted[0].texture) && batches == []
      invariant i > 0 ==> current.range.end == i && Tiles(batches + [current], sorted[..i])
    {
      var s := sorted[i];
      StepTiles(batches, current, sorted[..i], s, sorted[0].texture);
      assert sorted[..i + 1] == sorted[..i] + [s];
      instances := instances + [ToRaw(s)];
      if SpriteKey(s) != BatchKey(current) {
        var next := SpriteBatch(Range(current.range.end, current.range.end + 1), s.texture);
        batches := batches + [current];
        current := next;
      } else {
        current := current.(range := current.range.(end := current.range.end + 1));
      }
      i := i + 1;
    }
    batches := batches + [current];
    assert sorted[..i] == sorted;
  }
}
