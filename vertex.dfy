/** Vertex buffer layouts (src/vertex.rs): per-attribute byte offsets and
    shader locations, and the builder that stacks vertex and instance
    buffers on consecutive locations. */
module Vertices {

  /** The `wgpu::VertexFormat`s the vertex types of this program use. */
  datatype VertexFormat = Float32 | Float32x2 | Float32x3 | Float32x4

  /** `VertexFormat::size`, in bytes. */
  function FormatSize(f: VertexFormat): nat
  {
    match f
    case Float32 => 4
    case Float32x2 => 8
    case Float32x3 => 12
    case Float32x4 => 16
  }

  datatype VertexAttribute = VertexAttribute(format: VertexFormat, offset: nat, shaderLocation: nat)

  datatype StepMode = Vertex | Instance

  /** The bytes taken by the formats `fs`, one after the other. */
  function TotalSize(fs: seq<VertexFormat>): nat
  {
    if fs == [] then 0 else TotalSize(fs[..|fs| - 1]) + FormatSize(fs[|fs| - 1])
  }

  /** The attributes laid out tightly: attribute `i` starts where the first
      `i` formats end and sits at shader location `start + i`. */
  predicate LaidOut(attrs: seq<VertexAttribute>, fs: seq<VertexFormat>, start: nat)
  {
    |attrs| == |fs| && LaidOutPrefix(attrs, fs, start)
  }

  /** The first `|attrs|` formats laid out that way. */
  predicate LaidOutPrefix(attrs: seq<VertexAttribute>, fs: seq<VertexFormat>, start: nat)
  {
    |attrs| <= |fs| &&
    forall i :: 0 <= i < |attrs| ==>
      attrs[i] == VertexAttribute(fs[i], TotalSize(fs[..i]), start + i)
  }

  /** `attributes`: walks `T::ATTRIBUTES`, pushing each format at the running
      offset and location, then advancing both. */
  method Attributes(fs: seq<VertexFormat>, shaderPositionOffset: nat) returns (attrs: seq<VertexAttribute>)
    ensures LaidOut(attrs, fs, shaderPositionOffset)
  {
    attrs := [];
    var offset := 0;
    var location := shaderPositionOffset;
    for i := 0 to |fs|
      invariant |attrs| == i && LaidOutPrefix(attrs, fs, shaderPositionOffset)
      invariant offset == TotalSize(fs[..i]) && location == shaderPositionOffset + i
    {
      assert fs[..i + 1][..i] == fs[..i];
      attrs := attrs + [VertexAttribute(fs[i], offset, location)];
      offset := offset + FormatSize(fs[i]);
      location := location + 1;
    }
  }

  /** Tightly laid-out attributes never overlap: each one ends where the
      next one starts, and the last ends at the total size. */
  lemma {:induction false} LaidOutContiguous(attrs: seq<VertexAttribute>, fs: seq<VertexFormat>, start: nat, i: nat)
    requires LaidOut(attrs, fs, start) && i < |fs|
    ensures i == 0 ==> attrs[i].offset == 0
    ensures i + 1 < |fs| ==> attrs[i + 1].offset == attrs[i].offset + FormatSize(fs[i])
    ensures i + 1 == |fs| ==> attrs[i].offset + FormatSize(fs[i]) == TotalSize(fs)
  {
    assert fs[..i + 1][..i] == fs[..i];
    if i + 1 == |fs| {
      assert fs[..i + 1] == fs;
    }
  }

  /** `VertexOrInstance`: one buffer's stride, step mode and attributes. */
  datatype VertexOrInstance = VertexOrInstance(arrayStride: nat, stepMode: StepMode, attributes: seq<VertexAttribute>)

  /** `VertexBufferLayout`, as `layout` hands it to the pipeline. */
  datatype VertexBufferLayout = VertexBufferLayout(arrayStride: nat, stepMode: StepMode, attributes: seq<VertexAttribute>)

  /** The number of shader locations the entries use. */
  function LocationCount(entries: seq<VertexOrInstance>): nat
  {
    if entries == [] then 0 else LocationCount(entries[..|entries| - 1]) + |entries[|entries| - 1].attributes|
  }

  /** Entry `k` occupies the locations right after those of entries
      0..k-1. */
  predicate Stacked(entries: seq<VertexOrInstance>)
  {
    forall k, a :: 0 <= k < |entries| && 0 <= a < |entries[k].attributes| ==>
      entries[k].attributes[a].shaderLocation == LocationCount(entries[..k]) + a
  }

  /** An entry whose locations start at the first free one keeps the
      entries stacked. */
  lemma StackedAppend(entries: seq<VertexOrInstance>, v: VertexOrInstance)
    requires Stacked(entries)
    requires forall a :: 0 <= a < |v.attributes| ==> v.attributes[a].shaderLocation == LocationCount(entries) + a
    ensures Stacked(entries + [v])
  {
    var e := entries + [v];
    forall k, a | 0 <= k < |e| && 0 <= a < |e[k].attributes|
      ensures e[k].attributes[a].shaderLocation == LocationCount(e[..k]) + a
    {
      assert e[..k] == entries[..k];
      if k == |entries| {
        assert entries[..k] == entries;
      }
    }
  }

  /** `VertsLayout`: the entries added so far and the next free location. */
  class VertsLayout {
    var shaderLocationOffset: nat
    var entries: seq<VertexOrInstance>

    /** The entries are stacked and the offset is the first location not
        yet taken. */
    ghost predicate Valid()
      reads this
    {
      shaderLocationOffset == LocationCount(entries) && Stacked(entries)
    }

    /** `VertsLayout::new`: no entries, first location 0. */
    constructor ()
      ensures Valid() && shaderLocationOffset == 0 && entries == []
    {
      shaderLocationOffset := 0;
      entries := [];
    }

    /** `add` (through `vertex` or `instance`): the new entry's attributes
        start at the current offset, which then moves past them. */
    method Add(arrayStride: nat, stepMode: StepMode, fs: seq<VertexFormat>)
      requires Valid()
      modifies this
      ensures Valid()
      ensures |entries| == |old(entries)| + 1 && entries[..|old(entries)|] == old(entries)
      ensures entries[|old(entries)|].arrayStride == arrayStride
      ensures entries[|old(entries)|].stepMode == stepMode
      ensures LaidOut(entries[|old(entries)|].attributes, fs, old(shaderLocationOffset))
      ensures shaderLocationOffset == old(shaderLocationOffset) + |fs|
    {
      var attrs := Attributes(fs, shaderLocationOffset);
      var v := VertexOrInstance(arrayStride, stepMode, attrs);
      StackedAppend(entries, v);
      assert (entries + [v])[..|entries|] == entries;
      shaderLocationOffset := shaderLocationOffset + |v.attributes|;
      entries := entries + [v];
    }

    /** `layout`: one buffer layout per entry, in the order they were added. */
    method Layout() returns (layouts: seq<VertexBufferLayout>)
      ensures |layouts| == |entries|
      ensures forall k :: 0 <= k < |entries| ==>
                layouts[k] == VertexBufferLayout(entries[k].arrayStride, entries[k].stepMode, entries[k].attributes)
    {
      layouts := [];
      for k := 0 to |entries|
        invariant |layouts| == k
        invariant forall j :: 0 <= j < k ==>
                    layouts[j] == VertexBufferLayout(entries[j].arrayStride, entries[j].stepMode, entries[j].attributes)
      {
        var v := entries[k];
        layouts := layouts + [VertexBufferLayout(v.arrayStride, v.stepMode, v.attributes)];
      }
    }
  }

  /** Two different attributes of a valid layout never share a shader
      location, whether they are in the same entry or in two entries. */
  lemma DistinctLocations(l: VertsLayout, k1: nat, a1: nat, k2: nat, a2: nat)
    requires l.Valid()
    requires k1 < |l.entries| && a1 < |l.entries[k1].attributes|
    requires k2 < |l.entries| && a2 < |l.entries[k2].attributes|
    requires (k1, a1) != (k2, a2)
    ensures l.entries[k1].attributes[a1].shaderLocation != l.entries[k2].attributes[a2].shaderLocation
  {
    assert Stacked(l.entries);
    if k1 < k2 {
      LocationCountPrefix(l.entries, k1 + 1, k2);
      assert l.entries[..k1 + 1][..k1] == l.entries[..k1];
    } else if k2 < k1 {
      LocationCountPrefix(l.entries, k2 + 1, k1);
      assert l.entries[..k2 + 1][..k2] == l.entries[..k2];
    }
  }

  /** Longer prefixes use at least as many locations. */
  lemma {:induction false} LocationCountPrefix(entries: seq<VertexOrInstance>, i: nat, j: nat)
    requires i <= j <= |entries|
    ensures LocationCount(entries[..i]) <= LocationCount(entries[..j])
  {
    if i < j {
      LocationCountPrefix(entries, i, j - 1);
      assert entries[..j][..j - 1] == entries[..j - 1];
    }
  }
}
