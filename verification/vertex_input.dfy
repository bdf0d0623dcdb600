/**
 * Vertex input descriptions of the newer render context
 * (levk/graphics/src/render/context.cpp): the full `vertexInput` that lays
 * out several vertex types, the quick one for a single interleaved vertex,
 * and the description of the default `Vertex`. Formats are opaque codes.
 */
module VertexInput {
  /** A `u32`. */
  type U32 = x: nat | x < 0x1_0000_0000

  /** The `u32(...)` cast: wraps modulo 2^32. */
  function Wrap(x: nat): (r: U32)
    ensures x < 0x1_0000_0000 ==> r == x
  {
    x % 0x1_0000_0000
  }

  datatype InputRate = PerVertex | PerInstance

  /** A `vk::Format`, by code. */
  type Format = nat

  /** One member of a vertex type: its format and byte offset. */
  datatype Member = Member(format: Format, offset: nat)

  /** One vertex type of a `VertexInputCreateInfo`: its size, input rate and members. */
  datatype VertexType = VertexType(size: nat, inputRate: InputRate, members: seq<Member>)

  /** `VertexInputCreateInfo`. */
  datatype CreateInfo = CreateInfo(types: seq<VertexType>, bindStart: U32, locationStart: U32)

  /** `vk::VertexInputBindingDescription`. */
  datatype Binding = Binding(binding: U32, stride: U32, inputRate: InputRate)

  /** `vk::VertexInputAttributeDescription`. */
  datatype Attribute = Attribute(binding: U32, format: Format, offset: U32, location: U32)

  /** `VertexInputInfo`. */
  datatype Info = Info(bindings: seq<Binding>, attributes: seq<Attribute>)

  /** The attributes of one type bound at `binding`, with locations from `location` on. */
  function TypeAttributes(t: VertexType, binding: nat, location: nat): (r: seq<Attribute>)
    ensures |r| == |t.members|
    ensures forall j :: 0 <= j < |t.members| ==>
              r[j] == Attribute(Wrap(binding), t.members[j].format, Wrap(t.members[j].offset), Wrap(location + j))
  {
    seq(|t.members|, j requires 0 <= j < |t.members| =>
      Attribute(Wrap(binding), t.members[j].format, Wrap(t.members[j].offset), Wrap(location + j)))
  }

  /** How many members the first `i` types have: the first location delta of type `i`. */
  function Start(types: seq<VertexType>, i: nat): nat
    requires i <= |types|
  {
    if i == 0 then 0 else Start(types, i - 1) + |types[i - 1].members|
  }

  /**
   * The loop of `vertexInput(VertexInputCreateInfo)` from binding delta
   * `bind` and location delta `loc` on: a binding per type, then its
   * members' attributes.
   */
  function Layout(types: seq<VertexType>, bind: nat, loc: nat): (r: Info)
    ensures |r.bindings| == |types|
    decreases |types|
  {
    if types == [] then Info([], [])
    else
      var rest := Layout(types[1..], bind + 1, loc + |types[0].members|);
      Info([Binding(Wrap(bind), Wrap(types[0].size), types[0].inputRate)] + rest.bindings,
           TypeAttributes(types[0], bind, loc) + rest.attributes)
  }

  /** `vertexInput(VertexInputCreateInfo)`. */
  function Full(info: CreateInfo): (r: Info)
    ensures |r.bindings| == |info.types|
  {
    Layout(info.types, info.bindStart, info.locationStart)
  }

  lemma {:induction false} StartShift(types: seq<VertexType>, i: nat)
    requires 0 < |types| && i <= |types| - 1
    ensures Start(types, i + 1) == |types[0].members| + Start(types[1..], i)
    decreases i
  {
    if i > 0 {
      StartShift(types, i - 1);
      assert types[1..][i - 1] == types[i];
    }
  }

  /** The full form has one attribute per member of every type. */
  lemma {:induction false} LayoutCount(types: seq<VertexType>, bind: nat, loc: nat)
    ensures |Layout(types, bind, loc).attributes| == Start(types, |types|)
    decreases |types|
  {
    if types != [] {
      LayoutCount(types[1..], bind + 1, loc + |types[0].members|);
      StartShift(types, |types| - 1);
    }
  }

  /** Type `i` of the full form gets binding `bind + i`, its own stride and its own rate. */
  lemma {:induction false} LayoutBinding(types: seq<VertexType>, bind: nat, loc: nat, i: nat)
    requires i < |types|
    ensures Layout(types, bind, loc).bindings[i] == Binding(Wrap(bind + i), Wrap(types[i].size), types[i].inputRate)
    decreases i
  {
    if i > 0 {
      LayoutBinding(types[1..], bind + 1, loc + |types[0].members|, i - 1);
      assert types[1..][i - 1] == types[i];
    }
  }

  /**
   * Member `j` of type `i` of the full form is attribute `Start(i) + j`: it
   * carries the binding of its type and location `loc + Start(i) + j`, so
   * locations run on without gaps across types.
   */
  lemma {:induction false} LayoutAttribute(types: seq<VertexType>, bind: nat, loc: nat, i: nat, j: nat)
    requires i < |types| && j < |types[i].members|
    ensures Start(types, i) + j < |Layout(types, bind, loc).attributes|
    ensures Layout(types, bind, loc).attributes[Start(types, i) + j] ==
              Attribute(Wrap(bind + i), types[i].members[j].format, Wrap(types[i].members[j].offset), Wrap(loc + Start(types, i) + j))
    decreases i
  {
    if i == 0 {
      AttributeInHead(types, bind, loc, j);
    } else {
      var tail := types[1..];
      var n := |types[0].members|;
      LayoutAttribute(tail, bind + 1, loc + n, i - 1, j);
      StartShift(types, i - 1);
      assert tail[i - 1] == types[i];
      var k := Start(tail, i - 1) + j;
      AttributeInTail(types, bind, loc, k);
      assert (bind + 1) + (i - 1) == bind + i;
      assert (loc + n) + k == loc + Start(types, i) + j;
    }
  }

  /** The first type's attributes open the full form. */
  lemma AttributeInHead(types: seq<VertexType>, bind: nat, loc: nat, j: nat)
    requires 0 < |types| && j < |types[0].members|
    ensures j < |Layout(types, bind, loc).attributes|
    ensures Layout(types, bind, loc).attributes[j] == TypeAttributes(types[0], bind, loc)[j]
  {
  }

  /** After the first type's attributes come those of the rest, shifted by its member count. */
  lemma AttributeInTail(types: seq<VertexType>, bind: nat, loc: nat, k: nat)
    requires 0 < |types| && k < |Layout(types[1..], bind + 1, loc + |types[0].members|).attributes|
    ensures |types[0].members| + k < |Layout(types, bind, loc).attributes|
    ensures Layout(types, bind, loc).attributes[|types[0].members| + k] ==
              Layout(types[1..], bind + 1, loc + |types[0].members|).attributes[k]
  {
  }

  /** Member `j` of type `i` is described by the attribute at `Start(i) + j`, with its type's binding. */
  predicate AttributeAt(info: CreateInfo, i: nat, j: nat)
    requires i < |info.types| && j < |info.types[i].members|
  {
    var r := Full(info);
    var m := info.types[i].members[j];
    Start(info.types, i) + j < |r.attributes| &&
    r.attributes[Start(info.types, i) + j] ==
      Attribute(Wrap(info.bindStart + i), m.format, Wrap(m.offset), Wrap(info.locationStart + Start(info.types, i) + j))
  }

  /** Every type of the full form gets its own binding. */
  lemma AllBindings(info: CreateInfo)
    ensures forall i :: 0 <= i < |info.types| ==>
              Full(info).bindings[i] == Binding(Wrap(info.bindStart + i), Wrap(info.types[i].size), info.types[i].inputRate)
  {
    forall i | 0 <= i < |info.types|
      ensures Full(info).bindings[i] == Binding(Wrap(info.bindStart + i), Wrap(info.types[i].size), info.types[i].inputRate)
    {
      LayoutBinding(info.types, info.bindStart, info.locationStart, i);
    }
  }

  /** Every member of every type of the full form gets its own attribute. */
  lemma AllAttributes(info: CreateInfo)
    ensures forall i: nat, j: nat :: i < |info.types| && j < |info.types[i].members| ==> AttributeAt(info, i, j)
  {
    forall i: nat, j: nat | i < |info.types| && j < |info.types[i].members|
      ensures AttributeAt(info, i, j)
    {
      LayoutAttribute(info.types, info.bindStart, info.locationStart, i, j);
    }
  }

  /** The full form, for all types and members at once. */
  lemma LayoutSpec(info: CreateInfo)
    ensures |Full(info).attributes| == Start(info.types, |info.types|)
    ensures forall i :: 0 <= i < |info.types| ==>
              Full(info).bindings[i] == Binding(Wrap(info.bindStart + i), Wrap(info.types[i].size), info.types[i].inputRate)
    ensures forall i: nat, j: nat :: i < |info.types| && j < |info.types[i].members| ==> AttributeAt(info, i, j)
  {
    LayoutCount(info.types, info.bindStart, info.locationStart);
    AllBindings(info);
    AllAttributes(info);
  }

  /** `QuickVertexInput`: one interleaved vertex type at `binding`, attributes as (format, offset). */
  datatype QuickInfo = QuickInfo(binding: U32, size: nat, attributes: seq<Member>)

  /** `vertexInput(QuickVertexInput)`. */
  function Quick(info: QuickInfo): (r: Info)
    ensures r.bindings == [Binding(info.binding, Wrap(info.size), PerVertex)]
    ensures |r.attributes| == |info.attributes|
    ensures forall k :: 0 <= k < |info.attributes| ==>
              r.attributes[k] == Attribute(info.binding, info.attributes[k].format, Wrap(info.attributes[k].offset), Wrap(k))
  {
    var t := VertexType(info.size, PerVertex, info.attributes);
    Info([Binding(info.binding, Wrap(info.size), PerVertex)], TypeAttributes(t, info.binding, 0))
  }

  /** The quick form is the full form for a single per-vertex type, bound at its binding with locations from 0. */
  lemma QuickIsFull(info: QuickInfo)
    ensures Quick(info) == Full(CreateInfo([VertexType(info.size, PerVertex, info.attributes)], info.binding, 0))
  {
    var types := [VertexType(info.size, PerVertex, info.attributes)];
    var full := Full(CreateInfo(types, info.binding, 0));
    assert Layout(types[1..], info.binding + 1, |info.attributes|) == Info([], []);
    assert full.attributes == TypeAttributes(types[0], info.binding, 0);
  }

  /** The formats of the default `Vertex`: position, colour, normal and texture coordinate. */
  datatype VertexFormat = R32G32B32Sfloat | R32G32B32A32Sfloat | R32G32Sfloat

  /** Opaque codes for the three formats. */
  function FormatCode(f: VertexFormat): Format {
    match f
    case R32G32B32Sfloat => 106
    case R32G32B32A32Sfloat => 109
    case R32G32Sfloat => 103
  }

  /**
   * The layout of `Vertex`: its size and the offsets of its four fields
   * (the header that declares it is not part of this model).
   */
  datatype VertexLayout = VertexLayout(size: nat, position: nat, colour: nat, normal: nat, texCoord: nat)

  /** `VertexInfoFactory<Vertex>{}(binding)`: the quick form with the four fields of `Vertex`, in order. */
  function DefaultVertex(layout: VertexLayout, binding: U32): (r: Info)
    ensures |r.bindings| == 1 && r.bindings[0].binding == binding && r.bindings[0].inputRate == PerVertex
    ensures |r.attributes| == 4
    ensures forall k :: 0 <= k < 4 ==> r.attributes[k].location == k && r.attributes[k].binding == binding
    ensures r.attributes[0].format == r.attributes[2].format == FormatCode(R32G32B32Sfloat)
    ensures r.attributes[1].format == FormatCode(R32G32B32A32Sfloat) && r.attributes[3].format == FormatCode(R32G32Sfloat)
  {
    Quick(QuickInfo(binding, layout.size,
      [Member(FormatCode(R32G32B32Sfloat), layout.position), Member(FormatCode(R32G32B32A32Sfloat), layout.colour),
       Member(FormatCode(R32G32B32Sfloat), layout.normal), Member(FormatCode(R32G32Sfloat), layout.texCoord)]))
  }
}
