/**
 * The JSON converters for render flags and render layers
 * (levk/engine/src/assets/asset_converters.cpp). A JSON value is reduced to
 * what the converters look at: an array of strings, or anything else.
 */
module AssetConverters {
  import opened Wrappers

  /** `PipelineFlag` (levk/graphics/include/levk/graphics/render/pipeline_flags.hpp:6). */
  datatype RenderFlag = DepthTest | DepthWrite | AlphaBlend | Wireframe

  type RenderFlags = set<RenderFlag>

  /** `pflags_all`: every flag except wireframe (pipeline_flags.hpp:12). */
  const All: RenderFlags := {DepthTest, DepthWrite, AlphaBlend}

  /** The JSON shapes the flag converter distinguishes. */
  datatype Json = Array(items: seq<string>) | NotArray

  /** The name each flag is written under. */
  function Name(f: RenderFlag): string {
    match f
    case DepthTest => "depth_test"
    case DepthWrite => "depth_write"
    case AlphaBlend => "alpha_blend"
    case Wireframe => "wireframe"
  }

  /** The flag a string names, if any; "all" names none of them. */
  function Named(s: string): (r: Option<RenderFlag>)
    ensures r.Some? ==> Name(r.value) == s
    ensures forall f: RenderFlag :: Name(f) == s ==> r == Some(f)
  {
    if s == "depth_test" then Some(DepthTest)
    else if s == "depth_write" then Some(DepthWrite)
    else if s == "alpha_blend" then Some(AlphaBlend)
    else if s == "wireframe" then Some(Wireframe)
    else None
  }

  /** The names of `flags` in declaration order, each once. */
  function Names(flags: RenderFlags): (r: seq<string>)
    ensures forall i :: 0 <= i < |r| ==> Named(r[i]).Some? && Named(r[i]).value in flags
    ensures forall f :: f in flags ==> Name(f) in r
  {
    (if DepthTest in flags then [Name(DepthTest)] else [])
    + (if DepthWrite in flags then [Name(DepthWrite)] else [])
    + (if AlphaBlend in flags then [Name(AlphaBlend)] else [])
    + (if Wireframe in flags then [Name(Wireframe)] else [])
  }

  /** Flags to JSON: `["all"]` for exactly `pflags_all`, otherwise one name per set flag. */
  function Serialise(flags: RenderFlags): (r: Json)
    ensures r.Array?
    ensures flags == All <==> r.items == ["all"]
    ensures flags != All ==> r.items == Names(flags)
  {
    if flags == All then Array(["all"])
    else
      assert "all" !in Names(flags);
      Array(Names(flags))
  }

  /**
   * Parsing the elements of an array: the first "all" gives `pflags_all` at
   * once; known names add their flag; anything else is skipped.
   */
  function ParseItems(items: seq<string>, acc: RenderFlags): (r: RenderFlags)
    decreases |items|
  {
    if items == [] then acc
    else if items[0] == "all" then All
    else
      match Named(items[0])
      case Some(f) => ParseItems(items[1..], acc + {f})
      case None => ParseItems(items[1..], acc)
  }

  /** JSON to flags: nothing set unless the value is an array. */
  function Parse(json: Json): (r: RenderFlags)
    ensures json.NotArray? ==> r == {}
  {
    match json
    case Array(items) => ParseItems(items, {})
    case NotArray => {}
  }

  /** The flags named by the strings of `items`. */
  function NamedIn(items: seq<string>): RenderFlags {
    set f: RenderFlag | Name(f) in items
  }

  lemma {:induction false} ParseItemsReference(items: seq<string>, acc: RenderFlags)
    ensures ParseItems(items, acc) == if "all" in items then All else acc + NamedIn(items)
    decreases |items|
  {
    if items != [] && items[0] != "all" {
      var rest := items[1..];
      ParseItemsReference(rest, if Named(items[0]).Some? then acc + {Named(items[0]).value} else acc);
      assert forall x :: x in items <==> x == items[0] || x in rest;
    }
  }

  /**
   * An independent description of parsing: an array holding "all" anywhere
   * gives `pflags_all` (later elements are ignored, earlier ones overridden);
   * otherwise exactly the flags some element names.
   */
  lemma ParseReference(items: seq<string>)
    ensures "all" in items ==> Parse(Array(items)) == All
    ensures "all" !in items ==> forall f :: f in Parse(Array(items)) <==> Name(f) in items
  {
    ParseItemsReference(items, {});
  }

  /** Every set of the four flags survives serialising and parsing back. */
  lemma RoundTrip(flags: RenderFlags)
    ensures Parse(Serialise(flags)) == flags
  {
    if flags != All {
      var items := Names(flags);
      ParseReference(items);
      assert "all" !in items;
      forall f | Name(f) in items ensures f in flags {
        var i :| 0 <= i < |items| && items[i] == Name(f);
      }
    }
  }

  /** So serialisation loses nothing: distinct flag sets give distinct JSON. */
  lemma SerialiseInjective(a: RenderFlags, b: RenderFlags)
    requires Serialise(a) == Serialise(b)
    ensures a == b
  {
    RoundTrip(a);
    RoundTrip(b);
  }

  // ---------------------------------------------------------------- render layer

  /**
   * A render layer: polygon mode and topology as ids into their name tables,
   * flags, and draw order.
   */
  datatype RenderLayer = RenderLayer(mode: nat, topology: nat, flags: RenderFlags, order: int)

  /**
   * The members of a layer object as the parser reads them: `get_as` gives ""
   * for a missing string and 0 for a missing number.
   */
  datatype LayerJson = LayerJson(mode: string, topology: string, flags: Json, order: int)

  /**
   * The name tables (not part of this model): `modeName`/`modeOf` and
   * `topologyName`/`topologyOf` map ids to names and back.
   */
  datatype Tables = Tables(
    modeName: nat -> string, modeOf: string -> nat,
    topologyName: nat -> string, topologyOf: string -> nat)

  /** Tables whose lookups invert each other and never name anything "". */
  ghost predicate Consistent(t: Tables) {
    (forall m :: t.modeName(m) != "" && t.modeOf(t.modeName(m)) == m)
    && (forall m :: t.topologyName(m) != "" && t.topologyOf(t.topologyName(m)) == m)
  }

  function SerialiseLayer(layer: RenderLayer, t: Tables): (r: LayerJson)
    ensures r.flags == Serialise(layer.flags) && r.order == layer.order
  {
    LayerJson(t.modeName(layer.mode), t.topologyName(layer.topology), Serialise(layer.flags), layer.order)
  }

  /**
   * Parsing a layer: mode and topology are looked up only when their strings
   * are non-empty, otherwise `defaults` keeps them; flags and order are
   * always read.
   */
  function ParseLayer(json: LayerJson, t: Tables, defaults: RenderLayer): (r: RenderLayer)
    ensures json.mode == "" ==> r.mode == defaults.mode
    ensures json.mode != "" ==> r.mode == t.modeOf(json.mode)
    ensures json.topology == "" ==> r.topology == defaults.topology
    ensures json.topology != "" ==> r.topology == t.topologyOf(json.topology)
    ensures r.flags == Parse(json.flags) && r.order == json.order
  {
    RenderLayer(
      if json.mode != "" then t.modeOf(json.mode) else defaults.mode,
      if json.topology != "" then t.topologyOf(json.topology) else defaults.topology,
      Parse(json.flags),
      json.order)
  }

  /** A layer survives serialising and parsing back when the name tables are consistent. */
  lemma LayerRoundTrip(layer: RenderLayer, t: Tables, defaults: RenderLayer)
    requires Consistent(t)
    ensures ParseLayer(SerialiseLayer(layer, t), t, defaults) == layer
  {
    RoundTrip(layer.flags);
  }
}
