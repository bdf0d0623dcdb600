/**
 * Shader loading of the older engine (libs/engine/src/gfx/draw/shader.cpp):
 * the extension dispatch of the constructor, the module slots filled by
 * `loadAllSpirV`, the slot accessors, and the guards of
 * `ShaderCompiler::compile`. What the filesystem, the file reader and the
 * `glslc` process report is an `Env` parameter; a shader module is reduced
 * to the bytes it was created from. Hot reload (`update`, behind
 * `LEVK_SHADER_HOT_RELOAD`) is not part of this model.
 */
module Shader {
  import opened Wrappers
  import Strings

  type Bytes = seq<Strings.Byte>

  datatype ShaderType = VertexShader | FragmentShader

  /** `ShaderType::eCOUNT_`. */
  const TypeCount: nat := 2

  /** The slot of a shader type in `m_shaders`. */
  function Slot(t: ShaderType): (i: nat)
    ensures i < TypeCount
  {
    match t
    case VertexShader => 0
    case FragmentShader => 1
  }

  /** A `vk::ShaderModule`, by the code it was created from. */
  datatype Module = Module(code: Bytes)

  /** `m_shaders`: one slot per shader type; `None` is a null module. */
  type Slots = s: seq<Option<Module>> | |s| == TypeCount witness [None, None]

  // ---------------------------------------------------------------- extension

  /** `extension(id)`: the suffix from the last '.' on, or empty when there is none. */
  function Extension(id: string): (r: string)
    ensures r == [] <==> '.' !in id
    ensures r != [] ==> r[0] == '.' && '.' !in r[1..] && Strings.IsSuffix(r, id)
  {
    match Strings.FindLast(id, '.')
    case None => []
    case Some(i) => id[i..]
  }

  /** The extension starts at the only '.' with none after it. */
  lemma ExtensionAt(id: string, i: nat)
    requires i < |id| && id[i] == '.' && '.' !in id[i + 1..]
    ensures Extension(id) == id[i..]
  {
  }

  lemma ExtensionExamples()
    ensures Extension("a.vert") == ".vert"
    ensures Extension("a.frag.spv") == ".spv"
    ensures Extension("a") == ""
  {
    ExtensionAt("a.vert", 1);
    ExtensionAt("a.frag.spv", 6);
    assert "a"[0] != '.';
  }

  // ---------------------------------------------------------------- compiler

  /**
   * The world `ShaderCompiler` and the reader see: whether `glslc --version`
   * succeeded (the compiler is online), whether the reader is a
   * `FileReader`, the readable text and byte files, the regular files on
   * disk, and the sources `glslc` compiles without error. A reader's full
   * path of an id is the id itself.
   */
  datatype Env = Env(online: bool, fileReader: bool, texts: map<string, string>, files: map<string, Bytes>,
                     regular: set<string>, glslcOk: set<string>)

  /** `ShaderCompiler::s_extension`. */
  const SpvExtension: string := ".spv"

  /** `statusCheck()`: the compiler is online. */
  predicate StatusCheck(env: Env) {
    env.online
  }

  /**
   * `compile(src, dst, overwrite)`: fails when offline, when the source is
   * not a regular file, when the destination exists and may not be
   * overwritten, and when `glslc` reports an error.
   */
  function Compile(env: Env, src: string, dst: string, overwrite: bool): (ok: bool)
    ensures ok ==> StatusCheck(env) && src in env.regular && src in env.glslcOk
    ensures dst in env.regular && !overwrite ==> !ok
    ensures StatusCheck(env) && src in env.regular && (dst !in env.regular || overwrite) ==> (ok <==> src in env.glslcOk)
  {
    if !StatusCheck(env) then false
    else if src !in env.regular then false
    else if dst in env.regular && !overwrite then false
    else src in env.glslcOk
  }

  /** `compile(src, overwrite)`: compiles to `src` with ".spv" appended. */
  function CompileTo(env: Env, src: string, overwrite: bool): (ok: bool)
    ensures ok ==> StatusCheck(env) && src in env.regular && src in env.glslcOk
    ensures src + SpvExtension in env.regular && !overwrite ==> !ok
  {
    Compile(env, src, src + SpvExtension, overwrite)
  }

  /** Overwriting makes the destination irrelevant: only status, source and `glslc` decide. */
  lemma CompileOverwrite(env: Env, src: string, dst: string, dst': string)
    ensures Compile(env, src, dst, true) == Compile(env, src, dst', true)
    ensures Compile(env, src, dst, true) <==> StatusCheck(env) && src in env.regular && src in env.glslcOk
  {
  }

  /** Without overwrite, compiling to a fresh destination fails exactly when it would with overwrite. */
  lemma CompileFreshDestination(env: Env, src: string, dst: string)
    requires dst !in env.regular
    ensures Compile(env, src, dst, false) == Compile(env, src, dst, true)
  {
  }

  // ---------------------------------------------------------------- dispatch

  /**
   * What the constructor makes of one code id: SPIR-V bytes, an entry
   * left empty, nothing, or a failed `ASSERT`.
   */
  datatype Load = Loaded(code: Bytes) | Emptied | Skipped | Abort(why: string)

  /** The extensions compiled as GLSL. */
  predicate IsGlsl(ext: string) {
    ext == ".vert" || ext == ".frag"
  }

  /**
   * `glslToSpirV(id, out_bytes, reader)` once `loadGlsl` has handed it the
   * entry `codeMap[type]`: the compiled bytes, or `Emptied` when compiling or
   * reading the ".spv" back fails, since `operator[]` has already created
   * the entry and nothing is written to it.
   */
  function GlslToSpirV(env: Env, id: string): (r: Load)
    requires env.online && id in env.texts
    ensures r.Loaded? <==> CompileTo(env, id, true) && id + SpvExtension in env.files
    ensures r.Loaded? ==> r.code == env.files[id + SpvExtension]
    ensures r.Loaded? || r.Emptied?
  {
    if !CompileTo(env, id, true) then Emptied
    else if id + SpvExtension !in env.files then Emptied
    else Loaded(env.files[id + SpvExtension])
  }

  /**
   * The constructor's handling of one code id: ".vert" and ".frag" go
   * through `loadGlsl` (nothing when the compiler is offline or the text is
   * unreadable; a reader that is not a `FileReader` fails the `ASSERT`);
   * ".spv" is read as bytes (a missing file fails the `ASSERT`); any other
   * extension is logged and skipped.
   */
  function LoadEntry(env: Env, id: string): (r: Load)
    ensures r.Loaded? && !IsGlsl(Extension(id)) ==> Extension(id) == SpvExtension && id in env.files && r.code == env.files[id]
    ensures r.Emptied? ==> IsGlsl(Extension(id)) && id in env.texts && !(CompileTo(env, id, true) && id + SpvExtension in env.files)
    ensures r.Abort? <==> (IsGlsl(Extension(id)) && env.online && !env.fileReader) || (Extension(id) == SpvExtension && id !in env.files)
    ensures !IsGlsl(Extension(id)) && Extension(id) != SpvExtension ==> r == Skipped
  {
    var ext := Extension(id);
    if IsGlsl(ext) then
      if !env.online then Skipped
      else if !env.fileReader then Abort("Cannot compile shaders without FileReader!")
      else if id !in env.texts then Skipped
      else GlslToSpirV(env, id)
    else if ext == SpvExtension then
      if id in env.files then Loaded(env.files[id]) else Abort("Shader code missing!")
    else Skipped
  }

  /** `ShaderData`: code already in hand, code ids by type, and whether a reader was given. */
  datatype ShaderData = ShaderData(codeMap: map<ShaderType, Bytes>, codeIds: map<ShaderType, string>, hasReader: bool)

  /** Some id of `ids` fails an `ASSERT`. */
  predicate Aborts(env: Env, ids: map<ShaderType, string>) {
    exists t | t in ids :: LoadEntry(env, ids[t]).Abort?
  }

  /** The code map the constructor builds as written: a failed compile leaves an empty entry. */
  function CodeMapAsWritten(env: Env, ids: map<ShaderType, string>): (m: map<ShaderType, Bytes>)
    ensures forall t :: t in m <==> t in ids && (LoadEntry(env, ids[t]).Loaded? || LoadEntry(env, ids[t]).Emptied?)
  {
    map t | t in ids && (LoadEntry(env, ids[t]).Loaded? || LoadEntry(env, ids[t]).Emptied?)
      :: if LoadEntry(env, ids[t]).Loaded? then LoadEntry(env, ids[t]).code else []
  }

  /** The code map with the failed compiles left out, as the error log says they are. */
  function CodeMap(env: Env, ids: map<ShaderType, string>): (m: map<ShaderType, Bytes>)
    ensures forall t :: t in m <==> t in ids && LoadEntry(env, ids[t]).Loaded?
    ensures forall t :: t in m ==> m[t] == LoadEntry(env, ids[t]).code
  {
    map t | t in ids && LoadEntry(env, ids[t]).Loaded? :: LoadEntry(env, ids[t]).code
  }

  // ---------------------------------------------------------------- modules

  /** `loadAllSpirV(byteMap)`: every slot replaced, with a module for each type in the map and null for the rest. */
  function LoadAllSpirV(byteMap: map<ShaderType, Bytes>): (s: Slots)
    ensures forall t :: s[Slot(t)].Some? <==> t in byteMap
    ensures forall t :: t in byteMap ==> s[Slot(t)] == Some(Module(byteMap[t]))
  {
    var at := (t: ShaderType) => if t in byteMap then Some(Module(byteMap[t])) else None;
    [at(VertexShader), at(FragmentShader)]
  }

  /** `module(type)`: the module in the slot; a null slot fails the `ASSERT`. */
  function ModuleOf(s: Slots, t: ShaderType): (r: Result<Module>)
    ensures r.Ok? <==> s[Slot(t)].Some?
    ensures r.Ok? ==> r.value == s[Slot(t)].value
  {
    if s[Slot(t)].Some? then Ok(s[Slot(t)].value) else Fatal("Module not present in Shader!")
  }

  /** `modules()`: the non-null slots, by type. */
  function Modules(s: Slots): (r: map<ShaderType, Module>)
    ensures forall t :: t in r <==> s[Slot(t)].Some?
    ensures forall t :: t in r ==> r[t] == s[Slot(t)].value
  {
    map t: ShaderType | s[Slot(t)].Some? :: s[Slot(t)].value
  }

  /** After `loadAllSpirV`, `modules()` holds exactly one module per code entry, and `module(t)` agrees with it. */
  lemma ModulesAfterLoad(byteMap: map<ShaderType, Bytes>, t: ShaderType)
    ensures Modules(LoadAllSpirV(byteMap)).Keys == byteMap.Keys
    ensures t in byteMap <==> ModuleOf(LoadAllSpirV(byteMap), t).Ok?
    ensures t in byteMap ==> ModuleOf(LoadAllSpirV(byteMap), t) == Ok(Module(byteMap[t]))
  {
  }

  /** `modules()` and `module(t)` agree on every type. */
  lemma ModulesAgree(s: Slots, t: ShaderType)
    ensures t in Modules(s) <==> ModuleOf(s, t).Ok?
    ensures t in Modules(s) ==> ModuleOf(s, t) == Ok(Modules(s)[t])
  {
  }

  // ---------------------------------------------------------------- constructor

  /**
   * `Shader(data)` as written: with no code in hand the ids are loaded (an
   * empty id map or a missing reader fails the `ASSERT`), then every slot is
   * filled from the code map, including the empty entries of failed compiles.
   */
  function ConstructAsWritten(data: ShaderData, env: Env): (r: Result<Slots>)
    ensures data.codeMap != map[] ==> r == Ok(LoadAllSpirV(data.codeMap))
    ensures data.codeMap == map[] && (data.codeIds == map[] || !data.hasReader) ==> r.Fatal?
    ensures data.codeMap == map[] && data.codeIds != map[] && data.hasReader ==> (r.Fatal? <==> Aborts(env, data.codeIds))
    ensures r.Ok? && data.codeMap == map[] ==> r.value == LoadAllSpirV(CodeMapAsWritten(env, data.codeIds))
  {
    if data.codeMap != map[] then Ok(LoadAllSpirV(data.codeMap))
    else if data.codeIds == map[] || !data.hasReader then Fatal("Invalid Shader ShaderData!")
    else if Aborts(env, data.codeIds) then Fatal("Shader ASSERT failed")
    else Ok(LoadAllSpirV(CodeMapAsWritten(env, data.codeIds)))
  }

  /**
   * A ".vert" id whose compile fails still gets a vertex module, created
   * from zero bytes (a code size Vulkan requires to be positive).
   */
  lemma FailedCompileLeavesEmptyModule()
    ensures var env := Env(true, true, map["a.vert" := "void main() {}"], map[], {"a.vert"}, {});
            var data := ShaderData(map[], map[VertexShader := "a.vert"], true);
            var r := ConstructAsWritten(data, env);
            r.Ok? && r.value[Slot(VertexShader)] == Some(Module([]))
  {
    var env := Env(true, true, map["a.vert" := "void main() {}"], map[], {"a.vert"}, {});
    var ids := map[VertexShader := "a.vert"];
    ExtensionAt("a.vert", 1);
    assert LoadEntry(env, "a.vert") == Emptied;
    assert !Aborts(env, ids);
    var m := CodeMapAsWritten(env, ids);
    assert VertexShader in m && m[VertexShader] == [];
  }

  /** `Shader(data)` with failed compiles left out of the code map. */
  function Construct(data: ShaderData, env: Env): (r: Result<Slots>)
    ensures data.codeMap != map[] ==> r == Ok(LoadAllSpirV(data.codeMap))
    ensures data.codeMap == map[] && (data.codeIds == map[] || !data.hasReader) ==> r.Fatal?
    ensures data.codeMap == map[] && data.codeIds != map[] && data.hasReader ==> (r.Fatal? <==> Aborts(env, data.codeIds))
    ensures r.Ok? && data.codeMap == map[] ==> r.value == LoadAllSpirV(CodeMap(env, data.codeIds))
  {
    if data.codeMap != map[] then Ok(LoadAllSpirV(data.codeMap))
    else if data.codeIds == map[] || !data.hasReader then Fatal("Invalid Shader ShaderData!")
    else if Aborts(env, data.codeIds) then Fatal("Shader ASSERT failed")
    else Ok(LoadAllSpirV(CodeMap(env, data.codeIds)))
  }

  /**
   * Loading from ids: a type has a module exactly when its id produced code
   * (read as ".spv", or compiled from ".vert"/".frag"), and the module holds
   * that code.
   */
  lemma ConstructFromIds(data: ShaderData, env: Env, t: ShaderType)
    requires data.codeMap == map[] && Construct(data, env).Ok?
    ensures var s := Construct(data, env).value;
            s[Slot(t)].Some? <==> t in data.codeIds && LoadEntry(env, data.codeIds[t]).Loaded?
    ensures var s := Construct(data, env).value;
            s[Slot(t)].Some? ==> s[Slot(t)].value.code == LoadEntry(env, data.codeIds[t]).code
  {
    var m := CodeMap(env, data.codeIds);
    assert Construct(data, env).value == LoadAllSpirV(m);
  }

  /** The two constructors differ only on types whose compile failed. */
  lemma ConstructorsAgreeOnSuccess(data: ShaderData, env: Env, t: ShaderType)
    requires data.codeMap == map[] && Construct(data, env).Ok?
    requires t !in data.codeIds || !LoadEntry(env, data.codeIds[t]).Emptied?
    ensures ConstructAsWritten(data, env).Ok?
    ensures ConstructAsWritten(data, env).value[Slot(t)] == Construct(data, env).value[Slot(t)]
  {
  }
}
