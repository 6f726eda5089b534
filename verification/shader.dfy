/**
 Shader compilation of script.js: `loadShader`, `initShaderProgram` and
 `loadAndCompileShader`. The GPU driver is abstract: what it reports for
 COMPILE_STATUS and LINK_STATUS is an input, a `DriverVerdict`.
 */
module Shader {

  import opened Wrappers

  datatype Stage = Vertex | Fragment

  /** A shader object the driver compiled from `source`. */
  datatype CompiledShader = CompiledShader(stage: Stage, source: string)

  /** A linked program: the fixed vertex stage and a fragment stage. */
  datatype Program = Program(vertex: CompiledShader, fragment: CompiledShader)

  /** The record built for a linked program: the program and the names of
      the attributes and uniforms whose locations were looked up. */
  datatype ProgramInfo = ProgramInfo(program: Program, attributes: seq<string>, uniforms: seq<string>)

  /** What the driver reports for one attempt: whether the vertex stage
      compiles, whether the fragment stage compiles, whether they link. */
  datatype DriverVerdict = DriverVerdict(vertexCompiles: bool, fragmentCompiles: bool, links: bool)

  /** Stands for the pass-through vertex stage shared by every effect; its
      text is never inspected. */
  const VertexSource: string := "pass-through vertex stage"

  /** The attribute names whose locations loadAndCompileShader looks up. */
  const ProgramAttributes: seq<string> := ["aVertexPosition", "aTextureCoord"]

  /** The uniform names whose locations loadAndCompileShader looks up. */
  const ProgramUniforms: seq<string> :=
    ["uSampler", "uSampler1", "uSampler2", "uSampler3", "uSamplerRealtime", "u_resolution"]

  predicate Succeeds(v: DriverVerdict)
  {
    v.vertexCompiles && v.fragmentCompiles && v.links
  }

  /** loadShader: a shader object when the driver reports a successful
      compile, null (None) otherwise. */
  function LoadShader(stage: Stage, source: string, compiles: bool): (r: Option<CompiledShader>)
    ensures r.Some? <==> compiles
    ensures r.Some? ==> r.value.stage == stage && r.value.source == source
  {
    if compiles then Some(CompiledShader(stage, source)) else None
  }

  /** initShaderProgram: null when the vertex stage fails to compile, when
      the fragment stage fails to compile, or when linking fails; otherwise
      the program made of exactly the two given stages. */
  function InitShaderProgram(vs: string, fs: string, v: DriverVerdict): (r: Option<Program>)
    ensures r.Some? <==> Succeeds(v)
    ensures r.Some? ==> r.value.vertex == CompiledShader(Vertex, vs)
    ensures r.Some? ==> r.value.fragment == CompiledShader(Fragment, fs)
  {
    match LoadShader(Vertex, vs, v.vertexCompiles)
    case None => None
    case Some(vertex) =>
      match LoadShader(Fragment, fs, v.fragmentCompiles)
      case None => None
      case Some(fragment) =>
        if v.links then Some(Program(vertex, fragment)) else None
  }

  /** loadAndCompileShader: the fixed vertex stage and the fragment stage
      fetched from `file` (the file name stands for its text). On success the
      record looks up every attribute and uniform the draw uses. */
  function LoadAndCompileShader(file: string, v: DriverVerdict): (r: Option<ProgramInfo>)
    ensures r.Some? <==> Succeeds(v)
    ensures r.Some? ==>
      && r.value.program == Program(CompiledShader(Vertex, VertexSource), CompiledShader(Fragment, file))
      && r.value.attributes == ProgramAttributes
      && r.value.uniforms == ProgramUniforms
  {
    match InitShaderProgram(VertexSource, file, v)
    case None => None
    case Some(program) => Some(ProgramInfo(program, ProgramAttributes, ProgramUniforms))
  }
}
