/**
 The texture bank of script.js: `updateTexture`, which uploads the buffered
 frames into the texture slots by position, and the texture-unit and
 sampler-uniform wiring of `drawScene`.
 */
module TextureBank {

  import opened Sampler
  import opened Shader

  /** drawScene binds the realtime texture to TEXTURE4. */
  const RealtimeUnit: nat := 4

  const RealtimeUniform: string := "uSamplerRealtime"

  /** A texture unit as seen by one draw: the sampler uniform set to it and
      the contents of the texture bound to it. */
  datatype Binding = Binding(uniform: string, unit: nat, content: Pixels)

  /** One drawArrays call: the program in use and what each sampler reads. */
  datatype DrawCall = DrawCall(program: ProgramInfo, bindings: seq<Binding>)

  /**
   updateTexture: slot i receives the canvas of frames[i] for every
   i < |frames|; the other slots keep what they held. Uploads happen in
   increasing slot order, so the last upload is the last frame's.
   */
  function UpdateTexture(textures: seq<Pixels>, canvases: seq<Pixels>, frames: seq<Entry>): (r: seq<Pixels>)
    requires |frames| <= |textures|
    requires forall i :: 0 <= i < |frames| ==> frames[i].canvas < |canvases|
    ensures |r| == |textures|
    ensures forall i :: 0 <= i < |frames| ==> r[i] == canvases[frames[i].canvas]
    ensures forall i :: |frames| <= i < |textures| ==> r[i] == textures[i]
    decreases |frames|
  {
    if |frames| == 0 then textures
    else
      var last := |frames| - 1;
      UpdateTexture(textures, canvases, frames[..last])[last := canvases[frames[last].canvas]]
  }

  function Digit(d: nat): char
    requires d < 10
  {
    "0123456789"[d]
  }

  /** Decimal notation of n, as a template literal renders a number. */
  function Decimal(n: nat): string
    decreases n
  {
    if n < 10 then [Digit(n)] else Decimal(n / 10) + [Digit(n % 10)]
  }

  /** The sampler uniform of texture slot i: `uSampler` for slot 0 and
      `uSampler` followed by i otherwise. */
  function SamplerUniform(i: nat): string
  {
    "uSampler" + (if i == 0 then "" else Decimal(i))
  }

  /**
   drawScene: texture slot i is bound to unit i and its sampler uniform is
   set to i; the realtime texture is bound to RealtimeUnit and
   uSamplerRealtime is set to it.
   */
  function DrawScene(program: ProgramInfo, textures: seq<Pixels>, realtime: Pixels): (d: DrawCall)
    ensures d.program == program
    ensures |d.bindings| == |textures| + 1
    ensures forall i :: 0 <= i < |textures| ==> d.bindings[i].unit == i && d.bindings[i].content == textures[i]
    ensures forall i :: 0 <= i < |textures| ==> d.bindings[i].uniform == SamplerUniform(i)
    ensures d.bindings[|textures|] == Binding(RealtimeUniform, RealtimeUnit, realtime)
  {
    DrawCall(program,
      seq(|textures|, i requires 0 <= i < |textures| => Binding(SamplerUniform(i), i, textures[i]))
      + [Binding(RealtimeUniform, RealtimeUnit, realtime)])
  }

  /**
   With MaxFrames texture slots every sampler uniform drawScene sets is one
   whose location loadAndCompileShader looked up, no two bindings share a
   uniform or a unit, and slot i is read through `uSampler`, `uSampler1`, …
   */
  lemma DrawSceneWiring(program: ProgramInfo, textures: seq<Pixels>, realtime: Pixels)
    requires |textures| == MaxFrames
    ensures var d := DrawScene(program, textures, realtime);
      && (forall i :: 0 <= i < |d.bindings| ==> d.bindings[i].uniform in ProgramUniforms)
      && (forall i :: 0 <= i < |d.bindings| ==> d.bindings[i].uniform == ProgramUniforms[i])
      && (forall i, j :: 0 <= i < j < |d.bindings| ==> d.bindings[i].unit != d.bindings[j].unit)
      && (forall i, j :: 0 <= i < j < |d.bindings| ==> d.bindings[i].uniform != d.bindings[j].uniform)
  {
    var d := DrawScene(program, textures, realtime);
    assert Decimal(1) == "1" && Decimal(2) == "2" && Decimal(3) == "3";
    assert d.bindings[0].uniform == "uSampler";
    assert d.bindings[1].uniform == "uSampler1";
    assert d.bindings[2].uniform == "uSampler2";
    assert d.bindings[3].uniform == "uSampler3";
    assert d.bindings[4].uniform == "uSamplerRealtime";
  }
}
