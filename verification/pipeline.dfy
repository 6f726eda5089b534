/**
 The event loop of script.js: `main` sets up the state, then a timer calls
 the sampler, the display refresh calls `render`, and the shader selector's
 `change` handler swaps the program. The three callbacks run to completion
 one at a time, so a run is a sequence of atomic events.
 */
module Pipeline {

  import opened Wrappers
  import opened Sampler
  import opened Shader
  import opened TextureBank

  /** The shader files offered by the selector; the first is loaded at startup. */
  const ShaderFiles: seq<string> := ["shader.frag", "shader2.frag", "shader3.frag"]

  /** The globals the callbacks share: the sampler's state, the contents of
      the MaxFrames buffered-frame textures and of the realtime texture, the
      active programInfo, and the draws issued so far. */
  datatype System = System(
    sampler: SamplerState,
    textures: seq<Pixels>,
    realtime: Pixels,
    program: ProgramInfo,
    draws: seq<DrawCall>)

  /** A sampler tick reading the video at a presentation time, a render tick
      uploading the video at a presentation time, or a shader selection that
      the driver answers with a verdict. */
  datatype Event =
    | SampleTick(videoTime: real)
    | RenderTick(videoTime: real)
    | ShaderChange(file: string, verdict: DriverVerdict)

  /** What every callback needs of the globals for its indexing to be defined. */
  predicate Runnable(sys: System)
  {
    && WellFormed(sys.sampler)
    && |sys.textures| == MaxFrames
    && |sys.sampler.buffer| <= MaxFrames
    && (forall i :: 0 <= i < |sys.sampler.buffer| ==> sys.sampler.buffer[i].canvas < MaxFrames)
  }

  /**
   main after setup: every texture holds its initial opaque blue pixel, and
   the first shader file is compiled. When that fails main returns and no
   callback ever runs (None).
   */
  function Boot(v: DriverVerdict): (r: Option<System>)
    ensures r.Some? <==> Succeeds(v)
    ensures r.Some? ==>
      && Runnable(r.value)
      && r.value.draws == []
      && r.value.sampler == Initial()
      && r.value.realtime == OpaqueBlue
      && Some(r.value.program) == LoadAndCompileShader(ShaderFiles[0], v)
      && r.value.program.program.fragment.source == ShaderFiles[0]
      && (forall i :: 0 <= i < |r.value.textures| ==> r.value.textures[i] == OpaqueBlue)
  {
    match LoadAndCompileShader(ShaderFiles[0], v)
    case None => None
    case Some(info) => Some(System(Initial(), seq(MaxFrames, _ => OpaqueBlue), OpaqueBlue, info, []))
  }

  /**
   render: the realtime texture receives the live video on every tick; the
   buffered frames are uploaded and one draw is issued only when at least
   MaxFrames - 1 frames are buffered. Nothing else changes.
   */
  function Render(sys: System, now: real): (r: System)
    requires Runnable(sys)
    ensures Runnable(r)
    ensures r.realtime == Picture(now)
    ensures r.sampler == sys.sampler && r.program == sys.program
    ensures |sys.sampler.buffer| >= MaxFrames - 1 <==> |r.draws| == |sys.draws| + 1
    ensures |sys.sampler.buffer| < MaxFrames - 1 ==> r.draws == sys.draws && r.textures == sys.textures
    ensures |sys.sampler.buffer| >= MaxFrames - 1 ==>
      && r.draws[..|sys.draws|] == sys.draws
      && r.draws[|sys.draws|] == DrawScene(sys.program, r.textures, r.realtime)
      && (forall i :: 0 <= i < |sys.sampler.buffer| ==>
            r.textures[i] == sys.sampler.canvases[sys.sampler.buffer[i].canvas])
      && (forall i :: |sys.sampler.buffer| <= i < MaxFrames ==> r.textures[i] == sys.textures[i])
  {
    var realtime := Picture(now);
    if |sys.sampler.buffer| >= MaxFrames - 1 then
      var textures := UpdateTexture(sys.textures, sys.sampler.canvases, sys.sampler.buffer);
      sys.(realtime := realtime, textures := textures,
           draws := sys.draws + [DrawScene(sys.program, textures, realtime)])
    else
      sys.(realtime := realtime)
  }

  /**
   The selector's change handler: the active program is replaced only when
   the new one compiles and links; otherwise everything stays as it was.
   Frames and textures are never touched.
   */
  function ChangeShader(sys: System, file: string, v: DriverVerdict): (r: System)
    ensures !Succeeds(v) ==> r == sys
    ensures Succeeds(v) ==> r == sys.(program := r.program)
    ensures Succeeds(v) ==> r.program.program.fragment.source == file
    ensures Succeeds(v) ==> Some(r.program) == LoadAndCompileShader(file, v)
    ensures Succeeds(v) ==> r.program.program.vertex == CompiledShader(Vertex, VertexSource)
    ensures Succeeds(v) ==> r.program.attributes == ProgramAttributes && r.program.uniforms == ProgramUniforms
  {
    match LoadAndCompileShader(file, v)
    case None => sys
    case Some(info) => sys.(program := info)
  }

  function Step(sys: System, e: Event): (r: System)
    requires Runnable(sys)
    ensures Runnable(r)
  {
    match e
    case SampleTick(t) => sys.(sampler := Sample(sys.sampler, t))
    case RenderTick(t) => Render(sys, t)
    case ShaderChange(file, v) => ChangeShader(sys, file, v)
  }

  /** The state after the events of `trace`, in order. Draws are only ever
      appended. */
  function Run(sys: System, trace: seq<Event>): (r: System)
    requires Runnable(sys)
    ensures Runnable(r)
    ensures |sys.draws| <= |r.draws| && r.draws[..|sys.draws|] == sys.draws
    decreases |trace|
  {
    if |trace| == 0 then sys else Run(Step(sys, trace[0]), trace[1..])
  }

  /** Reference definition: the presentation times a run accepts starting
      from lastVideoTime `last` — each sampled time that differs from the
      previous accepted one. */
  function AcceptedFrom(last: real, trace: seq<Event>): seq<real>
    decreases |trace|
  {
    if |trace| == 0 then []
    else match trace[0]
      case SampleTick(t) =>
        if t == last then AcceptedFrom(last, trace[1..]) else [t] + AcceptedFrom(t, trace[1..])
      case _ => AcceptedFrom(last, trace[1..])
  }

  /** Reference definition: the number of render ticks in a trace. */
  function RenderCount(trace: seq<Event>): nat
    decreases |trace|
  {
    if |trace| == 0 then 0
    else (if trace[0].RenderTick? then 1 else 0) + RenderCount(trace[1..])
  }

  /** The invariant of the whole system after the accepted times `h`: the
      sampler is Consistent with h, and texture slots beyond the buffer's
      length have never been uploaded. */
  ghost predicate Reachable(sys: System, h: seq<real>)
  {
    && Consistent(sys.sampler, h)
    && |sys.textures| == MaxFrames
    && (forall i :: |sys.sampler.buffer| <= i < MaxFrames ==> sys.textures[i] == OpaqueBlue)
  }

  lemma ReachableRunnable(sys: System, h: seq<real>)
    requires Reachable(sys, h)
    ensures Runnable(sys)
  {
    ConsistentBounds(sys.sampler, h);
  }

  lemma BootReachable(v: DriverVerdict)
    requires Succeeds(v)
    ensures Reachable(Boot(v).value, [])
  {
    InitialConsistent();
  }

  lemma StepReachable(sys: System, h: seq<real>, e: Event)
    requires Reachable(sys, h)
    ensures Runnable(sys)
    ensures Reachable(Step(sys, e), h + AcceptedFrom(sys.sampler.lastTime, [e]))
  {
    ReachableRunnable(sys, h);
    match e
    case SampleTick(t) =>
      SamplePreservesConsistent(sys.sampler, h, t);
      SampleNeverShrinks(sys.sampler, t);
      if t == sys.sampler.lastTime {
        assert h + AcceptedFrom(sys.sampler.lastTime, [e]) == h;
      } else {
        assert AcceptedFrom(sys.sampler.lastTime, [e]) == [t];
      }
    case RenderTick(t) =>
      assert AcceptedFrom(sys.sampler.lastTime, [e]) == [];
      assert h + [] == h;
    case ShaderChange(_, _) =>
      assert AcceptedFrom(sys.sampler.lastTime, [e]) == [];
      assert h + [] == h;
  }

  /** Every run from a state consistent with h is consistent with h extended
      by the times the run accepts. */
  lemma {:induction false} RunReachable(sys: System, h: seq<real>, trace: seq<Event>)
    requires Reachable(sys, h)
    ensures Runnable(sys)
    ensures Reachable(Run(sys, trace), h + AcceptedFrom(sys.sampler.lastTime, trace))
    decreases |trace|
  {
    ReachableRunnable(sys, h);
    if |trace| == 0 {
      assert h + [] == h;
    } else {
      var e := trace[0];
      var next := Step(sys, e);
      StepReachable(sys, h, e);
      var h' := h + AcceptedFrom(sys.sampler.lastTime, [e]);
      RunReachable(next, h', trace[1..]);
      AcceptedSplit(sys.sampler.lastTime, trace);
      assert next.sampler.lastTime == LastTime(h');
      assert sys.sampler.lastTime == LastTime(h);
      LastTimeAfter(h, sys.sampler.lastTime, e);
      assert h' + AcceptedFrom(next.sampler.lastTime, trace[1..])
          == h + AcceptedFrom(sys.sampler.lastTime, trace);
    }
  }

  /** The lastVideoTime after one event is the last accepted time, or the
      previous lastVideoTime when the event accepted nothing. */
  lemma LastTimeAfter(h: seq<real>, last: real, e: Event)
    requires last == LastTime(h)
    ensures AcceptedFrom(last, [e]) == [] ==> LastTime(h + AcceptedFrom(last, [e])) == last
  {
    if AcceptedFrom(last, [e]) == [] {
      assert h + [] == h;
    }
  }

  /** Splitting a trace after its first event splits the accepted times. */
  lemma AcceptedSplit(last: real, trace: seq<Event>)
    requires |trace| > 0
    ensures AcceptedFrom(last, trace)
         == AcceptedFrom(last, [trace[0]])
            + AcceptedFrom(if trace[0].SampleTick? then trace[0].videoTime else last, trace[1..])
  {
    assert [trace[0]][1..] == [];
  }

  /** The times accepted by a whole run from startup. */
  function Accepted(trace: seq<Event>): seq<real>
  {
    AcceptedFrom(NoTime, trace)
  }

  /**
   After any run from startup with k accepted samples: frameCount is k, the
   cursor is k % MaxFrames, lastVideoTime is the last accepted time, and the
   buffer holds exactly frames max(1, k - MaxFrames + 1) .. k in increasing
   consecutive order, each on canvas (f - 1) % MaxFrames, whose pixels are
   still the picture taken for frame f.
   */
  lemma FifoWindow(v: DriverVerdict, trace: seq<Event>)
    requires Succeeds(v)
    ensures Runnable(Boot(v).value)
    ensures var s := Run(Boot(v).value, trace).sampler;
      var k := |Accepted(trace)|;
      && s.frameCount == k
      && s.canvasIndex == k % MaxFrames
      && s.lastTime == LastTime(Accepted(trace))
      && |s.buffer| == Min(k, MaxFrames)
      && (k > 0 ==> s.buffer[0].frame == (if k < MaxFrames then 1 else k - MaxFrames + 1))
      && (k > 0 ==> s.buffer[|s.buffer| - 1].frame == k)
      && (forall i :: 0 <= i < |s.buffer| - 1 ==> s.buffer[i + 1].frame == s.buffer[i].frame + 1)
      && (forall i :: 0 <= i < |s.buffer| ==> s.buffer[i].canvas == (s.buffer[i].frame - 1) % MaxFrames)
      && (forall i :: 0 <= i < |s.buffer| ==>
            s.canvases[s.buffer[i].canvas] == Picture(Accepted(trace)[k - |s.buffer| + i]))
  {
    BootReachable(v);
    RunReachable(Boot(v).value, [], trace);
    assert [] + Accepted(trace) == Accepted(trace);
  }

  /** In every state a run reaches, the buffered entries hold pairwise
      distinct canvases. */
  lemma RunDistinctCanvases(v: DriverVerdict, trace: seq<Event>)
    requires Succeeds(v)
    ensures Runnable(Boot(v).value)
    ensures var b := Run(Boot(v).value, trace).sampler.buffer;
      forall i, j :: 0 <= i < j < |b| ==> b[i].canvas != b[j].canvas
  {
    BootReachable(v);
    RunReachable(Boot(v).value, [], trace);
    DistinctCanvases(Run(Boot(v).value, trace).sampler, [] + Accepted(trace));
  }

  /**
   A render tick past warm-up issues one draw with the active program in
   which unit i (read through uSampler, uSampler1, …) shows the i-th oldest
   of the last |buffer| accepted frames, the slots beyond the buffer still
   show their initial blue pixel, and uSamplerRealtime shows the live video.
   */
  lemma DrawShowsHistory(sys: System, h: seq<real>, now: real)
    requires Reachable(sys, h) && |sys.sampler.buffer| >= MaxFrames - 1
    ensures Runnable(sys)
    ensures var r := Render(sys, now);
      var n := |sys.sampler.buffer|;
      && |r.draws| == |sys.draws| + 1
      && var d := r.draws[|sys.draws|];
      && d.program == sys.program
      && |d.bindings| == MaxFrames + 1
      && (forall i :: 0 <= i < n ==> d.bindings[i].unit == i && d.bindings[i].content == Picture(h[|h| - n + i]))
      && (forall i :: n <= i < MaxFrames ==> d.bindings[i].content == OpaqueBlue)
      && d.bindings[MaxFrames] == Binding(RealtimeUniform, RealtimeUnit, Picture(now))
  {
  }

  /** Render, sample and shader events leave the buffer at least as long as
      it was, so once past warm-up a run never returns to it. */
  lemma {:induction false} SteadyNeverReverts(sys: System, trace: seq<Event>)
    requires Runnable(sys)
    ensures |Run(sys, trace).sampler.buffer| >= |sys.sampler.buffer|
    decreases |trace|
  {
    if |trace| > 0 {
      if trace[0].SampleTick? {
        SampleNeverShrinks(sys.sampler, trace[0].videoTime);
      }
      SteadyNeverReverts(Step(sys, trace[0]), trace[1..]);
    }
  }

  /** Past warm-up, every render tick issues exactly one draw and no other
      event issues any. */
  lemma {:induction false} SteadyDrawCount(sys: System, trace: seq<Event>)
    requires Runnable(sys) && |sys.sampler.buffer| >= MaxFrames - 1
    ensures |Run(sys, trace).draws| == |sys.draws| + RenderCount(trace)
    decreases |trace|
  {
    if |trace| > 0 {
      var next := Step(sys, trace[0]);
      if trace[0].SampleTick? {
        SampleNeverShrinks(sys.sampler, trace[0].videoTime);
      }
      SteadyDrawCount(next, trace[1..]);
    }
  }

  /** While fewer than MaxFrames - 1 frames have been accepted in all, no
      draw is issued. */
  lemma {:induction false} WarmUpDrawsNothing(sys: System, h: seq<real>, trace: seq<Event>)
    requires Reachable(sys, h)
    requires |h| + |AcceptedFrom(sys.sampler.lastTime, trace)| < MaxFrames - 1
    ensures Runnable(sys)
    ensures Run(sys, trace).draws == sys.draws
    decreases |trace|
  {
    ReachableRunnable(sys, h);
    if |trace| > 0 {
      var e := trace[0];
      var next := Step(sys, e);
      StepReachable(sys, h, e);
      AcceptedSplit(sys.sampler.lastTime, trace);
      var h' := h + AcceptedFrom(sys.sampler.lastTime, [e]);
      LastTimeAfter(h, sys.sampler.lastTime, e);
      WarmUpDrawsNothing(next, h', trace[1..]);
    }
  }

  /** A run from startup that accepts fewer than MaxFrames - 1 frames draws
      nothing. */
  lemma NoDrawBeforeWarmUp(v: DriverVerdict, trace: seq<Event>)
    requires Succeeds(v) && |Accepted(trace)| < MaxFrames - 1
    ensures Runnable(Boot(v).value)
    ensures Run(Boot(v).value, trace).draws == []
  {
    BootReachable(v);
    WarmUpDrawsNothing(Boot(v).value, [], trace);
  }

  /** Two systems that differ at most in their program and in which program
      past draws used: every draw read the same textures through the same
      uniforms and units. */
  predicate SameExceptProgram(a: System, b: System)
  {
    && a.sampler == b.sampler && a.textures == b.textures && a.realtime == b.realtime
    && |a.draws| == |b.draws|
    && (forall i :: 0 <= i < |a.draws| ==> a.draws[i].bindings == b.draws[i].bindings)
  }

  /** The active program never influences frames, textures or the number of
      draws: runs of the same events from systems that differ only in it stay
      that way. */
  lemma {:induction false} ProgramDoesNotDisturbFrames(a: System, b: System, trace: seq<Event>)
    requires Runnable(a) && Runnable(b) && SameExceptProgram(a, b)
    ensures SameExceptProgram(Run(a, trace), Run(b, trace))
    decreases |trace|
  {
    if |trace| > 0 {
      ProgramDoesNotDisturbFrames(Step(a, trace[0]), Step(b, trace[0]), trace[1..]);
    }
  }

  /** A shader change whose compile or link fails leaves the run that
      follows exactly as it would have been; a successful one changes
      nothing the sampler or the texture bank hold. */
  lemma ShaderChangeFailOpen(sys: System, file: string, v: DriverVerdict, trace: seq<Event>)
    requires Runnable(sys)
    ensures !Succeeds(v) ==> Run(sys, [ShaderChange(file, v)] + trace) == Run(sys, trace)
    ensures SameExceptProgram(Run(sys, [ShaderChange(file, v)] + trace), Run(sys, trace))
  {
    var t := [ShaderChange(file, v)] + trace;
    assert t[0] == ShaderChange(file, v) && t[1..] == trace;
    ProgramDoesNotDisturbFrames(Step(sys, t[0]), sys, trace);
  }

  /**
   A concrete run: five distinct presentation times reach the sampler, one of
   them twice, with render ticks in between. The repeat is ignored, frame 1
   is evicted, and the buffer holds frames 2 .. 5 with their own pictures.
   */
  lemma ScenarioEvictsOldest(v: DriverVerdict)
    requires Succeeds(v)
    ensures Runnable(Boot(v).value)
    ensures var s := Run(Boot(v).value,
        [SampleTick(0.0), RenderTick(0.01), SampleTick(0.0), SampleTick(0.1), SampleTick(0.2),
         RenderTick(0.21), SampleTick(0.3), SampleTick(0.4), RenderTick(0.41)]).sampler;
      && s.frameCount == 5
      && |s.buffer| == MaxFrames
      && s.buffer[0].frame == 2 && s.buffer[MaxFrames - 1].frame == 5
      && s.canvases[s.buffer[0].canvas] == Picture(0.1)
      && s.canvases[s.buffer[MaxFrames - 1].canvas] == Picture(0.4)
  {
    var trace :=
        [SampleTick(0.0), RenderTick(0.01), SampleTick(0.0), SampleTick(0.1), SampleTick(0.2),
         RenderTick(0.21), SampleTick(0.3), SampleTick(0.4), RenderTick(0.41)];
    assert AcceptedFrom(0.4, trace[8..]) == [] by {
      assert trace[8..][1..] == [];
    }
    assert AcceptedFrom(0.3, trace[7..]) == [0.4] by {
      assert trace[7..][0] == SampleTick(0.4) && trace[7..][1..] == trace[8..];
    }
    assert AcceptedFrom(0.2, trace[6..]) == [0.3, 0.4] by {
      assert trace[6..][0] == SampleTick(0.3) && trace[6..][1..] == trace[7..];
    }
    assert AcceptedFrom(0.2, trace[5..]) == [0.3, 0.4] by {
      assert trace[5..][0] == RenderTick(0.21) && trace[5..][1..] == trace[6..];
    }
    assert AcceptedFrom(0.1, trace[4..]) == [0.2, 0.3, 0.4] by {
      assert trace[4..][0] == SampleTick(0.2) && trace[4..][1..] == trace[5..];
    }
    assert AcceptedFrom(0.0, trace[3..]) == [0.1, 0.2, 0.3, 0.4] by {
      assert trace[3..][0] == SampleTick(0.1) && trace[3..][1..] == trace[4..];
    }
    assert AcceptedFrom(0.0, trace[2..]) == [0.1, 0.2, 0.3, 0.4] by {
      assert trace[2..][0] == SampleTick(0.0) && trace[2..][1..] == trace[3..];
    }
    assert AcceptedFrom(0.0, trace[1..]) == [0.1, 0.2, 0.3, 0.4] by {
      assert trace[1..][0] == RenderTick(0.01) && trace[1..][1..] == trace[2..];
    }
    assert Accepted(trace) == [0.0, 0.1, 0.2, 0.3, 0.4] by {
      assert trace[0] == SampleTick(0.0) && NoTime != 0.0;
    }
    FifoWindow(v, trace);
  }
}
