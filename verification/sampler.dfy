/**
 The frame sampler of script.js (`updateVideoBuffer`): a bounded FIFO of
 captured frames, each tagged with a sequence number, drawn into one of
 `MaxFrames` off-screen canvases chosen round-robin.

 The video element, the canvases and their pixels are abstract: a canvas
 holds `Pixels`, and drawing the video into it stores a `Picture` of the
 video's presentation time.
 */
module Sampler {

  /** Capacity of the history and number of reusable canvases (MAX_FRAMES). */
  const MaxFrames: nat := 4

  /** The value of lastVideoTime before any sample has been taken. */
  const NoTime: real := -1.0

  /** Contents of a canvas or a texture: a newly created (blank) canvas, the
      1x1 opaque blue pixel every texture is created with, or a picture of the
      video at a presentation time. */
  datatype Pixels = Transparent | OpaqueBlue | Picture(time: real)

  /** One element of videoBuffer: its sequence number and the index of the
      canvas the frame was drawn into. */
  datatype Entry = Entry(frame: nat, canvas: nat)

  /** The sampler's globals: videoBuffer, frameCount, canvasIndex,
      lastVideoTime and the contents of frameCanvases. */
  datatype SamplerState = SamplerState(
    buffer: seq<Entry>,
    frameCount: nat,
    canvasIndex: nat,
    lastTime: real,
    canvases: seq<Pixels>)

  function Min(a: int, b: int): int
  {
    if a <= b then a else b
  }

  /** frameCanvases holds MaxFrames canvases and the cursor points at one. */
  predicate WellFormed(s: SamplerState)
  {
    |s.canvases| == MaxFrames && s.canvasIndex < MaxFrames
  }

  /** The state before the first sample: nothing buffered, and MaxFrames
      freshly created canvases. */
  function Initial(): (s: SamplerState)
    ensures |s.buffer| == 0 && s.frameCount == 0 && s.canvasIndex == 0 && s.lastTime == NoTime
    ensures WellFormed(s)
    ensures forall c :: 0 <= c < |s.canvases| ==> s.canvases[c] == Transparent
  {
    SamplerState([], 0, 0, NoTime, seq(MaxFrames, _ => Transparent))
  }

  /** One call of updateVideoBuffer with the video at presentation time `t`. */
  function Sample(s: SamplerState, t: real): (r: SamplerState)
    requires WellFormed(s)
    ensures WellFormed(r)
    ensures t == s.lastTime ==> r == s
    ensures r.lastTime == t
    ensures t != s.lastTime ==>
      && r.frameCount == s.frameCount + 1
      && r.canvasIndex == (s.canvasIndex + 1) % MaxFrames
      && r.canvases == s.canvases[s.canvasIndex := Picture(t)]
      && r.buffer == (if |s.buffer| < MaxFrames then s.buffer else s.buffer[1..])
                     + [Entry(r.frameCount, s.canvasIndex)]
  {
    if t == s.lastTime then s
    else
      var frame := s.frameCount + 1;
      var pushed := s.buffer + [Entry(frame, s.canvasIndex)];
      SamplerState(
        if |pushed| > MaxFrames then pushed[1..] else pushed,
        frame,
        (s.canvasIndex + 1) % MaxFrames,
        t,
        s.canvases[s.canvasIndex := Picture(t)])
  }

  /** The last element of an accepted-time history, or NoTime when it is empty. */
  function LastTime(h: seq<real>): real
  {
    if |h| == 0 then NoTime else h[|h| - 1]
  }

  /**
   The sampler state after the accepted presentation times `h`: the counter
   and cursor count them, the buffer holds the last Min(|h|, MaxFrames) of
   them in capture order, entry f uses canvas (f - 1) % MaxFrames, and that
   canvas still shows the picture taken for entry f.
   */
  ghost predicate Consistent(s: SamplerState, h: seq<real>)
  {
    && |s.canvases| == MaxFrames
    && s.frameCount == |h|
    && s.canvasIndex == |h| % MaxFrames
    && s.lastTime == LastTime(h)
    && |s.buffer| == Min(|h|, MaxFrames)
    && (forall i :: 0 <= i < |s.buffer| ==> s.buffer[i].frame == |h| - |s.buffer| + 1 + i)
    && (forall i :: 0 <= i < |s.buffer| ==> s.buffer[i].canvas == (s.buffer[i].frame - 1) % MaxFrames)
    && (forall i :: 0 <= i < |s.buffer| ==>
          s.canvases[s.buffer[i].canvas] == Picture(h[s.buffer[i].frame - 1]))
  }

  lemma InitialConsistent()
    ensures Consistent(Initial(), [])
  {
  }

  /** Re-sampling an unchanged presentation time is a no-op, so a repeated
      call changes nothing. */
  lemma SampleTwiceIsNoOp(s: SamplerState, t: real)
    requires WellFormed(s)
    ensures Sample(Sample(s, t), t) == Sample(s, t)
  {
  }

  /** The buffer never gets shorter (push, then at most one shift), and it
      never grows past MaxFrames. */
  lemma SampleNeverShrinks(s: SamplerState, t: real)
    requires WellFormed(s)
    ensures |Sample(s, t).buffer| >= |s.buffer|
    ensures |s.buffer| <= MaxFrames ==> |Sample(s, t).buffer| <= MaxFrames
  {
  }

  /** An accepted sample appends `t` to the accepted history; a rejected one
      leaves it alone. */
  lemma SamplePreservesConsistent(s: SamplerState, h: seq<real>, t: real)
    requires Consistent(s, h)
    ensures Consistent(Sample(s, t), if t == s.lastTime then h else h + [t])
  {
    if t != s.lastTime {
      AcceptedPreservesConsistent(s, h, t);
    }
  }

  lemma AcceptedPreservesConsistent(s: SamplerState, h: seq<real>, t: real)
    requires Consistent(s, h) && t != s.lastTime
    ensures Consistent(Sample(s, t), h + [t])
  {
    var r := Sample(s, t);
    var h' := h + [t];
    var k := |h'|;
    CursorAdvances(|h|);
    forall i | 0 <= i < |r.buffer|
      ensures r.buffer[i].frame == k - |r.buffer| + 1 + i
      ensures r.buffer[i].canvas == (r.buffer[i].frame - 1) % MaxFrames
      ensures r.canvases[r.buffer[i].canvas] == Picture(h'[r.buffer[i].frame - 1])
    {
      if i == |r.buffer| - 1 {
        assert r.buffer[i] == Entry(k, s.canvasIndex);
        assert h'[k - 1] == t;
      } else {
        RetainedEntry(s, h, t, i);
      }
    }
  }

  /** The cursor after k + 1 samples is the successor of the cursor after k. */
  lemma CursorAdvances(k: nat)
    ensures (k % MaxFrames + 1) % MaxFrames == (k + 1) % MaxFrames
  {
  }

  /** An entry kept by an accepted sample keeps its frame, canvas and picture. */
  lemma RetainedEntry(s: SamplerState, h: seq<real>, t: real, i: nat)
    requires Consistent(s, h) && t != s.lastTime
    requires i < |Sample(s, t).buffer| - 1
    ensures var r := Sample(s, t);
      && r.buffer[i].frame == |h| + 1 - |r.buffer| + 1 + i
      && r.buffer[i].canvas == (r.buffer[i].frame - 1) % MaxFrames
      && r.canvases[r.buffer[i].canvas] == Picture((h + [t])[r.buffer[i].frame - 1])
  {
    var r := Sample(s, t);
    var j := if |s.buffer| < MaxFrames then i else i + 1;
    assert r.buffer[i] == s.buffer[j];
    var f := s.buffer[j].frame;
    FrameCanvasDiffers(|h|, f);
    assert (h + [t])[f - 1] == h[f - 1];
  }

  /** A frame among the last MaxFrames - 1 before frame k + 1 does not share
      its canvas with frame k + 1. */
  lemma FrameCanvasDiffers(k: nat, f: nat)
    requires 1 <= f <= k && k - f < MaxFrames - 1
    ensures (f - 1) % MaxFrames != k % MaxFrames
  {
  }

  /** Consequences of Consistent that keep every index in range. */
  lemma ConsistentBounds(s: SamplerState, h: seq<real>)
    requires Consistent(s, h)
    ensures |s.buffer| <= MaxFrames && s.canvasIndex < MaxFrames
    ensures forall i :: 0 <= i < |s.buffer| ==> 1 <= s.buffer[i].frame <= s.frameCount
    ensures forall i :: 0 <= i < |s.buffer| ==> s.buffer[i].canvas < MaxFrames
  {
  }

  /** The buffered entries refer to pairwise distinct canvases. */
  lemma DistinctCanvases(s: SamplerState, h: seq<real>)
    requires Consistent(s, h)
    ensures forall i, j :: 0 <= i < j < |s.buffer| ==> s.buffer[i].canvas != s.buffer[j].canvas
  {
  }

  /** The canvas an accepted sample draws into is held by no entry that
      survives the sample; when the buffer was full it is exactly the canvas
      of the evicted oldest entry. */
  lemma OverwriteSparesRetained(s: SamplerState, h: seq<real>, t: real)
    requires Consistent(s, h) && t != s.lastTime
    ensures forall i :: 0 <= i < |Sample(s, t).buffer| - 1 ==>
              Sample(s, t).buffer[i].canvas != s.canvasIndex
    ensures |s.buffer| == MaxFrames ==> s.buffer[0].canvas == s.canvasIndex
  {
  }
}
