# Motion-Extraction: delayed-frame buffer and render pipeline, in Dafny

Motion-Extraction shows a webcam feed through a selectable fragment shader.
Besides the live frame, the shader receives the last few video frames, so an
effect can compare "now" with "a moment ago". `script.js` does this with four
pieces of logic, and this project models each of them:

- **Sampler** (`updateVideoBuffer`). It runs on a 50 ms timer. A sample is
  accepted only when the video's presentation time has changed. An accepted
  sample bumps `frameCount` and draws the video into one of `MAX_FRAMES = 4`
  canvases, chosen round-robin by `canvasIndex`. It then pushes
  `{frame, video: canvas}` onto `videoBuffer`, and drops the oldest entry when
  the buffer would exceed 4 entries.
- **Render gate** (`render`). The realtime texture gets the live video on
  every display refresh. The buffered frames are uploaded, and one draw is
  issued, only when at least `MAX_FRAMES - 1` frames are buffered.
- **Positional texture upload** (`updateTexture`, and the unit/uniform wiring
  in `drawScene`). Texture slot i receives buffer entry i. Slot i is bound to
  unit i and read through `uSampler`, `uSampler1`, …. The realtime texture
  uses unit 4 and `uSamplerRealtime`.
- **Fail-open shader swap** (the selector's `change` handler,
  `loadAndCompileShader`, `initShaderProgram`, `loadShader`). The active
  program is replaced only when both stages compile and the program links.

Abstractions:
- A canvas or texture holds `Pixels`: a blank canvas, the 1x1 opaque blue pixel
  every texture starts with, or `Picture(t)`, the video at presentation time t.
- Video time is a `real`, compared only for equality. `lastVideoTime` starts
  at -1.
- The GPU driver's compile and link answers are a `DriverVerdict` input.
- The three callbacks run one at a time on one event loop. A run is therefore
  a sequence of atomic `SampleTick`, `RenderTick` and `ShaderChange` events.

Files and modules:
- `sampler.dfy` (`Sampler`): the sampler state and its invariant `Consistent`.
  That invariant ties the state to the accepted presentation times.
- `shader.dfy` (`Shader`): shader compilation and linking.
- `texture_bank.dfy` (`TextureBank`): `updateTexture` and `drawScene`'s bindings.
- `pipeline.dfy` (`Pipeline`): the system state, startup, the three event
  handlers, runs over event traces, and the trace theorems.
- `geometry.dfy` (`Geometry`): the quad's texture coordinates (see Findings).
- `wrappers.dfy` (`Wrappers`): `Option`, standing for the `null` returns.

The key invariant is `Sampler.Consistent`. After accepted times h, entry f
sits on canvas (f - 1) mod 4. That canvas still holds `Picture(h[f-1])`. So
the canvas a new sample draws into is held by no entry that survives the
sample, and once the buffer is full it is the canvas of the evicted entry at
index 0.
`Pipeline.DrawShowsHistory` builds on this. It shows that every draw reads,
through unit i, the picture of the i-th oldest of the last buffered accepted
frames.

## Model

| member | source | states |
|---|---|---|
| Sampler.Initial | script.js:7-13 | Before any sample the buffer is empty, the counter and the cursor are 0, lastVideoTime is -1, and all MAX_FRAMES canvases are blank |
| Sampler.Sample | script.js:166-182 | An unchanged presentation time leaves the whole state alone. Either way lastVideoTime ends equal to the sampled time. An accepted sample adds 1 to frameCount, advances the cursor mod 4, draws the picture into the cursor's canvas, and appends an entry with the new count on that canvas. It drops index 0 exactly when the buffer was already full |
| Sampler.InitialConsistent | script.js:7-13 | The startup state is consistent with an empty history of accepted times |
| Sampler.SampleTwiceIsNoOp | script.js:167-170 | Sampling the same presentation time twice has the same effect as sampling it once |
| Sampler.SampleNeverShrinks | script.js:177-179 | A sample never shortens the buffer, and never takes it past MAX_FRAMES |
| Sampler.SamplePreservesConsistent | script.js:170-181 | A sample keeps the state consistent with the accepted history, extended by t exactly when t differs from lastVideoTime. Consistent means: counter and cursor agree with the count, entries hold the last min(k, 4) frames consecutively, entry f is on canvas (f-1) mod 4, and that canvas still holds frame f's picture |
| Sampler.DistinctCanvases | script.js:173-181 | In a consistent state no two buffered entries share a canvas |
| Sampler.OverwriteSparesRetained | script.js:173-179 | The canvas an accepted sample draws into belongs to no entry that survives the sample. When the buffer was full, it is the canvas of the evicted entry at index 0 |
| Shader.LoadShader | script.js:322-334 | A shader object exists exactly when the driver reports a successful compile, and it is of the requested stage and source |
| Shader.InitShaderProgram | script.js:300-320 | The result is null unless the vertex compile, the fragment compile and the link all succeed. Otherwise the program is made of exactly the two given stages |
| Shader.LoadAndCompileShader | script.js:17-51 | The result is null exactly when the program fails. On success it holds the fixed vertex stage, the chosen fragment file, and every attribute and uniform name the draw uses |
| TextureBank.UpdateTexture | script.js:234-244 | Slot i receives the canvas of frames[i] for every i below the frame count. Every later slot keeps its old contents, and the slot count is unchanged |
| TextureBank.DrawScene | script.js:285-297 | A draw uses the given program. Texture slot i is on unit i with its current contents, and the realtime texture is last, on unit 4 through uSamplerRealtime. Slot i is read through the uniform SamplerUniform(i), which with Decimal models the template literal of script.js:288 |
| TextureBank.DrawSceneWiring | script.js:285-293 | With 4 slots, the uniforms set are uSampler, uSampler1, uSampler2, uSampler3 and uSamplerRealtime, in that order. All of them are names loadAndCompileShader looked up. No two bindings share a unit or a uniform |
| Pipeline.Boot | script.js:127-141 | Startup succeeds exactly when the first shader file compiles and links. It then has no draws, the sampler is in its initial state, all textures and the realtime texture hold the initial blue pixel, and the program is the full record built for that file |
| Pipeline.Render | script.js:147-162 | Every tick uploads the live frame to the realtime texture. One draw is appended if and only if at least MAX_FRAMES - 1 frames are buffered. In that case slot i gets buffer entry i's canvas and later slots are untouched. Otherwise textures and draws stay as they were. The sampler and program are never changed |
| Pipeline.ChangeShader | script.js:118-125 | A failed compile or link leaves the system exactly as it was. A success changes only the active program, to the record built for the selected file: the fixed vertex stage, that file's fragment stage, and every attribute and uniform name the draw uses |
| Pipeline.Step | script.js:143-163 | Each of the three callbacks keeps every index the next callback uses in range |
| Pipeline.Run | script.js:143-163 | A run keeps every index in range, and it only appends draws: the earlier draws are kept as they were |
| Pipeline.RunReachable | script.js:166-182 | Every run keeps the system consistent with the accepted history, extended by the times the run accepts (the AcceptedFrom reference definition). Texture slots beyond the buffer's length still hold their initial pixel |
| Pipeline.FifoWindow | script.js:166-182 | After any run with k accepted samples: frameCount is k, the cursor is k mod 4, and lastVideoTime is the last accepted time. The buffer holds exactly frames max(1, k-3) .. k, consecutive and increasing. Each is on canvas (f-1) mod 4 showing the f-th accepted picture |
| Pipeline.RunDistinctCanvases | script.js:173-181 | In every reachable state, the buffered entries hold pairwise distinct canvases |
| Pipeline.DrawShowsHistory | script.js:147-160 | Past warm-up, a render tick issues one draw with the active program. Unit i shows the i-th oldest of the buffered accepted frames. Slots beyond the buffer show the initial blue pixel, and uSamplerRealtime shows the live frame |
| Pipeline.SteadyNeverReverts | script.js:177-179 | No run shortens the buffer, so once the render gate opens it stays open |
| Pipeline.SteadyDrawCount | script.js:157-160 | Once at least MAX_FRAMES - 1 frames are buffered, a run issues exactly one draw per render tick and none for any other event |
| Pipeline.WarmUpDrawsNothing | script.js:157-160 | While fewer than MAX_FRAMES - 1 frames have been accepted in all, a run issues no draw |
| Pipeline.NoDrawBeforeWarmUp | script.js:157-160 | A run from startup that accepts fewer than MAX_FRAMES - 1 frames issues no draw |
| Pipeline.ProgramDoesNotDisturbFrames | script.js:118-125 | Runs of the same events from systems that differ only in their program agree on frames, canvases, textures, the number of draws, and what every draw binds: the same contents through the same uniforms and units |
| Pipeline.ShaderChangeFailOpen | script.js:118-125 | After a failed shader change, the rest of the run is exactly what it would have been without the change. After any shader change, frames, textures and the pictures every draw binds evolve as without it |
| Pipeline.ScenarioEvictsOldest | script.js:166-182 | A concrete run: the repeated time is ignored, frame 1 is evicted, and frames 2..5 remain with their own pictures |
| Geometry.WrittenBottomRightMismatch | script.js:197-203 | As written, the bottom-right vertex samples texture point (0, 1) where (1, 1) is upright; the other three corners are right |
| Geometry.CorrectedCornersMatch | script.js:197-203 | With the repeated pair removed, there is one pair per vertex and every corner samples the texture upright |

## Left out

- WebGL calls (texture creation and parameters, buffer setup, attribute pointers, `clear`, `drawArrays`) are foreign GPU API. Uploads are slot assignments and a draw is a recorded `DrawCall`.
- The `u_resolution` uniform (script.js:295) is not recorded in a draw. Its value comes from the canvas size, which `resizeCanvas` sets with floating-point aspect arithmetic for the browser (script.js:75-90). That code is not modelled either.
- `getUserMedia`, `video.play`, the `fetch` of shader text and the selector's option list are I/O and UI. A shader file name stands for its fetched text.
- The missing-WebGL-context exit of `main` (script.js:56-59) is startup I/O. `Boot` models only the initial-shader failure exit.
- Timing of `setInterval` and `requestAnimationFrame` is not modelled. Runs are arbitrary interleavings of atomic events.
- The change handler awaits a fetch before compiling. A `ShaderChange` event stands for the handler's completion. Other events may come before it but not during it, as on the event loop.
- A shader change that completes before startup has loaded the first shader, or after startup failed, is not modelled. `Boot` ends with the first program in place.
- The `offset` computed in `render` (script.js:152-154) is never used.
- `frameCount` is a JavaScript number, which stops growing past 2^53; the model's counter is an unbounded `nat`. Sequence numbers are read only by the unused `offset`, so nothing observable depends on it.
- JavaScript `===` on `NaN` presentation times is not modelled. Times are compared with mathematical equality.
- Shader and program objects are never deleted after a swap, and compile logs are commented out in the source. Neither appears in the model.

## Findings

| source | as written | input that shows it | evidently intended | confidence | as-written member | corrected member |
|---|---|---|---|---|---|---|
| script.js:197-203 | the texture-coordinate array has five pairs for a four-vertex strip, with `0.0, 1.0` repeated | vertex 3, the bottom-right corner (1, -1), reads pair 3 = (0, 1) | pair 3 = (1, 1), one pair per vertex, so the image is drawn upright across the whole quad | medium, not executed; effects that sample by `gl_FragCoord / u_resolution` would not show it | Geometry.WrittenBottomRightMismatch | Geometry.CorrectedCornersMatch |
