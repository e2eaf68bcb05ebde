# Cave ripple effect — verified model

`cavering2.py` draws a background image through a full-screen fragment
shader that distorts and brightens it with ripples. Every mouse click, and
every mouse motion with the left button held, appends a `RipplePoint`
(normalised pointer position, seconds since start) to the list
`ripple_points`; once the list grows past `MAX_RIPPLES = 50` its front
(oldest) entry is dropped. Every frame the list is flattened into a
position array, a time array and a count and uploaded as the shader's
uniforms. For each pixel the shader remaps its texture coordinate to clip
space, and for every uploaded ripple adds a brightness term and a radial
displacement of the texture coordinate, both multiplied by the linear decay
`max(0, 1 - 2 * age)`.

The model, one module per component:

- `Geometry` (`geometry.dfy`): `Vec2` and the two affine remaps, texture
  to clip (`uv * 2 - 1`) and clip to texture (`(position + 1) * 0.5`), with
  their round trips.
- `Ripples` (`ripples.dfy`): the `RipplePoint` record, `MAX_RIPPLES`, one
  append-and-evict step as a function (`Appended`), a batch of appends
  (`Replay`) and the proof that the list always holds the newest 50 records
  in append order.
- `MainLoop` (`main_loop.dfy`): the event handling of the main loop. Events
  are a datatype; pointer normalisation and the tick-to-seconds conversion
  are functions. `RippleLog` is a class whose `points` field is the list the
  source mutates in place; `Append` does the source's `append` then
  `pop(0)`, and `HandleEvents` runs the event loop over one frame's batch.
- `Uniforms` (`uniforms.dfy`): the per-frame packing into
  `positions` / `times` / `count` (an `Upload`), the shader's reading of them, and the
  proof that packing and reading back are inverse.
- `Shader` (`shader.dfy`): the fragment shader's ripple loop. `Field` is
  the loop as a fold over the list. `Shade` is the loop itself over the
  uploaded arrays and is proved equal to `Field`. The decay factor is exact.
  The wave (`sin`/`cos` of `len * 20 - age * 12`, with `len` the Euclidean
  distance) is an abstract oscillator parameter.
- `Wrappers` (`wrappers.dfy`): `Option`.

At a ripple's exact centre the shader divides a zero vector by a zero
length. Nothing guards that division. The model gives no value there: the
displaced coordinate becomes `None`, and stays `None` for the rest of the
loop, whatever the ripple's strength. No epsilon or clamping policy is
added. Pointer coordinates outside the window are not clamped before
normalisation either; the model follows the code.

Times and pointer positions are inputs. `HandleEvents` takes the pointer
position and tick count read for each event, plus the start tick. `Shade`
takes the current time. All numbers are exact reals.

## Model

| member | source | states |
|---|---|---|
| `Geometry.ToTexture` | cavering2.py:14 | the vertex remap maps the clip square onto the unit square (in both directions) and the clip origin to the texture centre |
| `Geometry.ToClip` | cavering2.py:31 | the fragment remap maps the unit square onto the clip square (in both directions) and the texture centre to the clip origin |
| `Geometry.ClipOfTexture` | cavering2.py:14-31 | the fragment stage recovers the vertex position exactly: remapping to texture space and back is the identity |
| `Geometry.TextureOfClip` | cavering2.py:14-31 | remapping a texture coordinate to clip space and back is the identity |
| `Geometry.ClipOffset` | cavering2.py:31-39 | pixel and ripple centre go through the same remap, so their clip offset is twice their texture offset, and it is zero exactly when the two coincide |
| `Ripples.Appended` | cavering2.py:126-129 | one append step keeps a list within capacity, puts the new record last, removes nothing below capacity, and at capacity removes exactly the front record |
| `Ripples.Replay` | cavering2.py:126-129 | a batch of append steps keeps a list within capacity, and a non-empty batch leaves its own last record at the end of the list |
| `Ripples.ReplayKeepsNewest` | cavering2.py:126-129 | after any sequence of appends to a list within capacity, the list is exactly the newest 50 of the old records followed by the appended ones, in append order, and holds at most 50 |
| `Ripples.FromEmpty` | cavering2.py:111-129 | starting from the empty list, after appending e1..eN the list is the last min(N, 50) records in append order |
| `Ripples.OneOverCapacity` | cavering2.py:111-129 | appending 51 records to the empty list leaves 50, all but the first |
| `Ripples.AppendedKeepsTimeOrder` | cavering2.py:124-129 | appending a record no earlier than the list's last keeps the list in time order, and the record an append at capacity evicts is no later than any record left in the list |
| `Ripples.NewestKeepsTimeOrder` | cavering2.py:128-129 | dropping records from the front of a time-ordered list leaves it time-ordered |
| `Ripples.ReplayKeepsTimeOrder` | cavering2.py:124-129 | when the old list followed by a batch is in time order, the list after appending the whole batch is in time order |
| `MainLoop.Normalize` | cavering2.py:125 | the pointer maps to texture space with x scaled by 800 and y flipped and scaled by 600; it lies in the unit square exactly when the pixel lies in the 800 x 600 window |
| `MainLoop.NormalizeCorners` | cavering2.py:72-125 | the window's four corners map to the unit square's corners with the y-axis flipped |
| `MainLoop.NormalizeFlipsY` | cavering2.py:125 | a lower pointer position gives a lower ripple position, and conversely |
| `MainLoop.Seconds` | cavering2.py:124 | the spawn time is the elapsed ticks in seconds; it is non-negative exactly when the tick count is not before the start |
| `MainLoop.SpawnedBy` | cavering2.py:122-126 | an event spawns at most one ripple, and one exactly when it is a click or a left-button drag; the ripple lies in the unit square exactly when the pointer lies in the window, and its time is non-negative exactly when the event is not before the start |
| `MainLoop.Spawns` | cavering2.py:117-126 | a batch spawns at most one ripple per event, none when no event is a click or a left-button drag, and every spawned ripple comes from such an event of the batch |
| `MainLoop.SpawnsSnoc` | cavering2.py:117-126 | before any Quit, handling one more event adds exactly that event's ripples after the earlier ones |
| `MainLoop.SpawnsStopAtQuit` | cavering2.py:117-120 | no event after the first Quit spawns a ripple |
| `MainLoop.RippleLog.constructor` | cavering2.py:111 | the list starts empty |
| `MainLoop.RippleLog.Append` | cavering2.py:126-129 | the new list is one append step of the old; below capacity it is the old list plus the record, at capacity the old list without its front plus the record; the capacity bound is kept |
| `MainLoop.RippleLog.HandleEvents` | cavering2.py:117-129 | after a batch of events the list is the newest 50 of the old list followed by the batch's ripples up to the first Quit, and Quit is reported exactly when the batch holds one |
| `Uniforms.Flatten` | cavering2.py:139 | the position array has two entries per ripple, entry 2i the x and 2i+1 the y of ripple i |
| `Uniforms.Times` | cavering2.py:140 | the time array has one entry per ripple, entry i the spawn time of ripple i |
| `Uniforms.Unpack` | cavering2.py:26-38 | the shader reads back exactly `ripple_count` ripples from the two arrays |
| `Uniforms.Pack` | cavering2.py:139-144 | the upload is well formed with count equal to the list length, the shader reads back exactly the list, and a list within capacity fits the shader's 50-entry arrays |
| `Uniforms.PackOfUnpack` | cavering2.py:139-144 | every well-formed upload is the packing of what the shader reads from it, so packing is a bijection onto well-formed uploads |
| `Shader.Strength` | cavering2.py:42 | the decay factor is never negative, is at most 1 exactly for non-negative ages, and is zero exactly from age 0.5 on |
| `Shader.StrengthDecays` | cavering2.py:42 | the decay factor never increases with age |
| `Shader.BrightnessTerm` | cavering2.py:44 | a decayed ripple adds no brightness, and a unit wave at a non-negative age adds at most 0.05 in magnitude |
| `Shader.DisplacementTerm` | cavering2.py:48 | the displacement is undefined exactly at the ripple centre, and elsewhere a decayed ripple displaces by zero |
| `Shader.Step` | cavering2.py:36-48 | a decayed ripple leaves the brightness unchanged, and both accumulators unchanged off its centre; on its centre the displaced coordinate becomes undefined and stays so |
| `Shader.Live` | cavering2.py:42 | a ripple is live exactly when it is in the list and its decay factor is still positive; the live list is no longer than the list |
| `Shader.LiveConcat` | cavering2.py:36-42 | selecting the live ripples of two lists one after the other gives the live ripples of each, in the same order |
| `Shader.Field` | cavering2.py:36-49 | when every ripple has decayed and none is centred on the pixel, the ripple loop leaves the texture coordinate undisturbed and adds no brightness |
| `Shader.Accumulate` | cavering2.py:37-48 | one pass of the loop body updates the displaced coordinate and the total brightness exactly as one ripple step does |
| `Shader.Shade` | cavering2.py:30-49 | the shader loop over the uploaded arrays computes the same displaced coordinate and total brightness as the ripple loop over the list the arrays encode |
| `Shader.DecayedAddNoBrightness` | cavering2.py:42-45 | the total brightness equals the total over the live ripples alone |
| `Shader.DecayedDisplaceNothing` | cavering2.py:42-48 | when the pixel is on no ripple's centre, the displaced coordinate equals the one computed from the live ripples alone |
| `Shader.UndefinedExactlyAtCentres` | cavering2.py:39-48 | the displaced coordinate is undefined exactly when some ripple in the list, decayed or not, is centred on the pixel |
| `Shader.BrightnessBounded` | cavering2.py:42-45 | with a unit wave and no ripple from the future, the total brightness is within 0.05 per live ripple |
| `Shader.BrightnessSuperposes` | cavering2.py:33-45 | the brightness over two lists one after the other is the sum of their brightnesses, so ripple order does not matter and coincident ripples add up |
| `Shader.ShadeSeesTheLog` | cavering2.py:139-144 | the shader evaluated over the packed list gives the same result as the ripple loop over the list itself |

## Left out

- Window, display and image loading (cavering2.py:71-78): pygame I/O.
- OpenGL plumbing (cavering2.py:63-68, 81-106, 132, 136, 142-147): texture creation, shader compilation, vertex buffer, uniform lookup and upload calls, and the draw call are foreign calls. `Pack` models what is uploaded, not the upload.
- The wave terms (cavering2.py:39, 44, 48): `length`, `sin` and `cos` are transcendental floating point. An oscillator parameter supplies the sine and the cosine-over-length for each offset and age. The constants 20 and 12 therefore do not appear.
- Texture sampling and colour output (cavering2.py:52-53, 84-85): `texture2D` with linear filtering and the colour add are GPU behaviour. The model ends at the displaced coordinate and the total brightness.
- IEEE behaviour at a ripple centre: an undefined coordinate is `None`. The model does not say what the GPU produces there.
- Timing and the frame loop (cavering2.py:109-110, 115, 135, 150-151): the clock, `get_ticks`, `get_pos` and frame pacing are inputs. Each event carries the pointer position and tick count read when it is handled, and `Shade` takes the current time. The endless frame loop is not modelled as a loop. One frame is `HandleEvents`, then `Pack`, then `Shade` for each pixel.
- Quit (cavering2.py:118-120): ending the process is modelled only as "stop handling events and report quit".
- float32 precision (cavering2.py:139-140): all numbers are exact reals, with no rounding.
- The other variants of the effect (a single-latest-ripple shader with an ambient wave, and a CPU path drawing fading circles with a drag-distance throttle) live in other files of the repository. Those files are not part of this model.
