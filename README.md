# Particles: a Dafny model of the frame loop and the pixel blend

The program is a Windows Forms toy. It animates a million particles that are drawn towards the
mouse cursor, and it paints them into a 32-bit ARGB bitmap. This model covers the integer and
array logic at its core:

- `LockBitmap.Blend`: the "linear light" pixel blend. It lives in module `Pixel`, with C# `int`
  and `uint` values as bounded integers and the shifts, masks and ORs written out arithmetically.
- `LockBitmap`: the framebuffer, as a class owning a `Width * Height` pixel array. Its
  `LockBits`/`UnlockBits` lifecycle is a `locked` flag. This is module `Canvas`.
- `MainForm.AnimateImpl`: one physics step of a particle. `Physics` holds it as a function
  (`Step`); `Particles.MainForm.AnimateImpl` is the in-place, field-by-field version and is
  proved equal to it.
- The partition of the particle indices into ranges (`Partitioning`).
- The periodic sort by row and column (`Ordering`).
- The frame that one render pass produces (`Render`).
- The form itself: `Init`, `Animate`, `DrawParticles`, `RenderParticle` and the idle loop, as
  class `Particles.MainForm` with the particle array, the framebuffer, the range size and the
  pass counter as fields.

What is proved, in the program's terms:

- **Blend.** Alpha is always 0xff. Red and green are the clamped linear-light blend of the two
  channels, with the documented corner values (a top channel of 255 gives 255, 0 gives 0, 128
  gives base + 1, 127 gives base - 2). The bottom pixel's alpha byte is ignored.
- **The blue channel is always 0.** The top colour's blue term is written `top >> 0xff`. C#
  takes an `int` shift count modulo 32, so this is `top >> 31`: 0 or -1, never the low byte.
  Both values are below 0x80, so the blue formula always clamps to 0. The model keeps the
  expression exactly as written. With the LightSalmon particle colour (0xffffa07a) on the black
  background, a pixel hit by n particles becomes 0xffff0000 plus min(65 n, 255) * 0x100.
- **Memory safety.** `SetPixel` does no bounds check, so it requires its index to be inside the
  buffer. `RenderParticle` discharges that requirement from "the particle is inside the area",
  and the render pass requires every particle to be inside the area.
- **Reflection.** The reflection of lines 95-119 brings a coordinate back into the area only
  when the displacement lies in [-(size - 1), size]. The code has no clamp. With exact
  arithmetic, the damping and the dead zone bound every velocity by
  MaxSpeed = (Attraction / 20) / (1 - Damping), about 333.5 pixels per step. So in an area at
  least 334 pixels on each side, a particle that starts inside at rest stays inside forever
  (`StepStaysSettled`, kept as an invariant by `HandleApplicationIdle`).
- **DrawParticles.** The pass counter increments modulo 2^64. The sort runs exactly when the
  counter's value before the increment is a multiple of 5000, so the first frame sorts. The
  sort leaves a permutation ordered by (Y, X). The frame is the black frame with every particle
  blended in.
- **Partition.** The range size is max(N / P / 2, 100). The ranges are consecutive, non-empty,
  at most one range size long, and cover [0, N), each index exactly once.
- **Order independence.** Every particle has the same colour, so the frame does not depend on
  the order in which the particles are rendered. Any sequential interleaving of the workers'
  ranges therefore gives the same frame.

Facts about the code that the model keeps:

- `Array.Sort` is not stable, so the periodic sort promises only the (Y, X) order and a
  permutation of the particles, not the relative order of particles on the same pixel.
- The sort runs inside `DrawParticles`, after that frame's `Animate` and after the clear.
- Reflection brings a coordinate back into the area only for displacements smaller than the
  area. The model shows that this always holds for areas of at least 334 x 334.
- The pass counter is a `ulong` and wraps at 2^64.

## Model

| member | source | states |
|---|---|---|
| Pixel.AsInt32 | Particles/LockBitmap.cs:87 | the unchecked `(int)` cast keeps the value modulo 2^32 and is negative exactly when the top bit is set |
| Pixel.AsUInt32 | Particles/LockBitmap.cs:87 | the unchecked `(uint)` cast is undone by the `(int)` cast |
| Pixel.CastRoundTrip | Particles/LockBitmap.cs:87 | a stored `uint` pixel read as `int` and written back as `uint` is unchanged |
| Pixel.LowByte | Particles/LockBitmap.cs:31-35 | `& 0xff` yields a byte congruent to its argument modulo 256 |
| Pixel.Clamp | Particles/LockBitmap.cs:40-63 | values in [0, 255] pass through, larger ones become 255, negative ones 0 |
| Pixel.OpaqueArgb | Particles/LockBitmap.cs:65-68 | the repacked pixel has alpha 0xff and exactly the given red, green and blue channels |
| Pixel.ChannelBlend | Particles/LockBitmap.cs:37-55 | a top channel >= 128 never darkens the base and one < 128 never brightens it; top 255 gives 255, top 0 gives 0, top 128 gives base + 1 (clamped), top 127 gives base - 2 (clamped) |
| Pixel.SignedChannels | Particles/LockBitmap.cs:31-35 | shifting and masking the signed view of a pixel gives its red, green and blue bytes |
| Pixel.SignShift | Particles/LockBitmap.cs:36 | the blue term `top >> 0xff` is -1 for a negative `top` and 0 otherwise |
| Pixel.ShiftRight | Particles/LockBitmap.cs:31-36 | `>>` on an `int` keeps the sign of its operand, and a count that is a multiple of 32 shifts nothing |
| Pixel.ShiftRightFloors | Particles/LockBitmap.cs:31-36 | `v >> count` is the floor of v / 2^(count % 32) |
| Pixel.BlendChannels | Particles/LockBitmap.cs:29-69 | the blended pixel has alpha 0xff, red and green equal to the channel blend of the two colours' channels, and blue 0 for every input |
| Pixel.ChannelBlendMonotone | Particles/LockBitmap.cs:37-55 | the channel blend is monotone in both the base and the top channel |
| Pixel.PixelFromChannels | Particles/LockBitmap.cs:67 | a pixel is the sum of its four channels at their bit positions |
| Pixel.ColourChannelsAreLow | Particles/LockBitmap.cs:31-33 | red, green and blue are determined by the low 24 bits |
| Pixel.Blend | Particles/LockBitmap.cs:29-69 | the blended pixel is always opaque (alpha 0xff) |
| Pixel.BlendPixel | Particles/LockBitmap.cs:87 | blending into a stored `uint` pixel always gives an opaque pixel |
| Pixel.BlendIgnoresBottomAlpha | Particles/LockBitmap.cs:31-33 | two bottom pixels that differ only in alpha blend to the same pixel |
| Pixel.SalmonStep | Particles/LockBitmap.cs:37-68 | blending a colour with red 255 and green 0xa0 gives red 255, blue 0, and the old green plus 65, saturating at 255 |
| Pixel.SalmonHits | Particles/LockBitmap.cs:82-89 | n >= 1 successive blends of such a colour onto a pixel without green give green min(65 n, 255) |
| Pixel.SalmonOnBlack | Particles/MainForm.cs:12 | n >= 1 LightSalmon particles on opaque black give the pixel 0xffff0000 + min(65 n, 255) * 0x100 |
| Canvas.PixelIndexInBuffer | Particles/LockBitmap.cs:84 | a point inside the bitmap has its index `y * Width + x` inside the buffer |
| Canvas.LockBitmap.constructor | Particles/LockBitmap.cs:16-23 | the width, height and buffer length `Width * Height` are fixed; a new bitmap is all zero and unlocked |
| Canvas.LockBitmap.LockBits | Particles/LockBitmap.cs:71-80 | locking moves an unlocked bitmap to the locked state and changes nothing else |
| Canvas.LockBitmap.UnlockBits | Particles/LockBitmap.cs:91-101 | unlocking moves a locked bitmap back to the unlocked state |
| Canvas.LockBitmap.Fill | Particles/LockBitmap.cs:103-112 | while locked, every one of the `Width * Height` pixels equals the colour afterwards |
| Canvas.LockBitmap.SetPixel | Particles/LockBitmap.cs:82-89 | while locked and with the index in the buffer, pixel `y * Width + x` becomes the blend of its old value with the colour and every other pixel is unchanged |
| Physics.Truncate | Particles/MainForm.cs:95-96 | `(int)` of a double rounds toward zero: the result has the value's sign and is less than 1 away from it |
| Physics.Pull | Particles/MainForm.cs:80-88 | the attraction factor is 0 in the dead zone (squared distance < 400); outside it is positive and equals Attraction / squared distance, so the division never has a zero divisor |
| Physics.Reflect | Particles/MainForm.cs:100-119 | a coordinate bounces exactly when it is outside [0, size); past the far edge it becomes 2 size - 1 - pos (W + 5 becomes W - 6); below 0 it becomes -pos; the result is inside exactly when -size < pos < 2 size |
| Physics.Accelerate | Particles/MainForm.cs:75-94 | inside the dead zone the velocity is only damped; outside it the pull on each axis points towards the cursor: the axis velocity is larger than the damped one when the cursor is ahead, smaller when it is behind, equal when level |
| Physics.Rebound | Particles/MainForm.cs:121-128 | an axis that did not bounce keeps its velocity; one that bounced has it reversed in direction and halved in size |
| Physics.Step | Particles/MainForm.cs:73-129 | a step never speeds a particle up beyond its accelerated velocity on either axis |
| Physics.StepInArea | Particles/MainForm.cs:95-119 | a step lands inside the area exactly when the unreflected position is less than one area away from it on both axes |
| Physics.StepAll | Particles/MainForm.cs:64-70 | a pass steps each particle on its own: element i of the result is the step of element i |
| Physics.StepAllAppend | Particles/MainForm.cs:64-70 | stepping two parts of the population separately and concatenating is stepping the whole, so ranges can be processed independently |
| Physics.StepAllPermutation | Particles/MainForm.cs:136-143 | stepping a permutation of the particles gives a permutation of the stepped particles, so the sort between passes does not change which particles exist |
| Physics.StepAxes | Particles/MainForm.cs:97-128 | an axis that stays inside keeps its advanced coordinate and its accelerated velocity; an axis that left is reflected, changes coordinate, and only its velocity is negated and halved |
| Physics.ReflectStaysInside | Particles/MainForm.cs:95-119 | a coordinate inside the area moved by a displacement in [-(size - 1), size] reflects back inside |
| Physics.PullBound | Particles/MainForm.cs:80-90 | the pull on one axis is at most Attraction / 20 in size |
| Physics.DampedPullKeepsSpeed | Particles/MainForm.cs:89-94 | damping a velocity of at most MaxSpeed and adding a pull of at most Attraction / 20 keeps it within MaxSpeed |
| Physics.AxisKeepsSpeed | Particles/MainForm.cs:89-94 | one axis of the velocity update keeps a speed of at most MaxSpeed within MaxSpeed |
| Physics.AccelerateKeepsSpeed | Particles/MainForm.cs:75-94 | the velocity update keeps both axes within MaxSpeed |
| Physics.TruncatedSpeed | Particles/MainForm.cs:95-96 | a velocity within MaxSpeed moves a coordinate by at most 333 pixels |
| Physics.StepStaysSettled | Particles/MainForm.cs:73-129 | in an area at least 334 pixels on each side, a particle inside the area and within MaxSpeed is still both after a step |
| Partitioning.ChunkSize | Particles/MainForm.cs:196 | the range size is never below 100, and is exactly 100 when N < 202 P |
| Partitioning.NestedDivision | Particles/MainForm.cs:196 | `N / P / 2` is the floor of N / (2 P) |
| Partitioning.RangeCount | Particles/MainForm.cs:196 | the number of ranges is the least n with n * size >= N |
| Partitioning.ChunkSizeSplits | Particles/MainForm.cs:196 | with N >= 202 P the range size is floor(N / (2 P)): 2 P size <= N < 2 P (size + 1), about two ranges per processor |
| Partitioning.Ranges | Particles/MainForm.cs:196 | there are ceil(N / size) ranges; the first starts at 0, the last ends at N; each is non-empty and at most size long |
| Partitioning.RangesChain | Particles/MainForm.cs:196 | each range ends where the next one starts |
| Partitioning.BoundaryCover | Particles/MainForm.cs:64-70 | an index lies between the boundaries of range k exactly when k is the index divided by the range size |
| Partitioning.IndexHasRange | Particles/MainForm.cs:64-70 | every index of [0, N) has a range |
| Partitioning.RangesAreConsecutive | Particles/MainForm.cs:64-70 | the first range starts at 0, each ends where the next begins, the last ends at N, and each is non-empty and at most one range size long |
| Partitioning.RangesCoverOnce | Particles/MainForm.cs:145-151 | each index of [0, N) lies in exactly one range, the one numbered index / size |
| Partitioning.FourProcessors | Particles/MainForm.cs:196 | 1000 particles on 4 processors give a range size of 125 and eight ranges |
| Ordering.Compare | Particles/MainForm.cs:138-142 | the comparison is <= 0 exactly when `a` is in an earlier row or in the same row and not to the right, 0 exactly at the same position, and < 0 exactly when strictly before |
| Ordering.SortByPosition | Particles/MainForm.cs:138-142 | afterwards the array is ordered by (Y, X) and is a permutation of its old contents |
| Render.BlackFrame | Particles/MainForm.cs:134 | the cleared frame has every pixel opaque black |
| Render.Rendered | Particles/MainForm.cs:145-151 | rendering particles into a frame keeps its size (each pixel is blended once per particle on it; RenderedStep shows this is what SetPixel does one particle at a time) |
| Render.RenderedStep | Particles/MainForm.cs:201-205 | rendering one more particle gives the previous frame with the colour blended into the pixel under that particle, which is inside the frame, and every other pixel unchanged |
| Render.HitsPermutation | Particles/MainForm.cs:136-143 | reordering the particles does not change how many land on any pixel |
| Render.RenderOrderIrrelevant | Particles/MainForm.cs:145-151 | any permutation of the particles renders the same frame |
| Render.SalmonFrame | Particles/MainForm.cs:131-151 | a pixel no particle sits on stays opaque black; one with n particles becomes 0xffff0000 + min(65 n, 255) * 0x100 |
| Particles.Increment | Particles/MainForm.cs:136 | `_pass++` on a `ulong` stays in range and adds one modulo 2^64 |
| Particles.IncrementWraps | Particles/MainForm.cs:136 | incrementing a counter that holds s modulo 2^64 gives s + 1 modulo 2^64 |
| Particles.PassAfter | Particles/MainForm.cs:136 | the counter after n frames stays in the `ulong` range |
| Particles.PassAfterWraps | Particles/MainForm.cs:136 | n frames advance the counter by n modulo 2^64 |
| Particles.Animated | Particles/MainForm.cs:49-56 | the population after a pass towards each cursor sample in turn has the same size |
| Particles.AnimatedStep | Particles/MainForm.cs:53-54 | one more pass on a permutation of the animated population is a permutation of the population animated with one more sample |
| Particles.PlacedAreSettled | Particles/MainForm.cs:184-193 | particles placed inside the area at rest are settled |
| Particles.ReorderedAtRest | Particles/MainForm.cs:136-143 | sorting a population at rest leaves it at rest |
| Particles.RandomNext | Particles/MainForm.cs:190-191 | `Random.Next(m)` lies in [0, m), and is 0 when m is 0 |
| Particles.Init | Particles/MainForm.cs:182-193 | a new array of 1,000,000 particles, each inside the area and at rest |
| Particles.MainForm.constructor | Particles/MainForm.cs:169-180 | the area takes the form's size; a bitmap of that size is wrapped; the range size is ChunkSize(1,000,000, P); every particle is inside the area and at rest (zero velocity); the first frame sorts, shows the particles on black, and leaves the pass counter at 1 |
| Particles.MainForm.AnimateImpl | Particles/MainForm.cs:73-129 | the particle is replaced by its physics step and no other particle changes |
| Particles.MainForm.AnimateRange | Particles/MainForm.cs:64-70 | the particles of one range get their step; those after it are unchanged |
| Particles.MainForm.Animate | Particles/MainForm.cs:58-71 | every particle gets exactly one physics step towards the cursor, in place: the array becomes StepAll of its old contents |
| Particles.MainForm.RenderParticle | Particles/MainForm.cs:201-205 | for a particle inside the area, the write lands inside the buffer: the pixel under the particle is blended with the particle colour and no other pixel changes |
| Particles.MainForm.RenderRange | Particles/MainForm.cs:146-150 | the particles of one range are blended into the frame in index order |
| Particles.MainForm.RenderPass | Particles/MainForm.cs:145-151 | the frame afterwards is the old frame with every particle blended in |
| Particles.MainForm.DrawParticles | Particles/MainForm.cs:131-155 | the counter advances by one modulo 2^64; the particles are sorted by (Y, X) exactly when the old counter is a multiple of 5000 and untouched otherwise; they stay a permutation; the frame is the black frame with every particle blended in; the bitmap ends unlocked |
| Particles.MainForm.IdleStep | Particles/MainForm.cs:53-54 | one physics pass and one frame: the particles are a permutation of the stepped old particles, equal to them unless the old counter is a multiple of 5000, in which case they are sorted by (Y, X); the bitmap shows them on black; every particle stays inside the area and within MaxSpeed; the counter advances by one modulo 2^64 |
| Particles.MainForm.HandleApplicationIdle | Particles/MainForm.cs:49-56 | after one iteration per cursor sample the particles are a permutation of the population stepped towards each sample in turn, the bitmap shows them on black, every particle is still inside the area and within MaxSpeed, and the counter advanced by the number of iterations modulo 2^64; with no sample nothing changes |

## Left out

- Floating point: the velocities are exact reals, so rounding in the attraction, damping and restitution arithmetic is not modelled. `MaxSpeed` and the 334-pixel bound are derived for exact arithmetic.
- Physics.Truncate: does not model the out-of-range `(int)` conversion of a huge double, which exact reals bounded by MaxSpeed never reach.
- Particles.MainForm.AnimateImpl: does not model 32-bit wrap-around of `particle.X += (int)particle.Xv`, because positions stay within a few hundred pixels of the area.
- Concurrency: the `Parallel.ForEach` fan-outs run as one sequential pass over the ranges in order. The unsynchronised read-modify-write of a pixel shared by two workers can lose a blend; that lost update is not modelled. `Render.RenderOrderIrrelevant` shows that every sequential order gives the same frame.
- Particles.MainForm.HandleApplicationIdle: requires an area of at least 334 pixels on each side and particles inside the area and within MaxSpeed. The source has no such guard: in a smaller area a particle can leave the area, and its write then lands outside its row or outside the buffer, which the model does not represent. It also requires the bitmap to show the current particles on black, which the constructor and every frame leave true.
- Particles.MainForm.DrawParticles: requires every particle to be inside the area, the condition under which the source's unchecked writes stay in the buffer.
- Canvas.LockBitmap.constructor: requires `width * height < 2^31`. The source computes `_dataLength = Width * Height` in `int` arithmetic, which would overflow for larger bitmaps; the model does not represent that overflow.
- Particles.MainForm.constructor: requires `width * height < 2^31`, for the same reason, since it builds the `LockBitmap`.
- GDI: `Bitmap`, `Bitmap.LockBits` with its stride and pixel format, the static `_bitmapData` field, `Invalidate`, `Form1Paint` with its swallowed exception, and the form's style setup are left out. The locked buffer is taken to be `Width * Height` contiguous 32-bit pixels, and the lifecycle is the `locked` flag.
- Win32 idle detection (`PeekMessage`) and the `Application.Idle` subscription are left out. The idle loop takes a sequence of cursor samples, one per iteration.
- `Cursor.Position` and `PointToClient` are left out: the cursor position is a parameter of `Animate`.
- `System.Random` is left out: `Particles.RandomNext` makes an arbitrary choice in range.
- `Environment.ProcessorCount` is a parameter of the constructor.
- The internals of `Partitioner.Create` are left out. Only its contract is modelled: consecutive ranges of the given size covering [0, N).
- The `_init` flag of `Form1Shown` is left out, because the constructor runs once.
- Particles/Particle.cs is not part of this model. The particle is taken to have integer `X`, `Y` and double `Xv`, `Yv`.
