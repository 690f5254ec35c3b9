# imagemuggle in Dafny

imagemuggle is a small C tool for image filters: Sobel edge detection,
square-kernel convolution, bilinear resize and rotation about the centre.
Every filter reads a source image and writes a separate destination
buffer. Each filter runs a worker over a band of rows, and a dispatcher
splits the image rows among a number of threads.

This project models that core as pure Dafny functions over immutable
images and proves what each operation computes.

| file | module | models |
|---|---|---|
| `numeric.dfy` | `Numeric` | bytes; `clampi`; the truncating `(int)sqrt`; `roundf` (ties away from zero); `lrintf` (ties to even) |
| `pixels.dfy` | `Pixels` | the `[height][width][channels]` image of `create3DMatrix`; the interleaved offset `(y*w + x)*ch + c`; the load and save copy loops |
| `partition.dfy` | `Partition` | row ranges; the ceiling split of `launch_threads_by_rows`; the quotient/remainder split of `resize_concurrent` |
| `dispatch.dfy` | `Dispatch` | a worker as a rewrite of the rows in its range; the dispatchers, which run one worker per range |
| `sobel.dfy` | `Sobel` | `to_gray`, `makeOpMem` (zero padding), `convolution` (reversed kernel), `worker_sobel`, `sobel_concurrent` |
| `conv.dfy` | `Conv` | `clamp_xy` (edge replication), the kernel table index, the accumulator loop, `roundf` plus `clampi`, `worker_conv`, `conv_concurrent` |
| `sampler.dfy` | `Sampler` | `bilinear`, which resize.c and rotate.c each define identically |
| `rotate.dfy` | `Rotate` | the inverse map about `((w-1)/2, (h-1)/2)`, the bounds gate, `worker_rotate`, `rotate_concurrent` |
| `resize.dfy` | `Resize` | the centre-aligned coordinate `(x+0.5)*w/nw - 0.5`, `worker_resize`, `resize_concurrent` |

Images are `Image(width, height, channels, px)`, where `px` is a sequence
of rows. A row is a sequence of pixels and a pixel is a sequence of
channel bytes. `Valid()` says the nesting matches the three dimensions.

Workers are modelled as functions from a destination image to a new one.
Each has a contract saying which samples it rewrites and with which
value. The dispatch results (`LaunchByRows`, `LaunchResize`) are proved
equal to one pass of the worker over every row, for every thread count
(n >= 1 for resize).

Floating point is replaced by exact reals, and the angle is given by its
cosine and sine (`Rotate.Turn`). The grey-level weighting
`0.30R + 0.59G + 0.11B` is a parameter (`Sobel.Luma`). See "Left out".

Where the code and its documentation disagree, the model follows the
code:

- `worker_sobel` truncates the magnitude with `(int)sqrt`; it does not
  round it (`Numeric.ISqrt`, `Sobel.Magnitude`).
- For images of three or more channels `worker_sobel` writes channels 0
  to 2 only; further channels of the destination keep their values
  (`Sobel.WriteEdge`).
- `bilinear` clamps `x0`/`y0` from below only and `x1`/`y1` from above
  only. The weight `tx = xs - x0` uses the clamped `x0`
  (`Sampler.Corners`, `Sampler.Blend`).

## Model

| member | source | states |
|---|---|---|
| Numeric.Clamp255 | src/conv.c:15-17 | `clampi` returns the byte nearest to its argument (sobel.c:17-19 is the same helper) and leaves values of 0..255 unchanged |
| Numeric.ISqrt | src/sobel.c:178 | `(int)sqrt(n)` for a non-negative integer n is the largest r with r*r <= n |
| Numeric.RoundHalfAway | src/conv.c:83 | `roundf` gives an integer within 1/2 of its argument; a tie goes away from zero |
| Numeric.RoundHalfEven | src/resize.c:61 | `lrintf` gives an integer within 1/2 of its argument; a tie goes to the even neighbour |
| Numeric.RoundIntegral | src/resize.c:61 | both roundings return an integral value unchanged |
| Pixels.Create3DMatrix | src/utils_conc.c:39-65 | a freshly allocated height x width x channels image holds 0 in every sample (calloc) |
| Pixels.OffsetInBlock | src/utils_conc.c:41-61 | the pointer of sample (y, x, c) stays inside the single h*w*ch block |
| Pixels.OffsetInjective | src/utils_conc.c:61 | two distinct samples never share a flat offset |
| Pixels.OffsetOnto | src/utils_conc.c:41-61 | every index of the block is the offset of some in-range sample, so the block holds nothing else (that sample is unique by OffsetInjective) |
| Pixels.OffsetOrdered | src/utils_conc.c:172-176 | the flat layout is row-major and channel-interleaved: a sample later in (y, x, c) order sits at a larger offset |
| Pixels.LoadPixels | src/utils_conc.c:172-176 | the copy loop fills a fresh zeroed h x w x ch view so that sample (y, x, c) holds the byte at offset (y*w + x)*ch + c, which is the reference view `Load` of the buffer |
| Pixels.LoadOnto | src/utils_conc.c:172-176 | conversely, every byte of the buffer appears in the loaded image, at the position recovered from its offset |
| Pixels.LoadInjective | src/utils_conc.c:172-176 | two buffers that load to the same image are equal |
| Pixels.SavePixels | src/utils_conc.c:211-215 | the save loop writes h*w*ch bytes, each sample at its own offset, and loading that buffer gives back the image |
| Pixels.SaveAfterLoad | src/utils_conc.c:172-215 | the other direction of the round trip: loading a buffer and saving the image gives back the same bytes |
| Partition.ThreadCount | src/utils_conc.c:94-95 | a thread count below 1 is treated as 1 and any other count is used unchanged |
| Partition.CeilDiv | src/utils_conc.c:105 | rows per thread is the least q with q*n >= rows |
| Partition.CeilRanges | src/utils_conc.c:104-113 | there is one range per thread, range i is [min(i*per, rows), min(i*per + per, rows)) with per = ceil(rows / n), and the ranges tile [0, rows) in order; none is larger than per; threads that start past the end get an empty range |
| Partition.TilesPartition | src/utils_conc.c:106-113 | ranges that tile the rows cover each row exactly once and no row outside them |
| Partition.EvenRanges | src/resize.c:148-159 | the quotient/remainder ranges tile [0, nh); the first nh % n have nh / n + 1 rows and the rest nh / n; sizes differ by at most one |
| Dispatch.RowsFrom | src/conv.c:71 | the worker row loop from y to y1, one row per step, leaves every row of [y, y1) rewritten from its original contents and every other row as it was (the same loop is sobel.c:168, rotate.c:78, resize.c:90) |
| Dispatch.RunWorker | src/sobel.c:168 | one worker's row loop over [y0, y1) rewrites exactly the rows of its range and leaves every other row as it was |
| Dispatch.RunChain | src/utils_conc.c:106-122 | running workers over ranges that cover [a, b) in order rewrites exactly the rows of [a, b) |
| Dispatch.RunTiles | src/utils_conc.c:106-122 | running workers over any tiling of the rows gives the same image as one pass over every row |
| Dispatch.LaunchByRows | src/utils_conc.c:92-126 | for every thread count the dispatched workers rewrite every row once |
| Dispatch.LaunchResize | src/resize.c:148-177 | for every thread count n >= 1 the dispatched resize workers rewrite every row once |
| Sobel.GreyWindowIsRaw | src/sobel.c:33-35 | for a one-channel image the neighbourhood holds the raw samples, zero-padded, with no luminance weighting |
| Sobel.GreyIgnoresLuma | src/sobel.c:33-37 | the edge values of a one-channel image are the same whatever the luminance weighting |
| Sobel.ColourIgnoresExtraChannels | src/sobel.c:33-37 | the grey level of a colour pixel reads only its first three channels, so images that agree there have the same edge values |
| Sobel.OpMemRow | src/sobel.c:88-101 | one row of the 3x3 neighbourhood holds the grey levels of the three pixels, with 0 for each that is outside the image |
| Sobel.OpMem | src/sobel.c:83-102 | the 3x3 neighbourhood is the zero-padded grey window around (x, y), row by row, with the pixel's own grey level in the middle |
| Sobel.SobelKernelsReverseToNegation | src/sobel.c:162-163 | reversing either Sobel kernel negates it |
| Sobel.ConvolutionNegatesDot | src/sobel.c:117-123 | `convolution`, which walks the kernel backwards, is the negated dot product for a kernel that reversal negates, so its absolute value is the plain correlation's |
| Sobel.Magnitude | src/sobel.c:178-184 | the magnitude is the truncated square root of gx^2 + gy^2, capped at 255 |
| Sobel.SobelValue | src/sobel.c:170-184 | the edge value of (x, y) is the capped, truncated length of the two Sobel correlations of its zero-padded grey window |
| Sobel.WriteEdge | src/sobel.c:187-193 | the edge value goes to channel 0 of a grey image, to channels 0 to 2 otherwise, and any further channel is untouched |
| Sobel.SobelRow | src/sobel.c:169-194 | one row of output: every column gets the edge value in channels 0 to 2 and keeps its other channels |
| Sobel.SobelWorker | src/sobel.c:158-198 | a worker writes the edge value into the rows of its range and changes nothing else |
| Sobel.SobelConcurrent | src/sobel.c:222-230 | for every thread count, every pixel of the destination gets its edge value in channels 0 to 2 and keeps any further channel |
| Sobel.SobelUniformInterior | src/sobel.c:158-198 | in an image of one grey level, every pixel away from the border has edge value 0 |
| Sobel.SobelUniformCorner | src/sobel.c:88-101 | the zero padding makes the corner of a flat grey-10 image an edge of strength 42 |
| Sobel.SobelRampPixel | src/sobel.c:117-184 | on a ramp growing by 1 per column and 10 per row, the gradients of pixel (1, 1) are 8 and 80 and the edge value is 80 |
| Conv.ClampAxis | src/conv.c:31-40 | a clamped coordinate lies inside its axis and a coordinate already inside is unchanged |
| Conv.ClampXY | src/conv.c:31-40 | a clamped neighbour lies inside the image, and a neighbour already inside is unchanged |
| Conv.ClampXYNearest | src/conv.c:31-40 | each clamped coordinate is the nearest in-image coordinate (edge replication) |
| Conv.KernelIndexInTable | src/conv.c:79 | for odd k, every offset of the window indexes inside the k*k kernel table |
| Conv.KernelIndexInjective | src/conv.c:79 | distinct window offsets read distinct kernel entries |
| Conv.KernelIndexOnto | src/conv.c:75-79 | every kernel entry is read by some window offset |
| Conv.EvenKernelOverruns | src/conv.c:70-79 | for an even k the last window offset reads entry k*k + k, past the end of the table |
| Conv.WeightIsEntry | src/conv.c:79-80 | the weight for offset (ky, kx) is kernel entry (ky + r)*k + (kx + r) |
| Conv.Quantize | src/conv.c:83-84 | the output byte is 0 for a result at or below 0, 255 at or above 255, and otherwise within 1/2 of the result |
| Conv.ConvChannelsSeparate | src/conv.c:73-84 | an output sample depends only on its own channel of the source |
| Conv.ConvIdentity | src/conv.c:68-89 | the 1x1 kernel [1] with factor 1 and bias 0 reproduces the source |
| Conv.WeightsSumToTable | src/conv.c:75-80 | summed over the window, the weights add up to the sum of the kernel table |
| Conv.WeightAt | src/conv.c:75-80 | window cell (m, n), visited as offset (m - r, n - r), reads table entry m*k + n, which lies inside the table |
| Conv.UniformTerm | src/conv.c:77-80 | on a channel of one value v, every term of the window is v times that offset's weight, wherever the clamp sends the sample |
| Conv.TermsUniformTable | src/conv.c:75-80 | on a channel of one value v, the window's terms read in loop order are the kernel table with every entry scaled by v |
| Conv.AccUniform | src/conv.c:74-82 | on a channel of one value v, a kernel summing to 1 accumulates exactly v |
| Conv.ConvUniform | src/conv.c:74-84 | on a channel of one value, a kernel summing to 1 with factor 1 and bias 0 gives that value back |
| Conv.ConvWorker | src/conv.c:68-89 | a worker writes the convolved value into every sample of the rows of its range and changes nothing else |
| Conv.ConvLaunch | src/conv.c:113-126 | dispatching the convolution worker over the rows, with any thread count, leaves a destination of the source's shape holding the convolved value in every sample |
| Conv.ConvConcurrent | src/conv.c:113-126 | for every thread count, every sample of the destination is the convolved value of the source |
| Sampler.Corners | src/resize.c:46-55 | the one-sided clamps leave both corners in bounds exactly when the floor lies in [-1, n-1]; then they coincide or are f and f+1 |
| Sampler.InsideSamplable | src/rotate.c:86-87 | a point inside [0, w) x [0, h) can be sampled |
| Sampler.LerpBetween | src/resize.c:59-61 | a blend with weight in [0, 1], or of two equal values, stays between the two values |
| Sampler.Blend | src/resize.c:56-61 | the unrounded interpolation lies between the lowest and highest of the four corner samples |
| Sampler.Bilinear | src/resize.c:44-62 | the sample is a byte between the lowest and highest of its four corner samples |
| Sampler.BilinearAtPixel | src/rotate.c:44-49 | sampling exactly at a pixel's coordinates returns that pixel's sample |
| Rotate.Centre | src/rotate.c:126-127 | the centre is equidistant from the first and last index, and is the middle index when the extent is odd |
| Rotate.CentreFixed | src/rotate.c:80-83 | the centre maps to itself at every angle |
| Rotate.StillMapsToItself | src/rotate.c:80-83 | at angle 0 every point maps to itself |
| Rotate.MapKeepsRadius | src/rotate.c:80-83 | for cos^2 + sin^2 = 1 the inverse map keeps each point's distance from the centre |
| Rotate.ReverseUndoesMap | src/rotate.c:80-83 | for cos^2 + sin^2 = 1, mapping by the angle and then by its negative returns the original point |
| Rotate.RotateValue | src/rotate.c:84-88 | a destination sample is 0 when its source point is outside the image, and otherwise lies between the four corner samples around the source point |
| Rotate.RotateStill | src/rotate.c:76-89 | at angle 0 every sample keeps its value |
| Rotate.RotateCentre | src/rotate.c:77-88 | in an image of odd width and height the centre pixel keeps its value at every angle |
| Rotate.RotateWorker | src/rotate.c:74-93 | a worker writes the rotated value into every sample of the rows of its range and changes nothing else |
| Rotate.RotateLaunch | src/rotate.c:118-130 | dispatching the rotation worker over the rows, with any thread count, leaves a destination of the source's shape holding the rotated value in every sample |
| Rotate.RotateConcurrent | src/rotate.c:118-130 | for every thread count, every sample of the destination is the rotated value |
| Rotate.RotateStillImage | src/rotate.c:118-130 | rotating by angle 0 reproduces the source image, for every thread count |
| Resize.Scale | src/resize.c:88-89 | the scale factor times the target extent is the source extent; it is positive for a non-empty source and 1 at equal sizes |
| Resize.SourceCoord | src/resize.c:92-93 | every target index maps to a source coordinate whose floor lies in [-1, src-1], and equal sizes map each index to itself |
| Resize.CoordInside | src/resize.c:92-93 | the source coordinate of a target index lies strictly between -1 and src - 1/2 |
| Resize.SourceCoordMonotone | src/resize.c:92-93 | later target indices map to strictly later source coordinates |
| Resize.SourceCoordMirror | src/resize.c:92-93 | mirrored target indices map to mirrored source coordinates |
| Resize.ResizeValue | src/resize.c:92-96 | every target sample comes from a samplable source point and lies between its four corner samples |
| Resize.ResizeSameSize | src/resize.c:88-96 | resizing to the same size keeps every sample |
| Resize.ResizeWorker | src/resize.c:85-100 | a worker writes the resized value into the target rows of its range and changes nothing else |
| Resize.ResizeLaunch | src/resize.c:132-182 | dispatching the resize worker over the target rows, with any thread count n >= 1, leaves every target sample holding the resized value |
| Resize.ResizeConcurrent | src/resize.c:132-182 | for every thread count n >= 1, every sample of the nw x nh target is the resized value |
| Resize.ResizeSameSizeImage | src/resize.c:132-182 | resizing to the source's own size reproduces the source, for every thread count |

## Left out

- Threads: the dispatch runs the workers one after another. Each worker writes only its own rows of the destination and reads only the source, so the order does not matter.
- Allocation and thread-creation failures are left out: `create3DMatrix` returning NULL, `malloc` failing in `resize_concurrent`, and `pthread_create` failing. On a create failure `launch_threads_by_rows` (src/utils_conc.c:114-119) returns -1 without joining the threads already started, while `resize_concurrent` (src/resize.c:162-170) joins them first. Return codes are not modelled.
- Floating point: coordinates, weights, scale factors, the convolution accumulator and the interpolation are exact reals, not float32. The properties that hold exactly only over the reals are stated over the reals: Rotate.MapKeepsRadius, Rotate.ReverseUndoesMap, Resize.SourceCoordMonotone, Resize.SourceCoordMirror, Sampler.LerpBetween, Sampler.Blend and Conv.AccUniform. In float32 a blend of two equal corners can round away from them (corners 3 and 3 at t = 0.005 give 3.0000002), and a 3x3 box of 1/9 weights over 255 accumulates 254.99998. Both of these errors vanish once the value is rounded to a byte (`lrintf` in `bilinear`, `roundf` in `worker_conv`), so the byte-level statements Sampler.Bilinear and Conv.ConvUniform agree with the source on these inputs; the model does not prove that float32 rounding never reaches half a unit.
- Rotate.RotateValue: `cosf`, `sinf` and the degree-to-radian conversion (src/rotate.c:76, 128) are not modelled. The angle is given as a `Turn` of its cosine and sine, so a rotation by 360 degrees is only the exact `Still` turn here.
- Sobel.ToGray: the float weighting `0.30R + 0.59G + 0.11B` and its truncating cast (src/sobel.c:36) are a byte-valued parameter `Luma`.
- Sobel.SobelChannels: images of exactly two channels are excluded, because `to_gray` then reads a third channel that does not exist.
- Conv.ConvParams: an even kernel size is excluded by `Valid()`. Conv.EvenKernelOverruns shows the table overrun it would cause.
- Resize.ResizeConcurrent: requires n >= 1, because `resize_concurrent` divides by the thread count. It also requires a non-empty source when the target is non-empty, since `bilinear` would otherwise read outside the source.
- Integer widths: the `int` products of the offset, `gx*gx + gy*gy` and the kernel index are unbounded here. The `(int)roundf` and `(int)floorf` casts of out-of-range values (undefined behaviour in C) are not modelled.
- The unused helpers `clamp_xy` in src/sobel.c:52-61 and the Sobel copy of `clampi`. The model keeps one `Clamp255` and one `ClampXY`.
- PNG decoding and encoding through stb_image, file I/O, command-line handling (src/main.c) and the headers are not part of this model. The load and save loops are modelled on a flat byte buffer.
