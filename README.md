# dominant-color, modelled in Dafny

This project models `get_dominant_color` in `src/lib.rs`, which picks one
representative colour for a decoded image. The function steps through the
pixel buffer with a stride aiming at 50,000 sampled pixels (in fact up to
99,999, see below). It converts each sampled pixel to hue/saturation/lightness and weights it by its
alpha. It adds the pixel to the bucket of its hue band, `(hue as usize) >> 3`,
in a `HashMap`. It then sorts the buckets by descending weight and takes the
first. Finally it averages that bucket, converts the average back to RGB and
packs it as `r << 16 | g << 8 | b`.

Modules, in the order the data flows:

- `Image` (`image.dfy`): the decoded buffer and its layout. It holds the bytes
  per pixel, the pixel count, and the lemma that every byte the loop reads is
  inside the buffer.
- `Sampler` (`sampler.dfy`): the stride `max(1, n / 50_000)` and
  `(start..end).step_by(step)` as a sequence of indices. It proves the indices'
  form, their number, and the bound on the number of samples.
- `Accumulator` (`accumulator.dfy`): samples, buckets and the `entry` update.
  The reference definition `Total` gives the weighted sums over the samples of
  one hue band. `KeysOf` gives the set of bands that occurred. The lemmas prove
  the fold invariant and what the buckets contain.
- `Selector` (`selector.dfy`): the move of the buckets into a vector, done in
  the map's unspecified order. It also holds the choice of element 0 after a
  stable sort by descending weight.
- `Packer` (`packer.dfy`): the 64-bit packing and its inverse.
- `DominantColor` (`dominant_color.dfy`): the sampling loop (`Accumulate`, one
  iteration in `AddPixel`), the whole function (`GetDominantColor`), and
  properties of the result.

The model has three inputs. The first is the decoder's result: `None` when the
image cannot be decoded, otherwise the bytes and the `ColorType`. The second is
`hslOf`, the RGB-to-HSL conversion of the colour library. The third is
`reduce`, which divides the winning bucket's sums by its weight, converts back
to RGB and casts the channels to `usize`. The conversion and the reduction are
floating-point code in a foreign library, so the model takes them as
parameters. Weights and sums are exact `real`s: `alpha / 255` and
`component * weight`.

Behaviour of the code worth spelling out:

- The hue band is whatever hue the conversion returns, cut by `as usize` and
  shifted right by 3: 32 bands for hues on a 0 to 255 scale, up to 46 for hues
  in degrees up to 360. `BucketCountBound` is stated for any hue bound.
- No bucket is left out of the selection, including one whose weight is 0
  (every sampled pixel transparent). `DominantWeightZero` states when the
  source then divides 0 by 0.
- With no pixels, the source indexes an empty vector and panics. The model
  returns `Failure(NoBuckets)` instead. Ties between equal weights are not
  broken by a fixed rule. The source takes whichever tied bucket the `HashMap`
  yields first, and the model promises only a bucket of maximal weight.
- The comment at src/lib.rs:47 says "at most 50k pixels". As written, up to
  99,999 pixels are sampled, for an image of 99,999 pixels where the stride is
  1. From 100,000 pixels up, at most 75,000 are sampled. `SampleCountBound`
  and `SampleCountExceedsCeiling` prove both.
- Only `Rgba8` and `Bgra8` count as having alpha. Every other layout is read as
  three bytes per pixel, whatever its real layout.

## Model

| member | source | states |
|---|---|---|
| `Image.BytesPerPixel` | src/lib.rs:39-45 | 4 bytes per pixel exactly when the layout has alpha (`HasAlpha`: `Rgba8` or `Bgra8`, every other layout not), otherwise 3 |
| `Image.PixelInBounds` | src/lib.rs:45-62 | for pixel index i below `len / bpp` and k below bpp, `i * bpp + k` is inside the buffer, so the red, green, blue and alpha reads cannot go out of bounds |
| `Sampler.Step` | src/lib.rs:47 | the stride is at least 1; below 100,000 pixels it is 1; from 50,000 pixels up it is the floor of n / 50,000 |
| `Sampler.StepByBounds` | src/lib.rs:52 | every index `step_by` yields lies in `[start, end)` |
| `Sampler.StepByElements` | src/lib.rs:52 | the t-th index yielded is `start + t * step` |
| `Sampler.StepByLength` | src/lib.rs:52 | the iterator yields exactly `ceil((end - start) / step)` indices |
| `Sampler.StepByAdvance` | src/lib.rs:52 | after yielding `i`, the indices already yielded plus those still to come are still the whole sequence |
| `Sampler.SampledIndexInRange` | src/lib.rs:46-52 | every sampled index is below the pixel count and a multiple of the stride |
| `Sampler.SmallImageVisitsAll` | src/lib.rs:47-52 | below 100,000 pixels the loop visits every pixel index 0..n-1 in order |
| `Sampler.SampleCountBound` | src/lib.rs:46-52 | fewer than 100,000 pixels are ever sampled; from 100,000 pixels up at most 75,000 |
| `Sampler.SampleCountExceedsCeiling` | src/lib.rs:47 | an image of 99,999 pixels has 99,999 samples, more than the 50,000 the comment names |
| `Accumulator.UsizeOf` | src/lib.rs:68 | `f64 as usize`: 0 for values at or below 0, the largest usize at or beyond it, otherwise the integer part |
| `Accumulator.Weight` | src/lib.rs:61-62 | the alpha weight lies in [0, 1], is 0 only for alpha 0 and 1 only for alpha 255 |
| `Accumulator.SamplesAt` | src/lib.rs:52-65 | one sample per visited index |
| `Accumulator.SamplesAtPointwise` | src/lib.rs:52-65 | the t-th sample is the sample read at the t-th visited index |
| `Accumulator.SamplesAtSnoc` | src/lib.rs:52-65 | visiting one more index appends exactly its sample |
| `Accumulator.Upsert` | src/lib.rs:70-83 | the update creates or changes only the entry for the pixel's key and leaves every other bucket as it was; the entry becomes the old bucket (an empty one if absent) plus the contribution |
| `Accumulator.UpsertExtends` | src/lib.rs:70-83 | if the map holds exactly the per-band sums of the earlier samples, then after the update it holds those of the earlier samples plus the new one |
| `Accumulator.AccumulateStep` | src/lib.rs:52-83 | the same fold invariant, stated for pixel indices instead of samples |
| `Accumulator.KeysOfMembers` | src/lib.rs:70-83 | a key has a bucket exactly when some sampled pixel has that key |
| `Accumulator.KeysOfOccurrences` | src/lib.rs:70-83 | a key has a bucket exactly when its number of sampled pixels is positive |
| `Accumulator.TotalOfAbsentKey` | src/lib.rs:78-83 | a band no sample fell into has all sums 0, so `or_insert` is the same as adding to an empty bucket |
| `Accumulator.KeysOfBound` | src/lib.rs:70-83 | there are never more buckets than sampled pixels |
| `Accumulator.OpaqueCountIsOccurrences` | src/lib.rs:61-65 | when every weight is 1, a bucket's `count` is the number of sampled pixels in it |
| `Accumulator.CountWithinOccurrences` | src/lib.rs:61-83 | with weights in [0, 1], a bucket's `count` lies between 0 and its number of sampled pixels |
| `Accumulator.UniformColorTotal` | src/lib.rs:73-82 | when all samples have one colour, each bucket's h, s and l sums are that colour times its `count` |
| `Accumulator.UniformColorKeys` | src/lib.rs:68-83 | when all samples have one colour, there is exactly one bucket, the colour's band |
| `Accumulator.WeightWithinBucket` | src/lib.rs:76-82 | each sample's weight is at most its bucket's `count` |
| `Accumulator.TransparentTotal` | src/lib.rs:76-82 | when every weight is 0, every bucket's `count` is 0 |
| `Accumulator.ClusterKeyBound` | src/lib.rs:68 | a hue in [0, maxHue] has key at most `floor(maxHue) >> 3` |
| `Accumulator.BucketCountBound` | src/lib.rs:68-83 | with every hue in [0, maxHue], there are at most `floor(maxHue) / 8 + 1` buckets, whatever the image size |
| `Selector.CollectBuckets` | src/lib.rs:87 | the vector holds every bucket of the map exactly once, in some order |
| `Selector.FirstMaximum` | src/lib.rs:88-92 | the chosen bucket has a weight no other bucket exceeds, and it is the first such in the vector, as a stable descending sort leaves it at index 0 |
| `Selector.SortedHeadHasMaximalCount` | src/lib.rs:88-92 | any permutation of the vector sorted by descending weight has at index 0 a bucket with the chosen bucket's weight |
| `Packer.Pack` | src/lib.rs:99-101 | for channels below 256 the packed value is at most 0xFFFFFF, and shifting and masking gives back red, green and blue |
| `Packer.Unpack` | src/lib.rs:99-101 | each field of a packed value is below 256 |
| `Packer.PackUnpack` | src/lib.rs:99-101 | every value up to 0xFFFFFF is the packing of its own three fields |
| `Packer.PackValue` | src/lib.rs:99-101 | the packing equals `red * 65536 + green * 256 + blue` |
| `DominantColor.SamplesEmpty` | src/lib.rs:46-52 | no pixel is sampled exactly when the buffer holds no whole pixel |
| `DominantColor.AddPixel` | src/lib.rs:53-83 | one iteration reads pixel i and applies the update for its sample |
| `DominantColor.Accumulate` | src/lib.rs:45-84 | after the loop the map has one bucket per band that occurred, holding the weighted h, s, l and weight sums over the sampled pixels of that band |
| `DominantColor.GetDominantColor` | src/lib.rs:28-102 | undecodable input gives `ConversionError`; no whole pixel gives `NoBuckets`; otherwise the result packs the reduction of a bucket of greatest weight, and it is at most 0xFFFFFF whenever that reduction's channels are below 256 |
| `DominantColor.SampleWeights` | src/lib.rs:61-65 | every sample's weight is in [0, 1], and exactly 1 when the layout has no alpha |
| `DominantColor.MajorityWins` | src/lib.rs:61-92 | without alpha, a band with fewer sampled pixels than another is never the dominant one |
| `DominantColor.UniformImage` | src/lib.rs:68-94 | when all samples have one colour, its band is the only and dominant bucket, and its sums are the colour times its weight |
| `DominantColor.DominantWeightZero` | src/lib.rs:76-94 | the dominant bucket's weight is 0, so that the averaging divides by 0, exactly when every sampled pixel has alpha 0 |

## Left out

- Image decoding (`image::load_from_memory`, `to_bytes`, `color()`): the model takes the decoder's result as input, and the decoder's failure is the `None` case.
- The Python binding (`create_exception!`, `#[pymodule]`, the `PyResult` wrapping): host plumbing. Errors are a `Result` datatype.
- The RGB-to-HSL conversion (src/lib.rs:58) and `Bucket::get_rgb` (src/lib.rs:19-22): foreign floating-point code, taken as the parameters `hslOf` and `reduce`.
- `GetDominantColor`: does not model the division of the sums by the weight (src/lib.rs:92-94) or the `f64 as usize` channel casts (src/lib.rs:99-101). Both are floating point and are part of `reduce`. The 0xFFFFFF bound is therefore stated under the condition that the dominant bucket's reduced channels are below 256.
- Floating-point rounding, NaN, and `partial_cmp(...).unwrap_or(Equal)` (src/lib.rs:88): weights and sums are exact reals, where no NaN arises.
- `Accumulator.UsizeOf`: does not model NaN, which Rust casts to 0, because a real cannot be NaN.
- The in-place `sort_by` (src/lib.rs:88): the source reads only element 0 of the sorted vector, so the model computes that element (the first bucket of maximal weight in vector order) and does not sort. `SortedHeadHasMaximalCount` ties it to every descending sort.
- The `HashMap`'s iteration order: `CollectBuckets` takes the keys in an arbitrary order, so ties between equal weights are not resolved by any fixed rule.
- Channel order for `Bgra8` (src/lib.rs:41): the first byte is read as red whatever the layout, and the model claims nothing about colour interpretation for that layout, nor for the grey and 16-bit layouts read as three bytes per pixel.
- The panic at src/lib.rs:92 for an image with no whole pixel is modelled as the error `NoBuckets`, not as a panic.
- The `usize` arithmetic of the index computation is modelled with unbounded integers: the source cannot overflow there, because every index is below the buffer length.
