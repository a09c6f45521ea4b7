/** `get_dominant_color`: sample the decoded pixels with a stride, accumulate
    each sample into the bucket of its hue band, pick the bucket of greatest
    weight, reduce it to one colour and pack that colour into an integer. */
module DominantColor {
  import opened Image
  import opened Sampler
  import opened Accumulator
  import opened Selector
  import opened Packer

  datatype Option<T> = None | Some(value: T)

  datatype Error =
    /** The decoder could not read the input bytes. */
    | ConversionError
    /** No pixel was sampled, so there is no bucket; the source indexes the
        empty vector of buckets here and panics. */
    | NoBuckets

  datatype Result<T> = Success(value: T) | Failure(error: Error)

  /** The channels of the reduced colour, as `usize` values. */
  datatype Channels = Channels(red: bv64, green: bv64, blue: bv64)

  /** The reduction of the dominant bucket to a colour, supplied by the caller:
      divide each sum by the weight, convert back from HSL, cast each channel. */
  type Reduce = Bucket -> Channels

  /** The samples the loop visits, in order. */
  function Samples(img: DecodedImage, hslOf: HslOf): seq<Sample> {
    var hasAlpha := HasAlpha(img.color);
    var n := PixelCount(img.bytes, hasAlpha);
    StepByBounds(0, n, Step(n));
    SamplesAt(img.bytes, hasAlpha, hslOf, StepBy(0, n, Step(n)))
  }

  /** No pixel is sampled exactly when the image has no whole pixel. */
  lemma SamplesEmpty(img: DecodedImage, hslOf: HslOf)
    ensures Samples(img, hslOf) == [] <==> PixelCount(img.bytes, HasAlpha(img.color)) == 0
  {
    var n := PixelCount(img.bytes, HasAlpha(img.color));
    assert StepBy(0, n, Step(n)) == [] <==> n == 0;
  }

  /** `key` is the key of a bucket of greatest weight. */
  ghost predicate IsDominantKey(ss: seq<Sample>, key: nat) {
    && key in KeysOf(ss)
    && forall k :: k in KeysOf(ss) ==> Total(ss, k).count <= Total(ss, key).count
  }

  /** Each channel fits in a byte. */
  predicate InByteRange(c: Channels) {
    c.red < 256 && c.green < 256 && c.blue < 256
  }

  function PackChannels(c: Channels): bv64 {
    Pack(c.red, c.green, c.blue)
  }

  /** One iteration of the sampling loop: read pixel `i` (red, green, blue and,
      with an alpha channel, the weight), convert it, and add it to the
      bucket of its hue band. The reads are the loop body's form of
      `SampleAt`, which the contract ties them to. */
  method AddPixel(buckets: map<nat, Bucket>, pixels: seq<byte>, hasAlpha: bool, hslOf: HslOf, i: nat)
    returns (updated: map<nat, Bucket>)
    requires i < PixelCount(pixels, hasAlpha)
    ensures updated == Upsert(buckets, Key(SampleAt(pixels, hasAlpha, hslOf, i)),
                              Contribution(SampleAt(pixels, hasAlpha, hslOf, i)))
  {
    var bytesPerPixel := BytesPerPixel(hasAlpha);
    PixelInBounds(pixels, hasAlpha, i, bytesPerPixel - 1);
    var red := pixels[i * bytesPerPixel];
    var green := pixels[i * bytesPerPixel + 1];
    var blue := pixels[i * bytesPerPixel + 2];
    var hsl := hslOf(red, green, blue);
    var alpha := if hasAlpha then Weight(pixels[i * bytesPerPixel + 3]) else 1.0;
    var cluster := ClusterKey(hsl.hue);
    updated := Upsert(buckets, cluster, Contribution(Sample(hsl, alpha)));
  }

  /** The sampling loop, `for i in (0..pixel_count).step_by(step)`. On exit the
      map holds, for each hue band that occurred, the weighted sums over
      exactly the samples of that band. */
  method Accumulate(img: DecodedImage, hslOf: HslOf) returns (buckets: map<nat, Bucket>)
    ensures Represents(buckets, Samples(img, hslOf))
  {
    var pixels := img.bytes;
    var hasAlpha := HasAlpha(img.color);
    var pixelCount := PixelCount(pixels, hasAlpha);
    var step := Step(pixelCount);

    buckets := map[];
    ghost var visited: seq<nat> := [];
    var i := 0;
    while i < pixelCount
      invariant StepBy(0, pixelCount, step) == visited + StepBy(i, pixelCount, step)
      invariant forall t :: 0 <= t < |visited| ==> visited[t] < pixelCount
      invariant Represents(buckets, SamplesAt(pixels, hasAlpha, hslOf, visited))
      decreases pixelCount as int - i
    {
      AccumulateStep(buckets, pixels, hasAlpha, hslOf, visited, i);
      buckets := AddPixel(buckets, pixels, hasAlpha, hslOf, i);
      StepByAdvance(visited, i, pixelCount, step);
      visited := visited + [i];
      i := i + step;
    }
    assert visited == StepBy(0, pixelCount, step);
  }

  /** The whole computation on an already decoded image (`None` when the decoder failed). */
  method GetDominantColor(decoded: Option<DecodedImage>, hslOf: HslOf, reduce: Reduce) returns (r: Result<bv64>)
    ensures decoded.None? ==> r == Failure(ConversionError)
    ensures decoded.Some? && PixelCount(decoded.value.bytes, HasAlpha(decoded.value.color)) == 0 ==>
      r == Failure(NoBuckets)
    ensures decoded.Some? && PixelCount(decoded.value.bytes, HasAlpha(decoded.value.color)) > 0 ==>
      && r.Success?
      && exists key :: IsDominantKey(Samples(decoded.value, hslOf), key)
                    && r.value == PackChannels(reduce(Total(Samples(decoded.value, hslOf), key)))
                    && (InByteRange(reduce(Total(Samples(decoded.value, hslOf), key))) ==> r.value <= 0xFF_FFFF)
  {
    if decoded.None? {
      return Failure(ConversionError);
    }
    var buckets := Accumulate(decoded.value, hslOf);
    ghost var ss := Samples(decoded.value, hslOf);
    SamplesEmpty(decoded.value, hslOf);

    var values, keys := CollectBuckets(buckets);
    if |values| == 0 {
      return Failure(NoBuckets);
    }
    var idx := FirstMaximum(values);
    var dominant := reduce(values[idx]);
    r := Success(Pack(dominant.red, dominant.green, dominant.blue));

    ghost var key := keys[idx];
    assert values[idx] == Total(ss, key);
    forall k | k in KeysOf(ss)
      ensures Total(ss, k).count <= Total(ss, key).count
    {
      var t :| 0 <= t < |keys| && keys[t] == k;
      assert values[t] == Total(ss, k);
    }
    assert IsDominantKey(ss, key);
  }

  /** Every sample's weight lies in [0, 1]; without an alpha channel it is exactly 1. */
  lemma SampleWeights(img: DecodedImage, hslOf: HslOf)
    ensures forall t :: 0 <= t < |Samples(img, hslOf)| ==> 0.0 <= Samples(img, hslOf)[t].weight <= 1.0
    ensures !HasAlpha(img.color) ==> forall t :: 0 <= t < |Samples(img, hslOf)| ==> Samples(img, hslOf)[t].weight == 1.0
  {
    var hasAlpha := HasAlpha(img.color);
    var n := PixelCount(img.bytes, hasAlpha);
    StepByBounds(0, n, Step(n));
    SamplesAtPointwise(img.bytes, hasAlpha, hslOf, StepBy(0, n, Step(n)));
  }

  /** Without an alpha channel, a hue band with more sampled pixels than
      another always beats it: the other is never the dominant one. */
  lemma MajorityWins(ss: seq<Sample>, larger: nat, smaller: nat)
    requires forall t :: 0 <= t < |ss| ==> ss[t].weight == 1.0
    requires Occurrences(ss, larger) > Occurrences(ss, smaller)
    ensures larger in KeysOf(ss)
    ensures !IsDominantKey(ss, smaller)
  {
    KeysOfOccurrences(ss, larger);
    OpaqueCountIsOccurrences(ss, larger);
    OpaqueCountIsOccurrences(ss, smaller);
  }

  /** When every sampled pixel has the same colour there is a single bucket,
      it is the dominant one, and its sums are that colour times its weight:
      the reduction divides them back to the colour itself. */
  lemma UniformImage(ss: seq<Sample>, hsl: Hsl)
    requires ss != []
    requires forall t :: 0 <= t < |ss| ==> ss[t].hsl == hsl
    ensures KeysOf(ss) == {ClusterKey(hsl.hue)}
    ensures IsDominantKey(ss, ClusterKey(hsl.hue))
    ensures Total(ss, ClusterKey(hsl.hue)) == Scaled(hsl, Total(ss, ClusterKey(hsl.hue)).count)
  {
    UniformColorKeys(ss, hsl);
    UniformColorTotal(ss, hsl, ClusterKey(hsl.hue));
  }

  /** The dominant bucket has weight 0, so that the averaging divides 0 by 0,
      exactly when every sampled pixel is fully transparent. */
  lemma DominantWeightZero(ss: seq<Sample>, key: nat)
    requires forall t :: 0 <= t < |ss| ==> 0.0 <= ss[t].weight <= 1.0
    requires IsDominantKey(ss, key)
    ensures Total(ss, key).count == 0.0 <==> forall t :: 0 <= t < |ss| ==> ss[t].weight == 0.0
  {
    if Total(ss, key).count == 0.0 {
      forall t | 0 <= t < |ss|
        ensures ss[t].weight == 0.0
      {
        WeightWithinBucket(ss, t);
        KeysOfMembers(ss, Key(ss[t]));
      }
    }
    if forall t :: 0 <= t < |ss| ==> ss[t].weight == 0.0 {
      TransparentTotal(ss, key);
    }
  }
}
