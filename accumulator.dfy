/** The accumulator: each sampled pixel, converted to hue/saturation/lightness,
    is added, weighted by its alpha, to the bucket of its hue band. This module
    holds the reference definition of what the buckets contain after a run of
    samples (`Total`, `KeysOf`) and the single update the loop performs
    (`Upsert`), with the lemmas that tie the two together. */
module Accumulator {
  import opened Image

  /** A colour as the external RGB-to-HSL conversion returns it. */
  datatype Hsl = Hsl(hue: real, saturation: real, lightness: real)

  /** Running weighted sums of the three components, and the running weight. */
  datatype Bucket = Bucket(h: real, s: real, l: real, count: real)

  /** One sampled pixel: its converted colour and its weight. */
  datatype Sample = Sample(hsl: Hsl, weight: real)

  /** The conversion from the three colour bytes of a pixel, supplied by the caller. */
  type HslOf = (byte, byte, byte) -> Hsl

  const UsizeMax: nat := 0xFFFF_FFFF_FFFF_FFFF

  /** Rust's `f64 as usize`: the fraction is dropped, negative values become 0
      and values beyond the range saturate at the largest usize. */
  function UsizeOf(x: real): (n: nat)
    ensures n <= UsizeMax
    ensures x <= 0.0 ==> n == 0
    ensures x >= UsizeMax as real ==> n == UsizeMax
    ensures 0.0 <= x < UsizeMax as real ==> n as real <= x < n as real + 1.0
  {
    if x < 0.0 then 0 else if x >= UsizeMax as real then UsizeMax else x.Floor
  }

  /** `(hue as usize) >> 3`: hue bands eight units wide. */
  function ClusterKey(hue: real): nat {
    UsizeOf(hue) / 8
  }

  function Key(sample: Sample): nat {
    ClusterKey(sample.hsl.hue)
  }

  /** `alpha as f64 / 255.0`, computed exactly. */
  function Weight(alpha: byte): (w: real)
    ensures 0.0 <= w <= 1.0
    ensures w == 0.0 <==> alpha == 0
    ensures w == 1.0 <==> alpha == 255
  {
    alpha as real / 255.0
  }

  /** The sample for pixel `i`: bytes `i * bpp`, `+1`, `+2` are red, green and
      blue; with an alpha channel byte `+3` gives the weight, otherwise it is 1. */
  function SampleAt(bytes: seq<byte>, hasAlpha: bool, hslOf: HslOf, i: nat): Sample
    requires i < PixelCount(bytes, hasAlpha)
  {
    var base := i * BytesPerPixel(hasAlpha);
    PixelInBounds(bytes, hasAlpha, i, BytesPerPixel(hasAlpha) - 1);
    Sample(hslOf(bytes[base], bytes[base + 1], bytes[base + 2]),
           if hasAlpha then Weight(bytes[base + 3]) else 1.0)
  }

  /** The samples for a sequence of pixel indices, in order. */
  function SamplesAt(bytes: seq<byte>, hasAlpha: bool, hslOf: HslOf, indices: seq<nat>): (ss: seq<Sample>)
    requires forall t :: 0 <= t < |indices| ==> indices[t] < PixelCount(bytes, hasAlpha)
    ensures |ss| == |indices|
  {
    if indices == [] then []
    else SamplesAt(bytes, hasAlpha, hslOf, indices[..|indices| - 1])
         + [SampleAt(bytes, hasAlpha, hslOf, indices[|indices| - 1])]
  }

  /** The t-th sample is the sample of the t-th index. */
  lemma {:induction false} SamplesAtPointwise(bytes: seq<byte>, hasAlpha: bool, hslOf: HslOf, indices: seq<nat>)
    requires forall t :: 0 <= t < |indices| ==> indices[t] < PixelCount(bytes, hasAlpha)
    ensures forall t :: 0 <= t < |indices| ==>
      SamplesAt(bytes, hasAlpha, hslOf, indices)[t] == SampleAt(bytes, hasAlpha, hslOf, indices[t])
  {
    if indices != [] {
      SamplesAtPointwise(bytes, hasAlpha, hslOf, indices[..|indices| - 1]);
    }
  }

  lemma SamplesAtSnoc(bytes: seq<byte>, hasAlpha: bool, hslOf: HslOf, indices: seq<nat>, i: nat)
    requires forall t :: 0 <= t < |indices| ==> indices[t] < PixelCount(bytes, hasAlpha)
    requires i < PixelCount(bytes, hasAlpha)
    ensures SamplesAt(bytes, hasAlpha, hslOf, indices + [i])
         == SamplesAt(bytes, hasAlpha, hslOf, indices) + [SampleAt(bytes, hasAlpha, hslOf, i)]
  {
    assert (indices + [i])[..|indices|] == indices;
  }

  const Empty: Bucket := Bucket(0.0, 0.0, 0.0, 0.0)

  function Add(a: Bucket, b: Bucket): Bucket {
    Bucket(a.h + b.h, a.s + b.s, a.l + b.l, a.count + b.count)
  }

  /** What one sample adds to its bucket: each component times the weight, and the weight. */
  function Contribution(sample: Sample): Bucket {
    Scaled(sample.hsl, sample.weight)
  }

  /** A bucket holding the colour `hsl` with weight `w`. */
  function Scaled(hsl: Hsl, w: real): Bucket {
    Bucket(hsl.hue * w, hsl.saturation * w, hsl.lightness * w, w)
  }

  /** Reference definition: the sums over the samples whose key is `key`. */
  function Total(ss: seq<Sample>, key: nat): Bucket {
    if ss == [] then Empty
    else
      var earlier := Total(ss[..|ss| - 1], key);
      if Key(ss[|ss| - 1]) == key then Add(earlier, Contribution(ss[|ss| - 1])) else earlier
  }

  /** The keys that occur among the samples. */
  function KeysOf(ss: seq<Sample>): set<nat> {
    if ss == [] then {} else KeysOf(ss[..|ss| - 1]) + {Key(ss[|ss| - 1])}
  }

  /** How many samples have key `key`. */
  function Occurrences(ss: seq<Sample>, key: nat): nat {
    if ss == [] then 0
    else Occurrences(ss[..|ss| - 1], key) + (if Key(ss[|ss| - 1]) == key then 1 else 0)
  }

  /** The bucket map holds exactly one bucket per key that occurred, and that
      bucket holds the sums over the samples with that key. */
  ghost predicate Represents(buckets: map<nat, Bucket>, ss: seq<Sample>) {
    && buckets.Keys == KeysOf(ss)
    && forall k :: k in buckets ==> buckets[k] == Total(ss, k)
  }

  /** The bucket for `key`, or an empty one. */
  function BucketOf(buckets: map<nat, Bucket>, key: nat): Bucket {
    if key in buckets then buckets[key] else Empty
  }

  /** `buckets.entry(key).and_modify(add c).or_insert(c)`. */
  function Upsert(buckets: map<nat, Bucket>, key: nat, c: Bucket): (r: map<nat, Bucket>)
    ensures r.Keys == buckets.Keys + {key}
    ensures forall k :: k in buckets && k != key ==> r[k] == buckets[k]
    ensures r[key] == Add(BucketOf(buckets, key), c)
  {
    if key in buckets then buckets[key := Add(buckets[key], c)] else buckets[key := c]
  }

  /** A key occurs among the samples exactly when some sample has it. */
  lemma {:induction false} KeysOfMembers(ss: seq<Sample>, key: nat)
    ensures key in KeysOf(ss) <==> exists t :: 0 <= t < |ss| && Key(ss[t]) == key
  {
    if ss != [] {
      var init := ss[..|ss| - 1];
      KeysOfMembers(init, key);
      if key in KeysOf(init) {
        var t :| 0 <= t < |init| && Key(init[t]) == key;
        assert Key(ss[t]) == key;
      }
      if exists t :: 0 <= t < |ss| && Key(ss[t]) == key {
        var t :| 0 <= t < |ss| && Key(ss[t]) == key;
        if t < |init| {
          assert Key(init[t]) == key;
        }
      }
    }
  }

  /** A key occurs exactly when it has a positive number of occurrences. */
  lemma {:induction false} KeysOfOccurrences(ss: seq<Sample>, key: nat)
    ensures key in KeysOf(ss) <==> Occurrences(ss, key) > 0
  {
    if ss != [] {
      KeysOfOccurrences(ss[..|ss| - 1], key);
    }
  }

  /** A key that never occurred has an empty bucket. */
  lemma {:induction false} TotalOfAbsentKey(ss: seq<Sample>, key: nat)
    requires key !in KeysOf(ss)
    ensures Total(ss, key) == Empty
  {
    if ss != [] {
      TotalOfAbsentKey(ss[..|ss| - 1], key);
    }
  }

  /** The fold invariant: applying the loop's single update for the next sample
      to a map that represents the earlier samples gives a map that represents
      the earlier samples followed by that one. */
  lemma UpsertExtends(buckets: map<nat, Bucket>, ss: seq<Sample>, sample: Sample)
    requires Represents(buckets, ss)
    ensures Represents(Upsert(buckets, Key(sample), Contribution(sample)), ss + [sample])
  {
    var ss' := ss + [sample];
    assert ss'[..|ss'| - 1] == ss;
    var key := Key(sample);
    if key !in buckets {
      TotalOfAbsentKey(ss, key);
    }
  }

  /** The fold invariant at the level of pixel indices: updating a map that
      represents the samples of the pixels visited so far with the sample of
      pixel `i` gives a map that represents those samples followed by it. */
  lemma AccumulateStep(buckets: map<nat, Bucket>, bytes: seq<byte>, hasAlpha: bool, hslOf: HslOf,
                       visited: seq<nat>, i: nat)
    requires forall t :: 0 <= t < |visited| ==> visited[t] < PixelCount(bytes, hasAlpha)
    requires i < PixelCount(bytes, hasAlpha)
    requires Represents(buckets, SamplesAt(bytes, hasAlpha, hslOf, visited))
    ensures Represents(Upsert(buckets, Key(SampleAt(bytes, hasAlpha, hslOf, i)),
                              Contribution(SampleAt(bytes, hasAlpha, hslOf, i))),
                       SamplesAt(bytes, hasAlpha, hslOf, visited + [i]))
  {
    UpsertExtends(buckets, SamplesAt(bytes, hasAlpha, hslOf, visited), SampleAt(bytes, hasAlpha, hslOf, i));
    SamplesAtSnoc(bytes, hasAlpha, hslOf, visited, i);
  }

  /** There are never more buckets than samples. */
  lemma {:induction false} KeysOfBound(ss: seq<Sample>)
    ensures |KeysOf(ss)| <= |ss|
  {
    if ss != [] {
      KeysOfBound(ss[..|ss| - 1]);
    }
  }

  /** Without an alpha channel every weight is 1, and a bucket's weight is the
      number of samples in it. */
  lemma {:induction false} OpaqueCountIsOccurrences(ss: seq<Sample>, key: nat)
    requires forall t :: 0 <= t < |ss| ==> ss[t].weight == 1.0
    ensures Total(ss, key).count == Occurrences(ss, key) as real
  {
    if ss != [] {
      OpaqueCountIsOccurrences(ss[..|ss| - 1], key);
    }
  }

  /** With weights in [0, 1], a bucket's weight lies between 0 and its number of samples. */
  lemma {:induction false} CountWithinOccurrences(ss: seq<Sample>, key: nat)
    requires forall t :: 0 <= t < |ss| ==> 0.0 <= ss[t].weight <= 1.0
    ensures 0.0 <= Total(ss, key).count <= Occurrences(ss, key) as real
  {
    if ss != [] {
      CountWithinOccurrences(ss[..|ss| - 1], key);
    }
  }

  /** When every sample has the same colour, each bucket's sums are that colour
      times the bucket's weight: dividing by the weight gives the colour back exactly. */
  lemma {:induction false} UniformColorTotal(ss: seq<Sample>, hsl: Hsl, key: nat)
    requires forall t :: 0 <= t < |ss| ==> ss[t].hsl == hsl
    ensures Total(ss, key) == Scaled(hsl, Total(ss, key).count)
  {
    if ss != [] {
      var init, last := ss[..|ss| - 1], ss[|ss| - 1];
      assert forall t :: 0 <= t < |init| ==> init[t] == ss[t];
      UniformColorTotal(init, hsl, key);
      var e := Total(init, key);
      if Key(last) == key {
        assert last.hsl == hsl;
        ScaledAdd(hsl, e.count, last.weight);
      }
    }
  }

  lemma ScaledAdd(hsl: Hsl, x: real, y: real)
    ensures Add(Scaled(hsl, x), Scaled(hsl, y)) == Scaled(hsl, x + y)
  {
    assert hsl.hue * x + hsl.hue * y == hsl.hue * (x + y);
    assert hsl.saturation * x + hsl.saturation * y == hsl.saturation * (x + y);
    assert hsl.lightness * x + hsl.lightness * y == hsl.lightness * (x + y);
  }

  /** When every sample has the same colour, all of them fall in one bucket. */
  lemma {:induction false} UniformColorKeys(ss: seq<Sample>, hsl: Hsl)
    requires ss != []
    requires forall t :: 0 <= t < |ss| ==> ss[t].hsl == hsl
    ensures KeysOf(ss) == {ClusterKey(hsl.hue)}
  {
    var init := ss[..|ss| - 1];
    if init != [] {
      assert forall t :: 0 <= t < |init| ==> init[t] == ss[t];
      UniformColorKeys(init, hsl);
    }
  }

  /** With non-negative weights a bucket's weight never decreases as samples are added. */
  lemma TotalGrows(ss: seq<Sample>, key: nat)
    requires ss != []
    requires ss[|ss| - 1].weight >= 0.0
    ensures Total(ss[..|ss| - 1], key).count <= Total(ss, key).count
  {
  }

  /** With weights in [0, 1], each sample's weight is at most the weight of its bucket. */
  lemma {:induction false} WeightWithinBucket(ss: seq<Sample>, t: nat)
    requires forall u :: 0 <= u < |ss| ==> 0.0 <= ss[u].weight <= 1.0
    requires t < |ss|
    ensures ss[t].weight <= Total(ss, Key(ss[t])).count
  {
    var init := ss[..|ss| - 1];
    assert forall u :: 0 <= u < |init| ==> init[u] == ss[u];
    if t == |ss| - 1 {
      CountWithinOccurrences(init, Key(ss[t]));
    } else {
      WeightWithinBucket(init, t);
      TotalGrows(ss, Key(ss[t]));
    }
  }

  /** When every sample is fully transparent, every bucket has weight 0. */
  lemma {:induction false} TransparentTotal(ss: seq<Sample>, key: nat)
    requires forall t :: 0 <= t < |ss| ==> ss[t].weight == 0.0
    ensures Total(ss, key).count == 0.0
  {
    if ss != [] {
      TransparentTotal(ss[..|ss| - 1], key);
    }
  }

  /** A hue in `[0, maxHue]` falls in a band no higher than `floor(maxHue) / 8`. */
  lemma ClusterKeyBound(hue: real, maxHue: real)
    requires 0.0 <= hue <= maxHue < UsizeMax as real
    ensures ClusterKey(hue) <= UsizeOf(maxHue) / 8
  {
    assert UsizeOf(hue) <= UsizeOf(maxHue);
  }

  /** When the conversion keeps every hue in `[0, maxHue]`, the number of buckets
      is bounded by the number of hue bands, whatever the number of samples:
      46 bands for hues in degrees up to 360, 32 for hues on a 0 to 255 scale. */
  lemma BucketCountBound(ss: seq<Sample>, maxHue: real)
    requires 0.0 <= maxHue < UsizeMax as real
    requires forall t :: 0 <= t < |ss| ==> 0.0 <= ss[t].hsl.hue <= maxHue
    ensures |KeysOf(ss)| <= UsizeOf(maxHue) / 8 + 1
  {
    var bands := UsizeOf(maxHue) / 8 + 1;
    forall key | key in KeysOf(ss)
      ensures key < bands
    {
      KeysOfMembers(ss, key);
      var t :| 0 <= t < |ss| && Key(ss[t]) == key;
      ClusterKeyBound(ss[t].hsl.hue, maxHue);
    }
    SubsetOfRange(KeysOf(ss), bands);
  }

  /** A set of naturals below `n` has at most `n` elements. */
  lemma {:induction false} SubsetOfRange(keys: set<nat>, n: nat)
    requires forall k :: k in keys ==> k < n
    ensures |keys| <= n
  {
    if n > 0 {
      SubsetOfRange(keys - {n - 1}, n - 1);
    }
  }
}
