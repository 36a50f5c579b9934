/** The stored form of a latency histogram: 32-bit counts, one after the other. */
module HistogramBlob {
  import opened Bytes
  import opened Wrappers
  import Aggregate

  const COUNT_BYTES: nat := 4

  predicate IsU32(n: nat) {
    n < 0x1_0000_0000
  }

  function Encoded(buckets: seq<nat>): (r: seq<Byte>)
    ensures |r| == |buckets| * COUNT_BYTES
  {
    if buckets == [] then [] else Encoded(buckets[..|buckets| - 1]) + LittleEndian(buckets[|buckets| - 1], COUNT_BYTES)
  }

  method EncodeHistogram(buckets: seq<nat>) returns (blob: seq<Byte>)
    ensures blob == Encoded(buckets)
  {
    blob := [];
    for i := 0 to |buckets|
      invariant blob == Encoded(buckets[..i])
    {
      assert buckets[..i + 1][..i] == buckets[..i];
      blob := blob + LittleEndian(buckets[i], COUNT_BYTES);
    }
    assert buckets[..|buckets|] == buckets;
  }

  /** The count in the i-th cell. */
  function CountAt(blob: seq<Byte>, i: nat): nat
    requires (i + 1) * COUNT_BYTES <= |blob|
  {
    FromLittleEndian(blob[i * COUNT_BYTES..(i + 1) * COUNT_BYTES])
  }

  /** The i-th cell of an encoded histogram is the i-th bucket. */
  lemma {:induction false} CountsSurvive(buckets: seq<nat>, i: nat)
    requires i < |buckets| && IsU32(buckets[i])
    ensures CountAt(Encoded(buckets), i) == buckets[i]
  {
    hide LittleEndian, FromLittleEndian;
    var n := |buckets| - 1;
    var front, last := Encoded(buckets[..n]), LittleEndian(buckets[n], COUNT_BYTES);
    var blob := Encoded(buckets);
    assert blob == front + last;
    if i == n {
      assert blob[i * COUNT_BYTES..(i + 1) * COUNT_BYTES] == last;
      assert Power256(4) == 0x1_0000_0000 by {
        assert Power256(2) == 0x1_0000;
      }
      LittleEndianRoundTrip(buckets[n], COUNT_BYTES);
    } else {
      CountsSurvive(buckets[..n], i);
      assert blob[i * COUNT_BYTES..(i + 1) * COUNT_BYTES] == front[i * COUNT_BYTES..(i + 1) * COUNT_BYTES];
    }
  }

  function At(m: map<nat, nat>, i: nat): nat {
    if i in m then m[i] else 0
  }

  /** Add the counts of a blob to a sparse histogram; a blob of another size is refused. */
  method MergeBlob(target: map<nat, nat>, blob: seq<Byte>) returns (r: Option<map<nat, nat>>)
    ensures r.None? <==> |blob| != Aggregate.HIST_BUCKETS * COUNT_BYTES
    ensures r.Some? ==> forall i: nat :: i < Aggregate.HIST_BUCKETS ==>
      At(r.value, i) == At(target, i) + CountAt(blob, i)
    ensures r.Some? ==> forall i: nat :: i in r.value && i < Aggregate.HIST_BUCKETS ==>
      r.value[i] == CountAt(blob, i) + if i in target then target[i] else 0
    ensures r.Some? ==> forall i: nat :: i in r.value <==>
      i in target || (i < Aggregate.HIST_BUCKETS && CountAt(blob, i) > 0)
    ensures r.Some? ==> forall i: nat :: i in target && i >= Aggregate.HIST_BUCKETS ==> r.value[i] == target[i]
  {
    if |blob| != Aggregate.HIST_BUCKETS * COUNT_BYTES {
      return None;
    }
    hide CountAt;
    var m: map<nat, nat> := target;
    for index: nat := 0 to Aggregate.HIST_BUCKETS
      invariant forall i: nat :: i < index ==> At(m, i) == At(target, i) + CountAt(blob, i)
      invariant forall i: nat :: i >= index ==> (i in m <==> i in target) && (i in m ==> m[i] == target[i])
      invariant forall i: nat :: i < index ==> (i in m <==> i in target || CountAt(blob, i) > 0)
    {
      var count := CountAt(blob, index);
      if count > 0 {
        m := m[index := At(m, index) + count];
      }
    }
    return Some(m);
  }
}
