/** The `batch` generator: consecutive runs of a fixed size. */
module Batching {
  import opened Prelude

  function Flatten<T>(s: seq<seq<T>>): seq<T> {
    if s == [] then [] else s[0] + Flatten(s[1..])
  }

  lemma {:induction false} FlattenOfConcat<T>(a: seq<seq<T>>, b: seq<seq<T>>)
    ensures Flatten(a + b) == Flatten(a) + Flatten(b)
  {
    if a == [] {
      assert a + b == b;
    } else {
      FlattenOfConcat(a[1..], b);
      assert (a + b)[1..] == a[1..] + b && (a + b)[0] == a[0];
      assert a[0] + (Flatten(a[1..]) + Flatten(b)) == a[0] + Flatten(a[1..]) + Flatten(b);
    }
  }

  lemma FlattenSnoc<T>(a: seq<seq<T>>, x: seq<T>)
    ensures Flatten(a + [x]) == Flatten(a) + x
  {
    FlattenOfConcat(a, [x]);
    assert [x][1..] == [];
  }

  /**
   Nothing is lost, reordered or repeated, and every batch but the last is full.
   A batch size below one behaves as one.
   */
  method Batch<T>(batchSize: int, iterable: seq<T>) returns (batches: seq<seq<T>>)
    ensures Flatten(batches) == iterable
    ensures forall i :: 0 <= i < |batches| ==> 1 <= |batches[i]| <= Max(1, batchSize)
    ensures forall i :: 0 <= i < |batches| - 1 ==> |batches[i]| == Max(1, batchSize)
  {
    batches := [];
    var collected := [];
    for i := 0 to |iterable|
      invariant Flatten(batches) + collected == iterable[..i]
      invariant |collected| < Max(1, batchSize)
      invariant forall k :: 0 <= k < |batches| ==> |batches[k]| == Max(1, batchSize)
    {
      assert iterable[..i + 1] == Flatten(batches) + (collected + [iterable[i]]);
      collected := collected + [iterable[i]];
      if |collected| >= batchSize {
        FlattenSnoc(batches, collected);
        batches := batches + [collected];
        collected := [];
        assert Flatten(batches) + collected == Flatten(batches);
      }
    }
    assert iterable[..|iterable|] == iterable;
    if |collected| > 0 {
      FlattenSnoc(batches, collected);
      batches := batches + [collected];
    }
  }
}
