/** Sample generation (TestData<T>): an injective map from indices to elements. */
module TestData {
  import opened Sequences

  /** Distinct indices give distinct elements. The fixture relies on this for
      `MakeData(SampleSize)` not being a sample and for the sentinels differing. */
  ghost predicate Injective<T>(data: int -> T) {
    forall i, j :: data(i) == data(j) ==> i == j
  }

  /** `count` samples, produced by `data` at indices 0 .. count - 1. */
  function MakeTestArray<T>(data: int -> T, count: nat): (r: seq<T>)
    ensures |r| == count
    ensures forall i :: 0 <= i < count ==> r[i] == data(i)
  {
    seq(count, i => data(i))
  }

  /** The named sentinels, taken at their fixed indices: for an injective
      generator, each is produced by its own index and by no other. */
  function Zero<T>(data: int -> T): (r: T)
    ensures Injective(data) ==> forall k :: data(k) == r <==> k == 0
  {
    data(0)
  }

  function One<T>(data: int -> T): (r: T)
    ensures Injective(data) ==> forall k :: data(k) == r <==> k == 1
  {
    data(1)
  }

  function Two<T>(data: int -> T): (r: T)
    ensures Injective(data) ==> forall k :: data(k) == r <==> k == 2
  {
    data(2)
  }

  function Three<T>(data: int -> T): (r: T)
    ensures Injective(data) ==> forall k :: data(k) == r <==> k == 3
  {
    data(3)
  }

  /** An element produced at index `k` is a sample exactly when `k` lies in 0 .. count - 1. */
  lemma SampleMembership<T>(data: int -> T, count: nat, k: int)
    requires Injective(data)
    ensures data(k) in MakeTestArray(data, count) <==> 0 <= k < count
  {
    var s := MakeTestArray(data, count);
    if 0 <= k < count {
      assert s[k] == data(k);
    }
  }

  /** The samples are pairwise distinct. */
  lemma SamplesDistinct<T>(data: int -> T, count: nat)
    requires Injective(data)
    ensures NoDuplicates(MakeTestArray(data, count))
  {
  }
}
