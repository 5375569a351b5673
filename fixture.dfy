/** The collection conformance fixture (CollectionTestFixture<T>) run against
    the reference collection. Each [Test] case is a method that returns the
    Verdict the case would end with; its postcondition is what the case checks. */
module Fixture {
  import opened Outcomes
  import opened Options
  import opened Sequences
  import opened TestData
  import opened Collection

  /** The structural change the fail-fast check applies between enumerator
      steps: `c.Remove(Two)` or `c.Add(Three)`. */
  datatype Mutation = RemoveTwo | AddThree

  class CollectionTestFixture<T(==,0)> {
    /** TestData<T>.MakeData. */
    const data: int -> T
    /** The base fixture's bound on enumerator steps. */
    const antiHangingLimit: int
    var sampleSize: nat
    var samples: seq<T>
    var options: CollectionOptions

    ghost predicate Valid()
      reads this
    {
      Injective(data)
    }

    /** The state after [SetUp]: the samples are MakeData(0 .. SampleSize - 1). */
    ghost predicate Ready()
      reads this
    {
      Valid() && samples == MakeTestArray(data, sampleSize)
    }

    constructor (options: CollectionOptions, data: int -> T, antiHangingLimit: int)
      requires Injective(data)
      ensures Valid()
      ensures this.options == options && this.data == data && this.antiHangingLimit == antiHangingLimit
      ensures sampleSize == 9 && samples == []
    {
      this.options := options;
      this.data := data;
      this.antiHangingLimit := antiHangingLimit;
      sampleSize := 9;
      samples := [];
    }

    /** The IsUnique getter: true exactly when the options hold Unique. */
    predicate IsUnique()
      reads this
      ensures IsUnique() <==> Unique in options.flags
    {
      options.Has(Unique)
    }

    /** The IsReadOnly getter: true exactly when the options hold ReadOnly. */
    predicate IsReadOnly()
      reads this
      ensures IsReadOnly() <==> ReadOnly in options.flags
    {
      options.Has(ReadOnly)
    }

    /** The IsUnique setter: a functional update of the options. */
    method SetIsUnique(value: bool)
      modifies this
      ensures options == old(options).Set(Unique, value)
      ensures IsUnique() == value && IsReadOnly() == old(IsReadOnly())
      ensures sampleSize == old(sampleSize) && samples == old(samples)
    {
      options := options.Set(Unique, value);
    }

    /** The IsReadOnly setter: a functional update of the options. */
    method SetIsReadOnly(value: bool)
      modifies this
      ensures options == old(options).Set(ReadOnly, value)
      ensures IsReadOnly() == value && IsUnique() == old(IsUnique())
      ensures sampleSize == old(sampleSize) && samples == old(samples)
    {
      options := options.Set(ReadOnly, value);
    }

    /** The SampleSize setter; the samples follow at the next set-up. */
    method SetSampleSize(value: nat)
      modifies this
      ensures sampleSize == value && samples == old(samples) && options == old(options)
    {
      sampleSize := value;
    }

    /** NewSamples: SampleSize distinct elements, exactly those made at
        indices 0 .. SampleSize - 1. */
    method NewSamples() returns (s: seq<T>)
      requires Valid()
      ensures s == MakeTestArray(data, sampleSize)
      ensures |s| == sampleSize && NoDuplicates(s)
      ensures forall k :: data(k) in s <==> 0 <= k < sampleSize
    {
      s := MakeTestArray(data, sampleSize);
      SamplesDistinct(data, sampleSize);
      forall k ensures data(k) in s <==> 0 <= k < sampleSize {
        SampleMembership(data, sampleSize, k);
      }
    }

    /** [SetUp] SetUpSamples. */
    method SetUpSamples()
      requires Valid()
      modifies this
      ensures Ready()
      ensures sampleSize == old(sampleSize) && options == old(options)
    {
      samples := NewSamples();
    }

    /** NewCollection: the reference collection the options describe, empty. */
    method NewCollection() returns (c: Bag<T>)
      ensures fresh(c) && c.Valid()
      ensures c.items == [] && c.readOnly == IsReadOnly() && c.unique == IsUnique()
    {
      c := new Bag([], IsReadOnly(), IsUnique());
    }

    /** NewCollectionFilledWithSample: a new collection holding the samples in
        order, added one by one. A read-only collection refuses Add, so for it
        the collection is built over the samples directly. */
    method NewCollectionFilledWithSample() returns (c: Bag<T>)
      requires Ready()
      ensures fresh(c) && c.Valid()
      ensures c.items == samples && c.readOnly == IsReadOnly() && c.unique == IsUnique()
    {
      SamplesDistinct(data, sampleSize);
      if IsReadOnly() {
        c := new Bag(samples, true, IsUnique());
        return;
      }
      c := NewCollection();
      for i := 0 to |samples|
        invariant fresh(c) && c.Valid()
        invariant !c.readOnly && c.unique == IsUnique()
        invariant c.items == samples[..i]
      {
        assert samples[i] !in samples[..i];
        var s := c.Add(samples[i]);
        assert samples[..i + 1] == samples[..i] + [samples[i]];
      }
      assert samples[..|samples|] == samples;
    }

    /** AssertContainsAllSamples, as a check: every sample is contained. */
    method ContainsAllSamples(c: Bag<T>) returns (ok: bool)
      ensures ok <==> forall k :: 0 <= k < |samples| ==> samples[k] in c.items
    {
      ok := true;
      var i := 0;
      while i < |samples|
        invariant 0 <= i <= |samples|
        invariant ok <==> forall k :: 0 <= k < i ==> samples[k] in c.items
      {
        var b := c.Contains(samples[i]);
        ok := ok && b;
        i := i + 1;
      }
    }

    /** AssertContainsNoSample, as a check: no sample is contained. */
    method ContainsNoSample(c: Bag<T>) returns (ok: bool)
      ensures ok <==> forall k :: 0 <= k < |samples| ==> samples[k] !in c.items
    {
      ok := true;
      var i := 0;
      while i < |samples|
        invariant 0 <= i <= |samples|
        invariant ok <==> forall k :: 0 <= k < i ==> samples[k] !in c.items
      {
        var b := c.Contains(samples[i]);
        ok := ok && !b;
        i := i + 1;
      }
    }

    /** [Test] CountAccurately. */
    method CountAccurately() returns (v: Verdict)
      requires Ready()
      ensures v == Passed
    {
      var c := NewCollection();
      if c.Count() != 0 {
        return Failed;
      }
      var f := NewCollectionFilledWithSample();
      if f.Count() != sampleSize {
        return Failed;
      }
      return Passed;
    }

    /** [Test] CopyToChokesWithNullArray. */
    method CopyToChokesWithNullArray() returns (v: Verdict)
      requires Ready()
      ensures v == Passed
    {
      var c := NewCollectionFilledWithSample();
      var s := c.CopyTo(null, 0);
      if s != ArgumentNull {
        return Failed;
      }
      return Passed;
    }

    /** [Test] CopyToChokesWithNegativeIndex. */
    method CopyToChokesWithNegativeIndex() returns (v: Verdict)
      requires Ready()
      ensures v == Passed
    {
      var c := NewCollectionFilledWithSample();
      var target := new T[c.Count()];
      var s := c.CopyTo(target, -1);
      if s != ArgumentOutOfRange {
        return Failed;
      }
      return Passed;
    }

    /** [Test] CopyToChokesWhenArrayIsTooSmallToHold: skipped for an empty
        collection; otherwise both a target one place short and a full-size
        target at index 1 are rejected. */
    method CopyToChokesWhenArrayIsTooSmallToHold() returns (v: Verdict)
      requires Ready()
      ensures sampleSize == 0 ==> v == Skipped
      ensures sampleSize > 0 ==> v == Passed
    {
      var c := NewCollectionFilledWithSample();
      if c.Count() == 0 {
        return Skipped;
      }
      var short := new T[c.Count() - 1];
      var s := c.CopyTo(short, 0);
      if s != ArgumentError {
        return Failed;
      }
      var full := new T[c.Count()];
      s := c.CopyTo(full, 1);
      if s != ArgumentError {
        return Failed;
      }
      return Passed;
    }

    /** [Test] CopyToZeroLowerBoundArray: the copy equals the enumeration,
        element for element. */
    method CopyToZeroLowerBoundArray() returns (v: Verdict)
      requires Ready()
      ensures v == Passed
    {
      var c := NewCollectionFilledWithSample();
      var target := new T[c.Count()];
      var s := c.CopyTo(target, 0);
      if s != Ok {
        return Raised(s);
      }
      var ys := Enumerate(c);
      if target[..] != ys {
        return Failed;
      }
      return Passed;
    }

    /** [Test] CopyToDoesNothingWhenCollectionIsEmpty. */
    method CopyToDoesNothingWhenCollectionIsEmpty() returns (v: Verdict)
      ensures v == Passed
    {
      var c := NewCollection();
      var target := new T[0];
      var s := c.CopyTo(target, 0);
      if s != Ok {
        return Raised(s);
      }
      return Passed;
    }

    /** [Test] ContainsReturnFalseOnEmptyCollection. */
    method ContainsReturnFalseOnEmptyCollection() returns (v: Verdict)
      requires Ready()
      ensures v == Passed
    {
      var c := NewCollection();
      var b := c.Contains(Zero(data));
      if b {
        return Failed;
      }
      var none := ContainsNoSample(c);
      if !none {
        return Failed;
      }
      return Passed;
    }

    /** [Test] ContainsSunnyDay: every sample is contained, MakeData(SampleSize) is not. */
    method ContainsSunnyDay() returns (v: Verdict)
      requires Ready()
      ensures v == Passed
    {
      var c := NewCollectionFilledWithSample();
      var all := ContainsAllSamples(c);
      if !all {
        return Failed;
      }
      SampleMembership(data, sampleSize, sampleSize);
      var b := c.Contains(data(sampleSize));
      if b {
        return Failed;
      }
      return Passed;
    }

    /** [Test] ContainsReportsTrueWhenElementsAddedButNotYetRemoved: each
        sample is contained until it is removed. Its Remove is not guarded, so
        a read-only collection makes the case raise NotSupported. */
    method ContainsReportsTrueWhenElementsAddedButNotYetRemoved() returns (v: Verdict)
      requires Ready()
      ensures !IsReadOnly() || sampleSize == 0 ==> v == Passed
      ensures IsReadOnly() && sampleSize > 0 ==> v == Raised(NotSupported)
    {
      var q := NewCollectionFilledWithSample();
      SamplesDistinct(data, sampleSize);
      var i := 0;
      while i < sampleSize
        invariant 0 <= i <= sampleSize
        invariant fresh(q) && q.Valid()
        invariant q.readOnly == IsReadOnly() && q.unique == IsUnique()
        invariant q.items == samples[i..]
        invariant i > 0 ==> !q.readOnly
      {
        var item := data(i);
        assert item == samples[i] && samples[i..] == [item] + samples[i + 1..];
        var b := q.Contains(item);
        if !b {
          return Failed;
        }
        var s, removed := q.Remove(item);
        if s != Ok {
          return Raised(s);
        }
        assert item !in samples[i + 1..] by {
          forall k | i + 1 <= k < sampleSize ensures samples[k] != item {
          }
        }
        b := q.Contains(item);
        if b {
          return Failed;
        }
        i := i + 1;
      }
      return Passed;
    }

    /** [Test] ClearEmptiesTheCollectionWhenSupported: NotSupported is
        accepted only under the ReadOnly option. */
    method ClearEmptiesTheCollectionWhenSupported() returns (v: Verdict)
      requires Ready()
      ensures v == Passed
    {
      var c := NewCollectionFilledWithSample();
      var s := c.Clear();
      if s == NotSupported {
        if IsReadOnly() {
          return Passed;
        }
        return Raised(s);
      }
      if s != Ok {
        return Raised(s);
      }
      if c.Count() != 0 {
        return Failed;
      }
      var none := ContainsNoSample(c);
      if !none {
        return Failed;
      }
      return Passed;
    }

    /** [Test] AddAllSamplesSuccessfullyWhenSupported: adding every sample
        gives Count == SampleSize with every sample contained; NotSupported is
        accepted only under the ReadOnly option. */
    method AddAllSamplesSuccessfullyWhenSupported() returns (v: Verdict)
      requires Ready()
      ensures v == Passed
    {
      SamplesDistinct(data, sampleSize);
      var c := NewCollection();
      var i := 0;
      while i < |samples|
        invariant 0 <= i <= |samples|
        invariant fresh(c) && c.Valid()
        invariant c.readOnly == IsReadOnly() && c.unique == IsUnique()
        invariant c.items == samples[..i]
      {
        assert samples[i] !in samples[..i];
        var s := c.Add(samples[i]);
        if s == NotSupported {
          if IsReadOnly() {
            return Passed;
          }
          return Raised(s);
        }
        if s != Ok {
          return Raised(s);
        }
        assert samples[..i + 1] == samples[..i] + [samples[i]];
        i := i + 1;
      }
      assert samples[..i] == samples;
      if c.Count() != sampleSize {
        return Failed;
      }
      var all := ContainsAllSamples(c);
      if !all {
        return Failed;
      }
      return Passed;
    }

    /** [Test] AddDuplicateSuccessfullyWhenSupported: skipped under Unique or
        with no samples; otherwise adding one sample twice gives Count 1, then 2. */
    method AddDuplicateSuccessfullyWhenSupported() returns (v: Verdict)
      requires Ready()
      ensures IsUnique() || sampleSize == 0 ==> v == Skipped
      ensures !IsUnique() && sampleSize > 0 ==> v == Passed
    {
      if IsUnique() {
        return Skipped;
      }
      if sampleSize <= 0 {
        return Skipped;
      }
      var c := NewCollection();
      var sample := samples[0];
      var s := c.Add(sample);
      if s == NotSupported {
        if IsReadOnly() {
          return Passed;
        }
        return Raised(s);
      }
      if s != Ok {
        return Raised(s);
      }
      if c.Count() != 1 {
        return Failed;
      }
      var b := c.Contains(sample);
      if !b {
        return Failed;
      }
      s := c.Add(sample);
      if s != Ok {
        return Raised(s);
      }
      if c.Count() != 2 {
        return Failed;
      }
      return Passed;
    }

    /** [Test] RemoveAllSamplesSuccessfullyWhenSupported: removing the
        odd-indexed samples, then the even-indexed ones, succeeds once per
        sample, fails for an element already removed or never added, and
        leaves no sample behind. */
    method RemoveAllSamplesSuccessfullyWhenSupported() returns (v: Verdict)
      requires Ready()
      ensures v == Passed
    {
      var c := NewCollectionFilledWithSample();
      if c.Count() != sampleSize {
        return Failed;
      }
      var all := ContainsAllSamples(c);
      if !all {
        return Failed;
      }
      SamplesDistinct(data, sampleSize);
      var stop := RemoveOddIndexedSamples(c);
      if stop.Some? {
        return stop.value;
      }
      stop := RemoveEvenIndexedSamples(c);
      if stop.Some? {
        return stop.value;
      }
      var none := ContainsNoSample(c);
      if !none {
        return Failed;
      }
      return Passed;
    }

    /** Where the first sweep of RemoveAllSamplesSuccessfullyWhenSupported
        stands before its step at `i`: no duplicates, only samples, and every
        sample except the odd-indexed ones below `i`. */
    ghost predicate OddSweepAt(c: Bag<T>, i: int)
      reads this, c
    {
      && NoDuplicates(c.items)
      && (forall x :: x in c.items ==> x in samples)
      && (forall k :: 0 <= k < |samples| ==> (samples[k] in c.items <==> k % 2 == 0 || k >= i))
    }

    /** The first sweep of RemoveAllSamplesSuccessfullyWhenSupported: removes
        MakeData(i) for every odd i, each removal reporting true. `Some(v)`
        means the case ends with `v` inside the sweep, which happens only when a
        read-only collection refuses the removal. */
    method RemoveOddIndexedSamples(c: Bag<T>) returns (stop: Option<Verdict>)
      requires Ready() && c.Valid()
      requires c.readOnly == IsReadOnly() && c.items == samples
      modifies c
      ensures c.Valid()
      ensures stop.Some? ==> stop == Some(Passed) && IsReadOnly()
      ensures stop.None? ==> NoDuplicates(c.items) && (forall x :: x in c.items ==> x in samples)
      ensures stop.None? ==> forall k :: 0 <= k < sampleSize ==> (samples[k] in c.items <==> k % 2 == 0)
    {
      SamplesDistinct(data, sampleSize);
      var i := 1;
      while i < sampleSize
        invariant i >= 1 && i % 2 == 1
        invariant c.Valid() && OddSweepAt(c, i)
      {
        stop := RemoveOddStep(c, i);
        if stop.Some? {
          return;
        }
        i := i + 2;
      }
      stop := None;
    }

    /** One step of the first sweep: Remove(MakeData(i)) reports true. */
    method RemoveOddStep(c: Bag<T>, i: nat) returns (stop: Option<Verdict>)
      requires Ready() && c.Valid() && c.readOnly == IsReadOnly()
      requires i < sampleSize && i % 2 == 1 && OddSweepAt(c, i)
      modifies c
      ensures c.Valid()
      ensures stop.Some? ==> stop == Some(Passed) && IsReadOnly()
      ensures stop.None? ==> OddSweepAt(c, i + 2)
    {
      SamplesDistinct(data, sampleSize);
      var item := data(i);
      assert item == samples[i];
      ghost var before := c.items;
      var s, removed := c.Remove(item);
      if s == NotSupported {
        if IsReadOnly() {
          return Some(Passed);
        }
        return Some(Raised(s));
      }
      if s != Ok {
        return Some(Raised(s));
      }
      if !removed {
        return Some(Failed);
      }
      RemoveOneDistinct(before, item);
      forall k | 0 <= k < sampleSize
        ensures samples[k] in c.items <==> k % 2 == 0 || k >= i + 2
      {
        if k != i {
          assert samples[k] != samples[i];
        }
      }
      stop := None;
    }

    /** Where the second sweep of RemoveAllSamplesSuccessfullyWhenSupported
        stands before its step at `i`: no duplicates, only samples, and exactly
        the even-indexed samples from `i` on. */
    ghost predicate EvenSweepAt(c: Bag<T>, i: int)
      reads this, c
    {
      && NoDuplicates(c.items)
      && (forall x :: x in c.items ==> x in samples)
      && (forall k :: 0 <= k < |samples| ==> (samples[k] in c.items <==> k % 2 == 0 && k >= i))
    }

    /** The second sweep of RemoveAllSamplesSuccessfullyWhenSupported: for
        every even i, removing MakeData(i) reports true and removing
        MakeData(i + 1), already removed or never added, reports false. */
    method RemoveEvenIndexedSamples(c: Bag<T>) returns (stop: Option<Verdict>)
      requires Ready() && c.Valid() && c.readOnly == IsReadOnly()
      requires NoDuplicates(c.items) && (forall x :: x in c.items ==> x in samples)
      requires forall k :: 0 <= k < sampleSize ==> (samples[k] in c.items <==> k % 2 == 0)
      modifies c
      ensures c.Valid()
      ensures stop.Some? ==> stop == Some(Passed) && IsReadOnly()
      ensures stop.None? ==> forall k :: 0 <= k < sampleSize ==> samples[k] !in c.items
    {
      var i := 0;
      while i < sampleSize
        invariant i >= 0 && i % 2 == 0
        invariant c.Valid() && EvenSweepAt(c, i)
      {
        stop := RemoveEvenPair(c, i);
        if stop.Some? {
          return;
        }
        i := i + 2;
      }
      stop := None;
    }

    /** One step of the second sweep: Remove(MakeData(i)) reports true,
        then Remove(MakeData(i + 1)) reports false. */
    method RemoveEvenPair(c: Bag<T>, i: nat) returns (stop: Option<Verdict>)
      requires Ready() && c.Valid() && c.readOnly == IsReadOnly()
      requires i < sampleSize && i % 2 == 0 && EvenSweepAt(c, i)
      modifies c
      ensures c.Valid()
      ensures stop.Some? ==> stop == Some(Passed) && IsReadOnly()
      ensures stop.None? ==> EvenSweepAt(c, i + 2)
    {
      SamplesDistinct(data, sampleSize);
      var item := data(i);
      assert item == samples[i];
      ghost var before := c.items;
      var s, removed := c.Remove(item);
      if s == NotSupported {
        if IsReadOnly() {
          return Some(Passed);
        }
        return Some(Raised(s));
      }
      if s != Ok {
        return Some(Raised(s));
      }
      if !removed {
        return Some(Failed);
      }
      RemoveOneDistinct(before, item);
      forall k | 0 <= k < sampleSize
        ensures samples[k] in c.items <==> k % 2 == 0 && k >= i + 2
      {
        if k != i {
          assert samples[k] != samples[i];
        }
      }
      SampleMembership(data, sampleSize, i + 1);
      assert data(i + 1) !in c.items by {
        if i + 1 < sampleSize {
          assert data(i + 1) == samples[i + 1];
        }
      }
      s, removed := c.Remove(data(i + 1));
      if s == NotSupported {
        if IsReadOnly() {
          return Some(Passed);
        }
        return Some(Raised(s));
      }
      if s != Ok {
        return Some(Raised(s));
      }
      if removed {
        return Some(Failed);
      }
      stop := None;
    }

    /** [Test] RemoveOnlyOneOfDuplicates: skipped under Unique; otherwise
        after adding One twice and removing it once, Count is 1 and One is
        still contained. */
    method RemoveOnlyOneOfDuplicatesWhenSupported() returns (v: Verdict)
      requires Ready()
      ensures IsUnique() ==> v == Skipped
      ensures !IsUnique() ==> v == Passed
    {
      if IsUnique() {
        return Skipped;
      }
      var c := NewCollection();
      var sample := One(data);
      var s := c.Add(sample);
      if s == NotSupported {
        if IsReadOnly() {
          return Passed;
        }
        return Raised(s);
      }
      if s != Ok {
        return Raised(s);
      }
      if c.Count() != 1 {
        return Failed;
      }
      var b := c.Contains(sample);
      if !b {
        return Failed;
      }
      s := c.Add(sample);
      if s != Ok {
        return Raised(s);
      }
      if c.Count() != 2 {
        return Failed;
      }
      var removed;
      s, removed := c.Remove(sample);
      if s == NotSupported {
        if IsReadOnly() {
          return Passed;
        }
        return Raised(s);
      }
      if s != Ok {
        return Raised(s);
      }
      b := c.Contains(sample);
      if !b {
        return Failed;
      }
      if c.Count() != 1 {
        return Failed;
      }
      return Passed;
    }

    /** [Test] IsReadOnlyAsExpected: a new collection reports the ReadOnly option. */
    method IsReadOnlyAsExpected() returns (v: Verdict)
      ensures v == Passed
    {
      var c := NewCollection();
      if c.readOnly != IsReadOnly() {
        return Failed;
      }
      return Passed;
    }

    /** [Test] EnumerateThroughAllElements: enumeration yields the samples as a multiset. */
    method EnumerateThroughAllElements() returns (v: Verdict)
      requires Ready()
      ensures v == Passed
    {
      var c := NewCollectionFilledWithSample();
      var ys := Enumerate(c);
      if multiset(ys) != multiset(samples) {
        return Failed;
      }
      return Passed;
    }

    /** The delegates passed to EnumeratorFailsWhen: c.Remove(Two) or c.Add(Three).
        The value returned by Remove is dropped; a refusal comes back as the status. */
    method Mutate(c: Bag<T>, m: Mutation) returns (s: Status)
      requires c.Valid()
      modifies c
      ensures c.Valid()
      ensures s == NotSupported <==> c.readOnly
      ensures s == Ok || s == NotSupported
      ensures m == RemoveTwo ==>
        c.items == (if c.readOnly then old(c.items) else RemoveOne(old(c.items), Two(data))) &&
        (c.version != old(c.version) <==> !c.readOnly && Two(data) in old(c.items))
      ensures m == AddThree ==>
        c.items == (if c.readOnly || (c.unique && Three(data) in old(c.items)) then old(c.items) else old(c.items) + [Three(data)]) &&
        (c.version != old(c.version) <==> !c.readOnly && !(c.unique && Three(data) in old(c.items)))
    {
      match m
      case RemoveTwo =>
        var removed;
        s, removed := c.Remove(Two(data));
      case AddThree =>
        s := c.Add(Three(data));
    }

    /** The delegate of EnumeratorFailsWhen's Assert.Throws: steps an
        enumerator over `c`, applying `m` after every successful step, at most
        AntiHangingLimit times. Returns the status the delegate ends with. On
        the collection {One, Two} the second step fails, so the delegate ends
        with InvalidOperation exactly when the limit allows two steps. */
    method StepWhileMutating(c: Bag<T>, m: Mutation) returns (thrown: Status)
      requires Valid() && c.Valid() && !c.readOnly
      requires c.items == [One(data), Two(data)]
      modifies c
      ensures c.Valid()
      ensures thrown == (if antiHangingLimit >= 2 then InvalidOperation else Ok)
      ensures antiHangingLimit < 1 ==> c.items == old(c.items)
      ensures antiHangingLimit >= 1 ==>
        c.items == (if m == RemoveTwo then [One(data)] else [One(data), Two(data), Three(data)])
    {
      assert One(data) != Two(data) && One(data) != Three(data) && Two(data) != Three(data) by {
        assert Injective(data);
      }
      var it := c.GetEnumerator();
      var i := antiHangingLimit - 1;
      while i >= 0
        invariant it.coll == c && c.Valid()
        invariant i <= antiHangingLimit - 1
        invariant i < antiHangingLimit - 1 ==> i >= -1
        invariant i == antiHangingLimit - 1 ==> c.items == old(c.items) && !it.Stale() && it.index == 0
        invariant i < antiHangingLimit - 1 ==> (
          && i == antiHangingLimit - 2 && it.Stale()
          && c.items == (if m == RemoveTwo then [One(data)] else [One(data), Two(data), Three(data)]))
        decreases i + 1
      {
        var s, moved := it.MoveNext();
        if s != Ok {
          return s;
        }
        if !moved {
          return Ok;
        }
        s := Mutate(c, m);
        if s != Ok {
          return s;
        }
        if m == RemoveTwo {
          RemoveOneAt(old(c.items), Two(data), 1);
        }
        i := i - 1;
      }
      thrown := Ok;
    }

    /** The second half of EnumeratorFailsWhen (:291-294): adds Two, takes a
        new enumerator, applies `m` once, and resets the enumerator. Returns the
        status Reset, or the delegate, ends with. */
    method ResetAfterMutation(c: Bag<T>, m: Mutation) returns (thrown: Status)
      requires Valid() && c.Valid() && !c.readOnly
      modifies c
      ensures c.Valid()
      ensures thrown == InvalidOperation <==>
        if m == RemoveTwo then true else !(c.unique && Three(data) in old(c.items))
    {
      var s := c.Add(Two(data));
      var e := c.GetEnumerator();
      s := Mutate(c, m);
      thrown := e.Reset();
    }

    /** The collection EnumeratorFailsWhen starts from: a new collection to
        which One and Two are added, unguarded. */
    method NewCollectionOfOneAndTwo() returns (c: Bag<T>, s: Status)
      requires Valid()
      ensures fresh(c) && c.Valid() && c.readOnly == IsReadOnly() && c.unique == IsUnique()
      ensures s == NotSupported <==> IsReadOnly()
      ensures s == Ok || s == NotSupported
      ensures s == Ok ==> c.items == [One(data), Two(data)]
    {
      c := NewCollection();
      s := c.Add(One(data));
      if s != Ok {
        return;
      }
      assert One(data) != Two(data) by {
        assert Injective(data);
      }
      s := c.Add(Two(data));
    }

    /** EnumeratorFailsWhen, as written: on {One, Two}, the stepping loop must
        end with InvalidOperation, and an enumerator taken after re-adding Two
        must refuse Reset once `m` has been applied. Under ReadOnly the
        unguarded Add(One) raises NotSupported. For a unique collection the
        Add(Three) run fails the second half: Three is already present, so the
        second Add(Three) is no structural change. */
    method EnumeratorFailsWhen(m: Mutation) returns (v: Verdict)
      requires Ready()
      ensures IsReadOnly() ==> v == Raised(NotSupported)
      ensures !IsReadOnly() ==> (v == Passed <==> antiHangingLimit >= 2 && (m == RemoveTwo || !IsUnique()))
    {
      var c, s := NewCollectionOfOneAndTwo();
      if s != Ok {
        return Raised(s);
      }
      assert Two(data) != Three(data) by {
        assert Injective(data);
      }
      var thrown := StepWhileMutating(c, m);
      if thrown != InvalidOperation {
        return Failed;
      }
      thrown := ResetAfterMutation(c, m);
      if thrown != InvalidOperation {
        return Failed;
      }
      return Passed;
    }

    /** The second half of EnumeratorFailsWhen as evidently intended: the
        enumerator is taken on a new collection {One, Two}, on which both
        Remove(Two) and Add(Three) are structural changes, so Reset fails. */
    method ResetAfterMutationOnNewPair(m: Mutation) returns (thrown: Status)
      requires Valid() && !IsReadOnly()
      ensures thrown == InvalidOperation
    {
      var c, s := NewCollectionOfOneAndTwo();
      assert Two(data) != Three(data) by {
        assert Injective(data);
      }
      var e := c.GetEnumerator();
      s := Mutate(c, m);
      if m == RemoveTwo {
        RemoveOneAt(c.items, Two(data), 1);
      }
      thrown := e.Reset();
    }

    /** EnumeratorFailsWhen with its second half on a new collection {One, Two}:
        it passes exactly when the limit allows two steps, whatever the
        Unique option. */
    method EnumeratorFailsWhenCorrected(m: Mutation) returns (v: Verdict)
      requires Ready()
      ensures IsReadOnly() ==> v == Raised(NotSupported)
      ensures !IsReadOnly() ==> (v == Passed <==> antiHangingLimit >= 2)
    {
      var c, s := NewCollectionOfOneAndTwo();
      if s != Ok {
        return Raised(s);
      }
      var thrown := StepWhileMutating(c, m);
      if thrown != InvalidOperation {
        return Failed;
      }
      thrown := ResetAfterMutationOnNewPair(m);
      if thrown != InvalidOperation {
        return Failed;
      }
      return Passed;
    }

    /** [Test] EnumeratorFailsWhenCollectionIsModified: EnumeratorFailsWhen
        with Remove(Two), then with Add(Three). */
    method EnumeratorFailsWhenCollectionIsModified() returns (v: Verdict)
      requires Ready()
      ensures IsReadOnly() ==> v == Raised(NotSupported)
      ensures !IsReadOnly() ==> (v == Passed <==> antiHangingLimit >= 2 && !IsUnique())
    {
      v := EnumeratorFailsWhen(RemoveTwo);
      if v != Passed {
        return v;
      }
      v := EnumeratorFailsWhen(AddThree);
    }

    /** EnumeratorFailsWhenCollectionIsModified with the corrected second half:
        passes for unique and non-unique collections alike. */
    method EnumeratorFailsWhenCollectionIsModifiedCorrected() returns (v: Verdict)
      requires Ready()
      ensures IsReadOnly() ==> v == Raised(NotSupported)
      ensures !IsReadOnly() ==> (v == Passed <==> antiHangingLimit >= 2)
    {
      v := EnumeratorFailsWhenCorrected(RemoveTwo);
      if v != Passed {
        return v;
      }
      v := EnumeratorFailsWhenCorrected(AddThree);
    }
  }

  /** The identity generator on integers: an injective MakeData. */
  lemma IdentityIsInjective()
    ensures Injective((i: int) => i)
  {
  }

  /** A fixture of integers with the default options and sample size 9:
      AddAllSamplesSuccessfullyWhenSupported passes. */
  method DefaultOptionsAddAllSamples() returns (v: Verdict)
    ensures v == Passed
  {
    IdentityIsInjective();
    var f := new CollectionTestFixture(NoOptions, (i: int) => i, 100);
    f.SetUpSamples();
    v := f.AddAllSamplesSuccessfullyWhenSupported();
  }

  /** The same fixture with Unique set: AddDuplicateSuccessfullyWhenSupported
      skips itself. */
  method UniqueOptionSkipsDuplicateAdd() returns (v: Verdict)
    ensures v == Skipped
  {
    IdentityIsInjective();
    var f := new CollectionTestFixture(NoOptions, (i: int) => i, 100);
    f.SetIsUnique(true);
    f.SetUpSamples();
    v := f.AddDuplicateSuccessfullyWhenSupported();
  }
}
