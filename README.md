# CollectionTestFixture — a verified model of the ICollection<T> conformance battery

`CollectionTestFixture<T>` (Spring.Threading test suite) is an abstract NUnit fixture. It checks any
`ICollection<T>` against a fixed battery: size accounting, `CopyTo` argument validation and copying,
containment, add/remove/clear, duplicates, read-only enforcement and fail-fast enumeration. Its
expectations are steered by capability options (`Unique`, `ReadOnly`). Samples come from an
index-keyed generator, `TestData<T>.MakeData`.

This project models the battery and runs it against a reference collection:

- `outcomes.dfy` (module `Outcomes`): exceptions become `Status` values (`Ok`, `NotSupported`,
  `ArgumentNull`, `ArgumentOutOfRange`, `ArgumentError`, `InvalidOperation`). A test case ends with a
  `Verdict`: `Passed`, `Skipped`, `Failed` or `Raised(status)` when an exception escapes.
- `options.dfy` (module `Options`): the option flags as a set, with `Has` and a functional `Set`.
- `test_data.dfy` (module `TestData`): `MakeData` is a parameter `data: int -> T` that must be injective.
  `MakeTestArray(n)` is `data(0..n-1)`. The sentinels `Zero`, `One`, `Two` and `Three` are `data(0..3)`,
  the indices `ThreadingrTestFixture.cs` uses for its own copies.
- `sequences.dfy` (module `Sequences`): removal of one occurrence (`RemoveOne`) as the reference
  definition of bag removal, with its lemmas.
- `collection.dfy` (module `Collection`): the reference collection `Bag`, a class over a sequence with a
  version stamp. It has `Count`, `Contains`, `Add`, `Remove`, `Clear`, `CopyTo`, `GetEnumerator`, and
  `readOnly`/`unique` flags. Its `Enumerator` is fail-fast: once the version moves, `MoveNext` and
  `Reset` report `InvalidOperation`, as .NET's `List<T>` enumerator does. A unique `Bag` ignores the
  addition of an element it already holds and does not bump the version, as `HashSet<T>` does.
- `fixture.dfy` (module `Fixture`): the fixture class. Each `[Test]` is a method that performs the
  test's calls and returns its `Verdict`. Its postcondition states the verdict the reference collection
  earns under each option setting.

Modelling decisions:
- `Assert.Pass("Skip ...")` is modelled as `Skipped`. NUnit reports it as a pass.
- The base `NewCollectionFilledWithSample` fills by `Add`, which a read-only collection refuses. So the
  reference factory builds a read-only collection directly over the samples. A read-only fixture has to
  override this virtual member the same way.
- Two tests do not guard against `NotSupported`: the `Remove` at line 146 and the `Add` calls at lines
  280-281. Under `ReadOnly` their contracts therefore state `Raised(NotSupported)`.
- `CopyToZeroLowerBoundArray` compares in order (`CollectionAssert.AreEqual`). The model does the same,
  not a multiset comparison.

## Model

| member | source | states |
|---|---|---|
| Options.CollectionOptions.Has | test/Spring/Spring.Threading.Tests/TestFixture/Collections/Generic/CollectionTestFixture.cs:22 | true exactly when the flag is in the option set; the default options hold no flag |
| TestData.MakeTestArray | test/Spring/Spring.Threading.Tests/TestFixture/Collections/Generic/CollectionTestFixture.cs:67-70 | the sample array has exactly `count` elements and element `i` is `MakeData(i)` |
| TestData.Zero | test/Spring/Spring.Threading.Tests/TestFixture/Collections/Generic/CollectionTestFixture.cs:128 | for injective `MakeData`, `Zero` is the datum of index 0 and of no other index |
| TestData.One | test/Spring/Spring.Threading.Tests/TestFixture/Collections/Generic/CollectionTestFixture.cs:232 | for injective `MakeData`, `One` is the datum of index 1 and of no other index |
| TestData.Two | test/Spring/Spring.Threading.Tests/TestFixture/Collections/Generic/CollectionTestFixture.cs:267 | for injective `MakeData`, `Two` is the datum of index 2 and of no other index |
| TestData.Three | test/Spring/Spring.Threading.Tests/TestFixture/Collections/Generic/CollectionTestFixture.cs:268 | for injective `MakeData`, `Three` is the datum of index 3 and of no other index |
| Options.CollectionOptions.Set | test/Spring/Spring.Threading.Tests/TestFixture/Collections/Generic/CollectionTestFixture.cs:20-31 | after `Set(flag, on)`, `Has(flag)` is `on`; every other flag is unchanged |
| Options.SetLastWins | test/Spring/Spring.Threading.Tests/TestFixture/Collections/Generic/CollectionTestFixture.cs:23-28 | two updates of one flag: the later one wins |
| Options.SetCommutes | test/Spring/Spring.Threading.Tests/TestFixture/Collections/Generic/CollectionTestFixture.cs:23-28 | updates of different flags commute, so setting Unique and ReadOnly in either order gives the same options |
| Options.SetCurrentIsIdentity | test/Spring/Spring.Threading.Tests/TestFixture/Collections/Generic/CollectionTestFixture.cs:20-31 | setting a flag to its current value changes nothing |
| TestData.SampleMembership | test/Spring/Spring.Threading.Tests/TestFixture/Collections/Generic/CollectionTestFixture.cs:136-137 | `MakeData(k)` is among the samples exactly when `0 <= k < SampleSize`, so `MakeData(SampleSize)` and `MakeData(i+1)` past the end are not samples |
| TestData.SamplesDistinct | test/Spring/Spring.Threading.Tests/TestFixture/Collections/Generic/CollectionTestFixture.cs:67-70 | the samples `MakeData(0..SampleSize-1)` are pairwise distinct |
| Sequences.RemoveOneAt | test/Spring/Spring.Threading.Tests/TestFixture/Collections/Generic/CollectionTestFixture.cs:198-226 | cutting out the first position holding `x` is the same as the reference one-occurrence removal |
| Sequences.RemoveOneMultiset | test/Spring/Spring.Threading.Tests/TestFixture/Collections/Generic/CollectionTestFixture.cs:228-251 | as bags, removal takes away exactly one copy of `x` |
| Sequences.RemoveOneLength | test/Spring/Spring.Threading.Tests/TestFixture/Collections/Generic/CollectionTestFixture.cs:239-250 | removal shortens the contents by one exactly when `x` was present |
| Sequences.RemoveOneDistinct | test/Spring/Spring.Threading.Tests/TestFixture/Collections/Generic/CollectionTestFixture.cs:140-149 | without duplicates, after removing `x` it is no longer contained, every other element keeps its membership, and there are still no duplicates |
| Collection.Bag.constructor | test/Spring/Spring.Threading.Tests/TestFixture/Collections/Generic/CollectionTestFixture.cs:72-76 | a new collection holds the given elements at version 0 with the given read-only and unique flags |
| Collection.Bag.Count | test/Spring/Spring.Threading.Tests/TestFixture/Collections/Generic/CollectionTestFixture.cs:84-88 | Count is the number of copies held in the bag |
| Collection.Bag.IndexOf | test/Spring/Spring.Threading.Tests/TestFixture/Collections/Generic/CollectionTestFixture.cs:125-149 | returns the first position holding `x`, or the length when `x` is absent |
| Collection.Bag.Contains | test/Spring/Spring.Threading.Tests/TestFixture/Collections/Generic/CollectionTestFixture.cs:125-149 | true exactly when `x` is held |
| Collection.Bag.Add | test/Spring/Spring.Threading.Tests/TestFixture/Collections/Generic/CollectionTestFixture.cs:164-196 | NotSupported exactly when read-only, with nothing changed. Otherwise appends `x` and bumps the version; a unique bag that already holds `x` is left unchanged |
| Collection.Bag.Remove | test/Spring/Spring.Threading.Tests/TestFixture/Collections/Generic/CollectionTestFixture.cs:198-251 | NotSupported exactly when read-only. Otherwise reports whether `x` was present and removes one occurrence (Count drops by one); the version is bumped exactly when something was removed |
| Collection.Bag.Clear | test/Spring/Spring.Threading.Tests/TestFixture/Collections/Generic/CollectionTestFixture.cs:151-162 | NotSupported exactly when read-only, with nothing changed. Otherwise the collection is emptied and the version bumped |
| Collection.Bag.CopyTo | test/Spring/Spring.Threading.Tests/TestFixture/Collections/Generic/CollectionTestFixture.cs:90-123 | null target gives ArgumentNull, a negative index ArgumentOutOfRange, and fewer than Count places from the index ArgumentError; none of these touches the target. Otherwise element k lands at index+k and the rest of the target is unchanged |
| Collection.Bag.GetEnumerator | test/Spring/Spring.Threading.Tests/TestFixture/Collections/Generic/CollectionTestFixture.cs:285 | a new enumerator on this collection, before the first element, stamped with the current version |
| Collection.Enumerator.MoveNext | test/Spring/Spring.Threading.Tests/TestFixture/Collections/Generic/CollectionTestFixture.cs:286 | InvalidOperation exactly when the collection's version moved since creation; otherwise steps to the next element in order, or reports the end |
| Collection.Enumerator.Reset | test/Spring/Spring.Threading.Tests/TestFixture/Collections/Generic/CollectionTestFixture.cs:294 | InvalidOperation exactly when the collection's version moved; otherwise goes back to the start |
| Collection.Enumerate | test/Spring/Spring.Threading.Tests/TestFixture/Collections/Generic/CollectionTestFixture.cs:259-263 | a foreach over the collection yields exactly its contents, in order |
| Fixture.CollectionTestFixture.constructor | test/Spring/Spring.Threading.Tests/TestFixture/Collections/Generic/CollectionTestFixture.cs:47-50 | the fixture keeps the given options, sample size 9 |
| Fixture.CollectionTestFixture.IsUnique | test/Spring/Spring.Threading.Tests/TestFixture/Collections/Generic/CollectionTestFixture.cs:20-22 | true exactly when the options hold Unique |
| Fixture.CollectionTestFixture.IsReadOnly | test/Spring/Spring.Threading.Tests/TestFixture/Collections/Generic/CollectionTestFixture.cs:25-27 | true exactly when the options hold ReadOnly |
| Fixture.CollectionTestFixture.SetIsUnique | test/Spring/Spring.Threading.Tests/TestFixture/Collections/Generic/CollectionTestFixture.cs:20-24 | the options become `Options.Set(Unique, value)`; ReadOnly and the samples are untouched |
| Fixture.CollectionTestFixture.SetIsReadOnly | test/Spring/Spring.Threading.Tests/TestFixture/Collections/Generic/CollectionTestFixture.cs:25-29 | the options become `Options.Set(ReadOnly, value)`; Unique and the samples are untouched |
| Fixture.CollectionTestFixture.SetSampleSize | test/Spring/Spring.Threading.Tests/TestFixture/Collections/Generic/CollectionTestFixture.cs:13-18 | sets the sample size, nothing else |
| Fixture.CollectionTestFixture.NewSamples | test/Spring/Spring.Threading.Tests/TestFixture/Collections/Generic/CollectionTestFixture.cs:67-70 | SampleSize distinct samples; `MakeData(k)` is one of them exactly when `0 <= k < SampleSize` |
| Fixture.CollectionTestFixture.SetUpSamples | test/Spring/Spring.Threading.Tests/TestFixture/Collections/Generic/CollectionTestFixture.cs:78-82 | after set-up the samples are `MakeData(0..SampleSize-1)` |
| Fixture.CollectionTestFixture.NewCollection | test/Spring/Spring.Threading.Tests/TestFixture/Collections/Generic/CollectionTestFixture.cs:72-76 | a fresh empty collection whose read-only and unique flags are the options |
| Fixture.CollectionTestFixture.NewCollectionFilledWithSample | test/Spring/Spring.Threading.Tests/TestFixture/Collections/Generic/CollectionTestFixture.cs:57-65 | a fresh collection whose contents are the samples in order |
| Fixture.CollectionTestFixture.ContainsAllSamples | test/Spring/Spring.Threading.Tests/TestFixture/Collections/Generic/CollectionTestFixture.cs:297-303 | true exactly when every sample is contained |
| Fixture.CollectionTestFixture.ContainsNoSample | test/Spring/Spring.Threading.Tests/TestFixture/Collections/Generic/CollectionTestFixture.cs:305-311 | true exactly when no sample is contained |
| Fixture.CollectionTestFixture.CountAccurately | test/Spring/Spring.Threading.Tests/TestFixture/Collections/Generic/CollectionTestFixture.cs:84-88 | passes: new collection has Count 0, filled one has Count == SampleSize |
| Fixture.CollectionTestFixture.CopyToChokesWithNullArray | test/Spring/Spring.Threading.Tests/TestFixture/Collections/Generic/CollectionTestFixture.cs:90-94 | passes: CopyTo(null, 0) reports ArgumentNull |
| Fixture.CollectionTestFixture.CopyToChokesWithNegativeIndex | test/Spring/Spring.Threading.Tests/TestFixture/Collections/Generic/CollectionTestFixture.cs:96-101 | passes: index -1 reports ArgumentOutOfRange |
| Fixture.CollectionTestFixture.CopyToChokesWhenArrayIsTooSmallToHold | test/Spring/Spring.Threading.Tests/TestFixture/Collections/Generic/CollectionTestFixture.cs:103-109 | skipped for an empty collection; otherwise passes: length Count-1 at 0 and length Count at 1 both report ArgumentError |
| Fixture.CollectionTestFixture.CopyToZeroLowerBoundArray | test/Spring/Spring.Threading.Tests/TestFixture/Collections/Generic/CollectionTestFixture.cs:111-117 | passes: the copy equals the enumeration element for element |
| Fixture.CollectionTestFixture.CopyToDoesNothingWhenCollectionIsEmpty | test/Spring/Spring.Threading.Tests/TestFixture/Collections/Generic/CollectionTestFixture.cs:119-123 | passes: copying an empty collection into a length-0 array at 0 succeeds |
| Fixture.CollectionTestFixture.ContainsReturnFalseOnEmptyCollection | test/Spring/Spring.Threading.Tests/TestFixture/Collections/Generic/CollectionTestFixture.cs:125-130 | passes: an empty collection contains neither Zero nor any sample |
| Fixture.CollectionTestFixture.ContainsSunnyDay | test/Spring/Spring.Threading.Tests/TestFixture/Collections/Generic/CollectionTestFixture.cs:132-138 | passes: every sample is contained, `MakeData(SampleSize)` is not |
| Fixture.CollectionTestFixture.ContainsReportsTrueWhenElementsAddedButNotYetRemoved | test/Spring/Spring.Threading.Tests/TestFixture/Collections/Generic/CollectionTestFixture.cs:140-149 | passes when mutable or SampleSize is 0: each sample is contained until it is removed, then not. Read-only with samples raises NotSupported |
| Fixture.CollectionTestFixture.ClearEmptiesTheCollectionWhenSupported | test/Spring/Spring.Threading.Tests/TestFixture/Collections/Generic/CollectionTestFixture.cs:151-162 | passes: mutable gives Count 0 and no sample; NotSupported only under ReadOnly |
| Fixture.CollectionTestFixture.AddAllSamplesSuccessfullyWhenSupported | test/Spring/Spring.Threading.Tests/TestFixture/Collections/Generic/CollectionTestFixture.cs:164-178 | passes: Count == SampleSize and all samples contained; NotSupported only under ReadOnly |
| Fixture.CollectionTestFixture.AddDuplicateSuccessfullyWhenSupported | test/Spring/Spring.Threading.Tests/TestFixture/Collections/Generic/CollectionTestFixture.cs:180-196 | skipped exactly under Unique or with no samples; otherwise passes: Count goes 1 then 2 |
| Fixture.CollectionTestFixture.RemoveAllSamplesSuccessfullyWhenSupported | test/Spring/Spring.Threading.Tests/TestFixture/Collections/Generic/CollectionTestFixture.cs:198-226 | passes: the odd-then-even sweep removes every sample once, reports false for removed or never-added elements, and leaves no sample |
| Fixture.CollectionTestFixture.RemoveOddIndexedSamples | test/Spring/Spring.Threading.Tests/TestFixture/Collections/Generic/CollectionTestFixture.cs:203-211 | the odd sweep ends with exactly the even-indexed samples left, or stops with a pass only when read-only |
| Fixture.CollectionTestFixture.RemoveOddStep | test/Spring/Spring.Threading.Tests/TestFixture/Collections/Generic/CollectionTestFixture.cs:205 | removing an odd-indexed sample reports true and keeps the sweep's membership invariant |
| Fixture.CollectionTestFixture.RemoveEvenIndexedSamples | test/Spring/Spring.Threading.Tests/TestFixture/Collections/Generic/CollectionTestFixture.cs:212-224 | the even sweep ends with no sample left, or stops with a pass only when read-only |
| Fixture.CollectionTestFixture.RemoveEvenPair | test/Spring/Spring.Threading.Tests/TestFixture/Collections/Generic/CollectionTestFixture.cs:214-218 | `Remove(MakeData(i))` reports true, `Remove(MakeData(i+1))` reports false, and the sweep's membership invariant is kept |
| Fixture.CollectionTestFixture.RemoveOnlyOneOfDuplicatesWhenSupported | test/Spring/Spring.Threading.Tests/TestFixture/Collections/Generic/CollectionTestFixture.cs:228-251 | skipped exactly under Unique; otherwise passes: after two Adds of One and one Remove, One is still contained and Count is 1 |
| Fixture.CollectionTestFixture.IsReadOnlyAsExpected | test/Spring/Spring.Threading.Tests/TestFixture/Collections/Generic/CollectionTestFixture.cs:253-257 | passes: a new collection's IsReadOnly equals the ReadOnly option |
| Fixture.CollectionTestFixture.EnumerateThroughAllElements | test/Spring/Spring.Threading.Tests/TestFixture/Collections/Generic/CollectionTestFixture.cs:259-263 | passes: enumeration yields the samples as a multiset |
| Fixture.CollectionTestFixture.Mutate | test/Spring/Spring.Threading.Tests/TestFixture/Collections/Generic/CollectionTestFixture.cs:267-268 | the two delegates `Remove(Two)` and `Add(Three)`: new contents, and the version moves exactly on a structural change |
| Fixture.CollectionTestFixture.NewCollectionOfOneAndTwo | test/Spring/Spring.Threading.Tests/TestFixture/Collections/Generic/CollectionTestFixture.cs:279-281 | a new collection {One, Two}, or NotSupported exactly under ReadOnly |
| Fixture.CollectionTestFixture.StepWhileMutating | test/Spring/Spring.Threading.Tests/TestFixture/Collections/Generic/CollectionTestFixture.cs:282-290 | on {One, Two} the step-and-mutate loop ends with InvalidOperation exactly when AntiHangingLimit >= 2 |
| Fixture.CollectionTestFixture.ResetAfterMutation | test/Spring/Spring.Threading.Tests/TestFixture/Collections/Generic/CollectionTestFixture.cs:291-294 | after re-adding Two and one mutation, Reset fails for Remove(Two); for Add(Three) it fails unless the collection is unique and already holds Three |
| Fixture.CollectionTestFixture.EnumeratorFailsWhen | test/Spring/Spring.Threading.Tests/TestFixture/Collections/Generic/CollectionTestFixture.cs:277-295 | under ReadOnly raises NotSupported; otherwise passes exactly when AntiHangingLimit >= 2 and the action is Remove(Two) or the collection is not unique |
| Fixture.CollectionTestFixture.EnumeratorFailsWhenCollectionIsModified | test/Spring/Spring.Threading.Tests/TestFixture/Collections/Generic/CollectionTestFixture.cs:265-269 | under ReadOnly raises NotSupported; otherwise passes exactly when AntiHangingLimit >= 2 and not Unique |
| Fixture.CollectionTestFixture.ResetAfterMutationOnNewPair | test/Spring/Spring.Threading.Tests/TestFixture/Collections/Generic/CollectionTestFixture.cs:291-294 | on a new {One, Two}, either action makes a stale enumerator's Reset fail |
| Fixture.CollectionTestFixture.EnumeratorFailsWhenCorrected | test/Spring/Spring.Threading.Tests/TestFixture/Collections/Generic/CollectionTestFixture.cs:277-295 | with the corrected second half: passes exactly when AntiHangingLimit >= 2, for any Unique setting |
| Fixture.CollectionTestFixture.EnumeratorFailsWhenCollectionIsModifiedCorrected | test/Spring/Spring.Threading.Tests/TestFixture/Collections/Generic/CollectionTestFixture.cs:265-269 | with the corrected helper: passes exactly when AntiHangingLimit >= 2, for any Unique setting |
| Fixture.DefaultOptionsAddAllSamples | test/Spring/Spring.Threading.Tests/TestFixture/Collections/Generic/CollectionTestFixture.cs:164-178 | with the default options and identity data, adding all samples passes |
| Fixture.UniqueOptionSkipsDuplicateAdd | test/Spring/Spring.Threading.Tests/TestFixture/Collections/Generic/CollectionTestFixture.cs:180-182 | with the Unique option set, the duplicate-add test is skipped |

## Left out

- `ToStringContainsToStringOfElements` and `ToStringContainsToStringOfAllElements` (lines 33-40, 271-275): the string rendering of a generic element and of the collection is opaque.
- `Options.SkipWhenNot` and `SkipForCurrentQueueImplementation` (lines 273, 313-316): these are NUnit test control. A skip appears only as the `Skipped` verdict.
- `SystemExtensions.PreserveStackTrace`: a rethrown `NotSupported` is the `Raised(NotSupported)` verdict, with no stack trace.
- `NewEnumerable` (lines 52-55) and `EnumerableTestFixture<T>`: the base fixture is not part of this model. Only `AntiHangingLimit` is taken from it, as a constructor parameter whose value is not known.
- The internals of `CollectionOptions` and `TestData<T>` are not part of this model. `Has`/`Set` are modelled on a flag set, and `MakeData` is an arbitrary injective parameter.
- Fixture.CollectionTestFixture.SetSampleSize: takes a `nat`. The C# property accepts a negative `int`, for which `MakeTestArray` presumably throws, since it would build an array of negative length (`TestData<T>` is not part of this model).
- Fixture.CollectionTestFixture.NewCollectionFilledWithSample: the base member (lines 57-65) fills by `Add`, which raises NotSupported at line 62 for a read-only collection. The model builds the read-only collection directly over the samples, as an overriding fixture must. The read-only `Passed` verdicts of `CountAccurately`, the `CopyTo` tests, `ContainsSunnyDay`, the `Clear` tests and the `RemoveAll` tests assume that override.
- `ConcurrentHashSet.java` (concurrent wrapper over a map that is not shown) and the timing and thread utilities of `ThreadingrTestFixture.cs`: outside this single-threaded core.
- Exceptions are not modelled as control flow. Each call returns a status, and the test methods return as the C# `try`/`catch` would.

## Findings

| source | as written | input that shows it | evidently intended | confidence | as-written member | corrected member |
|---|---|---|---|---|---|---|
| test/Spring/Spring.Threading.Tests/TestFixture/Collections/Generic/CollectionTestFixture.cs:291-294 | The second half re-adds `Two` to the collection left by the first half, then applies the action once more. For `Add(Three)` that collection already holds `Three`. | Unique option set and AntiHangingLimit >= 2. The collection coalesces duplicates (HashSet semantics). The second `Add(Three)` changes nothing, so `Reset` succeeds and the `Assert.Throws` fails. | The action in the second half should be a structural change for every conforming collection. Running it on a new {One, Two} collection achieves that, and then the case passes whatever the Unique option | medium, not executed | Fixture.CollectionTestFixture.EnumeratorFailsWhen | Fixture.CollectionTestFixture.EnumeratorFailsWhenCorrected |
