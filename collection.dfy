/** A reference ICollection<T>: a bag kept as a sequence in enumeration order,
    with a version stamp that makes its enumerators fail fast. */
module Collection {
  import opened Outcomes
  import opened Sequences

  class Bag<T(==)> {
    /** The elements, in enumeration order. */
    var items: seq<T>
    /** Bumped by every structural change; enumerators compare against it. */
    var version: nat
    /** ICollection<T>.IsReadOnly: every mutating call reports NotSupported. */
    const readOnly: bool
    /** Set semantics: adding an element already present changes nothing. */
    const unique: bool

    ghost predicate Valid()
      reads this
    {
      unique ==> NoDuplicates(items)
    }

    constructor (initial: seq<T>, readOnly: bool, unique: bool)
      requires unique ==> NoDuplicates(initial)
      ensures Valid()
      ensures items == initial && version == 0
      ensures this.readOnly == readOnly && this.unique == unique
    {
      items := initial;
      version := 0;
      this.readOnly := readOnly;
      this.unique := unique;
    }

    /** ICollection<T>.Count: the number of copies held, over all elements. */
    function Count(): (n: nat)
      reads this
      ensures n == |multiset(items)|
    {
      |items|
    }

    /** Position of the first occurrence of `x`, or |items| when there is none. */
    method IndexOf(x: T) returns (i: nat)
      ensures i <= |items|
      ensures i < |items| ==> items[i] == x
      ensures forall k :: 0 <= k < i ==> items[k] != x
    {
      i := 0;
      while i < |items| && items[i] != x
        invariant i <= |items|
        invariant forall k :: 0 <= k < i ==> items[k] != x
      {
        i := i + 1;
      }
    }

    /** ICollection<T>.Contains. */
    method Contains(x: T) returns (b: bool)
      ensures b <==> x in items
    {
      var i := IndexOf(x);
      b := i < |items|;
    }

    /** ICollection<T>.Add: appends `x`, unless the collection is read-only
        (NotSupported) or unique and already holds `x` (no change). */
    method Add(x: T) returns (s: Status)
      requires Valid()
      modifies this
      ensures Valid()
      ensures s == Ok || s == NotSupported
      ensures s == NotSupported <==> readOnly
      ensures if readOnly || (unique && x in old(items))
              then items == old(items) && version == old(version)
              else items == old(items) + [x] && version == old(version) + 1
    {
      if readOnly {
        return NotSupported;
      }
      if unique {
        var present := Contains(x);
        if present {
          return Ok;
        }
      }
      items := items + [x];
      version := version + 1;
      s := Ok;
    }

    /** ICollection<T>.Remove: takes out one occurrence of `x` and reports
        whether there was one; NotSupported when read-only. */
    method Remove(x: T) returns (s: Status, removed: bool)
      requires Valid()
      modifies this
      ensures Valid()
      ensures s == Ok || s == NotSupported
      ensures s == NotSupported <==> readOnly
      ensures removed <==> !readOnly && x in old(items)
      ensures items == if readOnly then old(items) else RemoveOne(old(items), x)
      ensures !removed ==> items == old(items)
      ensures |items| == if removed then old(|items|) - 1 else old(|items|)
      ensures version == if removed then old(version) + 1 else old(version)
    {
      if readOnly {
        return NotSupported, false;
      }
      var i := IndexOf(x);
      RemoveOneAt(items, x, i);
      RemoveOneLength(items, x);
      removed := i < |items|;
      if removed {
        if unique {
          RemoveOneDistinct(items, x);
        }
        items := items[..i] + items[i + 1..];
        version := version + 1;
      }
      s := Ok;
    }

    /** ICollection<T>.Clear: empties the collection; NotSupported when read-only. */
    method Clear() returns (s: Status)
      requires Valid()
      modifies this
      ensures Valid()
      ensures s == Ok || s == NotSupported
      ensures s == NotSupported <==> readOnly
      ensures items == if readOnly then old(items) else []
      ensures version == if readOnly then old(version) else old(version) + 1
    {
      if readOnly {
        return NotSupported;
      }
      items := [];
      version := version + 1;
      s := Ok;
    }

    /** ICollection<T>.CopyTo: writes the elements, in enumeration order, into
        `target` from position `index` on. A null target, a negative index and
        a target with fewer than Count places from `index` are rejected, in that
        order, and leave the target untouched. */
    method CopyTo(target: array?<T>, index: int) returns (s: Status)
      modifies target
      ensures target == null ==> s == ArgumentNull
      ensures target != null && index < 0 ==> s == ArgumentOutOfRange
      ensures target != null && 0 <= index && target.Length - index < |items| ==> s == ArgumentError
      ensures target != null && 0 <= index && |items| <= target.Length - index ==> s == Ok
      ensures s != Ok ==> target == null || target[..] == old(target[..])
      ensures s == Ok ==> (
        && target != null
        && (forall k :: 0 <= k < |items| ==> target[index + k] == items[k])
        && (forall k :: 0 <= k < target.Length && !(index <= k < index + |items|) ==> target[k] == old(target[k])))
    {
      if target == null {
        return ArgumentNull;
      }
      if index < 0 {
        return ArgumentOutOfRange;
      }
      if target.Length - index < |items| {
        return ArgumentError;
      }
      var j := 0;
      while j < |items|
        invariant 0 <= j <= |items|
        invariant forall k :: 0 <= k < j ==> target[index + k] == items[k]
        invariant forall k :: 0 <= k < target.Length && !(index <= k < index + j) ==> target[k] == old(target[k])
      {
        target[index + j] := items[j];
        j := j + 1;
      }
      s := Ok;
    }

    /** ICollection<T>.GetEnumerator: a new enumerator before the first element,
        stamped with the current version. */
    method GetEnumerator() returns (e: Enumerator<T>)
      ensures fresh(e)
      ensures e.coll == this && e.stamp == version && e.index == 0 && e.current == None
    {
      e := new Enumerator(this);
    }
  }

  /** A fail-fast enumerator: once the collection's version differs from the
      stamp taken at creation, MoveNext and Reset report InvalidOperation. */
  class Enumerator<T(==)> {
    const coll: Bag<T>
    const stamp: nat
    /** Number of elements yielded so far. */
    var index: nat
    var current: Option<T>

    constructor (c: Bag<T>)
      ensures coll == c && stamp == c.version && index == 0 && current == None
    {
      coll := c;
      stamp := c.version;
      index := 0;
      current := None;
    }

    /** The collection changed structurally after this enumerator was created. */
    predicate Stale()
      reads this, coll
    {
      stamp != coll.version
    }

    /** IEnumerator.MoveNext: fails on a stale enumerator; otherwise steps to
        the next element and reports whether there was one. */
    method MoveNext() returns (s: Status, moved: bool)
      modifies this
      ensures s == Ok || s == InvalidOperation
      ensures s == InvalidOperation <==> Stale()
      ensures Stale() ==> !moved && index == old(index) && current == old(current)
      ensures !Stale() ==> (moved <==> old(index) < |coll.items|)
      ensures moved ==> index == old(index) + 1 && current == Some(coll.items[old(index)])
      ensures !Stale() && !moved ==> index == old(index) && current == None
    {
      if stamp != coll.version {
        return InvalidOperation, false;
      }
      moved := index < |coll.items|;
      if moved {
        current := Some(coll.items[index]);
        index := index + 1;
      } else {
        current := None;
      }
      s := Ok;
    }

    /** IEnumerator.Reset: fails on a stale enumerator; otherwise goes back
        before the first element. */
    method Reset() returns (s: Status)
      modifies this
      ensures s == Ok || s == InvalidOperation
      ensures s == InvalidOperation <==> Stale()
      ensures Stale() ==> index == old(index) && current == old(current)
      ensures !Stale() ==> index == 0 && current == None
    {
      if stamp != coll.version {
        return InvalidOperation;
      }
      index := 0;
      current := None;
      s := Ok;
    }
  }

  /** A `foreach` over `c`: drains a fresh enumerator and returns what it
      yielded, which is the collection's contents in order. */
  method Enumerate<T(==)>(c: Bag<T>) returns (ys: seq<T>)
    ensures ys == c.items
  {
    var e := c.GetEnumerator();
    ys := [];
    while true
      invariant e.coll == c && !e.Stale()
      invariant e.index == |ys| <= |c.items|
      invariant ys == c.items[..|ys|]
      decreases |c.items| - |ys|
    {
      var s, moved := e.MoveNext();
      if !moved {
        break;
      }
      ys := ys + [e.current.value];
    }
  }
}
