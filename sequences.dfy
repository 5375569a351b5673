/** Facts about sequences read as bags: distinctness and removal of one occurrence. */
module Sequences {

  /** No element occurs twice in `s`. */
  ghost predicate NoDuplicates<T>(s: seq<T>) {
    forall i, j :: 0 <= i < j < |s| ==> s[i] != s[j]
  }

  /** `s` without its first occurrence of `x`; `s` itself when `x` does not occur. */
  function RemoveOne<T(==)>(s: seq<T>, x: T): seq<T> {
    if s == [] then []
    else if s[0] == x then s[1..]
    else [s[0]] + RemoveOne(s[1..], x)
  }

  /** Removing the first occurrence, found at index `i`, cuts out exactly that position. */
  lemma {:induction false} RemoveOneAt<T>(s: seq<T>, x: T, i: nat)
    requires i <= |s|
    requires forall k :: 0 <= k < i ==> s[k] != x
    requires i < |s| ==> s[i] == x
    ensures RemoveOne(s, x) == if i < |s| then s[..i] + s[i + 1..] else s
  {
    if s == [] {
    } else if s[0] == x {
      assert i == 0;
    } else {
      assert 0 < i;
      RemoveOneAt(s[1..], x, i - 1);
      if i < |s| {
        calc {
          RemoveOne(s, x);
          [s[0]] + (s[1..][..i - 1] + s[1..][i..]);
          { assert [s[0]] + s[1..][..i - 1] == s[..i]; assert s[1..][i..] == s[i + 1..]; }
          s[..i] + s[i + 1..];
        }
      } else {
        assert [s[0]] + s[1..] == s;
      }
    }
  }

  /** As bags, removal takes away exactly one copy of `x` when there is one. */
  lemma {:induction false} RemoveOneMultiset<T>(s: seq<T>, x: T)
    ensures multiset(RemoveOne(s, x)) == multiset(s) - multiset{x}
  {
    if s == [] {
    } else {
      assert s == [s[0]] + s[1..];
      if s[0] != x {
        RemoveOneMultiset(s[1..], x);
        assert multiset(RemoveOne(s, x)) == multiset{s[0]} + (multiset(s[1..]) - multiset{x});
      }
    }
  }

  /** Removal shortens the sequence by one exactly when `x` occurs. */
  lemma RemoveOneLength<T>(s: seq<T>, x: T)
    ensures |RemoveOne(s, x)| == if x in s then |s| - 1 else |s|
  {
  }

  /** In a sequence without duplicates, removal takes `x` out completely, keeps
      every other element, and keeps the sequence free of duplicates. */
  lemma {:induction false} RemoveOneDistinct<T>(s: seq<T>, x: T)
    requires NoDuplicates(s)
    ensures NoDuplicates(RemoveOne(s, x))
    ensures x !in RemoveOne(s, x)
    ensures forall y :: y != x ==> (y in RemoveOne(s, x) <==> y in s)
  {
    if s == [] {
    } else if s[0] == x {
      assert s == [s[0]] + s[1..];
      assert x !in s[1..] by {
        forall k | 0 <= k < |s[1..]| ensures s[1..][k] != x {
          assert s[1..][k] == s[k + 1];
        }
      }
    } else {
      var t := s[1..];
      assert NoDuplicates(t) by {
        forall i, j | 0 <= i < j < |t| ensures t[i] != t[j] {
          assert t[i] == s[i + 1] && t[j] == s[j + 1];
        }
      }
      RemoveOneDistinct(t, x);
      var r := RemoveOne(t, x);
      assert s[0] !in t by {
        forall k | 0 <= k < |t| ensures t[k] != s[0] {
          assert t[k] == s[k + 1];
        }
      }
      assert s[0] !in r;
      assert NoDuplicates([s[0]] + r) by {
        forall i, j | 0 <= i < j < |[s[0]] + r| ensures ([s[0]] + r)[i] != ([s[0]] + r)[j] {
          if i == 0 {
            assert ([s[0]] + r)[j] == r[j - 1];
          } else {
            assert ([s[0]] + r)[i] == r[i - 1] && ([s[0]] + r)[j] == r[j - 1];
          }
        }
      }
      assert s == [s[0]] + t;
    }
  }
}
