/** Set-like lists keyed by a name: the plan's accommodations and activities
    are such lists, with "add" refusing a name already present and "remove"
    dropping every entry with the name. */
module Keyed {

  import Seqs

  /** Some entry of `xs` has key `k` (the source's `some(... name === ...)`). */
  predicate HasKey<T>(xs: seq<T>, key: T -> string, k: string) {
    exists i :: 0 <= i < |xs| && key(xs[i]) == k
  }

  /** No two entries of `xs` share a key. */
  predicate UniqueKeys<T>(xs: seq<T>, key: T -> string) {
    forall i, j :: 0 <= i < j < |xs| ==> key(xs[i]) != key(xs[j])
  }

  /** Add `x` unless an entry with its key is present; a new entry goes at
      the end. */
  function Insert<T>(xs: seq<T>, key: T -> string, x: T): (r: seq<T>)
    ensures HasKey(r, key, key(x))
    ensures HasKey(xs, key, key(x)) ==> r == xs
    ensures !HasKey(xs, key, key(x)) ==> r == xs + [x]
    ensures UniqueKeys(xs, key) ==> UniqueKeys(r, key)
  {
    if HasKey(xs, key, key(x)) then xs
    else
      assert (xs + [x])[|xs|] == x;
      xs + [x]
  }

  /** The filter predicate of `Remove`: keep entries whose key is not `k`. */
  function KeepOthers<T>(key: T -> string, k: string): T -> bool {
    x => key(x) != k
  }

  /** Drop every entry with key `k`, keeping the rest in order. */
  function Remove<T(==,!new)>(xs: seq<T>, key: T -> string, k: string): (r: seq<T>)
    ensures !HasKey(r, key, k)
    ensures forall x :: x in r <==> x in xs && key(x) != k
    ensures forall x :: multiset(r)[x] == if key(x) != k then multiset(xs)[x] else 0
    ensures UniqueKeys(xs, key) ==> UniqueKeys(r, key)
    ensures !HasKey(xs, key, k) ==> r == xs
  {
    var r := Seqs.Filter(xs, KeepOthers(key, k));
    assert UniqueKeys(xs, key) ==> UniqueKeys(r, key) by {
      if UniqueKeys(xs, key) {
        FilterKeepsUnique(xs, key, KeepOthers(key, k));
      }
    }
    assert !HasKey(xs, key, k) ==> r == xs by {
      if !HasKey(xs, key, k) {
        Seqs.FilterKeepsAll(xs, KeepOthers(key, k));
      }
    }
    r
  }

  /** Filtering a list with unique keys leaves the keys unique. */
  lemma {:induction false} FilterKeepsUnique<T(!new)>(xs: seq<T>, key: T -> string, p: T -> bool)
    requires UniqueKeys(xs, key)
    ensures UniqueKeys(Seqs.Filter(xs, p), key)
    decreases |xs|
  {
    if xs != [] {
      var tail := xs[1..];
      assert UniqueKeys(tail, key) by {
        forall i, j | 0 <= i < j < |tail|
          ensures key(tail[i]) != key(tail[j])
        {
          assert tail[i] == xs[i + 1] && tail[j] == xs[j + 1];
        }
      }
      var rest := Seqs.Filter(tail, p);
      FilterKeepsUnique(tail, key, p);
      if p(xs[0]) {
        assert Seqs.Filter(xs, p) == [xs[0]] + rest;
        forall j | 0 <= j < |rest|
          ensures key(rest[j]) != key(xs[0])
        {
          assert rest[j] in tail;
          var m :| 0 <= m < |tail| && tail[m] == rest[j];
          assert xs[m + 1] == rest[j];
        }
        UniqueCons(xs[0], rest, key);
      } else {
        assert Seqs.Filter(xs, p) == rest;
      }
    }
  }

  /** Putting an entry with a fresh key in front keeps keys unique. */
  lemma UniqueCons<T>(x: T, rest: seq<T>, key: T -> string)
    requires UniqueKeys(rest, key)
    requires forall j :: 0 <= j < |rest| ==> key(rest[j]) != key(x)
    ensures UniqueKeys([x] + rest, key)
  {
    var r := [x] + rest;
    forall i, j | 0 <= i < j < |r|
      ensures key(r[i]) != key(r[j])
    {
      assert r[j] == rest[j - 1];
      if i > 0 {
        assert r[i] == rest[i - 1];
      }
    }
  }

  /** Removal keeps the surviving entries in their original order. */
  lemma RemoveKeepsOrder<T(!new)>(xs: seq<T>, key: T -> string, k: string)
    ensures Seqs.IsSubseq(Remove(xs, key, k), xs)
  {
    Seqs.FilterIsSubseq(xs, KeepOthers(key, k));
  }

  /** Removing twice is removing once. */
  lemma RemoveIdempotent<T(!new)>(xs: seq<T>, key: T -> string, k: string)
    ensures Remove(Remove(xs, key, k), key, k) == Remove(xs, key, k)
  {
    Seqs.FilterIdempotent(xs, KeepOthers(key, k));
  }

  /** Adding an absent entry and then removing its key restores the list. */
  lemma InsertThenRemove<T(!new)>(xs: seq<T>, key: T -> string, x: T)
    requires !HasKey(xs, key, key(x))
    ensures Remove(Insert(xs, key, x), key, key(x)) == xs
  {
    var keep := KeepOthers(key, key(x));
    assert Insert(xs, key, x) == xs + [x];
    Seqs.FilterAppend(xs, [x], keep);
    assert !keep(x);
    assert Seqs.Filter([x], keep) == [];
    assert Seqs.Filter(xs, keep) == Remove(xs, key, key(x)) == xs;
  }

}
