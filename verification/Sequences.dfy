/** Options and sequence facts shared by the other modules. */
module Sequences {

  datatype Option<+T> = None | Some(value: T)

  /** The elements of `s` that satisfy `keep`, in their original order. */
  function Filter<T(!new)>(s: seq<T>, keep: T -> bool): (r: seq<T>)
    ensures |r| <= |s|
    ensures forall x :: x in r <==> x in s && keep(x)
  {
    if s == [] then []
    else if keep(s[0]) then [s[0]] + Filter(s[1..], keep)
    else Filter(s[1..], keep)
  }

  function Reverse<T(!new)>(s: seq<T>): (r: seq<T>)
    ensures |r| == |s|
    ensures forall i :: 0 <= i < |s| ==> r[i] == s[|s| - 1 - i]
    ensures forall x :: x in r <==> x in s
  {
    if s == [] then [] else Reverse(s[1..]) + [s[0]]
  }

  ghost predicate NoDuplicates<T>(s: seq<T>) {
    forall i, j :: 0 <= i < j < |s| ==> s[i] != s[j]
  }

  function ToSet<T>(s: seq<T>): set<T> {
    set x | x in s
  }

  lemma {:induction false} CardinalityOfDistinct<T>(s: seq<T>)
    requires NoDuplicates(s)
    ensures |ToSet(s)| == |s|
  {
    if s != [] {
      CardinalityOfDistinct(s[1..]);
      assert ToSet(s) == {s[0]} + ToSet(s[1..]);
    }
  }

  /** Strictly increasing under an integer key. */
  ghost predicate Ascending<T>(s: seq<T>, key: T -> int) {
    forall i, j :: 0 <= i < j < |s| ==> key(s[i]) < key(s[j])
  }

  lemma PrependAscending<T>(x: T, r: seq<T>, key: T -> int)
    requires Ascending(r, key)
    requires forall i :: 0 <= i < |r| ==> key(x) < key(r[i])
    ensures Ascending([x] + r, key)
  {
    var whole := [x] + r;
    forall i, j | 0 <= i < j < |whole| ensures key(whole[i]) < key(whole[j]) {
      if i > 0 {
        assert whole[i] == r[i - 1] && whole[j] == r[j - 1];
      }
    }
  }

  lemma {:induction false} FilterAscending<T(!new)>(s: seq<T>, keep: T -> bool, key: T -> int)
    requires Ascending(s, key)
    ensures Ascending(Filter(s, keep), key)
  {
    if s != [] {
      FilterAscending(s[1..], keep, key);
      if keep(s[0]) {
        var r := Filter(s[1..], keep);
        forall i | 0 <= i < |r| ensures key(s[0]) < key(r[i]) {
          assert r[i] in r;
        }
        PrependAscending(s[0], r, key);
      }
    }
  }

  /** `r` is what is left of `s` when some elements are crossed out. */
  ghost predicate Within<T>(r: seq<T>, s: seq<T>) {
    r == [] || (s != [] && ((r[0] == s[0] && Within(r[1..], s[1..])) || Within(r, s[1..])))
  }

  lemma {:induction false} FilterWithin<T(!new)>(s: seq<T>, keep: T -> bool)
    ensures Within(Filter(s, keep), s)
    ensures forall x :: multiset(Filter(s, keep))[x] == if keep(x) then multiset(s)[x] else 0
  {
    if s != [] {
      FilterWithin(s[1..], keep);
      assert s == [s[0]] + s[1..];
    }
  }

  lemma {:induction false} FilterAtMostOne<T(!new)>(s: seq<T>, keep: T -> bool)
    ensures |Filter(s, keep)| <= 1 <==> forall i, j :: 0 <= i < j < |s| ==> !(keep(s[i]) && keep(s[j]))
  {
    if s != [] {
      FilterAtMostOne(s[1..], keep);
      assert forall i :: 0 <= i < |s[1..]| ==> s[1..][i] == s[i + 1];
      var rest := Filter(s[1..], keep);
      if keep(s[0]) && rest != [] {
        assert rest[0] in rest;
        var j :| 0 <= j < |s[1..]| && s[1..][j] == rest[0];
        assert keep(s[0]) && keep(s[j + 1]);
      }
    }
  }

  lemma {:induction false} FilterNone<T(!new)>(s: seq<T>, keep: T -> bool)
    requires forall i :: 0 <= i < |s| ==> !keep(s[i])
    ensures Filter(s, keep) == []
  {
    if s != [] {
      FilterNone(s[1..], keep);
    }
  }

  lemma {:induction false} FilterAll<T(!new)>(s: seq<T>, keep: T -> bool)
    requires forall x :: x in s ==> keep(x)
    ensures Filter(s, keep) == s
  {
    if s != [] {
      FilterAll(s[1..], keep);
    }
  }

  lemma NoDuplicatesAppend<T>(s: seq<T>, x: T)
    ensures NoDuplicates(s + [x]) <==> NoDuplicates(s) && x !in s
  {
    var u := s + [x];
    if NoDuplicates(u) {
      forall i, j | 0 <= i < j < |s| ensures s[i] != s[j] {
        assert u[i] == s[i] && u[j] == s[j];
      }
      forall i | 0 <= i < |s| ensures s[i] != x {
        assert u[i] == s[i] && u[|s|] == x;
      }
    }
  }

  // ---------------------------------------------------------------- sorting

  /** Insert after everything that does not have to come later. */
  function Place<T(!new)>(s: seq<T>, x: T, less: (T, T) -> bool): (r: seq<T>)
    ensures |r| == |s| + 1
    ensures forall y :: y in r <==> y in s || y == x
  {
    if s == [] || !less(x, s[|s| - 1]) then s + [x]
    else
      var init, last := s[..|s| - 1], s[|s| - 1];
      assert s == init + [last];
      Place(init, x, less) + [last]
  }

  /** Insertion sort; elements that neither comes before the other keep their order. */
  function StableSort<T(!new)>(s: seq<T>, less: (T, T) -> bool): (r: seq<T>)
    ensures |r| == |s|
    ensures forall y :: y in r <==> y in s
  {
    if s == [] then []
    else
      assert s == s[..|s| - 1] + [s[|s| - 1]];
      Place(StableSort(s[..|s| - 1], less), s[|s| - 1], less)
  }

  /** Insertion under an integer key. */
  function Insert<T(!new)>(s: seq<T>, x: T, key: T -> int): (r: seq<T>)
    ensures |r| == |s| + 1
    ensures forall y :: y in r <==> y in s || y == x
  {
    Place(s, x, (a: T, b: T) => key(a) < key(b))
  }

  /** Inserting a new key keeps an ascending sequence ascending. */
  lemma InsertAscending<T(!new)>(s: seq<T>, x: T, key: T -> int)
    requires Ascending(s, key)
    requires forall y :: y in s ==> key(y) != key(x)
    ensures Ascending(Insert(s, x, key), key)
  {
    PlaceAscending(s, x, key, (a: T, b: T) => key(a) < key(b));
  }

  lemma {:induction false} PlaceAscending<T(!new)>(s: seq<T>, x: T, key: T -> int, less: (T, T) -> bool)
    requires Ascending(s, key) && forall a, b :: less(a, b) <==> key(a) < key(b)
    requires forall y :: y in s ==> key(y) != key(x)
    ensures Ascending(Place(s, x, less), key)
  {
    if s != [] {
      var init, last := s[..|s| - 1], s[|s| - 1];
      assert last in s && s == init + [last];
      var r := Place(init, x, less);
      if less(x, last) {
        PlaceAscending(init, x, key, less);
        forall i | 0 <= i < |r| ensures key(r[i]) < key(last) {
          assert r[i] in r;
          if r[i] in init {
            var k :| 0 <= k < |init| && init[k] == r[i];
            assert s[k] == r[i] && s[|s| - 1] == last;
          }
        }
      } else {
        forall i | 0 <= i < |s| ensures key(s[i]) < key(x) {
          assert key(s[i]) <= key(last);
        }
      }
    }
  }

  // ---------------------------------------------------------------- unused names

  lemma {:induction false} AboveAll(taken: set<int>) returns (bound: nat)
    ensures forall n: int :: n in taken ==> n < bound
    decreases taken
  {
    bound := 0;
    if n: int :| n in taken {
      bound := AboveAll(taken - {n});
      if n >= bound {
        bound := n + 1;
      }
      assert forall m: int :: m in taken ==> m == n || m in taken - {n};
    }
  }
}
