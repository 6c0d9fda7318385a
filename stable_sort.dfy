/** Python's `sorted(xs, key=k)`: a stable sort. It is modelled as insertion
    sort under a comparison `le` (for `sorted`, `le(x, y)` is `k(x) <= k(y)`),
    and the lemmas below show that the result is ordered, keeps every
    element, keeps equal-key elements in their input order, and is the only
    sequence with those properties. */
module StableSort {

  ghost predicate TotalPreorder<T(!new)>(le: (T, T) -> bool) {
    && (forall x, y :: le(x, y) || le(y, x))
    && (forall x, y, z :: le(x, y) && le(y, z) ==> le(x, z))
  }

  predicate Sorted<T>(s: seq<T>, le: (T, T) -> bool) {
    forall i, j :: 0 <= i < j < |s| ==> le(s[i], s[j])
  }

  /** x and y have equal keys. */
  predicate Equivalent<T>(le: (T, T) -> bool, x: T, y: T) {
    le(x, y) && le(y, x)
  }

  /** The elements of `s` whose key equals that of `x`, in their order in `s`. */
  function Ties<T>(s: seq<T>, le: (T, T) -> bool, x: T): seq<T> {
    if s == [] then []
    else (if Equivalent(le, x, s[0]) then [s[0]] else []) + Ties(s[1..], le, x)
  }

  /** Places `x` in front of the first element that is not smaller than it. */
  function Insert<T>(x: T, s: seq<T>, le: (T, T) -> bool): (r: seq<T>)
    ensures multiset(r) == multiset(s) + multiset{x}
  {
    if s == [] || le(x, s[0]) then [x] + s
    else
      assert s == [s[0]] + s[1..];
      [s[0]] + Insert(x, s[1..], le)
  }

  function Sort<T>(s: seq<T>, le: (T, T) -> bool): (r: seq<T>)
    ensures multiset(r) == multiset(s)
    ensures |r| == |s|
  {
    if s == [] then []
    else
      assert s == [s[0]] + s[1..];
      Insert(s[0], Sort(s[1..], le), le)
  }

  lemma {:induction false} InsertSorted<T(!new)>(x: T, s: seq<T>, le: (T, T) -> bool)
    requires TotalPreorder(le)
    requires Sorted(s, le)
    ensures Sorted(Insert(x, s, le), le)
  {
    if s == [] || le(x, s[0]) {
    } else {
      var r' := Insert(x, s[1..], le);
      InsertSorted(x, s[1..], le);
      assert le(s[0], x);
      forall k | 0 <= k < |r'|
        ensures le(s[0], r'[k])
      {
        assert r'[k] in multiset(r');
        if r'[k] != x {
          assert r'[k] in multiset(s[1..]);
          var j :| 0 <= j < |s[1..]| && s[1..][j] == r'[k];
          assert s[j + 1] == r'[k];
        }
      }
      var r := Insert(x, s, le);
      assert r == [s[0]] + r';
      forall i, j | 0 <= i < j < |r|
        ensures le(r[i], r[j])
      {
        if i > 0 {
          assert r[i] == r'[i - 1] && r[j] == r'[j - 1];
        } else {
          assert r[j] == r'[j - 1];
        }
      }
    }
  }

  /** Insertion puts `x` in front of every element that ties with it. */
  lemma {:induction false} InsertTies<T(!new)>(x: T, s: seq<T>, le: (T, T) -> bool, y: T)
    requires TotalPreorder(le)
    ensures Ties(Insert(x, s, le), le, y)
         == (if Equivalent(le, y, x) then [x] else []) + Ties(s, le, y)
  {
    if s == [] || le(x, s[0]) {
      assert ([x] + s)[1..] == s;
    } else {
      InsertTies(x, s[1..], le, y);
      var r', r := Insert(x, s[1..], le), Insert(x, s, le);
      assert r == [s[0]] + r';
      assert r[0] == s[0] && r[1..] == r';
      var h := if Equivalent(le, y, s[0]) then [s[0]] else [];
      assert Ties(r, le, y) == h + Ties(r', le, y);
      assert Ties(s, le, y) == h + Ties(s[1..], le, y);
    }
  }

  lemma {:induction false} SortSorted<T(!new)>(s: seq<T>, le: (T, T) -> bool)
    requires TotalPreorder(le)
    ensures Sorted(Sort(s, le), le)
  {
    if s != [] {
      SortSorted(s[1..], le);
      InsertSorted(s[0], Sort(s[1..], le), le);
    }
  }

  lemma {:induction false} SortTies<T(!new)>(s: seq<T>, le: (T, T) -> bool, y: T)
    requires TotalPreorder(le)
    ensures Ties(Sort(s, le), le, y) == Ties(s, le, y)
  {
    if s != [] {
      SortTies(s[1..], le, y);
      InsertTies(s[0], Sort(s[1..], le), le, y);
    }
  }

  /** `sorted` is a stable sort: ordered, and every group of equal keys keeps
      its input order (so the result is also a permutation of the input). */
  lemma SortIsStable<T(!new)>(s: seq<T>, le: (T, T) -> bool)
    requires TotalPreorder(le)
    ensures Sorted(Sort(s, le), le)
    ensures multiset(Sort(s, le)) == multiset(s)
    ensures forall y :: Ties(Sort(s, le), le, y) == Ties(s, le, y)
  {
    SortSorted(s, le);
    forall y
      ensures Ties(Sort(s, le), le, y) == Ties(s, le, y)
    {
      SortTies(s, le, y);
    }
  }

  lemma {:induction false} TiesHead<T(!new)>(s: seq<T>, le: (T, T) -> bool)
    requires TotalPreorder(le)
    requires s != []
    ensures Ties(s, le, s[0]) != [] && Ties(s, le, s[0])[0] == s[0]
  {
    assert le(s[0], s[0]);
  }

  lemma {:induction false} TiesMember<T(!new)>(s: seq<T>, le: (T, T) -> bool, y: T, k: nat)
    requires k < |Ties(s, le, y)|
    ensures exists j :: 0 <= j < |s| && s[j] == Ties(s, le, y)[k]
  {
    if !Equivalent(le, y, s[0]) {
      TiesMember(s[1..], le, y, k);
      var j :| 0 <= j < |s[1..]| && s[1..][j] == Ties(s[1..], le, y)[k];
      assert s[j + 1] == Ties(s, le, y)[k];
    } else if k > 0 {
      TiesMember(s[1..], le, y, k - 1);
      var j :| 0 <= j < |s[1..]| && s[1..][j] == Ties(s[1..], le, y)[k - 1];
      assert s[j + 1] == Ties(s, le, y)[k];
    } else {
      assert s[0] == Ties(s, le, y)[k];
    }
  }

  /** An element of a sorted sequence is no smaller than its first one. */
  lemma FirstIsLeast<T(!new)>(s: seq<T>, le: (T, T) -> bool, x: T)
    requires TotalPreorder(le) && Sorted(s, le)
    requires Ties(s, le, x) != [] && Ties(s, le, x)[0] == x
    ensures le(s[0], x)
  {
    TiesMember(s, le, x, 0);
    var j :| 0 <= j < |s| && s[j] == Ties(s, le, x)[0];
    if j > 0 {
      assert le(s[0], s[j]);
    } else {
      assert le(x, x) || le(x, x);
    }
  }

  lemma SortedHeadsAgree<T(!new)>(t: seq<T>, u: seq<T>, le: (T, T) -> bool)
    requires TotalPreorder(le) && Sorted(t, le) && Sorted(u, le)
    requires t != [] && u != []
    requires Ties(t, le, t[0]) == Ties(u, le, t[0])
    requires Ties(t, le, u[0]) == Ties(u, le, u[0])
    ensures t[0] == u[0]
  {
    var a, b := t[0], u[0];
    TiesHead(t, le);
    TiesHead(u, le);
    FirstIsLeast(u, le, a);
    FirstIsLeast(t, le, b);
    assert Equivalent(le, a, b);
    assert Ties(u, le, a)[0] == b;
  }

  lemma TailsTie<T>(t: seq<T>, u: seq<T>, le: (T, T) -> bool)
    requires t != [] && u != [] && t[0] == u[0]
    requires forall y :: Ties(t, le, y) == Ties(u, le, y)
    ensures forall y :: Ties(t[1..], le, y) == Ties(u[1..], le, y)
  {
    forall y
      ensures Ties(t[1..], le, y) == Ties(u[1..], le, y)
    {
      var h: seq<T> := if Equivalent(le, y, t[0]) then [t[0]] else [];
      assert Ties(t, le, y) == h + Ties(t[1..], le, y);
      assert Ties(u, le, y) == h + Ties(u[1..], le, y);
      assert Ties(t, le, y) == Ties(u, le, y);
      assert Ties(t[1..], le, y) == (h + Ties(t[1..], le, y))[|h|..];
    }
  }

  lemma SortedTail<T>(s: seq<T>, le: (T, T) -> bool)
    requires s != [] && Sorted(s, le)
    ensures Sorted(s[1..], le)
  {
    forall i, j | 0 <= i < j < |s| - 1
      ensures le(s[1..][i], s[1..][j])
    {
      assert s[1..][i] == s[i + 1] && s[1..][j] == s[j + 1];
    }
  }

  /** Two sorted sequences with the same tie groups are equal: a stable sort
      has only one possible result. */
  lemma {:induction false} StableSortUnique<T(!new)>(t: seq<T>, u: seq<T>, le: (T, T) -> bool)
    requires TotalPreorder(le)
    requires Sorted(t, le) && Sorted(u, le)
    requires forall y :: Ties(t, le, y) == Ties(u, le, y)
    ensures t == u
    decreases |t|
  {
    if t == [] {
      if u != [] {
        TiesHead(u, le);
      }
    } else if u == [] {
      TiesHead(t, le);
    } else {
      SortedHeadsAgree(t, u, le);
      TailsTie(t, u, le);
      SortedTail(t, le);
      SortedTail(u, le);
      StableSortUnique(t[1..], u[1..], le);
      assert t == [t[0]] + t[1..] && u == [u[0]] + u[1..];
    }
  }

  /** Any ordered rearrangement that keeps tie groups in input order is
      exactly `Sort(s, le)`. */
  lemma SortCharacterized<T(!new)>(s: seq<T>, t: seq<T>, le: (T, T) -> bool)
    requires TotalPreorder(le)
    requires Sorted(t, le)
    requires forall y :: Ties(t, le, y) == Ties(s, le, y)
    ensures t == Sort(s, le)
  {
    SortIsStable(s, le);
    StableSortUnique(t, Sort(s, le), le);
  }

  /** Input that is already ordered comes back unchanged. */
  lemma SortedInputUnchanged<T(!new)>(s: seq<T>, le: (T, T) -> bool)
    requires TotalPreorder(le)
    requires Sorted(s, le)
    ensures Sort(s, le) == s
  {
    SortCharacterized(s, s, le);
  }
}
