/**
 Tables as sequences of rows: selecting, mapping, grouping and ordering them. The functions stand for the SQL statements
 of the study database and for the list comprehensions of the export. The lemmas say how they go together: selecting rows
 commutes with mapping, with ordering by a key and with grouping, which is what makes a withdrawal commute with an export.
 */
module Tables {
  import opened Sorting

  /** `WHERE p`. */
  function Filter<T>(s: seq<T>, p: T -> bool): seq<T> {
    if s == [] then []
    else
      var before := Filter(s[..|s| - 1], p);
      if p(s[|s| - 1]) then before + [s[|s| - 1]] else before
  }

  lemma {:induction false} FilterElements<T>(s: seq<T>, p: T -> bool)
    ensures |Filter(s, p)| <= |s|
    ensures forall x | x in Filter(s, p) :: x in s && p(x)
    ensures forall x | x in s && p(x) :: x in Filter(s, p)
  {
    if s != [] {
      var front, last := s[..|s| - 1], s[|s| - 1];
      FilterElements(front, p);
      assert forall x | x in s :: x in front || x == last;
    }
  }

  lemma FilterLast<T>(s: seq<T>, x: T, p: T -> bool)
    ensures Filter(s + [x], p) == if p(x) then Filter(s, p) + [x] else Filter(s, p)
  {
    assert (s + [x])[..|s|] == s;
  }

  lemma {:induction false} FilterConcat<T>(s: seq<T>, t: seq<T>, p: T -> bool)
    ensures Filter(s + t, p) == Filter(s, p) + Filter(t, p)
  {
    if t == [] {
      assert s + t == s;
    } else {
      var front, last := t[..|t| - 1], t[|t| - 1];
      FilterConcat(s, front, p);
      FilterLast(s + front, last, p);
      assert s + t == s + front + [last];
      assert Filter(s, p) + Filter(front, p) + [last] == Filter(s, p) + (Filter(front, p) + [last]);
    }
  }

  lemma {:induction false} FilterNothing<T>(s: seq<T>, p: T -> bool)
    requires forall x | x in s :: !p(x)
    ensures Filter(s, p) == []
  {
    if s != [] {
      FilterNothing(s[..|s| - 1], p);
    }
  }

  lemma {:induction false} FilterEverything<T>(s: seq<T>, p: T -> bool)
    requires forall x | x in s :: p(x)
    ensures Filter(s, p) == s
  {
    if s != [] {
      FilterEverything(s[..|s| - 1], p);
    }
  }

  /** Selecting twice. */
  lemma {:induction false} FilterTwice<T>(s: seq<T>, p: T -> bool, q: T -> bool, both: T -> bool)
    requires forall x | x in s :: both(x) == (p(x) && q(x))
    ensures Filter(Filter(s, p), q) == Filter(s, both)
  {
    if s != [] {
      var front, last := s[..|s| - 1], s[|s| - 1];
      FilterTwice(front, p, q, both);
      FilterLast(Filter(front, p), last, q);
    }
  }

  /** The rows that each row contributes, in order. */
  function FlatMap<T, R>(s: seq<T>, f: T -> seq<R>): seq<R> {
    if s == [] then [] else FlatMap(s[..|s| - 1], f) + f(s[|s| - 1])
  }

  /** Dropping rows and then mapping the rest is mapping and then dropping what the dropped rows gave. */
  lemma {:induction false} FlatMapFilter<T, R>(s: seq<T>, f: T -> seq<R>, g: T -> seq<R>, keep: T -> bool, keepRow: R -> bool)
    requires forall x | x in s && keep(x) :: g(x) == f(x) && forall r | r in f(x) :: keepRow(r)
    requires forall x | x in s && !keep(x) :: forall r | r in f(x) :: !keepRow(r)
    ensures FlatMap(Filter(s, keep), g) == Filter(FlatMap(s, f), keepRow)
  {
    if s != [] {
      var front, last := s[..|s| - 1], s[|s| - 1];
      FlatMapFilter(front, f, g, keep, keepRow);
      FilterConcat(FlatMap(front, f), f(last), keepRow);
      if keep(last) {
        FilterEverything(f(last), keepRow);
      } else {
        FilterNothing(f(last), keepRow);
      }
    }
  }

  /** Where every row of s gives one row if p holds and none otherwise, the result lines up with the selected rows. */
  lemma {:induction false} FlatMapAligns<T, R>(s: seq<T>, f: T -> seq<R>, p: T -> bool)
    requires forall x | x in s :: |f(x)| == if p(x) then 1 else 0
    ensures |FlatMap(s, f)| == |Filter(s, p)|
    ensures forall i | 0 <= i < |Filter(s, p)| :: Filter(s, p)[i] in s && f(Filter(s, p)[i]) == [FlatMap(s, f)[i]]
  {
    if s != [] {
      var front, last := s[..|s| - 1], s[|s| - 1];
      FlatMapAligns(front, f, p);
      assert forall x | x in front :: x in s;
    }
  }

  lemma {:induction false} FlatMapConcat<T, R>(s: seq<T>, t: seq<T>, f: T -> seq<R>)
    ensures FlatMap(s + t, f) == FlatMap(s, f) + FlatMap(t, f)
  {
    if t == [] {
      assert s + t == s;
    } else {
      var front, last := t[..|t| - 1], t[|t| - 1];
      FlatMapConcat(s, front, f);
      assert (s + t)[..|s + t| - 1] == s + front;
    }
  }

  /** Where one row alone gives rows that p selects, and all its rows are such, selecting finds its rows. */
  lemma {:induction false} FilterFindsOne<T, R>(s: seq<T>, f: T -> seq<R>, p: R -> bool, k: nat)
    requires k < |s| && forall r | r in f(s[k]) :: p(r)
    requires forall i | 0 <= i < |s| && i != k :: forall r | r in f(s[i]) :: !p(r)
    ensures Filter(FlatMap(s, f), p) == f(s[k])
  {
    var front, last := s[..|s| - 1], s[|s| - 1];
    FilterConcat(FlatMap(front, f), f(last), p);
    if k == |s| - 1 {
      FilterEverything(f(last), p);
      FilterFindsNone(front, f, p);
    } else {
      FilterNothing(f(last), p);
      FilterFindsOne(front, f, p, k);
    }
  }

  lemma {:induction false} FilterFindsNone<T, R>(s: seq<T>, f: T -> seq<R>, p: R -> bool)
    requires forall i | 0 <= i < |s| :: forall r | r in f(s[i]) :: !p(r)
    ensures Filter(FlatMap(s, f), p) == []
  {
    if s != [] {
      var front, last := s[..|s| - 1], s[|s| - 1];
      FilterFindsNone(front, f, p);
      FilterConcat(FlatMap(front, f), f(last), p);
      FilterNothing(f(last), p);
    }
  }

  function Always<T>(): T -> bool {
    (x: T) => true
  }

  // -- ORDER BY ------------------------------------------------------------------------------------

  lemma {:induction false} InsertFilter<T(!new)>(s: seq<T>, x: T, le: (T, T) -> bool, p: T -> bool)
    requires IsOrder(le) && Sorted(s, le)
    ensures Filter(InsertBy(s, x, le), p) == if p(x) then InsertBy(Filter(s, p), x, le) else Filter(s, p)
  {
    if s == [] || le(s[|s| - 1], x) {
      FilterLast(s, x, p);
      LastIsSmall(s, x, le, p);
    } else {
      var front, last := s[..|s| - 1], s[|s| - 1];
      InsertFilter(front, x, le, p);
      FilterLast(InsertBy(front, x, le), last, p);
      FilterLast(front, last, p);
      if p(x) && p(last) {
        InsertBeforeLast(Filter(front, p), last, x, le);
      } else if p(x) {
        assert Filter(s, p) == Filter(front, p);
      }
    }
  }

  lemma InsertBeforeLast<T>(front: seq<T>, last: T, x: T, le: (T, T) -> bool)
    requires !le(last, x)
    ensures InsertBy(front + [last], x, le) == InsertBy(front, x, le) + [last]
  {
    assert (front + [last])[..|front|] == front;
  }

  lemma {:induction false} LastIsSmall<T(!new)>(s: seq<T>, x: T, le: (T, T) -> bool, p: T -> bool)
    requires IsOrder(le) && Sorted(s, le) && (s == [] || le(s[|s| - 1], x))
    ensures InsertBy(Filter(s, p), x, le) == Filter(s, p) + [x]
  {
    hide Filter;
    forall y | y in s ensures le(y, x) {
      var i :| 0 <= i < |s| && s[i] == y;
      assert i < |s| - 1 ==> le(s[i], s[|s| - 1]);
    }
    var r := Filter(s, p);
    FilterElements(s, p);
    assert r != [] ==> r[|r| - 1] in r;
  }

  /** Ordering and selecting commute. */
  lemma {:induction false} SortFilter<T(!new)>(s: seq<T>, le: (T, T) -> bool, p: T -> bool)
    requires IsOrder(le)
    ensures Filter(SortBy(s, le), p) == SortBy(Filter(s, p), le)
  {
    hide IsOrder, InsertBy;
    if s != [] {
      var front, last := s[..|s| - 1], s[|s| - 1];
      SortFilter(front, le, p);
      SortProperties(front, le);
      InsertFilter(SortBy(front, le), last, le, p);
      if p(last) {
        SortLast(Filter(front, p), last, le);
      } else {
        assert Filter(s, p) == Filter(front, p);
      }
    }
  }

  lemma SortLast<T>(s: seq<T>, x: T, le: (T, T) -> bool)
    ensures SortBy(s + [x], le) == InsertBy(SortBy(s, le), x, le)
  {
    assert (s + [x])[..|s|] == s;
  }

  // -- Grouping ------------------------------------------------------------------------------------

  type Key = string

  function WithKey<T>(key: T -> Key, k: Key): T -> bool {
    (x: T) => key(x) == k
  }

  /** `defaultdict(list)` filled in order. */
  function Group<T>(s: seq<T>, key: T -> Key): map<Key, seq<T>> {
    if s == [] then map[]
    else
      var before, last := Group(s[..|s| - 1], key), s[|s| - 1];
      before[key(last) := GetOr(before, key(last), []) + [last]]
  }

  function GetOr<V>(m: map<Key, V>, k: Key, default_: V): V {
    if k in m then m[k] else default_
  }

  lemma {:induction false} GroupIsFilter<T>(s: seq<T>, key: T -> Key, k: Key)
    ensures GetOr(Group(s, key), k, []) == Filter(s, WithKey(key, k))
    ensures k in Group(s, key) <==> Filter(s, WithKey(key, k)) != []
  {
    if s != [] {
      GroupIsFilter(s[..|s| - 1], key, k);
    }
  }

  method GroupLoop<T>(s: seq<T>, key: T -> Key) returns (groups: map<Key, seq<T>>)
    ensures groups == Group(s, key)
  {
    groups := map[];
    for i := 0 to |s|
      invariant groups == Group(s[..i], key)
    {
      assert s[..i + 1][..i] == s[..i];
      groups := groups[key(s[i]) := GetOr(groups, key(s[i]), []) + [s[i]]];
    }
    assert s[..|s|] == s;
  }
}
