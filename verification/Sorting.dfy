/** Stable sorting, as `sort_by_key` and `sort_by` define it, and fallible list conversion. */
module Sorting {
  import opened Platform

  function Insert<T>(x: T, s: seq<T>, le: (T, T) -> bool): (r: seq<T>)
    ensures multiset(r) == multiset([x] + s)
    ensures |r| == |s| + 1
  {
    if s == [] then [x]
    else if le(x, s[0]) then [x] + s
    else
      assert [x] + s == [x] + ([s[0]] + s[1..]);
      [s[0]] + Insert(x, s[1..], le)
  }

  /** A stable sort: equal elements keep their order. */
  function Sort<T>(s: seq<T>, le: (T, T) -> bool): (r: seq<T>)
    ensures multiset(r) == multiset(s) && |r| == |s|
  {
    if s == [] then []
    else
      assert s == [s[0]] + s[1..];
      Insert(s[0], Sort(s[1..], le), le)
  }

  ghost predicate Total<T(!new)>(le: (T, T) -> bool) {
    && (forall a, b :: le(a, b) || le(b, a))
    && (forall a, b, c :: le(a, b) && le(b, c) ==> le(a, c))
  }

  ghost predicate Sorted<T>(s: seq<T>, le: (T, T) -> bool) {
    forall i, j | 0 <= i < j < |s| :: le(s[i], s[j])
  }

  lemma ConsIsSorted<T(!new)>(x: T, s: seq<T>, le: (T, T) -> bool)
    requires Sorted(s, le) && forall i | 0 <= i < |s| :: le(x, s[i])
    ensures Sorted([x] + s, le)
  {}

  /** A bound of `x` and `s` bounds the list into which `x` is inserted. */
  lemma InsertKeepsBound<T(!new)>(b: T, x: T, s: seq<T>, le: (T, T) -> bool)
    requires le(b, x) && forall i | 0 <= i < |s| :: le(b, s[i])
    ensures forall i | 0 <= i < |Insert(x, s, le)| :: le(b, Insert(x, s, le)[i])
  {
    hide Insert;
    var r := Insert(x, s, le);
    forall i | 0 <= i < |r| ensures le(b, r[i]) {
      assert r[i] in multiset(r);
      assert r[i] in [x] + s;
    }
  }

  lemma {:induction false} InsertSorts<T(!new)>(x: T, s: seq<T>, le: (T, T) -> bool)
    requires Total(le) && Sorted(s, le)
    ensures Sorted(Insert(x, s, le), le)
  {
    if s != [] {
      if le(x, s[0]) {
        forall i | 0 <= i < |s| ensures le(x, s[i]) {
          assert i == 0 || le(s[0], s[i]);
        }
        ConsIsSorted(x, s, le);
      } else {
        InsertSorts(x, s[1..], le);
        InsertKeepsBound(s[0], x, s[1..], le);
        ConsIsSorted(s[0], Insert(x, s[1..], le), le);
      }
    }
  }

  lemma {:induction false} SortSorts<T(!new)>(s: seq<T>, le: (T, T) -> bool)
    requires Total(le)
    ensures Sorted(Sort(s, le), le)
  {
    if s != [] {
      SortSorts(s[1..], le);
      InsertSorts(s[0], Sort(s[1..], le), le);
    }
  }

  /** The elements of one class, in order. */
  function Select<T>(s: seq<T>, p: T -> bool): seq<T> {
    if s == [] then [] else if p(s[0]) then [s[0]] + Select(s[1..], p) else Select(s[1..], p)
  }

  lemma {:induction false} InsertIsStable<T(!new)>(x: T, s: seq<T>, le: (T, T) -> bool, p: T -> bool)
    requires p(x) ==> forall y | p(y) :: le(x, y)
    ensures Select(Insert(x, s, le), p) == Select([x] + s, p)
  {
    assert ([x] + s)[1..] == s;
    if s != [] && !le(x, s[0]) {
      InsertIsStable(x, s[1..], le, p);
      assert ([x] + s[1..])[1..] == s[1..];
      assert Insert(x, s, le)[1..] == Insert(x, s[1..], le);
    }
  }

  /** Sorting keeps the order of elements that compare as equal. */
  lemma {:induction false} SortIsStable<T(!new)>(s: seq<T>, le: (T, T) -> bool, p: T -> bool)
    requires forall x, y | p(x) && p(y) :: le(x, y)
    ensures Select(Sort(s, le), p) == Select(s, p)
  {
    if s != [] {
      SortIsStable(s[1..], le, p);
      InsertIsStable(s[0], Sort(s[1..], le), le, p);
      assert ([s[0]] + Sort(s[1..], le))[1..] == Sort(s[1..], le);
    }
  }

  /** Elements that compare as equal both ways occur at one position only. */
  ghost predicate Distinct<T>(s: seq<T>, le: (T, T) -> bool) {
    forall i, j | 0 <= i < j < |s| :: !(le(s[i], s[j]) && le(s[j], s[i]))
  }

  lemma MultisetOfTail<T>(s: seq<T>)
    requires s != []
    ensures multiset(s[1..]) == multiset(s) - multiset{s[0]}
  {
    assert s == [s[0]] + s[1..];
  }

  lemma LeastComesFirst<T(!new)>(a: seq<T>, b: seq<T>, le: (T, T) -> bool)
    requires Sorted(a, le) && Sorted(b, le) && Distinct(a, le) && multiset(a) == multiset(b) && a != [] && b != []
    ensures a[0] == b[0]
  {
    assert b[0] in multiset(a) && a[0] in multiset(b);
    var i :| 0 <= i < |a| && a[i] == b[0];
    var j :| 0 <= j < |b| && b[j] == a[0];
    assert i == 0 || j == 0;
  }

  lemma TailIsSorted<T>(a: seq<T>, le: (T, T) -> bool)
    requires Sorted(a, le) && a != []
    ensures Sorted(a[1..], le) && (Distinct(a, le) ==> Distinct(a[1..], le))
  {}

  lemma SameHeadAndTail<T>(a: seq<T>, b: seq<T>)
    requires a != [] && b != [] && a[0] == b[0] && a[1..] == b[1..]
    ensures a == b
  {
    assert a == [a[0]] + a[1..] && b == [b[0]] + b[1..];
  }

  lemma SameTails<T>(a: seq<T>, b: seq<T>)
    requires a != [] && b != [] && a[0] == b[0] && multiset(a) == multiset(b)
    ensures multiset(a[1..]) == multiset(b[1..])
  {
    MultisetOfTail(a);
    MultisetOfTail(b);
  }

  /** A sorted order of distinct keys is unique. */
  lemma {:induction false} SortedIsUnique<T(!new)>(a: seq<T>, b: seq<T>, le: (T, T) -> bool)
    requires Sorted(a, le) && Sorted(b, le) && Distinct(a, le) && multiset(a) == multiset(b)
    ensures a == b
  {
    hide Sorted, Distinct;
    assert |a| == |multiset(a)| && |b| == |multiset(b)|;
    if a != [] {
      LeastComesFirst(a, b, le);
      TailIsSorted(a, le);
      TailIsSorted(b, le);
      SameTails(a, b);
      SortedIsUnique(a[1..], b[1..], le);
      SameHeadAndTail(a, b);
    }
  }

  // ---- Fallible conversion of a list ----

  /** Converts each element in order, unless one of them fails. */
  function Collect<A, B>(f: A -> Option<B>, s: seq<A>): (r: Option<seq<B>>)
    ensures r.Some? <==> forall i | 0 <= i < |s| :: f(s[i]).Some?
    ensures r.Some? ==> |r.value| == |s| && forall i | 0 <= i < |s| :: f(s[i]) == Some(r.value[i])
  {
    if s == [] then Some([])
    else
      var rest := Collect(f, s[1..]);
      if f(s[0]).Some? && rest.Some? then Some([f(s[0]).value] + rest.value)
      else
        assert forall i | 0 <= i < |s[1..]| :: s[1..][i] == s[i + 1];
        None
  }

  function Without<T>(t: seq<T>, i: nat): (r: seq<T>)
    requires i < |t|
    ensures |r| == |t| - 1
    ensures forall j | 0 <= j < i :: r[j] == t[j]
    ensures forall j | i <= j < |r| :: r[j] == t[j + 1]
  {
    t[..i] + t[i + 1..]
  }

  lemma WithoutOne<T>(t: seq<T>, i: nat)
    requires i < |t|
    ensures multiset(t) == multiset(Without(t, i)) + multiset{t[i]}
  {
    assert t == t[..i] + ([t[i]] + t[i + 1..]);
  }

  /** Converting permuted lists gives permuted results. */
  lemma {:induction false} CollectPermutes<A, B>(f: A -> Option<B>, s: seq<A>, t: seq<A>)
    requires multiset(s) == multiset(t) && Collect(f, s).Some?
    ensures Collect(f, t).Some? && multiset(Collect(f, t).value) == multiset(Collect(f, s).value)
    decreases |s|
  {
    if s == [] {
      assert |t| == |multiset(t)|;
    } else {
      hide Collect, Without;
      var i := TakeFirst(s, t);
      CollectPermutes(f, s[1..], Without(t, i));
      PutBack(f, s, t, i);
    }
  }

  lemma TakeFirst<T>(s: seq<T>, t: seq<T>) returns (i: nat)
    requires multiset(s) == multiset(t) && s != []
    ensures i < |t| && t[i] == s[0] && multiset(s[1..]) == multiset(Without(t, i))
  {
    assert s[0] in multiset(t);
    i :| 0 <= i < |t| && t[i] == s[0];
    WithoutOne(t, i);
    MultisetOfTail(s);
  }

  lemma PutBack<A, B>(f: A -> Option<B>, s: seq<A>, t: seq<A>, i: nat)
    requires s != [] && i < |t| && t[i] == s[0]
    requires Collect(f, s).Some? && Collect(f, Without(t, i)).Some?
    requires multiset(Collect(f, Without(t, i)).value) == multiset(Collect(f, s[1..]).value)
    ensures Collect(f, t).Some? && multiset(Collect(f, t).value) == multiset(Collect(f, s).value)
  {
    CollectTail(f, s);
    hide Collect, Without;
    CollectWithout(f, t, i);
    SameRest(Collect(f, t).value, i, Collect(f, s).value);
  }

  lemma SameRest<T>(v: seq<T>, i: nat, u: seq<T>)
    requires i < |v| && u != [] && v[i] == u[0] && multiset(Without(v, i)) == multiset(u[1..])
    ensures multiset(v) == multiset(u)
  {
    hide Without;
    WithoutOne(v, i);
    MultisetOfTail(u);
  }

  lemma CollectTail<A, B>(f: A -> Option<B>, s: seq<A>)
    requires s != [] && Collect(f, s).Some?
    ensures f(s[0]) == Some(Collect(f, s).value[0]) && Collect(f, s[1..]) == Some(Collect(f, s).value[1..])
  {}

  lemma CollectWithout<A, B>(f: A -> Option<B>, t: seq<A>, i: nat)
    requires i < |t| && f(t[i]).Some? && Collect(f, Without(t, i)).Some?
    ensures Collect(f, t).Some? && Collect(f, t).value[i] == f(t[i]).value
    ensures Collect(f, Without(t, i)).value == Without(Collect(f, t).value, i)
  {
    hide Collect, Without;
    var rest := Without(t, i);
    forall j | 0 <= j < |t| ensures f(t[j]).Some? {
      if j < i { assert f(rest[j]).Some?; } else if j > i { assert f(rest[j - 1]).Some?; }
    }
  }
}
