/** Sorting by a comparison, and the bounded heap that keeps the first k of a stream without sorting it. */
module TopK {

  /** `before(a, b)`: a sorts strictly before b. */
  type Comparison<!T> = (T, T) -> bool

  /** A strict weak order: what a comparison function over a NaN-free score and a string defines. */
  ghost predicate StrictWeak<T(!new)>(before: Comparison<T>) {
    && (forall a :: !before(a, a))
    && (forall a, b, c :: before(a, b) && before(b, c) ==> before(a, c))
    && (forall a, b, c :: !before(a, b) && !before(b, c) ==> !before(a, c))
  }

  ghost predicate Sorted<T>(before: Comparison<T>, s: seq<T>) {
    forall i, j :: 0 <= i < j < |s| ==> !before(s[j], s[i])
  }

  /** Elements that tie are equal. */
  ghost predicate Decisive<T>(before: Comparison<T>, s: seq<T>) {
    forall i, j :: 0 <= i < |s| && 0 <= j < |s| ==> before(s[i], s[j]) || before(s[j], s[i]) || s[i] == s[j]
  }

  function Insert<T>(before: Comparison<T>, s: seq<T>, x: T): seq<T> {
    if s == [] then [x] else if before(x, s[0]) then [x] + s else [s[0]] + Insert(before, s[1..], x)
  }

  /** The result of sorting s: slices.SortFunc. */
  function Sort<T>(before: Comparison<T>, s: seq<T>): seq<T> {
    if s == [] then [] else Insert(before, Sort(before, s[..|s| - 1]), s[|s| - 1])
  }

  lemma {:induction false} InsertKeeps<T>(before: Comparison<T>, s: seq<T>, x: T)
    ensures multiset(Insert(before, s, x)) == multiset(s) + multiset{x}
  {
    if s != [] && !before(x, s[0]) {
      InsertKeeps(before, s[1..], x);
      assert s == [s[0]] + s[1..];
    }
  }

  lemma SortedCons<T(!new)>(before: Comparison<T>, x: T, s: seq<T>)
    requires Sorted(before, s) && forall y :: y in multiset(s) ==> !before(y, x)
    ensures Sorted(before, [x] + s)
  {
    assert forall i :: 0 <= i < |s| ==> s[i] in multiset(s);
  }

  lemma {:induction false} InsertSorts<T(!new)>(before: Comparison<T>, s: seq<T>, x: T)
    requires StrictWeak(before) && Sorted(before, s)
    ensures Sorted(before, Insert(before, s, x))
  {
    if s == [] {
    } else if before(x, s[0]) {
      forall y | y in multiset(s) ensures !before(y, x) {
        assert y in s;
        assert !before(y, s[0]);
      }
      SortedCons(before, x, s);
    } else {
      InsertSorts(before, s[1..], x);
      InsertKeeps(before, s[1..], x);
      forall y | y in multiset(Insert(before, s[1..], x)) ensures !before(y, s[0]) {
        if y != x { assert y in s[1..]; }
      }
      SortedCons(before, s[0], Insert(before, s[1..], x));
    }
  }

  /** Sort yields a sorted rearrangement. */
  lemma {:induction false} SortIsSorted<T(!new)>(before: Comparison<T>, s: seq<T>)
    requires StrictWeak(before)
    ensures Sorted(before, Sort(before, s)) && multiset(Sort(before, s)) == multiset(s)
    ensures |Sort(before, s)| == |s|
  {
    if s != [] {
      var init, x := s[..|s| - 1], s[|s| - 1];
      SortIsSorted(before, init);
      InsertSorts(before, Sort(before, init), x);
      InsertKeeps(before, Sort(before, init), x);
      assert s == init + [x];
    }
    assert |multiset(Sort(before, s))| == |multiset(s)|;
  }

  /** There is only one sorted rearrangement when ties are equal. */
  lemma {:induction false} SortedIsUnique<T(!new)>(before: Comparison<T>, s: seq<T>, t: seq<T>)
    requires Sorted(before, s) && Sorted(before, t) && multiset(s) == multiset(t)
    requires Decisive(before, s)
    ensures s == t
  {
    assert |multiset(s)| == |multiset(t)|;
    if s != [] {
      FirstsAreEqual(before, s, t);
      RestOf(s);
      RestOf(t);
      SortedIsUnique(before, s[1..], t[1..]);
    }
  }

  lemma FirstsAreEqual<T(!new)>(before: Comparison<T>, s: seq<T>, t: seq<T>)
    requires s != [] && t != [] && Sorted(before, s) && Sorted(before, t) && multiset(s) == multiset(t)
    requires Decisive(before, s)
    ensures s[0] == t[0]
  {
    assert s[0] in multiset(t) && t[0] in multiset(s);
    assert s[0] in t && t[0] in s;
  }

  lemma RestOf<T>(s: seq<T>)
    requires s != []
    ensures s == [s[0]] + s[1..] && multiset(s[1..]) == multiset(s) - multiset{s[0]}
  {
    assert s == [s[0]] + s[1..];
  }

  lemma DecisivePermutes<T(!new)>(before: Comparison<T>, s: seq<T>, t: seq<T>)
    requires Decisive(before, s) && multiset(s) == multiset(t)
    ensures Decisive(before, t)
  {
    forall i, j | 0 <= i < |t| && 0 <= j < |t| ensures before(t[i], t[j]) || before(t[j], t[i]) || t[i] == t[j] {
      assert t[i] in multiset(t) && t[j] in multiset(t);
      assert t[i] in s && t[j] in s;
    }
  }

  /** Sorting does not depend on the order of its input. */
  lemma SortPermutes<T(!new)>(before: Comparison<T>, s: seq<T>, t: seq<T>)
    requires StrictWeak(before) && Decisive(before, s) && multiset(s) == multiset(t)
    ensures Sort(before, s) == Sort(before, t)
  {
    SortIsSorted(before, s);
    SortIsSorted(before, t);
    DecisivePermutes(before, s, Sort(before, s));
    SortedIsUnique(before, Sort(before, s), Sort(before, t));
  }

  /** The first k in sorted order. */
  function First<T>(before: Comparison<T>, s: seq<T>, k: nat): seq<T> {
    var t := Sort(before, s);
    if k < |t| then t[..k] else t
  }

  /** The first k in sorted order are sorted and as many as there are, up to k, and nothing left out sorts before one of
      them. */
  lemma FirstIsBest<T(!new)>(before: Comparison<T>, s: seq<T>, k: nat)
    requires StrictWeak(before)
    ensures var f := First(before, s, k);
            && |f| == (if |s| < k then |s| else k) && Sorted(before, f)
            && (forall x :: x in f ==> x in s)
            && (forall x, y :: x in s && x !in f && y in f ==> !before(x, y))
  {
    var f, t := First(before, s, k), Sort(before, s);
    SortIsSorted(before, s);
    forall x | x in f ensures x in s { assert x in multiset(t); }
    forall x, y | x in s && x !in f && y in f ensures !before(x, y) {
      assert x in multiset(t);
      var i :| 0 <= i < |t| && t[i] == x;
      var j :| 0 <= j < |f| && f[j] == y;
      assert t[j] == y && j < i;
    }
  }

  /** `kept` are the first k of everything seen: nothing dropped sorts before anything kept, and nothing is dropped
      while there is room. */
  ghost predicate Keeps<T(!new)>(before: Comparison<T>, seen: seq<T>, kept: seq<T>, dropped: seq<T>, k: nat) {
    && multiset(seen) == multiset(kept) + multiset(dropped)
    && |kept| <= k && (dropped != [] ==> |kept| == k)
    && (forall x, y :: x in kept && y in dropped ==> !before(y, x))
  }

  /** Sorting what was kept is taking the first k of everything sorted. */
  lemma KeptIsFirst<T(!new)>(before: Comparison<T>, seen: seq<T>, kept: seq<T>, dropped: seq<T>, k: nat)
    requires StrictWeak(before) && Decisive(before, seen) && Keeps(before, seen, kept, dropped, k)
    ensures Sort(before, kept) == First(before, seen, k)
  {
    var a, b := Sort(before, kept), Sort(before, dropped);
    SortIsSorted(before, kept);
    SortIsSorted(before, dropped);
    SortIsSorted(before, seen);
    forall i, j | 0 <= i < |a| && 0 <= j < |b| ensures !before(b[j], a[i]) {
      assert a[i] in multiset(a) && b[j] in multiset(b);
      assert a[i] in kept && b[j] in dropped;
    }
    assert Sorted(before, a + b);
    DecisivePermutes(before, seen, Sort(before, seen));
    SortedIsUnique(before, Sort(before, seen), a + b);
    assert |multiset(seen)| == |kept| + |dropped|;
  }
}
