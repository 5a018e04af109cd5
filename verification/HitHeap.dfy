/** The bounded heap of a search: container/heap's up and down over a slice, with the worst hit kept at the root. */
module HitHeap {
  import opened TopK

  function Parent(i: nat): nat
    requires i > 0
  {
    (i - 1) / 2
  }

  /** No child is worse than its parent, except perhaps `hole` than its own. */
  ghost predicate HeapBut<T(!new)>(before: Comparison<T>, s: seq<T>, hole: nat) {
    forall i :: 0 < i < |s| && i != hole ==> !before(s[Parent(i)], s[i])
  }

  ghost predicate IsHeap<T(!new)>(before: Comparison<T>, s: seq<T>) {
    forall i :: 0 < i < |s| ==> !before(s[Parent(i)], s[i])
  }

  /** The children of i are no worse than i's parent. */
  ghost predicate Bridged<T(!new)>(before: Comparison<T>, s: seq<T>, i: nat) {
    i > 0 ==> forall c :: 0 < c < |s| && Parent(c) == i && i < |s| ==> !before(s[Parent(i)], s[c])
  }

  /** No child is worse than its parent, except perhaps the children of `hole` than it. */
  ghost predicate HeapBelow<T(!new)>(before: Comparison<T>, s: seq<T>, hole: nat) {
    forall i :: 0 < i < |s| && Parent(i) != hole ==> !before(s[Parent(i)], s[i])
  }

  function Swapped<T>(s: seq<T>, i: nat, j: nat): seq<T>
    requires i < |s| && j < |s|
  {
    s[i := s[j]][j := s[i]]
  }

  lemma SwapKeeps<T>(s: seq<T>, i: nat, j: nat)
    requires i < |s| && j < |s|
    ensures multiset(Swapped(s, i, j)) == multiset(s) && |Swapped(s, i, j)| == |s|
  {
  }

  lemma UpStep<T(!new)>(before: Comparison<T>, s: seq<T>, j: nat)
    requires StrictWeak(before) && 0 < j < |s|
    requires HeapBut(before, s, j) && Bridged(before, s, j) && before(s[Parent(j)], s[j])
    ensures var t := Swapped(s, Parent(j), j);
            HeapBut(before, t, Parent(j)) && Bridged(before, t, Parent(j))
  {
    var p := Parent(j);
    var t := Swapped(s, p, j);
    forall i | 0 < i < |t| && i != p ensures !before(t[Parent(i)], t[i]) {
      if i == j {
      } else if Parent(i) == j {
      } else if Parent(i) == p {
        assert !before(s[p], s[i]);
      }
    }
    if p > 0 {
      forall c | 0 < c < |t| && Parent(c) == p ensures !before(t[Parent(p)], t[c]) {
        assert !before(s[Parent(p)], s[p]);
        if c != j { assert !before(s[p], s[c]); }
      }
    }
  }

  lemma DownStep<T(!new)>(before: Comparison<T>, s: seq<T>, i: nat, j: nat)
    requires StrictWeak(before) && i < j < |s| && Parent(j) == i
    requires HeapBelow(before, s, i) && Bridged(before, s, i) && before(s[i], s[j])
    requires forall c :: 0 < c < |s| && Parent(c) == i ==> !before(s[j], s[c])
    ensures var t := Swapped(s, i, j);
            HeapBelow(before, t, j) && Bridged(before, t, j)
  {
    var t := Swapped(s, i, j);
    forall c | 0 < c < |t| && Parent(c) != j ensures !before(t[Parent(c)], t[c]) {
      if c == i {
        assert !before(s[Parent(i)], s[j]);
      } else if Parent(c) == i {
      }
    }
    forall c | 0 < c < |t| && Parent(c) == j ensures !before(t[Parent(j)], t[c]) {
      assert !before(s[j], s[c]);
    }
  }

  /** The root is the worst. */
  lemma {:induction false} RootIsWorst<T(!new)>(before: Comparison<T>, s: seq<T>, i: nat)
    requires StrictWeak(before) && IsHeap(before, s) && i < |s|
    ensures !before(s[0], s[i])
    decreases i
  {
    if i > 0 { RootIsWorst(before, s, Parent(i)); }
  }

  // ---- Keeping the first k of a stream

  lemma KeepMore<T(!new)>(before: Comparison<T>, seen: seq<T>, kept: seq<T>, kept': seq<T>, dropped: seq<T>, k: nat,
                          x: T)
    requires Keeps(before, seen, kept, dropped, k) && |kept| < k
    requires multiset(kept') == multiset(kept) + multiset{x} && |kept'| == |kept| + 1
    ensures Keeps(before, seen + [x], kept', dropped, k)
  {
  }

  lemma KeepDrop<T(!new)>(before: Comparison<T>, seen: seq<T>, kept: seq<T>, dropped: seq<T>, k: nat, x: T)
    requires StrictWeak(before) && IsHeap(before, kept) && Keeps(before, seen, kept, dropped, k)
    requires |kept| == k > 0 && !before(x, kept[0])
    ensures Keeps(before, seen + [x], kept, dropped + [x], k)
  {
    forall a, y | a in kept && y in dropped + [x] ensures !before(y, a) {
      if y == x {
        var i :| 0 <= i < |kept| && kept[i] == a;
        RootIsWorst(before, kept, i);
      }
    }
  }

  lemma KeepInstead<T(!new)>(before: Comparison<T>, seen: seq<T>, kept: seq<T>, kept': seq<T>, dropped: seq<T>, k: nat,
                             x: T)
    requires StrictWeak(before) && IsHeap(before, kept) && Keeps(before, seen, kept, dropped, k)
    requires |kept| == k > 0 && before(x, kept[0])
    requires multiset(kept') == multiset(kept) - multiset{kept[0]} + multiset{x} && |kept'| == |kept|
    ensures Keeps(before, seen + [x], kept', dropped + [kept[0]], k)
  {
    var root := kept[0];
    assert root in multiset(kept);
    forall a, y | a in kept' && y in dropped + [root] ensures !before(y, a) {
      assert a in multiset(kept');
      assert a == x || a in multiset(kept);
      if a in kept && y == root {
        var i :| 0 <= i < |kept| && kept[i] == a;
        RootIsWorst(before, kept, i);
      }
    }
    assert multiset(seen + [x]) == multiset(kept') + multiset(dropped + [root]);
  }

  class Hits<T(!new)> {
    const before: Comparison<T>
    var hits: seq<T>

    ghost predicate Valid()
      reads this
    {
      StrictWeak(before) && IsHeap(before, hits)
    }

    constructor (before: Comparison<T>)
      requires StrictWeak(before)
      ensures Valid() && hits == [] && this.before == before
    {
      this.before, hits := before, [];
    }

    /** Less: i is worse than j. */
    function Worse(i: nat, j: nat): bool
      requires i < |hits| && j < |hits|
      reads this
    {
      before(hits[j], hits[i])
    }

    method Swap(i: nat, j: nat)
      requires i < |hits| && j < |hits|
      modifies this
      ensures hits == Swapped(old(hits), i, j)
    {
      hits := hits[i := hits[j]][j := hits[i]];
    }

    method Up(start: nat)
      requires StrictWeak(before) && start < |hits| && HeapBut(before, hits, start) && Bridged(before, hits, start)
      modifies this
      ensures Valid() && multiset(hits) == multiset(old(hits)) && |hits| == |old(hits)|
    {
      var j: nat := start;
      while true
        invariant j < |hits| == |old(hits)| && multiset(hits) == multiset(old(hits))
        invariant HeapBut(before, hits, j) && Bridged(before, hits, j)
        decreases j
      {
        if j == 0 { break; }
        var i: nat := (j - 1) / 2;
        if !Worse(j, i) { break; }
        UpStep(before, hits, j);
        SwapKeeps(hits, i, j);
        Swap(i, j);
        j := i;
      }
    }

    method Down(start: nat) returns (moved: bool)
      requires StrictWeak(before) && start < |hits| && HeapBelow(before, hits, start) && Bridged(before, hits, start)
      modifies this
      ensures Valid() && multiset(hits) == multiset(old(hits)) && |hits| == |old(hits)|
    {
      var i := start;
      while true
        invariant start <= i < |hits| == |old(hits)| && multiset(hits) == multiset(old(hits))
        invariant HeapBelow(before, hits, i) && Bridged(before, hits, i)
        decreases |hits| - i
      {
        var j1 := 2 * i + 1;
        if j1 >= |hits| { break; }
        var j := j1;
        var j2 := j1 + 1;
        if j2 < |hits| && Worse(j2, j1) { j := j2; }
        ChildrenOf(hits, i, j, before);
        if !Worse(j, i) { break; }
        DownStep(before, hits, i, j);
        SwapKeeps(hits, i, j);
        Swap(i, j);
        i := j;
      }
      moved := i > start;
    }

    static lemma ChildrenOf(s: seq<T>, i: nat, j: nat, before: Comparison<T>)
      requires StrictWeak(before) && j < |s| && (j == 2 * i + 1 || j == 2 * i + 2)
      requires j == 2 * i + 1 ==> 2 * i + 2 < |s| ==> !before(s[j], s[2 * i + 2])
      requires j == 2 * i + 2 ==> before(s[2 * i + 1], s[j])
      ensures Parent(j) == i
      ensures forall c :: 0 < c < |s| && Parent(c) == i ==> !before(s[j], s[c])
    {
      forall c | 0 < c < |s| && Parent(c) == i ensures !before(s[j], s[c]) {
        assert c == 2 * i + 1 || c == 2 * i + 2;
      }
    }

    /** heap.Push. */
    method Push(x: T)
      requires Valid()
      modifies this
      ensures Valid() && multiset(hits) == multiset(old(hits)) + multiset{x} && |hits| == |old(hits)| + 1
    {
      hits := hits + [x];
      Up(|hits| - 1);
    }

    /** The root replaced, and heap.Fix at 0. */
    method ReplaceRoot(x: T)
      requires Valid() && hits != []
      modifies this
      ensures Valid() && |hits| == |old(hits)|
      ensures multiset(hits) == multiset(old(hits)) - multiset{old(hits)[0]} + multiset{x}
    {
      hits := hits[0 := x];
      var moved := Down(0);
      if !moved { Up(0); }
    }

    /** One candidate: kept while there is room, and otherwise only in place of a worse one. */
    method Offer(x: T, k: nat, ghost seen: seq<T>, ghost dropped: seq<T>) returns (ghost dropped': seq<T>)
      requires Valid() && k > 0 && Keeps(before, seen, hits, dropped, k)
      modifies this
      ensures Valid() && Keeps(before, seen + [x], hits, dropped', k)
    {
      ghost var kept := hits;
      if |hits| < k {
        Push(x);
        KeepMore(before, seen, kept, hits, dropped, k, x);
        dropped' := dropped;
      } else if before(x, hits[0]) {
        ReplaceRoot(x);
        KeepInstead(before, seen, kept, hits, dropped, k, x);
        dropped' := dropped + [kept[0]];
      } else {
        KeepDrop(before, seen, hits, dropped, k, x);
        dropped' := dropped + [x];
      }
    }
  }
}
