/** What an Append call achieves when nobody disturbs it, from every state of the WAL protocol in which it can stand: it
    is acknowledged, at the number after the tail, however often it collided before. */
module WalProgress {
  import opened Bytes
  import ObjectStore
  import TailSearch
  import opened WalProtocol

  /** A step of call p that the store answers without an error. */
  predicate OwnStep(a: Action, p: nat) {
    || a == LoadFirst(p) || (a.List? && a.p == p) || a == Probe(p) || a == LoadInLoop(p) || a == CompareAndSwap(p)
    || a == LoadSeq(p) || a == Put(p, Acknowledged)
  }

  ghost function RunFrom(s: Wal, actions: seq<Action>): Wal
    decreases |actions|
  {
    if actions == [] then s else RunFrom(Step(s, actions[0]), actions[1..])
  }

  /** Steps of p alone take the log from s to s'. */
  ghost predicate Leads(s: Wal, p: nat, s': Wal) {
    exists actions :: (forall i :: 0 <= i < |actions| ==> OwnStep(actions[i], p)) && RunFrom(s, actions) == s'
  }

  lemma Stays(s: Wal, p: nat)
    ensures Leads(s, p, s)
  {
    assert RunFrom(s, []) == s;
  }

  lemma {:induction false} RunFromSplits(s: Wal, a: seq<Action>, b: seq<Action>)
    ensures RunFrom(s, a + b) == RunFrom(RunFrom(s, a), b)
    decreases |a|
  {
    hide Step;
    if a == [] {
      assert a + b == b;
    } else {
      assert (a + b)[1..] == a[1..] + b;
      RunFromSplits(Step(s, a[0]), a[1..], b);
    }
  }

  lemma LeadsOn(s: Wal, p: nat, s1: Wal, s2: Wal)
    requires Leads(s, p, s1) && Leads(s1, p, s2)
    ensures Leads(s, p, s2)
  {
    hide RunFrom;
    var a :| (forall i :: 0 <= i < |a| ==> OwnStep(a[i], p)) && RunFrom(s, a) == s1;
    var b :| (forall i :: 0 <= i < |b| ==> OwnStep(b[i], p)) && RunFrom(s1, b) == s2;
    RunFromSplits(s, a, b);
    assert forall i :: 0 <= i < |a + b| ==> OwnStep((a + b)[i], p);
  }

  lemma OneStep(s: Wal, p: nat, a: Action)
    requires OwnStep(a, p)
    ensures Leads(s, p, Step(s, a))
  {
    hide Step;
    assert [a][1..] == [];
    assert RunFrom(s, [a]) == RunFrom(Step(s, a), []);
  }

  /** Only call p has moved, and the lastKnown of its log: the log itself is as it was. */
  ghost predicate Quiet(s: Wal, p: nat, s': Wal) {
    && s'.prefix == s.prefix && s'.objects == s.objects && s'.owners == s.owners
    && s'.calls.Keys == s.calls.Keys && s'.lastKnown.Keys == s.lastKnown.Keys
    && (forall q :: q in s.calls && q != p ==> s'.calls[q] == s.calls[q])
    && (forall l :: l in s.lastKnown ==> s.lastKnown[l] <= s'.lastKnown[l])
    && p in s.calls && s'.calls[p].log == s.calls[p].log && s'.calls[p].payload == s.calls[p].payload
  }

  lemma QuietOn(s: Wal, p: nat, s1: Wal, s2: Wal)
    requires Quiet(s, p, s1) && Quiet(s1, p, s2)
    ensures Quiet(s, p, s2)
  {
  }

  // ---- Raising lastKnown

  lemma RaiseEnds(s: Wal, p: nat, to: nat, after: After) returns (s': Wal)
    requires Inv(s) && Stands(s, p) && s.calls[p].call == Raise(to, after)
    ensures Leads(s, p, s') && Quiet(s, p, s') && Inv(s') && Stands(s', p)
    ensures s'.calls[p].call == match after case ThenLoad => Load case ThenReturn => Acked(to)
  {
    hide Leads, Inv;
    TailIsNarrow(s);
    var s1 := Step(s, LoadInLoop(p));
    OneStep(s, p, LoadInLoop(p));
    MovesKeep(s, p, LoadInLoop(p));
    if s1.calls[p].call.Swap? {
      s' := Step(s1, CompareAndSwap(p));
      OneStep(s1, p, CompareAndSwap(p));
      MovesKeep(s1, p, CompareAndSwap(p));
      LeadsOn(s, p, s1, s');
    } else {
      s' := s1;
    }
  }

  /** A step that leaves the log alone keeps the invariant. */
  lemma MovesKeep(s: Wal, p: nat, a: Action)
    requires Inv(s) && Tail(Step(s, a)) <= MAX_SEQ
    ensures Inv(Step(s, a))
  {
    hide Step, Inv;
    StepKeeps(s, a);
  }

  lemma SwapEnds(s: Wal, p: nat, to: nat, seen: nat, after: After) returns (s': Wal)
    requires Inv(s) && Stands(s, p) && s.calls[p].call == Swap(to, seen, after)
    ensures Leads(s, p, s') && Quiet(s, p, s') && Inv(s') && Stands(s', p)
    ensures s'.calls[p].call == match after case ThenLoad => Load case ThenReturn => Acked(to)
  {
    hide Leads, Inv;
    var s1 := Step(s, CompareAndSwap(p));
    TailIsNarrow(s);
    SwapMoves(s, p);
    OneStep(s, p, CompareAndSwap(p));
    MovesKeep(s, p, CompareAndSwap(p));
    if s1.calls[p].call.Raise? {
      s' := RaiseEnds(s1, p, to, after);
      LeadsOn(s, p, s1, s');
      QuietOn(s, p, s1, s');
    } else {
      s' := s1;
    }
  }

  lemma SwapMoves(s: Wal, p: nat)
    requires Inv(s) && Stands(s, p) && s.calls[p].call.Swap?
    ensures var s1, c := Step(s, CompareAndSwap(p)), s.calls[p].call;
            && Quiet(s, p, s1) && Stands(s1, p)
            && (s1.calls[p].call == Raise(c.to, c.after) || s1.calls[p].call == Finish(c.to, c.after))
  {
    assert CallOk(Tail(s), s.owners, p, s.calls[p].call);
  }

  // ---- The search

  function Rank(q: Search): nat {
    match q
    case Listing(_) => 3
    case First(_) => 2
    case Galloping(_, _, _) => 1
    case Bisecting(_, _) => 0
  }

  function Left(q: Search): nat {
    match q
    case Listing(_) => 0
    case First(_) => 0
    case Galloping(_, high, _) => if high <= MAX_SEQ then MAX_SEQ - high else 0
    case Bisecting(low, high) => if low < high then high - low else 0
  }

  /** Every probe brings the search nearer to its end. */
  lemma ProbeNarrows(objects: set<nat>, t: nat, q: Search, since: nat)
    requires t <= MAX_SEQ && forall n :: n in objects <==> 1 <= n <= t
    requires SearchOk(q, since, t) && !q.Listing?
    ensures var r := AfterProbe(objects, q);
            r.Continue? ==> Rank(r.search) < Rank(q) || (Rank(r.search) == Rank(q) && Left(r.search) < Left(q))
  {
  }

  /** Where a call goes when its search ends with tail h. */
  function AtTail(retry: bool, h: nat): Call {
    if retry then Putting((h + 1) % WRAP) else Raise(h, ThenLoad)
  }

  lemma ProbeMoves(s: Wal, p: nat)
    requires Inv(s) && Stands(s, p) && s.calls[p].call.Searching? && !s.calls[p].call.search.Listing?
    ensures var s1, c := Step(s, Probe(p)), s.calls[p].call;
            var r := AfterProbe(s.objects.Keys, c.search);
            && Quiet(s, p, s1) && Stands(s1, p) && ResultOk(r, c.since, Tail(s))
            && (r.Continue? ==>
                  && s1.calls[p].call == Searching(r.search, c.since, c.retry) && !r.search.Listing?
                  && (Rank(r.search) < Rank(c.search)
                      || (Rank(r.search) == Rank(c.search) && Left(r.search) < Left(c.search))))
            && (r.Result? ==> c.since <= r.tail <= Tail(s) && s1.calls[p].call == AtTail(c.retry, r.tail))
  {
    var c := s.calls[p].call;
    assert CallOk(Tail(s), s.owners, p, c);
    ProbeOk(s.objects.Keys, Tail(s), c.search, c.since);
    ProbeNarrows(s.objects.Keys, Tail(s), c.search, c.since);
  }

  lemma {:induction false} ProbesEnd(s: Wal, p: nat, q: Search, since: nat, retry: bool) returns (s': Wal, h: nat)
    requires Inv(s) && Stands(s, p) && s.calls[p].call == Searching(q, since, retry) && !q.Listing?
    ensures Leads(s, p, s') && Quiet(s, p, s') && Inv(s') && Stands(s', p)
    ensures since <= h <= Tail(s) && s'.calls[p].call == AtTail(retry, h)
    decreases Rank(q), Left(q)
  {
    hide Step, Leads, Inv, AfterProbe, Rank, Left;
    var s1 := Step(s, Probe(p));
    ProbeMoves(s, p);
    OneStep(s, p, Probe(p));
    TailIsNarrow(s);
    MovesKeep(s, p, Probe(p));
    var r := AfterProbe(s.objects.Keys, q);
    if r.Continue? {
      s', h := ProbesEnd(s1, p, r.search, since, retry);
      LeadsOn(s, p, s1, s');
      QuietOn(s, p, s1, s');
    } else {
      s', h := s1, r.tail;
    }
  }

  lemma TailIsNarrow(s: Wal)
    requires Inv(s)
    ensures Tail(s) <= MAX_SEQ
  {
  }

  lemma ListMoves(s: Wal, p: nat, listing: seq<string>)
    requires Inv(s) && Stands(s, p) && s.calls[p].call.Searching? && s.calls[p].call.search.Listing?
    requires ObjectStore.IsListing(listing, Keys(s), s.prefix + "/",
                                   TailSearch.StartKey(s.prefix, s.calls[p].call.search.lo), TailSearch.HEAD_LIST_LIMIT)
    ensures var s1, c := Step(s, List(p, listing)), s.calls[p].call;
            && Quiet(s, p, s1) && Stands(s1, p)
            && var r := AfterListing(c.search.lo, listing);
            && ResultOk(r, c.since, Tail(s))
            && (r.Continue? ==> s1.calls[p].call == Searching(r.search, c.since, c.retry) && !r.search.Listing?)
            && (r.Result? ==> c.since <= r.tail <= Tail(s) && s1.calls[p].call == AtTail(c.retry, r.tail))
  {
    var c := s.calls[p].call;
    assert CallOk(Tail(s), s.owners, p, c);
    ListingOk(s, c.search.lo, c.since, listing);
  }

  /** An undisturbed search ends, at a tail no older than the one at its start: exactly at the tail if nothing was
      appended since then. */
  lemma SearchEnds(s: Wal, p: nat, q: Search, since: nat, retry: bool) returns (s': Wal, h: nat)
    requires Inv(s) && Stands(s, p) && s.calls[p].call == Searching(q, since, retry)
    ensures Leads(s, p, s') && Quiet(s, p, s') && Inv(s') && Stands(s', p)
    ensures since <= h <= Tail(s) && s'.calls[p].call == AtTail(retry, h)
  {
    hide Step, Leads, Inv, AfterListing;
    if q.Listing? {
      var listing := ObjectStore.ListingExists(Keys(s), s.prefix + "/", TailSearch.StartKey(s.prefix, q.lo),
                                               TailSearch.HEAD_LIST_LIMIT);
      var s1 := Step(s, List(p, listing));
      ListMoves(s, p, listing);
      OneStep(s, p, List(p, listing));
      TailIsNarrow(s);
      MovesKeep(s, p, List(p, listing));
      var r := AfterListing(q.lo, listing);
      if r.Continue? {
        s', h := ProbesEnd(s1, p, r.search, since, retry);
        LeadsOn(s, p, s1, s');
        QuietOn(s, p, s1, s');
      } else {
        s', h := s1, r.tail;
      }
    } else {
      s', h := ProbesEnd(s, p, q, since, retry);
    }
  }

  // ---- The append

  /** The log has gained the batch of call p, at number n, and p is told so. */
  ghost predicate Appends(s: Wal, p: nat, n: nat, s': Wal) {
    && p in s.calls && n == Tail(s) + 1
    && s'.objects == s.objects[n := s.calls[p].payload] && s'.owners == s.owners[n := p]
    && s'.calls.Keys == s.calls.Keys && s'.calls[p].call == Acked(n)
    && (forall q :: q in s.calls && q != p ==> s'.calls[q] == s.calls[q])
  }

  lemma QuietThenAppends(s: Wal, p: nat, s1: Wal, n: nat, s2: Wal)
    requires Quiet(s, p, s1) && Appends(s1, p, n, s2)
    ensures Appends(s, p, n, s2)
  {
  }

  lemma PutMoves(s: Wal, p: nat, n: nat)
    requires Inv(s) && Stands(s, p) && s.calls[p].call == Putting(n) && Tail(s) < MAX_SEQ
    ensures 1 <= n <= Tail(s) + 1
    ensures var s1 := Step(s, Put(p, Acknowledged));
            && Stands(s1, p) && Tail(s1) <= MAX_SEQ
            && (n <= Tail(s) ==> Quiet(s, p, s1) && s1.calls[p].call == Searching(Listing(n), Tail(s), true))
            && (n == Tail(s) + 1 ==>
                  && s1.objects == s.objects[n := s.calls[p].payload] && s1.owners == s.owners[n := p]
                  && s1 == s.(objects := s1.objects, owners := s1.owners, calls := s1.calls)
                  && s1.calls == s.calls[p := s.calls[p].(call := Raise(n, ThenReturn))])
  {
    assert CallOk(Tail(s), s.owners, p, s.calls[p].call);
    assert n in s.objects <==> 1 <= n <= Tail(s);
    if n !in s.objects { CreateCounts(s, p, n); }
  }

  /** From a number that is free. */
  lemma FreePutEnds(s: Wal, p: nat) returns (s': Wal)
    requires Inv(s) && Stands(s, p) && s.calls[p].call == Putting(Tail(s) + 1) && Tail(s) < MAX_SEQ
    ensures Leads(s, p, s') && Appends(s, p, Tail(s) + 1, s')
  {
    hide Step, Leads, Inv;
    var n := Tail(s) + 1;
    var s1 := Step(s, Put(p, Acknowledged));
    PutMoves(s, p, n);
    OneStep(s, p, Put(p, Acknowledged));
    MovesKeep(s, p, Put(p, Acknowledged));
    s' := RaiseEnds(s1, p, n, ThenReturn);
    LeadsOn(s, p, s1, s');
  }

  /** From any number: one that is taken is a collision, after which the search finds the tail. */
  lemma PutEnds(s: Wal, p: nat, n: nat) returns (s': Wal)
    requires Inv(s) && Stands(s, p) && s.calls[p].call == Putting(n) && Tail(s) < MAX_SEQ
    ensures Leads(s, p, s') && Appends(s, p, Tail(s) + 1, s')
  {
    hide Step, Leads, Inv;
    PutMoves(s, p, n);
    if n == Tail(s) + 1 {
      s' := FreePutEnds(s, p);
    } else {
      var s1 := Step(s, Put(p, Acknowledged));
      OneStep(s, p, Put(p, Acknowledged));
      MovesKeep(s, p, Put(p, Acknowledged));
      s' := RetryEnds(s1, p, Listing(n), Tail(s));
      LeadsOn(s, p, s1, s');
      QuietThenAppends(s, p, s1, Tail(s) + 1, s');
    }
  }

  /** From a search after a collision, if nothing was appended since. */
  lemma RetryEnds(s: Wal, p: nat, q: Search, since: nat) returns (s': Wal)
    requires Inv(s) && Stands(s, p) && s.calls[p].call == Searching(q, since, true) && since == Tail(s) < MAX_SEQ
    ensures Leads(s, p, s') && Appends(s, p, Tail(s) + 1, s')
  {
    hide Step, Leads, Inv;
    var s1, h := SearchEnds(s, p, q, since, true);
    assert (h + 1) % WRAP == h + 1;
    s' := FreePutEnds(s1, p);
    LeadsOn(s, p, s1, s');
    QuietThenAppends(s, p, s1, Tail(s) + 1, s');
  }

  lemma LoadEnds(s: Wal, p: nat) returns (s': Wal)
    requires Inv(s) && Stands(s, p) && s.calls[p].call == Load && Tail(s) < MAX_SEQ
    ensures Leads(s, p, s') && Appends(s, p, Tail(s) + 1, s')
  {
    hide Leads, Inv;
    var s1 := Step(s, LoadSeq(p));
    OneStep(s, p, LoadSeq(p));
    TailIsNarrow(s);
    MovesKeep(s, p, LoadSeq(p));
    s' := PutEnds(s1, p, s1.calls[p].call.seqNo);
    LeadsOn(s, p, s1, s');
    QuietThenAppends(s, p, s1, Tail(s) + 1, s');
  }

  lemma ThenLoads(s: Wal, p: nat, s1: Wal) returns (s': Wal)
    requires Inv(s1) && Stands(s1, p) && s1.calls[p].call == Load && Tail(s1) < MAX_SEQ
    requires Leads(s, p, s1) && Quiet(s, p, s1)
    ensures Leads(s, p, s') && Appends(s, p, Tail(s) + 1, s')
  {
    hide Leads, Inv;
    s' := LoadEnds(s1, p);
    LeadsOn(s, p, s1, s');
    QuietThenAppends(s, p, s1, Tail(s) + 1, s');
  }

  /** From a search of either kind, however stale. */
  lemma SearchingEnds(s: Wal, p: nat, q: Search, since: nat, retry: bool) returns (s': Wal)
    requires Inv(s) && Stands(s, p) && s.calls[p].call == Searching(q, since, retry) && Tail(s) < MAX_SEQ
    ensures Leads(s, p, s') && Appends(s, p, Tail(s) + 1, s')
  {
    hide Step, Leads, Inv;
    var s1, h := SearchEnds(s, p, q, since, retry);
    if retry {
      assert (h + 1) % WRAP == h + 1;
      s' := PutEnds(s1, p, h + 1);
      LeadsOn(s, p, s1, s');
      QuietThenAppends(s, p, s1, Tail(s) + 1, s');
    } else {
      var s2 := RaiseEnds(s1, p, h, ThenLoad);
      LeadsOn(s, p, s1, s2);
      QuietOn(s, p, s1, s2);
      s' := ThenLoads(s, p, s2);
    }
  }

  /** The call has created an object and has only to return. */
  predicate Created(c: Call) {
    (c.Raise? || c.Swap?) && c.after == ThenReturn
  }

  /** Every call under way, wherever it stands and whatever it collided with, is acknowledged by its own steps alone: at
      the number after the tail, with exactly its batch added there, or at the number of the object it had created. */
  lemma UndisturbedAppendIsAcknowledged(s: Wal, p: nat) returns (s': Wal)
    requires Inv(s) && Stands(s, p) && !s.calls[p].call.Failed? && !s.calls[p].call.Acked?
    requires Tail(s) < MAX_SEQ
    ensures Leads(s, p, s')
    ensures !Created(s.calls[p].call) ==> Appends(s, p, Tail(s) + 1, s')
    ensures Created(s.calls[p].call) ==> Quiet(s, p, s') && s'.calls[p].call == Acked(s.calls[p].call.to)
  {
    hide Step, Leads, Inv, Appends, Quiet;
    match s.calls[p].call {
      case Begin =>
        var s1 := Step(s, LoadFirst(p));
        FirstMoves(s, p);
        OneStep(s, p, LoadFirst(p));
        MovesKeep(s, p, LoadFirst(p));
        if s1.calls[p].call == Load {
          s' := ThenLoads(s, p, s1);
        } else {
          s' := SearchingEnds(s1, p, Listing(0), Tail(s), false);
          LeadsOn(s, p, s1, s');
          QuietThenAppends(s, p, s1, Tail(s) + 1, s');
        }
      case Searching(q, since, retry) => s' := SearchingEnds(s, p, q, since, retry);
      case Raise(to, after) =>
        var s1 := RaiseEnds(s, p, to, after);
        if after == ThenReturn { s' := s1; } else { QuietTail(s, p, s1); s' := ThenLoads(s, p, s1); }
      case Swap(to, seen, after) =>
        var s1 := SwapEnds(s, p, to, seen, after);
        if after == ThenReturn { s' := s1; } else { QuietTail(s, p, s1); s' := ThenLoads(s, p, s1); }
      case Load => s' := LoadEnds(s, p);
      case Putting(n) => s' := PutEnds(s, p, n);
    }
  }

  lemma QuietTail(s: Wal, p: nat, s1: Wal)
    requires Quiet(s, p, s1)
    ensures Tail(s1) == Tail(s)
  {
  }

  lemma FirstMoves(s: Wal, p: nat)
    requires Inv(s) && Stands(s, p) && s.calls[p].call == Begin
    ensures var s1 := Step(s, LoadFirst(p));
            && Quiet(s, p, s1) && Stands(s1, p) && Tail(s1) == Tail(s)
            && (s1.calls[p].call == Load || s1.calls[p].call == Searching(Listing(0), Tail(s), false))
  {
  }
}
