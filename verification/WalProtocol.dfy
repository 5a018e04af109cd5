/** The lock-free WAL as a state machine: any number of Append calls on any number of Log objects share one store and
    use only conditional create, listings and existence probes. Every store call and every atomic operation on a Log's
    lastKnown is one action; calls interleave, fail and crash, and acknowledgements get lost. */
module WalProtocol {
  import opened Options
  import opened Bytes
  import opened FramedStream
  import opened Crc32c
  import opened RecordIo
  import Lexicographic
  import WalKeys
  import ObjectStore
  import TailSearch

  const MAX_SEQ := TailSearch.MAX_SEQ
  const WRAP := MAX_SEQ + 1

  /** Where a search for the tail stands: before its listing, before the first probe of the jump, or before probing
      `high` or the middle of [low, high). */
  datatype Search =
    | Listing(lo: nat)
    | First(lo: nat)
    | Galloping(low: nat, high: nat, step: nat)
    | Bisecting(low: nat, high: nat)

  datatype After = ThenLoad | ThenReturn

  datatype Call =
    | Begin                                             // about to load lastKnown
    | Searching(search: Search, since: nat, retry: bool) // in head: for the first tail, or after a collision
    | Raise(to: nat, after: After)                      // about to load lastKnown in the raising loop
    | Swap(to: nat, seen: nat, after: After)            // about to compare and swap it
    | Load                                              // about to load lastKnown for the first try
    | Putting(seqNo: nat)
    | Acked(seqNo: nat)
    | Failed

  /** One Append call: the Log it was made on, its encoded batch, and where it stands. `Searching.since` is history. */
  datatype Appender = Appender(log: nat, payload: seq<byte>, call: Call)

  /** The WAL objects by sequence number, lastKnown by Log, the calls, and, as history, which call created an object. */
  datatype Wal = Wal(
    prefix: string,
    objects: map<nat, seq<byte>>,
    lastKnown: map<nat, nat>,
    calls: map<nat, Appender>,
    owners: map<nat, nat>)

  datatype Reply = Acknowledged | ErrorAfterCommit | ConflictAfterCommit

  datatype Action =
    | NewLog(l: nat)
    | Append(p: nat, l: nat, payload: seq<byte>)
    | LoadFirst(p: nat)
    | List(p: nat, listing: seq<string>)
    | Probe(p: nat)
    | LoadInLoop(p: nat)
    | CompareAndSwap(p: nat)
    | LoadSeq(p: nat)
    | Put(p: nat, reply: Reply)
    | Error(p: nat)

  function Tail(s: Wal): nat {
    |s.objects|
  }

  function Keys(s: Wal): set<string> {
    set n | n in s.objects :: WalKeys.SegmentKey(s.prefix, n)
  }

  // ---- head

  datatype SearchResult = Continue(search: Search) | Result(tail: nat) | BadListing

  /** The next probe of a jump that has found n. */
  function GallopFrom(n: nat, step: nat): Search {
    var (high, longer) := TailSearch.Lengthen(n, step);
    Galloping(n, high, longer)
  }

  function Narrow(low: nat, high: nat): SearchResult {
    if low + 1 < high then Continue(Bisecting(low, high)) else Result(low)
  }

  /** What the listing tells a search that started at lo. */
  function AfterListing(lo: nat, listing: seq<string>): SearchResult {
    if listing == [] then Result(lo)
    else
      match WalKeys.ParseSeq(listing[|listing| - 1])
      case BadKey => BadListing
      case Seq(last) =>
        if |listing| < TailSearch.HEAD_LIST_LIMIT || last == MAX_SEQ then Result(last) else Continue(First(last))
  }

  /** One existence probe. */
  function AfterProbe(objects: set<nat>, q: Search): SearchResult
    requires !q.Listing?
  {
    match q
    case First(lo) => if lo + 1 in objects then Continue(GallopFrom(lo + 1, 1)) else Result(lo)
    case Galloping(low, high, step) =>
      if high !in objects then Narrow(low, high)
      else if high == MAX_SEQ then Result(high)
      else Continue(GallopFrom(high, step))
    case Bisecting(low, high) =>
      var mid := (low + high) / 2;
      if mid in objects then Narrow(mid, high) else Narrow(low, mid)
  }

  /** What the caller does with a search that has or has not ended. */
  function AfterSearch(c: Call, r: SearchResult): Call
    requires c.Searching?
  {
    match r
    case Continue(q) => c.(search := q)
    case Result(h) => if c.retry then Putting((h + 1) % WRAP) else Raise(h, ThenLoad)
    case BadListing => Failed
  }

  // ---- Steps

  function With(s: Wal, p: nat, c: Call): Wal
    requires p in s.calls
  {
    s.(calls := s.calls[p := s.calls[p].(call := c)])
  }

  function Finish(to: nat, after: After): Call {
    match after
    case ThenLoad => Load
    case ThenReturn => Acked(to)
  }

  predicate Stands(s: Wal, p: nat) {
    p in s.calls && s.calls[p].log in s.lastKnown
  }

  ghost function Step(s: Wal, a: Action): Wal {
    match a
    case NewLog(l) => if l in s.lastKnown then s else s.(lastKnown := s.lastKnown[l := 0])
    case Append(p, l, payload) =>
      if p in s.calls || l !in s.lastKnown then s else s.(calls := s.calls[p := Appender(l, payload, Begin)])
    case LoadFirst(p) =>
      if Stands(s, p) && s.calls[p].call == Begin
      then With(s, p, if s.lastKnown[s.calls[p].log] == 0 then Searching(Listing(0), Tail(s), false) else Load)
      else s
    case List(p, listing) => if Stands(s, p) && s.calls[p].call.Searching? then StepList(s, p, listing) else s
    case Probe(p) =>
      if Stands(s, p) && s.calls[p].call.Searching? && !s.calls[p].call.search.Listing?
      then With(s, p, AfterSearch(s.calls[p].call, AfterProbe(s.objects.Keys, s.calls[p].call.search)))
      else s
    case LoadInLoop(p) =>
      if Stands(s, p) && s.calls[p].call.Raise? then
        var c, known := s.calls[p].call, s.lastKnown[s.calls[p].log];
        With(s, p, if c.to <= known then Finish(c.to, c.after) else Swap(c.to, known, c.after))
      else s
    case CompareAndSwap(p) => if Stands(s, p) && s.calls[p].call.Swap? then StepSwap(s, p) else s
    case LoadSeq(p) =>
      if Stands(s, p) && s.calls[p].call == Load
      then With(s, p, Putting((s.lastKnown[s.calls[p].log] + 1) % WRAP)) else s
    case Put(p, reply) => if Stands(s, p) && s.calls[p].call.Putting? then StepPut(s, p, reply) else s
    case Error(p) => if Stands(s, p) && !s.calls[p].call.Acked? then With(s, p, Failed) else s
  }

  /** The listing of head: any answer the store may give for the keys it holds. */
  ghost function StepList(s: Wal, p: nat, listing: seq<string>): Wal
    requires p in s.calls && s.calls[p].call.Searching?
  {
    var c := s.calls[p].call;
    if c.search.Listing?
       && ObjectStore.IsListing(listing, Keys(s), s.prefix + "/", TailSearch.StartKey(s.prefix, c.search.lo),
                                TailSearch.HEAD_LIST_LIMIT)
    then With(s, p, AfterSearch(c, AfterListing(c.search.lo, listing)))
    else s
  }

  function StepSwap(s: Wal, p: nat): Wal
    requires Stands(s, p) && s.calls[p].call.Swap?
  {
    var l, c := s.calls[p].log, s.calls[p].call;
    if s.lastKnown[l] == c.seen
    then With(s.(lastKnown := s.lastKnown[l := c.to]), p, Finish(c.to, c.after))
    else With(s, p, Raise(c.to, c.after))
  }

  /** Conditional create: a collision searches for the tail again from the number that was taken. */
  function StepPut(s: Wal, p: nat, reply: Reply): Wal
    requires p in s.calls && s.calls[p].call.Putting?
  {
    var n := s.calls[p].call.seqNo;
    if n in s.objects then With(s, p, Searching(Listing(n), Tail(s), true))
    else
      var s' := Create(s, p, n);
      match reply
      case Acknowledged => With(s', p, Raise(n, ThenReturn))
      case ErrorAfterCommit => With(s', p, Failed)
      case ConflictAfterCommit => With(s', p, Searching(Listing(n), Tail(s'), true))
  }

  function Init(prefix: string): Wal {
    Wal(prefix, map[], map[], map[], map[])
  }

  ghost function Run(prefix: string, actions: seq<Action>): Wal {
    if actions == [] then Init(prefix) else Step(Run(prefix, actions[..|actions| - 1]), actions[|actions| - 1])
  }

  /** No state of the run holds more entries than there are 64-bit sequence numbers from 1 on. */
  ghost predicate NeverOverfull(prefix: string, actions: seq<Action>) {
    forall i :: 0 <= i <= |actions| ==> Tail(Run(prefix, actions[..i])) <= MAX_SEQ
  }

  // ---- The inductive invariant

  ghost predicate SearchOk(q: Search, since: nat, t: nat) {
    && since <= t
    && match q
       case Listing(lo) => lo <= t
       case First(lo) => lo <= t && lo < MAX_SEQ
       case Galloping(low, high, step) =>
         1 <= low <= t && low <= high <= MAX_SEQ && step > 0 && (low < high || high == MAX_SEQ)
       case Bisecting(low, high) => low <= t && since < high && low < high
  }

  ghost predicate ResultOk(r: SearchResult, since: nat, t: nat) {
    match r
    case Continue(q) => SearchOk(q, since, t) && !q.Listing?
    case Result(h) => since <= h <= t
    case BadListing => false
  }

  /** A call at c, in a log that ends at t. */
  ghost predicate CallOk(t: nat, owners: map<nat, nat>, p: nat, c: Call) {
    match c
    case Begin => true
    case Searching(q, since, _) => SearchOk(q, since, t)
    case Raise(to, after) => to <= t && (after == ThenReturn ==> to in owners && owners[to] == p)
    case Swap(to, seen, after) => seen < to <= t && (after == ThenReturn ==> to in owners && owners[to] == p)
    case Load => true
    case Putting(n) => n <= MAX_SEQ && n <= t + 1 && (n == 0 ==> t == MAX_SEQ)
    case Acked(n) => n in owners && owners[n] == p
    case Failed => true
  }

  /** The sequence numbers in use are 1 .. T, without a hole. */
  ghost predicate Gapless(s: Wal) {
    forall n :: n in s.objects <==> 1 <= n <= Tail(s)
  }

  ghost predicate Contiguous(s: Wal) {
    Tail(s) <= MAX_SEQ && Gapless(s)
  }

  ghost predicate Owned(s: Wal) {
    && s.owners.Keys == s.objects.Keys
    && (forall n :: n in s.owners ==> s.owners[n] in s.calls && s.objects[n] == s.calls[s.owners[n]].payload)
  }

  ghost predicate CallsOk(s: Wal) {
    && (forall l :: l in s.lastKnown ==> s.lastKnown[l] <= Tail(s))
    && (forall p :: p in s.calls ==> CallOk(Tail(s), s.owners, p, s.calls[p].call))
  }

  ghost predicate Inv(s: Wal) {
    Contiguous(s) && Owned(s) && CallsOk(s)
  }

  // ---- The search

  lemma ListingOk(s: Wal, lo: nat, since: nat, listing: seq<string>)
    requires Tail(s) <= MAX_SEQ && forall n :: n in s.objects <==> 1 <= n <= Tail(s)
    requires SearchOk(Listing(lo), since, Tail(s))
    requires ObjectStore.IsListing(listing, Keys(s), s.prefix + "/", TailSearch.StartKey(s.prefix, lo),
                                   TailSearch.HEAD_LIST_LIMIT)
    ensures ResultOk(AfterListing(lo, listing), since, Tail(s))
  {
    assert TailSearch.HoldsLog(Keys(s), s.prefix, Tail(s));
    TailSearch.ListingOfLog(listing, Keys(s), s.prefix, lo, Tail(s));
  }

  lemma ProbeOk(objects: set<nat>, t: nat, q: Search, since: nat)
    requires t <= MAX_SEQ && forall n :: n in objects <==> 1 <= n <= t
    requires SearchOk(q, since, t) && !q.Listing?
    ensures ResultOk(AfterProbe(objects, q), since, t)
  {
  }

  // ---- Steps

  /** Everything an action leaves to the calls it does not touch: the log and every lastKnown only grow. */
  ghost predicate Grows(s: Wal, s': Wal) {
    && s.prefix == s'.prefix
    && Tail(s) <= Tail(s')
    && (forall n :: n in s.objects ==> n in s'.objects && s.objects[n] == s'.objects[n])
    && (forall n :: n in s.owners ==> n in s'.owners && s.owners[n] == s'.owners[n])
    && (forall l :: l in s.lastKnown ==> l in s'.lastKnown && s.lastKnown[l] <= s'.lastKnown[l])
    && (forall p :: p in s.calls ==> p in s'.calls && s.calls[p].payload == s'.calls[p].payload
                                     && (s.calls[p].call.Acked? ==> s'.calls[p] == s.calls[p]))
  }

  /** A step that only moves call p. */
  lemma MoveKeeps(s: Wal, p: nat, c: Call)
    requires Inv(s) && p in s.calls && CallOk(Tail(s), s.owners, p, c) && !s.calls[p].call.Acked?
    ensures Inv(With(s, p, c)) && Grows(s, With(s, p, c))
  {
  }

  function Create(s: Wal, p: nat, n: nat): Wal
    requires p in s.calls
  {
    s.(objects := s.objects[n := s.calls[p].payload], owners := s.owners[n := p])
  }

  lemma CreateCounts(s: Wal, p: nat, n: nat)
    requires p in s.calls && n !in s.objects
    ensures Tail(Create(s, p, n)) == Tail(s) + 1
  {
    assert Create(s, p, n).objects.Keys == s.objects.Keys + {n};
    assert |s.objects| == |s.objects.Keys| && |Create(s, p, n).objects| == |Create(s, p, n).objects.Keys|;
  }

  lemma CallStable(s: Wal, q: nat, t: nat, owners: map<nat, nat>, c: Call)
    requires CallOk(Tail(s), s.owners, q, c) && Tail(s) < t <= MAX_SEQ
    requires forall n :: n in s.owners ==> n in owners && owners[n] == s.owners[n]
    ensures CallOk(t, owners, q, c)
  {
  }

  lemma CreateCallsOk(s: Wal, p: nat, n: nat)
    requires Inv(s) && p in s.calls && n == Tail(s) + 1 && n <= MAX_SEQ
    ensures CallsOk(Create(s, p, n))
  {
    var s' := Create(s, p, n);
    CreateCounts(s, p, n);
    forall q | q in s'.calls ensures CallOk(n, s'.owners, q, s'.calls[q].call) {
      CallStable(s, q, n, s'.owners, s.calls[q].call);
    }
  }

  lemma CreateContiguous(s: Wal, p: nat, n: nat)
    requires Contiguous(s) && p in s.calls && n == Tail(s) + 1 && n <= MAX_SEQ
    ensures Contiguous(Create(s, p, n))
  {
    CreateCounts(s, p, n);
  }

  lemma CreateGrows(s: Wal, p: nat, n: nat)
    requires Owned(s) && p in s.calls && n !in s.objects
    ensures Owned(Create(s, p, n)) && Grows(s, Create(s, p, n))
  {
    CreateCounts(s, p, n);
  }

  lemma CreateKeeps(s: Wal, p: nat, n: nat)
    requires Inv(s) && p in s.calls && n == Tail(s) + 1 && n <= MAX_SEQ
    ensures Inv(Create(s, p, n)) && Grows(s, Create(s, p, n))
  {
    hide Owned, CallsOk, Grows, Create;
    CreateContiguous(s, p, n);
    CreateCallsOk(s, p, n);
    CreateGrows(s, p, n);
  }

  lemma PutKeeps(s: Wal, p: nat, reply: Reply)
    requires Inv(s) && p in s.calls && s.calls[p].call.Putting?
    requires Tail(StepPut(s, p, reply)) <= MAX_SEQ
    ensures Inv(StepPut(s, p, reply)) && Grows(s, StepPut(s, p, reply))
  {
    var n := s.calls[p].call.seqNo;
    if n in s.objects {
      MoveKeeps(s, p, Searching(Listing(n), Tail(s), true));
    } else {
      CreateCounts(s, p, n);
      CreateKeeps(s, p, n);
      MoveKeeps(Create(s, p, n), p, StepPut(s, p, reply).calls[p].call);
    }
  }

  lemma SwapKeeps(s: Wal, p: nat)
    requires Inv(s) && Stands(s, p) && s.calls[p].call.Swap?
    requires s.calls[p].call.seen < s.calls[p].call.to
    ensures Inv(StepSwap(s, p)) && Grows(s, StepSwap(s, p))
  {
    var l, c := s.calls[p].log, s.calls[p].call;
    if s.lastKnown[l] == c.seen {
      var s' := s.(lastKnown := s.lastKnown[l := c.to]);
      assert Inv(s') && Grows(s, s');
      MoveKeeps(s', p, Finish(c.to, c.after));
    } else {
      MoveKeeps(s, p, Raise(c.to, c.after));
    }
  }

  lemma AfterSearchOk(t: nat, owners: map<nat, nat>, p: nat, c: Call, r: SearchResult)
    requires t <= MAX_SEQ && c.Searching? && ResultOk(r, c.since, t)
    ensures CallOk(t, owners, p, AfterSearch(c, r)) && !AfterSearch(c, r).Acked?
  {
  }

  lemma MoveSearch(s: Wal, p: nat, r: SearchResult)
    requires Inv(s) && p in s.calls && s.calls[p].call.Searching?
    requires ResultOk(r, s.calls[p].call.since, Tail(s))
    ensures var s' := With(s, p, AfterSearch(s.calls[p].call, r)); Inv(s') && Grows(s, s')
  {
    AfterSearchOk(Tail(s), s.owners, p, s.calls[p].call, r);
    MoveKeeps(s, p, AfterSearch(s.calls[p].call, r));
  }

  lemma ListKeeps(s: Wal, p: nat, listing: seq<string>)
    requires Inv(s) && p in s.calls && s.calls[p].call.Searching?
    ensures Inv(StepList(s, p, listing)) && Grows(s, StepList(s, p, listing))
  {
    var c := s.calls[p].call;
    if c.search.Listing?
       && ObjectStore.IsListing(listing, Keys(s), s.prefix + "/", TailSearch.StartKey(s.prefix, c.search.lo),
                                TailSearch.HEAD_LIST_LIMIT)
    {
      ListingOk(s, c.search.lo, c.since, listing);
      MoveSearch(s, p, AfterListing(c.search.lo, listing));
    }
  }

  lemma ProbeKeeps(s: Wal, p: nat)
    requires Inv(s) && Stands(s, p) && s.calls[p].call.Searching? && !s.calls[p].call.search.Listing?
    ensures Inv(Step(s, Probe(p))) && Grows(s, Step(s, Probe(p)))
  {
    var c := s.calls[p].call;
    ProbeOk(s.objects.Keys, Tail(s), c.search, c.since);
    MoveSearch(s, p, AfterProbe(s.objects.Keys, c.search));
  }

  lemma LoadOk(s: Wal, a: Action)
    requires Inv(s) && (a.LoadFirst? || a.LoadInLoop? || a.LoadSeq? || a.Error?)
    requires Stands(s, a.p)
    ensures a.p in Step(s, a).calls && CallOk(Tail(s), s.owners, a.p, Step(s, a).calls[a.p].call)
  {
    assert s.lastKnown[s.calls[a.p].log] <= Tail(s);
    assert CallOk(Tail(s), s.owners, a.p, s.calls[a.p].call);
  }

  /** The actions that only load lastKnown, or fail. */
  lemma LocalKeeps(s: Wal, a: Action)
    requires Inv(s) && (a.LoadFirst? || a.LoadInLoop? || a.LoadSeq? || a.Error?)
    ensures Inv(Step(s, a)) && Grows(s, Step(s, a))
  {
    if Stands(s, a.p) && Step(s, a) != s {
      LoadOk(s, a);
      MoveKeeps(s, a.p, Step(s, a).calls[a.p].call);
    }
  }

  lemma NewLogKeeps(s: Wal, l: nat)
    requires Inv(s)
    ensures Inv(Step(s, NewLog(l))) && Grows(s, Step(s, NewLog(l)))
  {
  }

  lemma NewCallKeeps(s: Wal, p: nat, l: nat, payload: seq<byte>)
    requires Inv(s)
    ensures Inv(Step(s, Append(p, l, payload))) && Grows(s, Step(s, Append(p, l, payload)))
  {
  }

  lemma StepKeeps(s: Wal, a: Action)
    requires Inv(s) && Tail(Step(s, a)) <= MAX_SEQ
    ensures Inv(Step(s, a)) && Grows(s, Step(s, a))
  {
    match a {
      case NewLog(l) => NewLogKeeps(s, l);
      case Append(p, l, payload) => NewCallKeeps(s, p, l, payload);
      case LoadFirst(_) => LocalKeeps(s, a);
      case LoadInLoop(_) => LocalKeeps(s, a);
      case LoadSeq(_) => LocalKeeps(s, a);
      case Error(_) => LocalKeeps(s, a);
      case List(p, listing) => if Stands(s, p) && s.calls[p].call.Searching? { ListKeeps(s, p, listing); }
      case Probe(p) =>
        if Stands(s, p) && s.calls[p].call.Searching? && !s.calls[p].call.search.Listing? { ProbeKeeps(s, p); }
      case CompareAndSwap(p) => if Stands(s, p) && s.calls[p].call.Swap? { SwapKeeps(s, p); }
      case Put(p, reply) => if Stands(s, p) && s.calls[p].call.Putting? { PutKeeps(s, p, reply); }
    }
  }

  lemma {:induction false} RunInv(prefix: string, actions: seq<Action>)
    requires NeverOverfull(prefix, actions)
    ensures Inv(Run(prefix, actions)) && Run(prefix, actions).prefix == prefix
  {
    assert actions[..|actions|] == actions;
    if actions != [] {
      var n := |actions| - 1;
      PrefixNeverOverfull(prefix, actions, n);
      RunInv(prefix, actions[..n]);
      StepKeeps(Run(prefix, actions[..n]), actions[n]);
    }
  }

  lemma PrefixNeverOverfull(prefix: string, actions: seq<Action>, n: nat)
    requires NeverOverfull(prefix, actions) && n <= |actions|
    ensures NeverOverfull(prefix, actions[..n])
  {
    forall i | 0 <= i <= n ensures Tail(Run(prefix, actions[..n][..i])) <= MAX_SEQ {
      assert actions[..n][..i] == actions[..i];
    }
  }

  // ---- The theorems

  /** Contiguity over every run, under every interleaving with crashes, errors and lost acknowledgements: the sequence
      numbers in use are always 1 .. T with no hole, each object is its creator's batch, and every Log's lastKnown is 0
      or a number in use. */
  lemma WalContiguity(prefix: string, actions: seq<Action>)
    requires NeverOverfull(prefix, actions)
    ensures var s := Run(prefix, actions);
            && Gapless(s)
            && (forall l :: l in s.lastKnown ==> s.lastKnown[l] == 0 || s.lastKnown[l] in s.objects)
            && (forall n :: n in s.objects ==>
                  n in s.owners && s.owners[n] in s.calls && s.objects[n] == s.calls[s.owners[n]].payload)
  {
    RunInv(prefix, actions);
  }

  /** Every number an object has or a call is about to create is a 64-bit number, however many objects there are. */
  ghost predicate Narrow64(s: Wal) {
    && (forall n :: n in s.objects ==> n <= MAX_SEQ)
    && (forall p :: p in s.calls && s.calls[p].call.Putting? ==> s.calls[p].call.seqNo <= MAX_SEQ)
  }

  lemma StepNarrow64(s: Wal, a: Action)
    requires Narrow64(s)
    ensures Narrow64(Step(s, a))
  {
  }

  lemma {:induction false} RunNarrow64(prefix: string, actions: seq<Action>)
    ensures Narrow64(Run(prefix, actions))
  {
    if actions != [] {
      RunNarrow64(prefix, actions[..|actions| - 1]);
      StepNarrow64(Run(prefix, actions[..|actions| - 1]), actions[|actions| - 1]);
    }
  }

  lemma GaplessIsNarrow(s: Wal)
    requires Narrow64(s) && Gapless(s)
    ensures Tail(s) <= MAX_SEQ
  {
    assert Tail(s) >= 1 ==> Tail(s) in s.objects;
  }

  /** The bound is exact: every state of a run is without a hole if and only if no state holds more than 2^64 - 1
      objects; beyond that a number wraps and 0 comes into use. */
  lemma ContiguityIffNeverOverfull(prefix: string, actions: seq<Action>)
    ensures NeverOverfull(prefix, actions) <==> forall i :: 0 <= i <= |actions| ==> Gapless(Run(prefix, actions[..i]))
  {
    if NeverOverfull(prefix, actions) {
      forall i | 0 <= i <= |actions| ensures Gapless(Run(prefix, actions[..i])) {
        PrefixNeverOverfull(prefix, actions, i);
        RunInv(prefix, actions[..i]);
      }
    }
    if forall i :: 0 <= i <= |actions| ==> Gapless(Run(prefix, actions[..i])) {
      forall i | 0 <= i <= |actions| ensures Tail(Run(prefix, actions[..i])) <= MAX_SEQ {
        RunNarrow64(prefix, actions[..i]);
        GaplessIsNarrow(Run(prefix, actions[..i]));
      }
    }
  }

  // ---- A run that fills the log

  lemma RunSnoc(prefix: string, actions: seq<Action>, a: Action)
    ensures Run(prefix, actions + [a]) == Step(Run(prefix, actions), a)
  {
    assert (actions + [a])[..|actions|] == actions;
  }

  /** Log 0 after calls 0 .. k - 1 have each appended: 1 .. k are in use and known. */
  ghost predicate Filled(s: Wal, k: nat) {
    && Tail(s) == k && Gapless(s)
    && s.lastKnown == map[0 := k] && (forall p: nat :: p in s.calls <==> p < k)
  }

  // The steps of one undisturbed Append, by call k. The listing and the loop after it act only in the first call.

  ghost function Arrive(s: Wal, k: nat): Wal {
    Step(Step(Step(Step(s, Append(k, 0, [])), LoadFirst(k)), List(k, [])), LoadInLoop(k))
  }

  lemma FirstArrives(s: Wal)
    requires Filled(s, 0)
    ensures Arrive(s, 0) == s.(calls := s.calls[0 := Appender(0, [], Load)])
  {
    var s2 := Step(Step(s, Append(0, 0, [])), LoadFirst(0));
    assert s2 == s.(calls := s.calls[0 := Appender(0, [], Searching(Listing(0), 0, false))]);
    assert Keys(s2) == {};
    var s3 := Step(s2, List(0, []));
    assert s3 == s.(calls := s.calls[0 := Appender(0, [], Raise(0, ThenLoad))]);
  }

  lemma ArriveIs(s: Wal, k: nat)
    requires Filled(s, k)
    ensures Arrive(s, k) == s.(calls := s.calls[k := Appender(0, [], Load)])
  {
    if k == 0 {
      FirstArrives(s);
    } else {
      var s1 := Step(s, Append(k, 0, []));
      assert s1 == s.(calls := s.calls[k := Appender(0, [], Begin)]);
      var s2 := Step(s1, LoadFirst(k));
      assert s2 == s.(calls := s.calls[k := Appender(0, [], Load)]);
    }
  }

  lemma CreateIs(s: Wal, k: nat, n: nat)
    requires k in s.calls && s.calls[k] == Appender(0, [], Load) && s.lastKnown == map[0 := k]
    requires n == (k + 1) % WRAP && n !in s.objects
    ensures Step(Step(s, LoadSeq(k)), Put(k, Acknowledged)) == With(Create(s, k, n), k, Raise(n, ThenReturn))
  {
    var s' := Step(s, LoadSeq(k));
    assert s'.calls[k].call == Putting(n);
  }

  lemma ReturnIs(s: Wal, k: nat)
    requires k in s.calls && s.calls[k] == Appender(0, [], Raise(k + 1, ThenReturn)) && s.lastKnown == map[0 := k]
    ensures Step(Step(s, LoadInLoop(k)), CompareAndSwap(k))
            == With(s.(lastKnown := map[0 := k + 1]), k, Acked(k + 1))
    ensures Tail(Step(s, LoadInLoop(k))) == Tail(s)
  {
    var s' := Step(s, LoadInLoop(k));
    assert s'.calls[k].call == Swap(k + 1, k, ThenReturn);
    assert s.lastKnown[0 := k + 1] == map[0 := k + 1];
  }

  ghost function AppendOnce(s: Wal, k: nat): Wal {
    Step(Step(Step(Step(Arrive(s, k), LoadSeq(k)), Put(k, Acknowledged)), LoadInLoop(k)), CompareAndSwap(k))
  }

  /** The state after the append, from the one in which it has arrived. */
  lemma FillsOneMore(s: Wal, s': Wal, k: nat)
    requires Filled(s, k) && s'.objects == s.objects[k + 1 := []] && s'.lastKnown == map[0 := k + 1]
    requires s'.calls.Keys == s.calls.Keys + {k}
    ensures Filled(s', k + 1)
  {
    MapGrows(s.objects, k + 1);
    forall n ensures n in s'.objects <==> 1 <= n <= k + 1 {}
  }

  lemma MapGrows(m: map<nat, seq<byte>>, n: nat)
    requires n !in m
    ensures |m[n := []]| == |m| + 1
  {
    assert m[n := []].Keys == m.Keys + {n};
    assert |m| == |m.Keys| && |m[n := []]| == |m[n := []].Keys|;
  }

  lemma NextIsFree(s: Wal, k: nat)
    requires Filled(s, k) && k < MAX_SEQ
    ensures k + 1 == (k + 1) % WRAP && k + 1 !in s.objects && s.lastKnown == map[0 := k]
  {
  }

  lemma AppendOnceIs(s: Wal, k: nat)
    requires Filled(s, k) && k < MAX_SEQ
    ensures var s' := AppendOnce(s, k);
            && s'.objects == s.objects[k + 1 := []] && s'.lastKnown == map[0 := k + 1]
            && s'.calls.Keys == s.calls.Keys + {k}
  {
    hide Step, Arrive, Filled;
    NextIsFree(s, k);
    ArriveIs(s, k);
    var s1 := Arrive(s, k);
    CreateIs(s1, k, k + 1);
    ReturnIs(With(Create(s1, k, k + 1), k, Raise(k + 1, ThenReturn)), k);
  }

  lemma AppendFills(s: Wal, k: nat)
    requires Filled(s, k) && k < MAX_SEQ
    ensures Filled(AppendOnce(s, k), k + 1)
  {
    hide AppendOnce, Filled;
    AppendOnceIs(s, k);
    FillsOneMore(s, AppendOnce(s, k), k);
  }

  function Round(actions: seq<Action>, k: nat): seq<Action> {
    actions + [Append(k, 0, [])] + [LoadFirst(k)] + [List(k, [])] + [LoadInLoop(k)] + [LoadSeq(k)]
      + [Put(k, Acknowledged)]
  }

  /** k appends, one after the other. */
  function Fill(k: nat): seq<Action> {
    if k == 0 then [NewLog(0)] else Round(Fill(k - 1), k - 1) + [LoadInLoop(k - 1)] + [CompareAndSwap(k - 1)]
  }

  lemma RoundIs(prefix: string, actions: seq<Action>, k: nat)
    ensures Run(prefix, Round(actions, k))
            == Step(Step(Arrive(Run(prefix, actions), k), LoadSeq(k)), Put(k, Acknowledged))
  {
    var a1 := actions + [Append(k, 0, [])];
    var a2 := a1 + [LoadFirst(k)];
    var a3 := a2 + [List(k, [])];
    var a4 := a3 + [LoadInLoop(k)];
    var a5 := a4 + [LoadSeq(k)];
    RunSnoc(prefix, actions, Append(k, 0, []));
    RunSnoc(prefix, a1, LoadFirst(k));
    RunSnoc(prefix, a2, List(k, []));
    RunSnoc(prefix, a3, LoadInLoop(k));
    RunSnoc(prefix, a4, LoadSeq(k));
    RunSnoc(prefix, a5, Put(k, Acknowledged));
  }

  lemma NewLogIsFilled(prefix: string)
    ensures Filled(Run(prefix, [NewLog(0)]), 0)
    ensures var s := Run(prefix, [NewLog(0)]); s.objects == map[] && s.owners == map[] && s.calls == map[]
  {
    assert [NewLog(0)][..0] == [];
    var s := Init(prefix).(lastKnown := map[0 := 0]);
    assert Run(prefix, [NewLog(0)]) == s;
    assert Tail(s) == |s.objects.Keys| == 0;
  }

  lemma {:induction false} FillFills(prefix: string, k: nat)
    requires k <= MAX_SEQ
    ensures Filled(Run(prefix, Fill(k)), k)
  {
    hide Step, Arrive, Round, Filled;
    if k == 0 {
      NewLogIsFilled(prefix);
    } else {
      FillFills(prefix, k - 1);
      var before := Fill(k - 1);
      RoundIs(prefix, before, k - 1);
      RunSnoc(prefix, Round(before, k - 1), LoadInLoop(k - 1));
      RunSnoc(prefix, Round(before, k - 1) + [LoadInLoop(k - 1)], CompareAndSwap(k - 1));
      AppendFills(Run(prefix, before), k - 1);
    }
  }

  /** And the bound is reached: 2^64 - 1 appends fill the log without a hole, and the next one wraps to 0 and is created
      there. */
  lemma FullLogWraps(prefix: string, n: nat)
    requires n == MAX_SEQ
    ensures Tail(Run(prefix, Fill(n))) == MAX_SEQ && Gapless(Run(prefix, Fill(n)))
    ensures 0 in Run(prefix, Round(Fill(n), n)).objects && !Gapless(Run(prefix, Round(Fill(n), n)))
  {
    hide Round, Fill;
    FillFills(prefix, n);
    var s := Run(prefix, Fill(n));
    RoundIs(prefix, Fill(n), n);
    ArriveIs(s, n);
    CreateIs(Arrive(s, n), n, 0);
  }

  lemma AckedOk(s: Wal, p: nat, q: nat)
    requires Inv(s) && p in s.calls && s.calls[p].call.Acked?
    ensures var n := s.calls[p].call.seqNo;
            && n in s.objects && s.objects[n] == s.calls[p].payload && n in s.owners && s.owners[n] == p
            && (q in s.calls && q != p && s.calls[q].call.Acked? ==> s.calls[q].call.seqNo != n)
  {
    assert CallOk(Tail(s), s.owners, p, s.calls[p].call);
    if q in s.calls { assert CallOk(Tail(s), s.owners, q, s.calls[q].call); }
  }

  /** Every acknowledged call holds a sequence number whose object it made itself, with its own batch, and which no
      other call holds. */
  lemma AcknowledgedIsUnique(prefix: string, actions: seq<Action>, p: nat, q: nat)
    requires NeverOverfull(prefix, actions)
    requires var s := Run(prefix, actions); p in s.calls && s.calls[p].call.Acked?
    ensures var s := Run(prefix, actions);
            var n := s.calls[p].call.seqNo;
            && n in s.objects && s.objects[n] == s.calls[p].payload && n in s.owners && s.owners[n] == p
            && (q in s.calls && q != p && s.calls[q].call.Acked? ==> s.calls[q].call.seqNo != n)
  {
    RunInv(prefix, actions);
    AckedOk(Run(prefix, actions), p, q);
  }

  lemma GrowsTransitive(a: Wal, b: Wal, c: Wal)
    requires Grows(a, b) && Grows(b, c)
    ensures Grows(a, c)
  {
  }

  lemma LastStepGrows(prefix: string, actions: seq<Action>)
    requires NeverOverfull(prefix, actions) && actions != []
    ensures Grows(Run(prefix, actions[..|actions| - 1]), Run(prefix, actions))
  {
    assert actions[..|actions|] == actions;
    PrefixNeverOverfull(prefix, actions, |actions| - 1);
    RunInv(prefix, actions[..|actions| - 1]);
    StepKeeps(Run(prefix, actions[..|actions| - 1]), actions[|actions| - 1]);
  }

  /** Along a run the log only grows: objects are never changed or removed, lastKnown never falls, and an acknowledged
      call keeps its number. */
  lemma {:induction false} RunGrows(prefix: string, before: seq<Action>, after: seq<Action>)
    requires NeverOverfull(prefix, before + after)
    ensures Grows(Run(prefix, before), Run(prefix, before + after))
  {
    if after == [] {
      assert before + after == before;
    } else {
      var n := |after| - 1;
      var all, earlier := before + after, before + after[..n];
      assert all[..|all| - 1] == earlier;
      PrefixNeverOverfull(prefix, all, |all| - 1);
      RunGrows(prefix, before, after[..n]);
      LastStepGrows(prefix, all);
      GrowsTransitive(Run(prefix, before), Run(prefix, earlier), Run(prefix, all));
    }
  }

  /** What log.Read returns for a sequence number: the records of its object, or the end of the stream. */
  function Read(sum: Checksum, s: Wal, n: nat): Option<Scanned<Record, Fault>> {
    if n in s.objects then Some(ScanAll(Scanner(sum, DEFAULT_MAX_RECORD_SIZE), s.objects[n])) else None
  }

  lemma AcknowledgedStays(prefix: string, before: seq<Action>, after: seq<Action>, p: nat)
    requires NeverOverfull(prefix, before + after)
    requires var s := Run(prefix, before); p in s.calls && s.calls[p].call.Acked?
    ensures var s, s' := Run(prefix, before), Run(prefix, before + after);
            var n := s.calls[p].call.seqNo;
            p in s'.calls && s'.calls[p] == s.calls[p] && n in s'.objects && s'.objects[n] == s.calls[p].payload
  {
    assert (before + after)[..|before|] == before;
    PrefixNeverOverfull(prefix, before + after, |before|);
    AcknowledgedIsUnique(prefix, before, p, p);
    RunGrows(prefix, before, after);
  }

  /** Durability of acknowledged appends: once a call is acknowledged at n, Read of n returns exactly its batch in that
      and every later state, for records within the scanner's size limit. */
  lemma AcknowledgedIsReadable(sum: Checksum, prefix: string, before: seq<Action>, after: seq<Action>, p: nat,
                               batch: seq<Record>)
    requires NeverOverfull(prefix, before + after)
    requires var s := Run(prefix, before);
             p in s.calls && s.calls[p].call.Acked? && s.calls[p].payload == Encode(Writer(sum), batch)
    requires Fit(batch, Fits(DEFAULT_MAX_RECORD_SIZE))
    ensures Read(sum, Run(prefix, before + after), Run(prefix, before).calls[p].call.seqNo)
            == Some(Scanned(batch, |Encode(Writer(sum), batch)|, None))
  {
    AcknowledgedStays(prefix, before, after, p);
    ScanInvertsEncode(sum, batch, DEFAULT_MAX_RECORD_SIZE);
  }

  // ---- The log as a sequence

  /** The batches in order of sequence number: what the log means to its readers. */
  ghost function Entries(s: Wal): seq<seq<byte>>
    requires Contiguous(s)
  {
    seq(Tail(s), i requires 0 <= i < Tail(s) => s.objects[i + 1])
  }

  /** The action creates an object. */
  predicate Creates(s: Wal, a: Action) {
    a.Put? && Stands(s, a.p) && s.calls[a.p].call.Putting? && s.calls[a.p].call.seqNo !in s.objects
  }

  lemma OnlyCreatesChange(s: Wal, a: Action)
    ensures !Creates(s, a) ==> Step(s, a).objects == s.objects && Step(s, a).owners == s.owners
    ensures Creates(s, a) ==> var n := s.calls[a.p].call.seqNo;
                              Step(s, a).objects == s.objects[n := s.calls[a.p].payload]
                                && Step(s, a).owners == s.owners[n := a.p]
  {
  }

  lemma EntriesExtend(s: Wal, s': Wal, payload: seq<byte>)
    requires Contiguous(s) && Contiguous(s') && Tail(s') == Tail(s) + 1
    requires s'.objects == s.objects[Tail(s) + 1 := payload]
    ensures Entries(s') == Entries(s) + [payload]
  {
  }

  lemma EntriesSame(s: Wal, s': Wal)
    requires Contiguous(s) && Contiguous(s') && s'.objects == s.objects
    ensures Entries(s') == Entries(s)
  {
  }

  lemma CreatedIsNext(s: Wal, a: Action)
    requires Inv(s) && Creates(s, a) && Tail(Step(s, a)) <= MAX_SEQ
    ensures s.calls[a.p].call.seqNo == Tail(s) + 1 == Tail(Step(s, a))
  {
    OnlyCreatesChange(s, a);
    CreateCounts(s, a.p, s.calls[a.p].call.seqNo);
    assert CallOk(Tail(s), s.owners, a.p, s.calls[a.p].call);
  }

  /** Every action leaves the log as it is or appends the batch of one call that is under way: the protocol implements
      an atomic append. */
  lemma StepAppends(s: Wal, a: Action)
    requires Inv(s) && Tail(Step(s, a)) <= MAX_SEQ
    ensures Contiguous(Step(s, a))
    ensures !Creates(s, a) ==> Entries(Step(s, a)) == Entries(s)
    ensures Creates(s, a) ==> s.calls[a.p].call.seqNo == Tail(s) + 1
                              && Entries(Step(s, a)) == Entries(s) + [s.calls[a.p].payload]
  {
    var s' := Step(s, a);
    StepKeeps(s, a);
    OnlyCreatesChange(s, a);
    if Creates(s, a) {
      CreatedIsNext(s, a);
      EntriesExtend(s, s', s.calls[a.p].payload);
    } else {
      EntriesSame(s, s');
    }
  }

  /** The batches that a run creates, in the order of its actions. */
  ghost function Appended(prefix: string, actions: seq<Action>): seq<seq<byte>> {
    if actions == [] then []
    else
      var s, a := Run(prefix, actions[..|actions| - 1]), actions[|actions| - 1];
      Appended(prefix, actions[..|actions| - 1]) + if Creates(s, a) then [s.calls[a.p].payload] else []
  }

  /** Over a whole run the log, in the order of its numbers, is the batches created, in the order of creation. */
  lemma {:induction false} LogIsAppended(prefix: string, actions: seq<Action>)
    requires NeverOverfull(prefix, actions)
    ensures Contiguous(Run(prefix, actions)) && Entries(Run(prefix, actions)) == Appended(prefix, actions)
  {
    assert actions[..|actions|] == actions;
    if actions == [] {
      assert Tail(Init(prefix)) == |Init(prefix).objects.Keys| == 0;
    } else {
      var n := |actions| - 1;
      PrefixNeverOverfull(prefix, actions, n);
      LogIsAppended(prefix, actions[..n]);
      RunInv(prefix, actions[..n]);
      StepAppends(Run(prefix, actions[..n]), actions[n]);
    }
  }

  // ---- Exactly once

  /** The call may still create an object. */
  predicate Undecided(c: Call) {
    match c
    case Raise(_, after) => after == ThenLoad
    case Swap(_, _, after) => after == ThenLoad
    case Acked(_) => false
    case Failed => false
    case _ => true
  }

  /** No call has created two objects, and a call that may still create one has created none. */
  ghost predicate AtMostOnce(s: Wal) {
    && (forall m, n :: m in s.owners && n in s.owners && s.owners[m] == s.owners[n] ==> m == n)
    && (forall n :: n in s.owners && s.owners[n] in s.calls ==> !Undecided(s.calls[s.owners[n]].call))
  }

  /** A call that has made its object, or given up, stays so. */
  lemma DecidedStays(s: Wal, a: Action, q: nat)
    requires q in s.calls && !Undecided(s.calls[q].call)
    ensures q in Step(s, a).calls && !Undecided(Step(s, a).calls[q].call)
  {
  }

  lemma StepAtMostOnce(s: Wal, a: Action)
    requires Owned(s) && AtMostOnce(s)
    requires a.Put? ==> a.reply != ConflictAfterCommit
    ensures AtMostOnce(Step(s, a))
  {
    OnlyCreatesChange(s, a);
    var s' := Step(s, a);
    forall n | n in s.owners ensures s.owners[n] in s'.calls && !Undecided(s'.calls[s.owners[n]].call) {
      DecidedStays(s, a, s.owners[n]);
    }
    if Creates(s, a) {
      assert Undecided(s.calls[a.p].call) && !Undecided(s'.calls[a.p].call);
    }
  }

  /** As long as no store answers a committed create with a conflict, an Append call adds at most one entry. */
  lemma {:induction false} AppendsAtMostOnce(prefix: string, actions: seq<Action>)
    requires NeverOverfull(prefix, actions)
    requires forall i :: 0 <= i < |actions| && actions[i].Put? ==> actions[i].reply != ConflictAfterCommit
    ensures AtMostOnce(Run(prefix, actions))
  {
    assert actions[..|actions|] == actions;
    if actions != [] {
      var n := |actions| - 1;
      PrefixNeverOverfull(prefix, actions, n);
      AppendsAtMostOnce(prefix, actions[..n]);
      RunInv(prefix, actions[..n]);
      StepAtMostOnce(Run(prefix, actions[..n]), actions[n]);
    }
  }

  // ---- What a false conflict does

  /** The objects a call has made. */
  ghost function MadeBy(s: Wal, p: nat): set<nat> {
    Made(s.owners, p)
  }

  ghost function Made(owners: map<nat, nat>, p: nat): set<nat> {
    set n | n in owners && owners[n] == p
  }

  /** How often call p was told of a conflict after its own commit. */
  ghost function FalseConflicts(prefix: string, actions: seq<Action>, p: nat): nat {
    if actions == [] then 0
    else
      var init, a := actions[..|actions| - 1], actions[|actions| - 1];
      FalseConflicts(prefix, init, p)
      + if a == Put(p, ConflictAfterCommit) && Creates(Run(prefix, init), a) then 1 else 0
  }

  /** How many objects a call at c has made, given its false conflicts: one more once it has been acknowledged, and one
      more or none if it failed. */
  predicate MadeOk(c: Call, made: nat, conflicts: nat) {
    if Undecided(c) then made == conflicts
    else if c.Failed? then conflicts <= made <= conflicts + 1
    else made == conflicts + 1
  }

  lemma MadeMore(owners: map<nat, nat>, n: nat, q: nat, p: nat)
    requires n !in owners
    ensures |Made(owners[n := q], p)| == |Made(owners, p)| + if q == p then 1 else 0
  {
    assert Made(owners[n := q], p) == Made(owners, p) + if q == p then {n} else {};
  }

  lemma MadeByStep(s: Wal, a: Action, p: nat)
    requires Owned(s)
    ensures |MadeBy(Step(s, a), p)| == |MadeBy(s, p)| + if Creates(s, a) && a.p == p then 1 else 0
    ensures p !in s.calls ==> MadeBy(s, p) == {}
  {
    hide Step, Made;
    OnlyCreatesChange(s, a);
    if Creates(s, a) { MadeMore(s.owners, s.calls[a.p].call.seqNo, a.p, p); }
    if p !in s.calls { MadeNone(s, p); }
  }

  lemma MadeNone(s: Wal, p: nat)
    requires Owned(s) && p !in s.calls
    ensures MadeBy(s, p) == {}
  {
  }

  /** Where one action takes a call: it decides by creating, gives up, or stays undecided. */
  lemma DecisionStep(s: Wal, a: Action, p: nat)
    ensures p in s.calls && p in Step(s, a).calls ==>
              var c, c', creates := s.calls[p].call, Step(s, a).calls[p].call, Creates(s, a) && a.p == p;
              && (creates ==> Undecided(c) && (Undecided(c') <==> a.reply == ConflictAfterCommit))
              && (creates && a.reply == Acknowledged ==> !c'.Failed?)
              && (!creates ==> (Undecided(c') ==> Undecided(c)) && (c.Failed? ==> c'.Failed?)
                               && (Undecided(c) && !Undecided(c') ==> c'.Failed?))
    ensures p in s.calls ==> p in Step(s, a).calls
    ensures p !in s.calls && p in Step(s, a).calls ==> Undecided(Step(s, a).calls[p].call)
    ensures Creates(s, a) ==> a.p in s.calls
  {
  }

  lemma MadeStep(s: Wal, a: Action, p: nat, conflicts: nat)
    requires Owned(s) && (p in s.calls ==> MadeOk(s.calls[p].call, |MadeBy(s, p)|, conflicts))
    requires p !in s.calls ==> conflicts == 0
    ensures var more := if a == Put(p, ConflictAfterCommit) && Creates(s, a) then 1 else 0;
            && (p in Step(s, a).calls ==> MadeOk(Step(s, a).calls[p].call, |MadeBy(Step(s, a), p)|, conflicts + more))
            && (p !in Step(s, a).calls ==> p !in s.calls && more == 0)
  {
    hide Step, MadeBy, Undecided, Owned;
    MadeByStep(s, a, p);
    DecisionStep(s, a, p);
  }

  lemma {:induction false} MadeCounts(prefix: string, actions: seq<Action>, p: nat)
    requires NeverOverfull(prefix, actions)
    ensures var s := Run(prefix, actions);
            if p in s.calls then MadeOk(s.calls[p].call, |MadeBy(s, p)|, FalseConflicts(prefix, actions, p))
            else FalseConflicts(prefix, actions, p) == 0
  {
    hide Step, MadeOk, MadeBy, Owned, CallsOk, Contiguous;
    assert actions[..|actions|] == actions;
    if actions != [] {
      var n := |actions| - 1;
      PrefixNeverOverfull(prefix, actions, n);
      MadeCounts(prefix, actions[..n], p);
      RunInv(prefix, actions[..n]);
      MadeStep(Run(prefix, actions[..n]), actions[n], p, FalseConflicts(prefix, actions[..n], p));
    }
  }

  /** An acknowledged Append has added its batch once and once more for every conflict it was told of after its own
      commit: exactly once if and only if there was none. */
  lemma ExactlyOnceIffNoFalseConflict(prefix: string, actions: seq<Action>, p: nat)
    requires NeverOverfull(prefix, actions)
    requires var s := Run(prefix, actions); p in s.calls && s.calls[p].call.Acked?
    ensures |MadeBy(Run(prefix, actions), p)| == 1 + FalseConflicts(prefix, actions, p)
    ensures |MadeBy(Run(prefix, actions), p)| == 1 <==> FalseConflicts(prefix, actions, p) == 0
  {
    MadeCounts(prefix, actions, p);
  }

  lemma NothingAfterOne(s: Wal)
    requires s.objects.Keys == {1}
    ensures ObjectStore.IsListing([], Keys(s), s.prefix + "/", TailSearch.StartKey(s.prefix, 1),
                                  TailSearch.HEAD_LIST_LIMIT)
  {
    Lexicographic.Irreflexive(WalKeys.SegmentKey(s.prefix, 1));
  }

  lemma ArrivalRun(prefix: string, actions: seq<Action>, k: nat)
    ensures Run(prefix, actions + [Append(k, 0, [])] + [LoadFirst(k)] + [List(k, [])] + [LoadInLoop(k)])
            == Arrive(Run(prefix, actions), k)
  {
    var a1 := actions + [Append(k, 0, [])];
    var a2 := a1 + [LoadFirst(k)];
    var a3 := a2 + [List(k, [])];
    RunSnoc(prefix, actions, Append(k, 0, []));
    RunSnoc(prefix, a1, LoadFirst(k));
    RunSnoc(prefix, a2, List(k, []));
    RunSnoc(prefix, a3, LoadInLoop(k));
  }

  lemma TwiceRun(prefix: string, actions: seq<Action>)
    ensures Run(prefix, actions + [LoadSeq(0)] + [Put(0, ConflictAfterCommit)] + [List(0, [])] + [Put(0, Acknowledged)])
            == Twice(Run(prefix, actions))
  {
    var a1 := actions + [LoadSeq(0)];
    var a2 := a1 + [Put(0, ConflictAfterCommit)];
    var a3 := a2 + [List(0, [])];
    RunSnoc(prefix, actions, LoadSeq(0));
    RunSnoc(prefix, a1, Put(0, ConflictAfterCommit));
    RunSnoc(prefix, a2, List(0, []));
    RunSnoc(prefix, a3, Put(0, Acknowledged));
  }

  ghost function Twice(s: Wal): Wal {
    Step(Step(Step(Step(s, LoadSeq(0)), Put(0, ConflictAfterCommit)), List(0, [])), Put(0, Acknowledged))
  }

  /** A run in which it happens: one call, told of a conflict after its first commit, adds its batch twice. */
  lemma FalseConflictAppendsTwice(prefix: string) returns (actions: seq<Action>)
    ensures var s := Run(prefix, actions);
            s.objects.Keys == {1, 2} && s.owners == map[1 := 0, 2 := 0] && !AtMostOnce(s)
  {
    hide Step, Run;
    var before := [NewLog(0)];
    NewLogIsFilled(prefix);
    ArriveIs(Run(prefix, before), 0);
    ArrivalRun(prefix, before, 0);
    var arrived := before + [Append(0, 0, [])] + [LoadFirst(0)] + [List(0, [])] + [LoadInLoop(0)];
    actions := arrived + [LoadSeq(0)] + [Put(0, ConflictAfterCommit)] + [List(0, [])] + [Put(0, Acknowledged)];
    TwiceRun(prefix, arrived);
    TwiceFrom(Run(prefix, arrived));
    assert Run(prefix, actions).owners[1] == Run(prefix, actions).owners[2];
  }

  lemma TwiceFrom(s: Wal)
    requires s.objects == map[] && s.owners == map[] && s.lastKnown == map[0 := 0]
             && s.calls == map[0 := Appender(0, [], Load)]
    ensures var s' := Twice(s);
            s'.objects.Keys == {1, 2} && s'.owners == map[1 := 0, 2 := 0]
  {
    var s1 := Step(s, LoadSeq(0));
    assert s1.calls[0].call == Putting(1);
    var s2 := Step(s1, Put(0, ConflictAfterCommit));
    assert s2.objects.Keys == {1};
    assert s2.calls[0].call.Searching? && s2.calls[0].call.search == Listing(1);
    NothingAfterOne(s2);
    var s3 := Step(s2, List(0, []));
    assert s3.calls[0].call == Putting(2);
  }
}
