/** Safety of the storage protocol over every run: exactly-once materialisation and resume safety. */
module FlusherSafety {
  import opened Options
  import opened Mutations
  import opened Flusher

  // ---- The inductive invariant

  /** Every batch among the first n entries is in its branch's manifest. */
  ghost predicate Covered(sh: Shared, n: nat) {
    && n <= |sh.wal|
    && forall i :: 0 <= i < n && BatchBranch(sh.wal[i]) != "" ==>
         && BatchBranch(sh.wal[i]) in sh.manifests
         && i + 1 <= sh.manifests[BatchBranch(sh.wal[i])].manifest.checkpoint
  }

  /** A manifest that holds exactly what a branch of this lineage should hold at its checkpoint, all of it stored, at a
      checkpoint up to which every branch is covered. */
  ghost predicate Faithful(sh: Shared, m: Manifest, l: Lineage, b: string) {
    && Covered(sh, m.checkpoint)
    && LineageWithin(l, m.checkpoint)
    && Contents(m.segments) == Batches(sh.wal, l, b, m.checkpoint)
    && Stored(sh, m)
  }

  /** Every segment a manifest refers to exists, with the content its digest names and the count the manifest gives. */
  ghost predicate Stored(sh: Shared, m: Manifest) {
    forall i :: 0 <= i < |m.segments| ==>
      && m.segments[i].id in sh.segments
      && m.segments[i].docCount == |m.segments[i].id.content|
  }

  ghost predicate SharedInv(sh: Shared) {
    && (forall i :: 0 <= i < |sh.wal| ==> WellShaped(sh.wal[i]))
    && sh.manifests.Keys == sh.lineage.Keys
    && (forall id :: id in sh.segments ==> sh.segments[id] == id.content)
    && (forall b :: b in sh.manifests ==>
          && sh.manifests[b].generation <= sh.generations
          && Faithful(sh, sh.manifests[b].manifest, sh.lineage[b], b)
          && NoEarlier(sh, sh.lineage[b], b))
  }

  /** A forked branch has no entry of its own at or below the checkpoint it was forked at, so none can be missing. */
  ghost predicate NoEarlier(sh: Shared, l: Lineage, b: string) {
    l.Forked? ==> l.base <= |sh.wal| && Own(sh.wal, b, 0, l.base) == []
  }

  /** A checkpoint taken from a manifest of the branch. */
  ghost predicate FromManifest(sh: Shared, b: string, c: nat) {
    b in sh.manifests && c <= sh.manifests[b].manifest.checkpoint
  }

  /** What a flusher about to process entry n remembers never hides a batch at or after n: a remembered checkpoint is
      below n, or in the manifest, or n itself set by a fork event in entry n. */
  ghost predicate MemoryOk(sh: Shared, memory: Checkpoints, n: nat) {
    forall b :: b in memory ==>
      || memory[b] < n
      || FromManifest(sh, b, memory[b])
      || (memory[b] == n && n <= |sh.wal| && n >= 1 && (b == "" || BatchBranch(sh.wal[n - 1]) != b))
  }

  /** The flusher stands at entry n: everything before n is covered. */
  ghost predicate AtOk(sh: Shared, n: nat, memory: Checkpoints) {
    1 <= n <= |sh.wal| + 1 && Covered(sh, n - 1) && MemoryOk(sh, memory, n)
  }

  ghost predicate HoldsBatch(sh: Shared, n: nat, branch: string, batch: seq<Mutation>) {
    1 <= n <= |sh.wal| && BatchBranch(sh.wal[n - 1]) == branch != "" && Batch(sh.wal[n - 1]) == batch
  }

  /** A manifest read earlier: still the current one if its generation is still the current one. */
  ghost predicate SnapshotOk(sh: Shared, b: string, m: Manifest, generation: Option<nat>) {
    match generation
    case None => m == Manifest(0, [])
    case Some(g) =>
      g <= sh.generations && (b in sh.manifests && sh.manifests[b].generation == g ==> sh.manifests[b].manifest == m)
  }

  ghost predicate ProcessInv(sh: Shared, f: Process) {
    match f.state
    case Stopped => true
    case Listing => forall b :: b in f.memory ==> FromManifest(sh, b, f.memory[b])
    case Initialising(_, least) =>
      && (forall b :: b in f.memory ==> FromManifest(sh, b, f.memory[b]))
      && (least.Some? ==> Covered(sh, least.value))
    case At(n) => AtOk(sh, n, f.memory)
    case Uploading(n, branch, batch) => AtOk(sh, n, f.memory) && HoldsBatch(sh, n, branch, batch)
    case Reading(n, branch, batch) =>
      AtOk(sh, n, f.memory) && HoldsBatch(sh, n, branch, batch) && Digest(batch) in sh.segments
    case Writing(n, branch, batch, m, generation) =>
      && AtOk(sh, n, f.memory) && HoldsBatch(sh, n, branch, batch) && Digest(batch) in sh.segments
      && m.checkpoint < n && SnapshotOk(sh, branch, m, generation)
    case Cataloguing(n, branch, c) =>
      && AtOk(sh, n, f.memory) && n <= |sh.wal| && BatchBranch(sh.wal[n - 1]) == branch
      && n <= c && FromManifest(sh, branch, c)
  }

  ghost predicate ForkerInv(sh: Shared, k: Forker) {
    match k
    case NoFork => true
    case HasParent(source, target, m, l) => Faithful(sh, m, l, source)
    case TargetAbsent(source, target, m, l) => Faithful(sh, m, l, source)
    case Written(_, _) => true
  }

  ghost predicate Inv(s: System) {
    && SharedInv(s.shared)
    && (forall p :: p in s.flushers ==> ProcessInv(s.shared, s.flushers[p]))
    && (forall q :: q in s.forkers ==> ForkerInv(s.shared, s.forkers[q]))
  }

  // ---- How storage may change

  /** The WAL, segments and manifests only grow: a manifest's checkpoint and segment list are only extended, and a
      generation names one manifest of one branch for ever. */
  ghost predicate Grows(sh: Shared, sh': Shared) {
    && sh.wal <= sh'.wal
    && sh.segments.Keys <= sh'.segments.Keys
    && sh.generations <= sh'.generations
    && (forall b :: b in sh.manifests ==>
          && b in sh'.manifests
          && sh.manifests[b].manifest.checkpoint <= sh'.manifests[b].manifest.checkpoint
          && sh.manifests[b].manifest.segments <= sh'.manifests[b].manifest.segments
          && b in sh.lineage && b in sh'.lineage && sh.lineage[b] == sh'.lineage[b])
    && (forall b :: b in sh'.manifests && sh'.manifests[b].generation <= sh.generations ==>
          b in sh.manifests && sh.manifests[b] == sh'.manifests[b])
  }

  lemma {:induction false} OwnStable(wal: seq<Entry>, wal': seq<Entry>, b: string, lo: nat, hi: nat)
    requires wal <= wal' && hi <= |wal|
    ensures Own(wal, b, lo, hi) == Own(wal', b, lo, hi)
    decreases hi
  {
    if hi > lo { OwnStable(wal, wal', b, lo, hi - 1); }
  }

  lemma {:induction false} BatchesStable(wal: seq<Entry>, wal': seq<Entry>, l: Lineage, b: string, c: nat)
    requires wal <= wal' && c <= |wal| && LineageWithin(l, c)
    ensures Batches(wal, l, b, c) == Batches(wal', l, b, c)
    decreases l
  {
    match l {
      case Root => OwnStable(wal, wal', b, 0, c);
      case Forked(parent, pl, base) =>
        BatchesStable(wal, wal', pl, parent, base);
        OwnStable(wal, wal', b, base, c);
    }
  }

  lemma CoveredStable(sh: Shared, sh': Shared, n: nat)
    requires Grows(sh, sh') && Covered(sh, n)
    ensures Covered(sh', n)
  {
    assert forall i :: 0 <= i < n ==> sh'.wal[i] == sh.wal[i];
  }

  lemma FaithfulStable(sh: Shared, sh': Shared, m: Manifest, l: Lineage, b: string)
    requires Grows(sh, sh') && Faithful(sh, m, l, b)
    ensures Faithful(sh', m, l, b)
  {
    CoveredStable(sh, sh', m.checkpoint);
    BatchesStable(sh.wal, sh'.wal, l, b, m.checkpoint);
  }

  lemma NoEarlierStable(sh: Shared, sh': Shared, l: Lineage, b: string)
    requires Grows(sh, sh') && NoEarlier(sh, l, b)
    ensures NoEarlier(sh', l, b)
  {
    if l.Forked? { OwnStable(sh.wal, sh'.wal, b, 0, l.base); }
  }

  lemma AtStable(sh: Shared, sh': Shared, n: nat, memory: Checkpoints)
    requires Grows(sh, sh') && AtOk(sh, n, memory)
    ensures AtOk(sh', n, memory)
  {
    CoveredStable(sh, sh', n - 1);
  }

  lemma ProcessStable(sh: Shared, sh': Shared, f: Process)
    requires Grows(sh, sh') && ProcessInv(sh, f)
    ensures ProcessInv(sh', f)
  {
    match f.state {
      case Stopped =>
      case Listing =>
      case Initialising(_, least) => if least.Some? { CoveredStable(sh, sh', least.value); }
      case At(n) => AtStable(sh, sh', n, f.memory);
      case Uploading(n, _, _) => AtStable(sh, sh', n, f.memory);
      case Reading(n, _, _) => AtStable(sh, sh', n, f.memory);
      case Writing(n, _, _, _, _) => AtStable(sh, sh', n, f.memory);
      case Cataloguing(n, _, _) => AtStable(sh, sh', n, f.memory);
    }
  }

  lemma ForkerStable(sh: Shared, sh': Shared, k: Forker)
    requires Grows(sh, sh') && ForkerInv(sh, k)
    ensures ForkerInv(sh', k)
  {
    match k {
      case NoFork =>
      case HasParent(source, _, m, l) => FaithfulStable(sh, sh', m, l, source);
      case TargetAbsent(source, _, m, l) => FaithfulStable(sh, sh', m, l, source);
      case Written(_, _) =>
    }
  }

  lemma OthersStable(s: System, sh': Shared)
    requires Inv(s) && Grows(s.shared, sh')
    ensures forall p :: p in s.flushers ==> ProcessInv(sh', s.flushers[p])
    ensures forall q :: q in s.forkers ==> ForkerInv(sh', s.forkers[q])
  {
    forall p | p in s.flushers ensures ProcessInv(sh', s.flushers[p]) { ProcessStable(s.shared, sh', s.flushers[p]); }
    forall q | q in s.forkers ensures ForkerInv(sh', s.forkers[q]) { ForkerStable(s.shared, sh', s.forkers[q]); }
  }

  lemma ManifestsStable(sh: Shared, sh': Shared)
    requires SharedInv(sh) && Grows(sh, sh')
    ensures forall b :: b in sh.manifests ==>
              Faithful(sh', sh.manifests[b].manifest, sh.lineage[b], b) && NoEarlier(sh', sh.lineage[b], b)
  {
    forall b | b in sh.manifests
      ensures Faithful(sh', sh.manifests[b].manifest, sh.lineage[b], b) && NoEarlier(sh', sh.lineage[b], b)
    {
      FaithfulStable(sh, sh', sh.manifests[b].manifest, sh.lineage[b], b);
      NoEarlierStable(sh, sh', sh.lineage[b], b);
    }
  }

  // ---- Steps on storage

  lemma AppendKeeps(sh: Shared, e: Entry)
    requires SharedInv(sh) && WellShaped(e)
    ensures var sh' := sh.(wal := sh.wal + [e]); SharedInv(sh') && Grows(sh, sh')
  {
    var sh' := sh.(wal := sh.wal + [e]);
    assert Grows(sh, sh');
    ManifestsStable(sh, sh');
  }

  lemma UploadKeeps(sh: Shared, batch: seq<Mutation>)
    requires SharedInv(sh)
    ensures var sh' := sh.(segments := if Digest(batch) in sh.segments then sh.segments
                           else sh.segments[Digest(batch) := batch]);
            SharedInv(sh') && Grows(sh, sh') && Digest(batch) in sh'.segments
  {
    var sh' := sh.(segments := if Digest(batch) in sh.segments then sh.segments
                   else sh.segments[Digest(batch) := batch]);
    assert Grows(sh, sh');
    ManifestsStable(sh, sh');
  }

  /** Between a checkpoint of b and entry n there are no batches of b when everything before n is covered. */
  lemma {:induction false} NothingBetween(sh: Shared, b: string, c: nat, lo: nat, n: nat)
    requires Covered(sh, n) && lo <= n && c <= lo
    requires b in sh.manifests ==> sh.manifests[b].manifest.checkpoint <= c
    ensures Own(sh.wal, b, c, lo) == []
    decreases lo
  {
    if lo > c { NothingBetween(sh, b, c, lo - 1, n); }
  }

  lemma {:induction false} OwnSplit(wal: seq<Entry>, b: string, lo: nat, mid: nat, hi: nat)
    requires lo <= mid <= hi <= |wal|
    ensures Own(wal, b, lo, hi) == Own(wal, b, lo, mid) + Own(wal, b, mid, hi)
    decreases hi
  {
    if hi > mid { OwnSplit(wal, b, lo, mid, hi - 1); }
  }

  /** Moving a branch's checkpoint from c to n over entries that hold nothing of it but the last. */
  lemma BatchesExtend(sh: Shared, l: Lineage, b: string, c: nat, n: nat)
    requires c < n <= |sh.wal| && LineageWithin(l, c) && b != ""
    requires Covered(sh, n - 1)
    requires b in sh.manifests ==> sh.manifests[b].manifest.checkpoint == c
    requires b !in sh.manifests ==> c == 0
    requires BatchBranch(sh.wal[n - 1]) == b
    ensures LineageWithin(l, n)
    ensures Batches(sh.wal, l, b, n) == Batches(sh.wal, l, b, c) + [Batch(sh.wal[n - 1])]
  {
    NothingBetween(sh, b, c, n - 1, n - 1);
    match l {
      case Root => OwnSplit(sh.wal, b, 0, c, n - 1);
      case Forked(_, _, base) => OwnSplit(sh.wal, b, base, c, n - 1);
    }
  }

  lemma CommitGrows(sh: Shared, b: string, m: Manifest, l: Lineage)
    requires SharedInv(sh)
    requires b in sh.manifests ==>
               && sh.manifests[b].manifest.checkpoint <= m.checkpoint
               && sh.manifests[b].manifest.segments <= m.segments
               && sh.lineage[b] == l
    ensures Grows(sh, Commit(sh, b, m, l))
  {
  }

  lemma CommitKeeps(sh: Shared, b: string, m: Manifest, l: Lineage)
    requires SharedInv(sh)
    requires Grows(sh, Commit(sh, b, m, l))
    requires Faithful(Commit(sh, b, m, l), m, l, b) && NoEarlier(sh, l, b)
    ensures SharedInv(Commit(sh, b, m, l))
  {
    var sh' := Commit(sh, b, m, l);
    ManifestsStable(sh, sh');
    NoEarlierStable(sh, sh', l, b);
  }

  /** A flusher whose compare-and-swap goes through holds the branch's current manifest. */
  lemma SnapshotIsCurrent(sh: Shared, f: FlusherState, memory: Checkpoints)
    requires SharedInv(sh) && f.Writing? && ProcessInv(sh, Process(f, memory))
    requires WriteAllowed(sh, f.branch, f.generation)
    ensures var l := KeepLineage(sh, f.branch);
            && (f.branch in sh.manifests ==> sh.manifests[f.branch].manifest == f.read)
            && (f.branch !in sh.manifests ==> f.read == Manifest(0, []))
            && Faithful(sh, f.read, l, f.branch) && NoEarlier(sh, l, f.branch)
  {
    if f.branch !in sh.manifests {
      assert Contents([]) == [] == Own(sh.wal, f.branch, 0, 0);
    }
  }

  lemma ExtendIsFaithful(sh: Shared, f: FlusherState, l: Lineage, sh': Shared)
    requires f.Writing? && Grows(sh, sh') && sh'.wal == sh.wal
    requires Faithful(sh, f.read, l, f.branch)
    requires HoldsBatch(sh, f.seqNo, f.branch, f.batch) && Digest(f.batch) in sh.segments && Covered(sh, f.seqNo - 1)
    requires f.read.checkpoint < f.seqNo
    requires if f.branch in sh.manifests then sh.manifests[f.branch].manifest == f.read else f.read == Manifest(0, [])
    requires FromManifest(sh', f.branch, f.seqNo)
    ensures Faithful(sh', Extend(f), l, f.branch)
  {
    var b, n, m := f.branch, f.seqNo, Extend(f);
    assert Covered(sh', n) by { CoveredStable(sh, sh', n - 1); }
    BatchesExtend(sh, l, b, f.read.checkpoint, n);
    assert Contents(m.segments) == Contents(f.read.segments) + [f.batch];
  }

  /** The commit of a flusher: entry n of branch b on top of the manifest it read. */
  lemma FlushKeeps(sh: Shared, f: FlusherState, memory: Checkpoints)
    requires SharedInv(sh) && f.Writing? && ProcessInv(sh, Process(f, memory))
    requires WriteAllowed(sh, f.branch, f.generation)
    ensures var sh' := Commit(sh, f.branch, Extend(f), KeepLineage(sh, f.branch));
            SharedInv(sh') && Grows(sh, sh') && FromManifest(sh', f.branch, f.seqNo)
  {
    var b, l, m := f.branch, KeepLineage(sh, f.branch), Extend(f);
    SnapshotIsCurrent(sh, f, memory);
    CommitGrows(sh, b, m, l);
    ExtendIsFaithful(sh, f, l, Commit(sh, b, m, l));
    CommitKeeps(sh, b, m, l);
  }

  /** The commit of a fork: the parent's manifest under the target's name. */
  lemma ForkKeeps(sh: Shared, k: Forker)
    requires SharedInv(sh) && k.TargetAbsent? && ForkerInv(sh, k)
    requires k.target !in sh.manifests
    ensures var sh' := Commit(sh, k.target, k.read, Forked(k.source, k.history, k.read.checkpoint));
            SharedInv(sh') && Grows(sh, sh')
  {
    var l := Forked(k.source, k.history, k.read.checkpoint);
    var sh' := Commit(sh, k.target, k.read, l);
    CommitGrows(sh, k.target, k.read, l);
    FaithfulStable(sh, sh', k.read, k.history, k.source);
    assert Own(sh'.wal, k.target, k.read.checkpoint, k.read.checkpoint) == [];
    NothingBetween(sh, k.target, 0, k.read.checkpoint, k.read.checkpoint);
    CommitKeeps(sh, k.target, k.read, l);
  }

  // ---- Steps of the system

  /** A step of one flusher that leaves storage alone. */
  lemma LocalStep(s: System, p: nat, f: Process)
    requires Inv(s) && ProcessInv(s.shared, f)
    ensures Inv(s.(flushers := s.flushers[p := f]))
  {
  }

  lemma StartKeeps(s: System, a: Action)
    requires Inv(s) && (a.Start? || a.ListBranches? || a.Interrupt? || a.Crash?)
    ensures Inv(Step(s, a)) && Step(s, a).shared == s.shared
  {
    hide SharedInv, ForkerInv;
  }

  lemma ReadCheckpointKeeps(s: System, p: nat)
    requires Inv(s) && p in s.flushers && s.flushers[p].state.Initialising?
    ensures Inv(StepReadCheckpoint(s, p)) && StepReadCheckpoint(s, p).shared == s.shared
  {
    var f := s.flushers[p];
    if f.state.todo != [] {
      var b := f.state.todo[0];
      if b in s.shared.manifests {
        assert Covered(s.shared, s.shared.manifests[b].manifest.checkpoint);
      }
    }
    LocalStep(s, p, StepReadCheckpoint(s, p).flushers[p]);
  }

  lemma CollectKeepsMemory(sh: Shared, memory: Checkpoints, n: nat)
    requires SharedInv(sh) && AtOk(sh, n, memory) && n <= |sh.wal|
    ensures var c := Collect(sh.wal[n - 1], memory, n);
            c.Collected? && MemoryOk(sh, c.checkpoints, n)
  {
    var e := sh.wal[n - 1];
    CollectWellShaped(e, memory, n);
    var c := Collect(e, memory, n);
    forall b | b in c.checkpoints
      ensures c.checkpoints[b] < n || FromManifest(sh, b, c.checkpoints[b])
              || (c.checkpoints[b] == n && (b == "" || BatchBranch(e) != b))
    {
      if c.checkpoints[b] == n && b != "" && BatchBranch(e) == b {
        assert Skips(memory, b, n);
      }
    }
  }

  /** An entry from which nothing is collected is covered. */
  lemma SkippedIsCovered(sh: Shared, memory: Checkpoints, n: nat)
    requires SharedInv(sh) && AtOk(sh, n, memory) && n <= |sh.wal|
    ensures var c := Collect(sh.wal[n - 1], memory, n);
            c.Collected? && (c.mutations == [] ==> Covered(sh, n) && AtOk(sh, n + 1, c.checkpoints))
  {
    var e := sh.wal[n - 1];
    CollectWellShaped(e, memory, n);
    CollectKeepsMemory(sh, memory, n);
    if Collect(e, memory, n).mutations == [] && BatchBranch(e) != "" {
      assert Skips(memory, BatchBranch(e), n);
    }
  }

  /** Skipping loses nothing: an entry that a flusher does not flush is already in its branch's manifest. */
  lemma ProcessEntryKeeps(s: System, p: nat, n: nat)
    requires Inv(s) && p in s.flushers && s.flushers[p].state == At(n) && 1 <= n <= |s.shared.wal|
    ensures Inv(ProcessEntry(s, p, n)) && ProcessEntry(s, p, n).shared == s.shared
    ensures ProcessEntry(s, p, n).flushers[p].state == At(n + 1) ==> Covered(s.shared, n)
  {
    var sh, memory := s.shared, s.flushers[p].memory;
    CollectWellShaped(sh.wal[n - 1], memory, n);
    CollectKeepsMemory(sh, memory, n);
    SkippedIsCovered(sh, memory, n);
    LocalStep(s, p, ProcessEntry(s, p, n).flushers[p]);
  }

  lemma AfterReadOk(sh: Shared, f: Process)
    requires ProcessInv(sh, f) && f.state.Reading?
    requires f.state.branch in sh.manifests ==> sh.manifests[f.state.branch].generation <= sh.generations
    ensures ProcessInv(sh, f.(state := AfterRead(f.state, Get(sh, f.state.branch))))
  {
    var next := AfterRead(f.state, Get(sh, f.state.branch));
    if next.Writing? { assert SnapshotOk(sh, next.branch, next.read, next.generation); }
  }

  lemma ReadManifestKeeps(s: System, p: nat)
    requires Inv(s) && p in s.flushers && s.flushers[p].state.Reading?
    ensures Inv(Step(s, ReadManifest(p))) && Step(s, ReadManifest(p)).shared == s.shared
  {
    AfterReadOk(s.shared, s.flushers[p]);
    LocalStep(s, p, Step(s, ReadManifest(p)).flushers[p]);
  }

  lemma AddBranchKeeps(s: System, p: nat)
    requires Inv(s) && p in s.flushers && s.flushers[p].state.Cataloguing?
    ensures Inv(Step(s, AddBranch(p))) && Step(s, AddBranch(p)).shared == s.shared
  {
    var f := s.flushers[p];
    var n := f.state.seqNo;
    assert Covered(s.shared, n);
    LocalStep(s, p, Step(s, AddBranch(p)).flushers[p]);
  }

  lemma UploadStepKeeps(s: System, p: nat)
    requires Inv(s) && p in s.flushers && s.flushers[p].state.Uploading?
    ensures Inv(StepUpload(s, p)) && Grows(s.shared, StepUpload(s, p).shared)
  {
    var f := s.flushers[p].state;
    UploadKeeps(s.shared, f.batch);
    var sh' := StepUpload(s, p).shared;
    OthersStable(s, sh');
    LocalStep(s.(shared := sh'), p, StepUpload(s, p).flushers[p]);
  }

  /** Where a flusher stands after its compare-and-swap: won, or won and reported lost. */
  lemma AfterCommitOk(sh: Shared, sh': Shared, f: Process)
    requires Grows(sh, sh') && ProcessInv(sh, f) && f.state.Writing? && FromManifest(sh', f.state.branch, f.state.seqNo)
    ensures ProcessInv(sh', f.(state := Cataloguing(f.state.seqNo, f.state.branch, f.state.seqNo)))
    ensures ProcessInv(sh', f.(state := Reading(f.state.seqNo, f.state.branch, f.state.batch)))
  {
    hide SnapshotOk, AtOk, FromManifest;
    AtStable(sh, sh', f.state.seqNo, f.memory);
  }

  lemma AfterWriteOk(sh: Shared, f: Process)
    requires SharedInv(sh) && ProcessInv(sh, f) && f.state.Writing?
    requires WriteAllowed(sh, f.state.branch, f.state.generation)
    ensures var sh' := Commit(sh, f.state.branch, Extend(f.state), KeepLineage(sh, f.state.branch));
            && SharedInv(sh') && Grows(sh, sh')
            && ProcessInv(sh', f.(state := Cataloguing(f.state.seqNo, f.state.branch, f.state.seqNo)))
            && ProcessInv(sh', f.(state := Reading(f.state.seqNo, f.state.branch, f.state.batch)))
  {
    hide SharedInv, Grows, ProcessInv, FromManifest, Commit, WriteAllowed, Extend, KeepLineage;
    FlushKeeps(sh, f.state, f.memory);
    AfterCommitOk(sh, Commit(sh, f.state.branch, Extend(f.state), KeepLineage(sh, f.state.branch)), f);
  }

  lemma GrowsReflexive(sh: Shared)
    requires SharedInv(sh)
    ensures Grows(sh, sh)
  {
  }

  lemma LostWriteOk(sh: Shared, f: Process)
    requires SharedInv(sh) && ProcessInv(sh, f) && f.state.Writing?
    ensures Grows(sh, sh) && ProcessInv(sh, f.(state := Reading(f.state.seqNo, f.state.branch, f.state.batch)))
  {
    GrowsReflexive(sh);
  }

  lemma StoppedOk(sh: Shared, f: Process)
    ensures ProcessInv(sh, f.(state := Stopped))
  {
  }

  lemma WriteStepKeeps(s: System, p: nat, reply: Reply)
    requires Inv(s) && p in s.flushers && s.flushers[p].state.Writing?
    ensures Inv(StepWrite(s, p, reply)) && Grows(s.shared, StepWrite(s, p, reply).shared)
  {
    hide SharedInv, ProcessInv, Grows, WriteAllowed, Extend, KeepLineage;
    var f := s.flushers[p];
    var s' := StepWrite(s, p, reply);
    if WriteAllowed(s.shared, f.state.branch, f.state.generation) {
      AfterWriteOk(s.shared, f);
      OthersStable(s, s'.shared);
      StoppedOk(s'.shared, f);
    } else {
      LostWriteOk(s.shared, f);
    }
    assert ProcessInv(s'.shared, s'.flushers[p]);
    LocalStep(s.(shared := s'.shared), p, s'.flushers[p]);
  }

  lemma ForkReadKeeps(s: System, a: Action)
    requires Inv(s) && (a.ForkReadSource? || a.ForkReadTarget?)
    ensures Inv(Step(s, a)) && Step(s, a).shared == s.shared
  {
    hide ProcessInv;
  }

  lemma ForkWriteKeeps(s: System, q: nat, reply: Reply)
    requires Inv(s) && q in s.forkers && s.forkers[q].TargetAbsent?
    ensures Inv(StepForkWrite(s, q, reply)) && Grows(s.shared, StepForkWrite(s, q, reply).shared)
  {
    if s.forkers[q].target !in s.shared.manifests {
      ForkKeeps(s.shared, s.forkers[q]);
      OthersStable(s, StepForkWrite(s, q, reply).shared);
    }
  }

  lemma ForkAnnounceKeeps(s: System, q: nat)
    requires Inv(s) && q in s.forkers && s.forkers[q].Written?
    ensures Inv(Step(s, ForkAnnounce(q))) && Grows(s.shared, Step(s, ForkAnnounce(q)).shared)
  {
    var k := s.forkers[q];
    IngesterEntries("", [], [], k.source, k.target);
    AppendKeeps(s.shared, ForkEntry(k.source, k.target));
    OthersStable(s, Step(s, ForkAnnounce(q)).shared);
  }

  lemma StepKeeps(s: System, a: Action)
    requires Inv(s) && (a.Append? ==> WellShaped(a.entry))
    ensures Inv(Step(s, a)) && Grows(s.shared, Step(s, a).shared)
  {
    hide SharedInv, ProcessInv, ForkerInv, StepUpload, StepWrite, StepForkWrite, StepReadCheckpoint, ProcessEntry;
    GrowsReflexive(s.shared);
    match a {
      case Append(e) =>
        AppendKeeps(s.shared, e);
        OthersStable(s, Step(s, a).shared);
      case Start(_) => StartKeeps(s, a);
      case ListBranches(_, _) => StartKeeps(s, a);
      case Interrupt(_) => StartKeeps(s, a);
      case Crash(_) => StartKeeps(s, a);
      case ReadCheckpoint(p) => if p in s.flushers && s.flushers[p].state.Initialising? { ReadCheckpointKeeps(s, p); }
      case ReadEntry(p) =>
        if p in s.flushers && s.flushers[p].state.At? && 1 <= s.flushers[p].state.seqNo <= |s.shared.wal| {
          ProcessEntryKeeps(s, p, s.flushers[p].state.seqNo);
        }
      case UploadSegment(p) => if p in s.flushers && s.flushers[p].state.Uploading? { UploadStepKeeps(s, p); }
      case ReadManifest(p) => if p in s.flushers && s.flushers[p].state.Reading? { ReadManifestKeeps(s, p); }
      case WriteManifest(p, reply) =>
        if p in s.flushers && s.flushers[p].state.Writing? { WriteStepKeeps(s, p, reply); }
      case AddBranch(p) => if p in s.flushers && s.flushers[p].state.Cataloguing? { AddBranchKeeps(s, p); }
      case ForkReadSource(_, _, _) => ForkReadKeeps(s, a);
      case ForkReadTarget(_) => ForkReadKeeps(s, a);
      case ForkWrite(q, reply) => if q in s.forkers && s.forkers[q].TargetAbsent? { ForkWriteKeeps(s, q, reply); }
      case ForkAnnounce(q) => if q in s.forkers && s.forkers[q].Written? { ForkAnnounceKeeps(s, q); }
    }
  }

  lemma {:induction false} RunInv(actions: seq<Action>)
    requires WellShapedRun(actions)
    ensures Inv(Run(actions))
  {
    if actions != [] {
      var before := actions[..|actions| - 1];
      RunInv(before);
      StepKeeps(Run(before), actions[|actions| - 1]);
    }
  }

  // ---- The theorems

  /** Exactly-once materialisation, in every state of every run: a branch's segment list decodes to what its parent held
      at the fork, followed by exactly one batch for each WAL entry of the branch above the fork and up to the
      checkpoint, in order; the branch has no entry at or below the fork; and every segment listed is stored under the
      digest of its content. */
  lemma ExactlyOnce(actions: seq<Action>, b: string)
    requires WellShapedRun(actions)
    requires b in Run(actions).shared.manifests
    ensures var sh := Run(actions).shared;
            var m := sh.manifests[b].manifest;
            && b in sh.lineage && m.checkpoint <= |sh.wal| && LineageWithin(sh.lineage[b], m.checkpoint)
            && Contents(m.segments) == Batches(sh.wal, sh.lineage[b], b, m.checkpoint)
            && (sh.lineage[b].Forked? ==> Own(sh.wal, b, 0, sh.lineage[b].base) == [])
            && (forall i :: 0 <= i < |m.segments| ==>
                  && m.segments[i].id in sh.segments
                  && sh.segments[m.segments[i].id] == Contents(m.segments)[i]
                  && m.segments[i].docCount == |Contents(m.segments)[i]|)
  {
    RunInv(actions);
  }

  /** The global checkpoint fact: in every state of every run, with c the checkpoint of any branch's manifest, every
      batch of every branch at or below c is in that branch's own manifest. */
  lemma AnyCheckpointCoversAll(actions: seq<Action>, b: string)
    requires WellShapedRun(actions)
    requires b in Run(actions).shared.manifests
    ensures Covered(Run(actions).shared, Run(actions).shared.manifests[b].manifest.checkpoint)
  {
    RunInv(actions);
  }

  /** Resume safety: wherever a flusher stands, freshly started, draining or interrupted, every batch below its position
      is in its branch's manifest; and if its memory makes it skip the entry it stands at, so is that entry. */
  lemma ResumeSafety(actions: seq<Action>, p: nat)
    requires WellShapedRun(actions)
    requires p in Run(actions).flushers && Run(actions).flushers[p].state.At?
    ensures var s := Run(actions);
            var n := s.flushers[p].state.seqNo;
            && 1 <= n <= |s.shared.wal| + 1 && Covered(s.shared, n - 1)
            && (n <= |s.shared.wal| ==>
                  var c := Collect(s.shared.wal[n - 1], s.flushers[p].memory, n);
                  c.Collected? && (c.mutations == [] ==> Covered(s.shared, n)))
  {
    RunInv(actions);
    var s := Run(actions);
    var n := s.flushers[p].state.seqNo;
    if n <= |s.shared.wal| { SkippedIsCovered(s.shared, s.flushers[p].memory, n); }
  }

  /** Durability along a run: the log and every manifest's segment list only ever extend, a checkpoint never falls, a
      branch keeps its lineage, and a generation seen once names the same manifest for ever. */
  lemma {:induction false} RunGrows(before: seq<Action>, after: seq<Action>)
    requires WellShapedRun(before + after)
    ensures Grows(Run(before).shared, Run(before + after).shared)
  {
    if after == [] {
      assert before + after == before;
      RunInv(before);
    } else {
      var n := |after| - 1;
      var all, earlier := before + after, before + after[..n];
      assert all[..|all| - 1] == earlier && all[|all| - 1] == after[n];
      assert WellShapedRun(earlier) by {
        assert forall i :: 0 <= i < |earlier| ==> earlier[i] == all[i];
      }
      RunGrows(before, after[..n]);
      RunInv(earlier);
      assert after[n].Append? ==> WellShaped(all[|all| - 1].entry);
      StepKeeps(Run(earlier), after[n]);
      GrowsTransitive(Run(before).shared, Run(earlier).shared, Run(all).shared);
    }
  }

  lemma GrowsTransitive(a: Shared, b: Shared, c: Shared)
    requires Grows(a, b) && Grows(b, c)
    ensures Grows(a, c)
  {
  }
}
