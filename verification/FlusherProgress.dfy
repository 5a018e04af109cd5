/** What undisturbed steps achieve, in every state that the protocol can reach: an acknowledged write commits, an entry
    is flushed in one turn, a fresh flusher starts at the least checkpoint and catches up with the log, and a fork
    copies its source. Nothing here speaks of fairness: these are the results of given steps. */
module FlusherProgress {
  import opened Options
  import opened Mutations
  import opened Flusher
  import opened FlusherSafety

  /** The state after further actions. */
  function RunFrom(s: System, actions: seq<Action>): System
    decreases |actions|
  {
    if actions == [] then s else RunFrom(Step(s, actions[0]), actions[1..])
  }

  lemma {:induction false} RunFromSplits(s: System, a: seq<Action>, b: seq<Action>)
    ensures RunFrom(s, a + b) == RunFrom(RunFrom(s, a), b)
    decreases |a|
  {
    hide Step;
    if a == [] {
      assert a + b == b;
    } else {
      assert (a + b)[1..] == a[1..] + b;
      RunFromSplits(Step(s, a[0]), a[1..], b);
    }
  }

  lemma {:induction false} RunThenFrom(a: seq<Action>, b: seq<Action>)
    ensures Run(a + b) == RunFrom(Run(a), b)
    decreases |b|
  {
    hide Step;
    if b == [] {
      assert a + b == a;
    } else {
      assert (a + [b[0]])[..|a|] == a;
      assert a + b == (a + [b[0]]) + b[1..];
      RunThenFrom(a + [b[0]], b[1..]);
    }
  }

  // ---- The steps of one turn

  /** The condition of a manifest write: the branch is still as it was read, absent or at the generation read. */
  ghost predicate Unchanged(sh: Shared, b: string, generation: Option<nat>) {
    && (generation.None? ==> b !in sh.manifests)
    && (generation.Some? ==> b in sh.manifests && sh.manifests[b].generation == generation.value)
  }

  /** A conditional manifest write. If the condition holds the branch is at checkpoint n, with the segments read
      followed by the reference to the batch, under a new generation, whatever the reply; an acknowledged flusher goes
      on to the branch catalog, one told of a conflict reads again, and an error stops it. Otherwise storage is
      unchanged and the flusher reads again. */
  lemma WriteMeans(s: System, p: nat, n: nat, b: string, batch: seq<Mutation>, m: Manifest, g: Option<nat>,
                   reply: Reply)
    requires Inv(s) && p in s.flushers && s.flushers[p].state == Writing(n, b, batch, m, g)
    ensures var s', f := Step(s, WriteManifest(p, reply)), s.flushers[p];
            && s'.forkers == s.forkers && s'.flushers.Keys == s.flushers.Keys && s'.flushers[p].memory == f.memory
            && (forall q :: q in s.flushers && q != p ==> s'.flushers[q] == s.flushers[q])
            && s'.shared.wal == s.shared.wal && s'.shared.segments == s.shared.segments
            && (Unchanged(s.shared, b, g) ==>
                  && s'.shared.manifests.Keys == s.shared.manifests.Keys + {b}
                  && s'.shared.manifests[b].manifest == Manifest(n, m.segments + [SegmentRef(Digest(batch), |batch|)])
                  && s'.shared.manifests[b].generation > s.shared.generations
                  && (b in s.shared.manifests ==> s.shared.manifests[b].manifest == m)
                  && (b !in s.shared.manifests ==> m == Manifest(0, []))
                  && (forall c :: c in s.shared.manifests && c != b ==> s'.shared.manifests[c] == s.shared.manifests[c])
                  && s'.flushers[p].state == match reply
                                             case Acknowledged => Cataloguing(n, b, n)
                                             case ErrorAfterCommit => Stopped
                                             case ConflictAfterCommit => Reading(n, b, batch))
            && (!Unchanged(s.shared, b, g) ==>
                  s'.shared == s.shared && s'.flushers[p].state == Reading(n, b, batch))
  {
    hide SharedInv, AtOk, HoldsBatch, ForkerInv;
  }

  /** Reading the entry a flusher stands at: its whole batch is taken, unless the flusher's memory covers it or it has
      none. */
  lemma ReadEntryGoes(s: System, p: nat, n: nat)
    requires Inv(s) && p in s.flushers && s.flushers[p].state == At(n) && n <= |s.shared.wal|
    ensures 1 <= n
    ensures var s', e, memory := Step(s, ReadEntry(p)), s.shared.wal[n - 1], s.flushers[p].memory;
            && s' == s.(flushers := s'.flushers) && s'.flushers.Keys == s.flushers.Keys
            && (forall q :: q in s.flushers && q != p ==> s'.flushers[q] == s.flushers[q])
            && s'.flushers[p].state
               == if BatchBranch(e) != "" && !(BatchBranch(e) in memory && n <= memory[BatchBranch(e)])
                  then Uploading(n, BatchBranch(e), Batch(e)) else At(n + 1)
  {
    hide ForkerInv, Covered, MemoryOk, Faithful, NoEarlier, Collect, Batch, BatchBranch;
    var e, memory := s.shared.wal[n - 1], s.flushers[p].memory;
    CollectWellShaped(e, memory, n);
    BatchIff(e);
  }

  /** An entry that mixes branches stops the flusher, and nothing else happens. */
  lemma MixedEntryStops(s: System, p: nat, n: nat)
    requires p in s.flushers && s.flushers[p].state == At(n) && 1 <= n <= |s.shared.wal|
    requires MixesBranches(s.shared.wal[n - 1])
    ensures Step(s, ReadEntry(p)) == s.(flushers := s.flushers[p := Process(Stopped, s.flushers[p].memory)])
  {
    hide MixesBranches;
    RefusedIffMixed(s.shared.wal[n - 1], s.flushers[p].memory, n);
  }

  lemma BatchIff(e: Entry)
    ensures BatchBranch(e) != "" <==> Batch(e) != []
  {
  }

  lemma UploadGoes(s: System, p: nat, n: nat, b: string, batch: seq<Mutation>)
    requires p in s.flushers && s.flushers[p].state == Uploading(n, b, batch)
    ensures var s' := Step(s, UploadSegment(p));
            && s'.shared == s.shared.(segments := s'.shared.segments) && s'.forkers == s.forkers
            && s'.shared.segments.Keys == s.shared.segments.Keys + {Digest(batch)}
            && s'.flushers == s.flushers[p := Process(Reading(n, b, batch), s.flushers[p].memory)]
  {
  }

  /** Reading the manifest: one that covers the entry already needs no write; otherwise the write that follows has its
      condition. */
  lemma ReadManifestGoes(s: System, p: nat, n: nat, b: string, batch: seq<Mutation>)
    requires p in s.flushers && s.flushers[p].state == Reading(n, b, batch)
    ensures var s' := Step(s, ReadManifest(p));
            && s'.shared == s.shared && s'.forkers == s.forkers
            && s'.flushers == s.flushers[p := Process(s'.flushers[p].state, s.flushers[p].memory)]
            && (b in s.shared.manifests && s.shared.manifests[b].manifest.checkpoint >= n ==>
                  s'.flushers[p].state == Cataloguing(n, b, s.shared.manifests[b].manifest.checkpoint))
            && (b in s.shared.manifests && s.shared.manifests[b].manifest.checkpoint < n ==>
                  var v := s.shared.manifests[b];
                  s'.flushers[p].state == Writing(n, b, batch, v.manifest, Some(v.generation)))
            && (b !in s.shared.manifests && n > 0 ==>
                  s'.flushers[p].state == Writing(n, b, batch, Manifest(0, []), None))
  {
  }

  lemma AddBranchGoes(s: System, p: nat, n: nat, b: string, c: nat)
    requires p in s.flushers && s.flushers[p].state == Cataloguing(n, b, c)
    ensures Step(s, AddBranch(p))
            == s.(flushers := s.flushers[p := Process(At(n + 1), s.flushers[p].memory[b := c])])
  {
  }

  /** Steps that a flusher does not stand at change nothing. */
  lemma NotEnabled(s: System, p: nat)
    requires p in s.flushers
    ensures !s.flushers[p].state.Uploading? ==> Step(s, UploadSegment(p)) == s
    ensures !s.flushers[p].state.Reading? ==> Step(s, ReadManifest(p)) == s
    ensures !s.flushers[p].state.Writing? ==> Step(s, WriteManifest(p, Acknowledged)) == s
    ensures !s.flushers[p].state.Cataloguing? ==> Step(s, AddBranch(p)) == s
    ensures s.flushers[p].state == At(|s.shared.wal| + 1) ==> Step(s, ReadEntry(p)) == s
  {
  }

  // ---- A turn

  /** The steps of a flusher from one entry to the next, when nothing fails and nobody else moves. */
  function Turn(p: nat): seq<Action> {
    [ReadEntry(p), UploadSegment(p), ReadManifest(p), WriteManifest(p, Acknowledged), AddBranch(p)]
  }

  lemma RunFromNext(s: System, a: Action, rest: seq<Action>)
    ensures RunFrom(s, [a] + rest) == RunFrom(Step(s, a), rest)
  {
    hide Step;
    assert ([a] + rest)[1..] == rest;
  }

  lemma RunFromOne(s: System, a: Action)
    ensures RunFrom(s, [a]) == Step(s, a)
  {
    hide Step;
    assert [a] == [a] + [];
    RunFromNext(s, a, []);
  }

  lemma TurnIs(s: System, p: nat)
    ensures RunFrom(s, Turn(p))
            == Step(Step(Step(Step(Step(s, ReadEntry(p)), UploadSegment(p)), ReadManifest(p)),
                         WriteManifest(p, Acknowledged)), AddBranch(p))
  {
    hide Step, RunFrom;
    var t4 := [AddBranch(p)];
    var t3 := [WriteManifest(p, Acknowledged)] + t4;
    var t2 := [ReadManifest(p)] + t3;
    var t1 := [UploadSegment(p)] + t2;
    assert Turn(p) == [ReadEntry(p)] + t1;
    var s1 := Step(s, ReadEntry(p));
    var s2 := Step(s1, UploadSegment(p));
    var s3 := Step(s2, ReadManifest(p));
    RunFromNext(s, ReadEntry(p), t1);
    RunFromNext(s1, UploadSegment(p), t2);
    RunFromNext(s2, ReadManifest(p), t3);
    RunFromNext(s3, WriteManifest(p, Acknowledged), t4);
    RunFromOne(Step(s3, WriteManifest(p, Acknowledged)), AddBranch(p));
  }

  /** From s to s' the flusher p has committed a batch as entry n of branch b, or found it committed. */
  ghost predicate Committed(s: System, p: nat, n: nat, b: string, batch: seq<Mutation>, s': System) {
    var was, now := s.shared.manifests, s'.shared.manifests;
    && s'.shared.wal == s.shared.wal && s'.forkers == s.forkers && s'.flushers.Keys == s.flushers.Keys
    && (forall q :: q in s.flushers && q != p ==> s'.flushers[q] == s.flushers[q])
    && p in s.flushers && s'.flushers[p].state == At(n + 1)
    && (forall c :: c != b ==> (c in now <==> c in was))
    && (forall c :: c in was && c != b ==> now[c] == was[c])
    && b in now
    && (if b in was && n <= was[b].manifest.checkpoint then now[b] == was[b]
        else
          var segments := if b in was then was[b].manifest.segments else [];
          now[b].manifest == Manifest(n, segments + [SegmentRef(Digest(batch), |batch|)]))
  }

  /** The part of a turn after the upload. */
  lemma CommitTurn(s: System, p: nat, n: nat, b: string, batch: seq<Mutation>)
    requires Inv(s) && p in s.flushers && s.flushers[p].state == Reading(n, b, batch) && n > 0
    ensures Committed(s, p, n, b, batch,
                      Step(Step(Step(s, ReadManifest(p)), WriteManifest(p, Acknowledged)), AddBranch(p)))
  {
    hide Step, Inv;
    ReadManifestGoes(s, p, n, b, batch);
    var s1 := Step(s, ReadManifest(p));
    StepKeeps(s, ReadManifest(p));
    if s1.flushers[p].state.Cataloguing? {
      NotEnabled(s1, p);
      AddBranchGoes(s1, p, n, b, s1.flushers[p].state.checkpoint);
    } else {
      var w := s1.flushers[p].state;
      WriteMeans(s1, p, n, b, batch, w.read, w.generation, Acknowledged);
      AddBranchGoes(Step(s1, WriteManifest(p, Acknowledged)), p, n, b, n);
    }
  }

  /** From s to s' the flusher p has gone from entry n to the next one. A batch that no checkpoint covered is now the
      last segment of its branch, which stands at n. No other branch changed, and no other process. */
  ghost predicate Flushed(s: System, p: nat, n: nat, s': System)
    requires 1 <= n <= |s.shared.wal|
  {
    var e, was, now := s.shared.wal[n - 1], s.shared.manifests, s'.shared.manifests;
    var b := BatchBranch(e);
    && p in s.flushers && s'.flushers.Keys == s.flushers.Keys && s'.flushers[p].state == At(n + 1)
    && s'.shared.wal == s.shared.wal && s'.forkers == s.forkers
    && (forall q :: q in s.flushers && q != p ==> s'.flushers[q] == s.flushers[q])
    && (forall c :: c != b ==> (c in now <==> c in was))
    && (forall c :: c in was && c != b ==> now[c] == was[c])
    && (b == "" || (b in was && n <= was[b].manifest.checkpoint) ==> now == was)
    && (b != "" && !(b in was && n <= was[b].manifest.checkpoint) ==>
          var segments := if b in was then was[b].manifest.segments else [];
          b in now && now[b].manifest == Manifest(n, segments + [SegmentRef(Digest(Batch(e)), |Batch(e)|)]))
  }

  lemma CommittedIsFlushed(s: System, s2: System, p: nat, n: nat, s': System)
    requires p in s.flushers && 1 <= n <= |s.shared.wal| && s2.forkers == s.forkers
    requires s2.shared.wal == s.shared.wal && s2.shared.manifests == s.shared.manifests
    requires s2.flushers.Keys == s.flushers.Keys
    requires forall q :: q in s.flushers && q != p ==> s2.flushers[q] == s.flushers[q]
    requires var e := s.shared.wal[n - 1];
             BatchBranch(e) != "" && Committed(s2, p, n, BatchBranch(e), Batch(e), s')
    ensures Flushed(s, p, n, s')
  {
    hide Batch, BatchBranch;
    var b := BatchBranch(s.shared.wal[n - 1]);
    if b in s.shared.manifests && n <= s.shared.manifests[b].manifest.checkpoint {
      assert s'.shared.manifests == s.shared.manifests;
    }
  }

  lemma UploadedTurn(s: System, s1: System, p: nat, n: nat)
    requires Inv(s1) && p in s.flushers && 1 <= n <= |s.shared.wal| && s1.shared == s.shared && s1.forkers == s.forkers
    requires s1.flushers.Keys == s.flushers.Keys
    requires forall q :: q in s.flushers && q != p ==> s1.flushers[q] == s.flushers[q]
    requires var e := s.shared.wal[n - 1];
             BatchBranch(e) != "" && s1.flushers[p].state == Uploading(n, BatchBranch(e), Batch(e))
    ensures var s2 := Step(s1, UploadSegment(p));
            Flushed(s, p, n, Step(Step(Step(s2, ReadManifest(p)), WriteManifest(p, Acknowledged)), AddBranch(p)))
  {
    hide Step, Inv, Batch, BatchBranch, Committed, Flushed;
    var e, s2 := s.shared.wal[n - 1], Step(s1, UploadSegment(p));
    UploadGoes(s1, p, n, BatchBranch(e), Batch(e));
    StepKeeps(s1, UploadSegment(p));
    CommitTurn(s2, p, n, BatchBranch(e), Batch(e));
    var s' := Step(Step(Step(s2, ReadManifest(p)), WriteManifest(p, Acknowledged)), AddBranch(p));
    CommittedIsFlushed(s, s2, p, n, s');
  }

  /** One turn, in every state of the protocol, takes a flusher from entry n to entry n + 1 with everything up to n in
      the manifests. */
  lemma TurnFlushes(s: System, p: nat, n: nat)
    requires Inv(s) && p in s.flushers && s.flushers[p].state == At(n) && n <= |s.shared.wal|
    ensures 1 <= n
    ensures var s' := RunFrom(s, Turn(p)); Inv(s') && Flushed(s, p, n, s') && Covered(s'.shared, n)
  {
    hide Step, Inv, Covered, Batch, BatchBranch;
    TurnIs(s, p);
    TurnKeeps(s, p);
    ReadEntryGoes(s, p, n);
    var s1 := Step(s, ReadEntry(p));
    StepKeeps(s, ReadEntry(p));
    if s1.flushers[p].state.Uploading? {
      UploadedTurn(s, s1, p, n);
    } else {
      NotEnabled(s1, p);
      SkippedStands(s, p, n);
    }
    StandsCovered(RunFrom(s, Turn(p)), p, n + 1);
  }

  lemma TurnKeeps(s: System, p: nat)
    requires Inv(s)
    ensures Inv(RunFrom(s, Turn(p))) && Grows(s.shared, RunFrom(s, Turn(p)).shared)
  {
    hide Step, Inv, Grows;
    TurnIs(s, p);
    var s1 := Step(s, ReadEntry(p));
    var s2 := Step(s1, UploadSegment(p));
    var s3 := Step(s2, ReadManifest(p));
    var s4 := Step(s3, WriteManifest(p, Acknowledged));
    StepKeeps(s, ReadEntry(p));
    StepKeeps(s1, UploadSegment(p));
    StepKeeps(s2, ReadManifest(p));
    StepKeeps(s3, WriteManifest(p, Acknowledged));
    StepKeeps(s4, AddBranch(p));
    GrowsTransitive(s.shared, s1.shared, s2.shared);
    GrowsTransitive(s.shared, s2.shared, s3.shared);
    GrowsTransitive(s.shared, s3.shared, s4.shared);
    GrowsTransitive(s.shared, s4.shared, Step(s4, AddBranch(p)).shared);
  }

  lemma StandsCovered(s: System, p: nat, n: nat)
    requires Inv(s) && p in s.flushers && s.flushers[p].state == At(n)
    ensures 1 <= n <= |s.shared.wal| + 1 && Covered(s.shared, n - 1)
  {
    hide SharedInv, ForkerInv;
  }

  /** An uncovered batch is never skipped. */
  lemma SkippedStands(s: System, p: nat, n: nat)
    requires Inv(s) && p in s.flushers && s.flushers[p].state == At(n) && 1 <= n <= |s.shared.wal|
    ensures var b := BatchBranch(s.shared.wal[n - 1]);
            b != "" && Skips(s.flushers[p].memory, b, n) ==>
              b in s.shared.manifests && n <= s.shared.manifests[b].manifest.checkpoint
  {
    hide SharedInv, ForkerInv, Covered;
  }

  // ---- Catching up

  /** k turns. */
  function Turns(p: nat, k: nat): seq<Action> {
    if k == 0 then [] else Turns(p, k - 1) + Turn(p)
  }

  lemma IdleTurn(s: System, p: nat)
    requires p in s.flushers && s.flushers[p].state == At(|s.shared.wal| + 1)
    ensures RunFrom(s, Turn(p)) == s
  {
    hide Step;
    TurnIs(s, p);
    NotEnabled(s, p);
  }

  /** After enough turns a flusher stands at the end of the log, and every batch of the log is in its manifest. */
  lemma {:induction false} TurnsCatchUp(s: System, p: nat, n: nat, k: nat)
    requires Inv(s) && p in s.flushers && s.flushers[p].state == At(n)
    ensures var s' := RunFrom(s, Turns(p, k));
            && Inv(s') && p in s'.flushers && s'.shared.wal == s.shared.wal && n <= |s.shared.wal| + 1
            && s'.flushers[p].state == At(if n + k <= |s.shared.wal| then n + k else |s.shared.wal| + 1)
            && Grows(s.shared, s'.shared)
  {
    hide Inv, Grows, Turn, RunFrom;
    StandsCovered(s, p, n);
    if k == 0 {
      RunFromNone(s);
    } else {
      TurnsCatchUp(s, p, n, k - 1);
      RunFromSplits(s, Turns(p, k - 1), Turn(p));
      var s1 := RunFrom(s, Turns(p, k - 1));
      TurnKeeps(s1, p);
      GrowsTransitive(s.shared, s1.shared, RunFrom(s1, Turn(p)).shared);
      if n + k - 1 <= |s.shared.wal| { TurnFlushes(s1, p, n + k - 1); } else { IdleTurn(s1, p); }
    }
  }

  lemma RunFromNone(s: System)
    requires Inv(s)
    ensures RunFrom(s, []) == s && Grows(s.shared, s.shared)
  {
    GrowsReflexive(s.shared);
  }

  // ---- Starting

  /** m is the least checkpoint among the manifests of the branches listed, or 0 if they have none. */
  ghost predicate IsLeast(sh: Shared, branches: seq<string>, m: nat) {
    && (forall b :: b in branches && b in sh.manifests ==> m <= sh.manifests[b].manifest.checkpoint)
    && ((forall b :: b in branches ==> b !in sh.manifests) ==> m == 0)
    && ((exists b :: b in branches && b in sh.manifests) ==>
          exists b :: b in branches && b in sh.manifests && m == sh.manifests[b].manifest.checkpoint)
  }

  /** The memory holds the checkpoint of every branch listed that has a manifest, and nothing else. */
  ghost predicate Remembers(sh: Shared, branches: seq<string>, memory: Checkpoints) {
    && (forall b :: b in memory <==> b in branches && b in sh.manifests)
    && (forall b :: b in memory ==> memory[b] == sh.manifests[b].manifest.checkpoint)
  }

  function Reads(p: nat, k: nat): seq<Action> {
    if k == 0 then [] else [ReadCheckpoint(p)] + Reads(p, k - 1)
  }

  /** The manifests of the branches in `done` have been read. */
  ghost predicate HasRead(sh: Shared, f: Process, done: seq<string>) {
    && f.state.Initialising? && Remembers(sh, done, f.memory)
    && (f.state.least.None? ==> forall b :: b in done ==> b !in sh.manifests)
    && (f.state.least.Some? ==>
          IsLeast(sh, done, f.state.least.value) && exists b :: b in done && b in sh.manifests)
  }

  lemma ReadsNext(s: System, p: nat, done: seq<string>, todo: seq<string>)
    requires p in s.flushers && HasRead(s.shared, s.flushers[p], done) && s.flushers[p].state.todo == todo && todo != []
    ensures var s' := Step(s, ReadCheckpoint(p));
            && s' == s.(flushers := s.flushers[p := s'.flushers[p]])
            && HasRead(s.shared, s'.flushers[p], done + [todo[0]]) && s'.flushers[p].state.todo == todo[1..]
  {
    var sh, f, f' := s.shared, s.flushers[p], Step(s, ReadCheckpoint(p)).flushers[p];
    var b := todo[0];
    assert forall c :: c in done + [b] <==> c in done || c == b;
    if b in sh.manifests {
      var c := sh.manifests[b].manifest.checkpoint;
      if f.state.least.Some? && f.state.least.value <= c {
        var d :| d in done && d in sh.manifests && f.state.least.value == sh.manifests[d].manifest.checkpoint;
        assert d in done + [b];
      } else {
        assert b in done + [b] && f'.state.least == Some(c);
      }
    } else if f.state.least.Some? {
      var d :| d in done && d in sh.manifests && f.state.least.value == sh.manifests[d].manifest.checkpoint;
      assert d in done + [b];
    }
  }

  lemma {:induction false} ReadsAll(s: System, p: nat, done: seq<string>, todo: seq<string>)
    requires p in s.flushers && HasRead(s.shared, s.flushers[p], done) && s.flushers[p].state.todo == todo
    ensures var s' := RunFrom(s, Reads(p, |todo| + 1));
            && s' == s.(flushers := s'.flushers) && s'.flushers.Keys == s.flushers.Keys
            && (forall q :: q in s.flushers && q != p ==> s'.flushers[q] == s.flushers[q])
            && Remembers(s.shared, done + todo, s'.flushers[p].memory)
            && s'.flushers[p].state.At? && s'.flushers[p].state.seqNo > 0
            && IsLeast(s.shared, done + todo, s'.flushers[p].state.seqNo - 1)
    decreases |todo|
  {
    hide RunFrom, IsLeast, Remembers;
    var s1 := Step(s, ReadCheckpoint(p));
    RunFromNext(s, ReadCheckpoint(p), Reads(p, |todo|));
    if todo == [] {
      assert done + todo == done && Reads(p, 0) == [];
      NoneLeft(s, p, done);
    } else {
      ReadsNext(s, p, done, todo);
      ReadsAll(s1, p, done + [todo[0]], todo[1..]);
      assert done + [todo[0]] + todo[1..] == done + todo;
    }
  }

  lemma NoneLeft(s: System, p: nat, done: seq<string>)
    requires p in s.flushers && HasRead(s.shared, s.flushers[p], done) && s.flushers[p].state.todo == []
    ensures var s' := Step(s, ReadCheckpoint(p));
            && RunFrom(s', []) == s' && s' == s.(flushers := s.flushers[p := s'.flushers[p]])
            && s'.flushers[p].memory == s.flushers[p].memory
            && s'.flushers[p].state.At? && s'.flushers[p].state.seqNo > 0
            && IsLeast(s.shared, done, s'.flushers[p].state.seqNo - 1)
  {
  }

  /** Starting a flusher on a list of branches. */
  function Startup(p: nat, branches: seq<string>): seq<Action> {
    [Start(p), ListBranches(p, branches)] + Reads(p, |branches| + 1)
  }

  /** A flusher that starts undisturbed stands right after the least checkpoint of the branches listed, remembers the
      checkpoint of each, and has changed nothing else. */
  lemma StartupIs(s: System, p: nat, branches: seq<string>)
    ensures var s' := RunFrom(s, Startup(p, branches));
            && s' == s.(flushers := s'.flushers) && s'.flushers.Keys == s.flushers.Keys + {p}
            && (forall q :: q in s.flushers && q != p ==> s'.flushers[q] == s.flushers[q])
            && Remembers(s.shared, branches, s'.flushers[p].memory)
            && s'.flushers[p].state.At? && s'.flushers[p].state.seqNo > 0
            && IsLeast(s.shared, branches, s'.flushers[p].state.seqNo - 1)
  {
    hide RunFrom, IsLeast;
    var rest := Reads(p, |branches| + 1);
    var s1 := Step(s, Start(p));
    var s2 := Step(s1, ListBranches(p, branches));
    assert Startup(p, branches) == [Start(p)] + ([ListBranches(p, branches)] + rest);
    RunFromNext(s, Start(p), [ListBranches(p, branches)] + rest);
    RunFromNext(s1, ListBranches(p, branches), rest);
    assert [] + branches == branches;
    ReadsAll(s2, p, [], branches);
  }

  /** Starting a flusher and letting it run to the end of the log. */
  function CatchUp(p: nat, branches: seq<string>, k: nat): seq<Action> {
    Startup(p, branches) + Turns(p, k)
  }

  /** Whatever happened before, a flusher that starts on any listing and then runs undisturbed for as many turns as the
      log is long leaves every batch of the log in its branch's manifest. */
  lemma CatchUpCoversLog(s: System, p: nat, branches: seq<string>, k: nat)
    requires Inv(s) && |s.shared.wal| <= k
    ensures var s' := RunFrom(s, CatchUp(p, branches, k));
            Inv(s') && s'.shared.wal == s.shared.wal && Covered(s'.shared, |s.shared.wal|)
  {
    hide Inv, Grows, IsLeast, RunFrom, Turns, Startup;
    StartupIs(s, p, branches);
    var s1 := RunFrom(s, Startup(p, branches));
    RunFromSplits(s, Startup(p, branches), Turns(p, k));
    StartupKeeps(s, p, branches);
    var n := s1.flushers[p].state.seqNo;
    StandsCovered(s1, p, n);
    TurnsCatchUp(s1, p, n, k);
    StandsCovered(RunFrom(s1, Turns(p, k)), p, |s.shared.wal| + 1);
  }

  ghost predicate NoAppends(actions: seq<Action>) {
    forall i :: 0 <= i < |actions| ==> !actions[i].Append?
  }

  lemma {:induction false} RunFromKeeps(s: System, actions: seq<Action>)
    requires Inv(s) && NoAppends(actions)
    ensures Inv(RunFrom(s, actions))
    decreases |actions|
  {
    hide Step, Inv;
    if actions != [] {
      StepKeeps(s, actions[0]);
      RunFromKeeps(Step(s, actions[0]), actions[1..]);
    }
  }

  lemma {:induction false} ReadsAppendNothing(p: nat, k: nat)
    ensures NoAppends(Reads(p, k))
  {
    if k > 0 { ReadsAppendNothing(p, k - 1); }
  }

  lemma {:induction false} TurnsAppendNothing(p: nat, k: nat)
    ensures NoAppends(Turns(p, k))
  {
    if k > 0 { TurnsAppendNothing(p, k - 1); }
  }

  lemma StartupAppendsNothing(p: nat, branches: seq<string>)
    ensures NoAppends(Startup(p, branches))
  {
    ReadsAppendNothing(p, |branches| + 1);
  }

  lemma StartupKeeps(s: System, p: nat, branches: seq<string>)
    requires Inv(s)
    ensures Inv(RunFrom(s, Startup(p, branches)))
  {
    hide Startup;
    StartupAppendsNothing(p, branches);
    RunFromKeeps(s, Startup(p, branches));
  }

  // ---- Interruptions

  /** An interrupted flusher goes back to the entry in progress, or to the listing if it had none, and keeps its memory
      and all of storage. */
  lemma InterruptGoesBack(s: System, p: nat)
    requires p in s.flushers
    ensures var s', f := Step(s, Interrupt(p)), s.flushers[p];
            && s' == s.(flushers := s.flushers[p := s'.flushers[p]]) && s'.flushers[p].memory == f.memory
            && (f.state.Stopped? ==> s'.flushers[p].state == Stopped)
            && (f.state.Listing? || f.state.Initialising? ==> s'.flushers[p].state == Listing)
            && (!f.state.Stopped? && !f.state.Listing? && !f.state.Initialising? ==>
                  s'.flushers[p].state == At(f.state.seqNo))
  {
  }

  /** A crash stops the flusher and leaves storage alone. */
  lemma CrashStops(s: System, p: nat)
    requires p in s.flushers
    ensures Step(s, Crash(p)) == s.(flushers := s.flushers[p := Process(Stopped, s.flushers[p].memory)])
  {
  }

  // ---- Forks

  function ForkActions(q: nat, source: string, target: string): seq<Action> {
    [ForkReadSource(q, source, target)] + ([ForkReadTarget(q)] + ([ForkWrite(q, Acknowledged)] + [ForkAnnounce(q)]))
  }

  /** An undisturbed fork gives the target the source's manifest, checkpoint and segments, and announces it in the log;
      nothing else changes. Without a source, or over an existing target, a fork changes no storage at all. */
  lemma ForkCopies(s: System, q: nat, source: string, target: string)
    requires Inv(s)
    ensures var s', was := RunFrom(s, ForkActions(q, source, target)), s.shared.manifests;
            && s'.flushers == s.flushers && s'.shared.segments == s.shared.segments
            && (source in was && target !in was ==>
                  && s'.shared.manifests.Keys == was.Keys + {target}
                  && s'.shared.manifests[target].manifest == was[source].manifest
                  && (forall b :: b in was ==> s'.shared.manifests[b] == was[b])
                  && s'.shared.lineage.Keys == s.shared.lineage.Keys + {target} && source in s.shared.lineage
                  && s'.shared.lineage[target]
                     == Forked(source, s.shared.lineage[source], was[source].manifest.checkpoint)
                  && s'.shared.wal == s.shared.wal + [[BranchEvent(Fork, target, source)]])
            && (source !in was || target in was ==> s'.shared == s.shared)
  {
    hide Step, RunFrom, Inv;
    var s1 := Step(s, ForkReadSource(q, source, target));
    var s2 := Step(s1, ForkReadTarget(q));
    var s3 := Step(s2, ForkWrite(q, Acknowledged));
    RunFromNext(s, ForkReadSource(q, source, target),
                [ForkReadTarget(q)] + ([ForkWrite(q, Acknowledged)] + [ForkAnnounce(q)]));
    RunFromNext(s1, ForkReadTarget(q), [ForkWrite(q, Acknowledged)] + [ForkAnnounce(q)]);
    RunFromNext(s2, ForkWrite(q, Acknowledged), [ForkAnnounce(q)]);
    RunFromOne(s3, ForkAnnounce(q));
    ForkReads(s, q, source, target);
    ForkWrites(s2, q);
  }

  lemma ForkReads(s: System, q: nat, source: string, target: string)
    requires Inv(s)
    ensures var s' := Step(Step(s, ForkReadSource(q, source, target)), ForkReadTarget(q));
            && s' == s.(forkers := s.forkers[q := s'.forkers[q]])
            && (source !in s.shared.manifests || target in s.shared.manifests ==> s'.forkers[q] == NoFork)
            && (source in s.shared.manifests && target !in s.shared.manifests ==>
                  && source in s.shared.lineage
                  && s'.forkers[q]
                     == TargetAbsent(source, target, s.shared.manifests[source].manifest, s.shared.lineage[source]))
  {
    hide ProcessInv, ForkerInv, Faithful, NoEarlier;
  }

  lemma ForkWrites(s: System, q: nat)
    requires q in s.forkers && (s.forkers[q] == NoFork || s.forkers[q].TargetAbsent?)
    requires s.forkers[q].TargetAbsent? ==> s.forkers[q].target !in s.shared.manifests
    ensures var s' := Step(Step(s, ForkWrite(q, Acknowledged)), ForkAnnounce(q));
            && (s.forkers[q] == NoFork ==> s' == s)
            && (s.forkers[q].TargetAbsent? ==>
                  var k, g := s.forkers[q], s.shared.generations + 1;
                  && s'.flushers == s.flushers
                  && s'.shared == Shared(s.shared.wal + [[BranchEvent(Fork, k.target, k.source)]], s.shared.segments,
                                         s.shared.manifests[k.target := Versioned(k.read, g)], g,
                                         s.shared.lineage[k.target := Forked(k.source, k.history, k.read.checkpoint)]))
  {
  }
}
