/** From the log to the query table: in every run of the storage protocol, what a loader publishes is the sequential
    replay of the branch's log. */
module EndToEnd {
  import opened Options
  import opened Mutations
  import opened Index
  import opened Flusher
  import FlusherSafety
  import FlusherProgress
  import LoaderModel

  // ---- The specification: the log, read record by record

  /** Applying the records of one entry to branch b; records of other branches and events pass by. */
  function ReplayEntry(k: Kernels, x: Index, e: Entry, b: string): Option<Index> {
    if e == [] then Some(x)
    else
      var y, r := ReplayEntry(k, x, e[..|e| - 1], b), e[|e| - 1];
      if y.Some? && Effective(r) && r.mutation.branch == b then Apply(k, y.value, r.mutation) else y
  }

  /** Applying entries lo + 1 .. hi of the log to branch b. */
  function ReplayEntries(k: Kernels, x: Index, wal: seq<Entry>, b: string, lo: nat, hi: nat): Option<Index>
    requires hi <= |wal|
    decreases hi
  {
    if hi <= lo then Some(x)
    else
      var y := ReplayEntries(k, x, wal, b, lo, hi - 1);
      if y.None? then None else ReplayEntry(k, y.value, wal[hi - 1], b)
  }

  /** Branch b at checkpoint c: its parent at the fork, and then its own entries up to c. */
  function ReplayBranch(k: Kernels, wal: seq<Entry>, l: Lineage, b: string, c: nat): Option<Index>
    requires c <= |wal| && LineageWithin(l, c)
    decreases l
  {
    match l
    case Root => ReplayEntries(k, EMPTY, wal, b, 0, c)
    case Forked(parent, pl, base) =>
      var y := ReplayBranch(k, wal, pl, parent, base);
      if y.None? then None else ReplayEntries(k, y.value, wal, b, base, c)
  }

  // ---- It is the replay of the batches

  lemma {:induction false} OtherBranchPasses(k: Kernels, x: Index, e: Entry, b: string)
    requires forall i :: 0 <= i < |e| && Effective(e[i]) ==> e[i].mutation.branch != b
    ensures ReplayEntry(k, x, e, b) == Some(x)
  {
    if e != [] { OtherBranchPasses(k, x, e[..|e| - 1], b); }
  }

  lemma {:induction false} OwnBranchApplies(k: Kernels, x: Index, e: Entry, b: string)
    requires OnlyOn(e, b)
    ensures ReplayEntry(k, x, e, b) == ApplyAll(k, x, Batch(e))
  {
    if e != [] {
      var init, r := e[..|e| - 1], e[|e| - 1];
      OwnBranchApplies(k, x, init, b);
      if Effective(r) {
        ApplyAllSnoc(k, x, Batch(init), r.mutation);
        assert Batch(e) == Batch(init) + [r.mutation];
      } else {
        assert Batch(e) == Batch(init);
      }
    }
  }

  lemma EntryIsBatch(k: Kernels, x: Index, e: Entry, b: string)
    requires WellShaped(e)
    ensures ReplayEntry(k, x, e, b) == if b != "" && BatchBranch(e) == b then ApplyAll(k, x, Batch(e)) else Some(x)
  {
    if b != "" && BatchBranch(e) == b {
      OwnBranchApplies(k, x, e, b);
    } else {
      OtherBranchPasses(k, x, e, b);
    }
  }

  ghost predicate AllShaped(wal: seq<Entry>) {
    forall i :: 0 <= i < |wal| ==> WellShaped(wal[i])
  }

  lemma FlatSnoc(s: seq<seq<Mutation>>, ms: seq<Mutation>)
    ensures LoaderModel.Flat(s + [ms]) == LoaderModel.Flat(s) + ms
  {
    assert (s + [ms])[..|s|] == s;
  }

  lemma OneMoreEntry(k: Kernels, x: Index, own: seq<seq<Mutation>>, e: Entry, b: string)
    requires WellShaped(e)
    ensures var y := ApplyAll(k, x, LoaderModel.Flat(own));
            (if y.None? then None else ReplayEntry(k, y.value, e, b))
            == ApplyAll(k, x, LoaderModel.Flat(own + if b != "" && BatchBranch(e) == b then [Batch(e)] else []))
  {
    var y := ApplyAll(k, x, LoaderModel.Flat(own));
    if y.Some? { EntryIsBatch(k, y.value, e, b); }
    if b != "" && BatchBranch(e) == b {
      FlatSnoc(own, Batch(e));
      ApplyAllConcat(k, x, LoaderModel.Flat(own), Batch(e));
    } else {
      assert own + [] == own;
    }
  }

  lemma OwnNext(wal: seq<Entry>, b: string, lo: nat, hi: nat)
    requires lo < hi <= |wal|
    ensures Own(wal, b, lo, hi)
            == Own(wal, b, lo, hi - 1) + if b != "" && BatchBranch(wal[hi - 1]) == b then [Batch(wal[hi - 1])] else []
  {
  }

  lemma {:induction false} EntriesAreOwn(k: Kernels, x: Index, wal: seq<Entry>, b: string, lo: nat, hi: nat,
                                         own: seq<seq<Mutation>>)
    requires AllShaped(wal) && hi <= |wal| && own == Own(wal, b, lo, hi)
    ensures ReplayEntries(k, x, wal, b, lo, hi) == ApplyAll(k, x, LoaderModel.Flat(own))
    decreases hi
  {
    if hi > lo {
      var before := Own(wal, b, lo, hi - 1);
      EntriesAreOwn(k, x, wal, b, lo, hi - 1, before);
      OwnNext(wal, b, lo, hi);
      OneMoreEntry(k, x, before, wal[hi - 1], b);
    }
  }

  /** Replaying the log is replaying the batches a branch should hold. */
  lemma {:induction false} ReplayIsBatches(k: Kernels, wal: seq<Entry>, l: Lineage, b: string, c: nat)
    requires AllShaped(wal) && c <= |wal| && LineageWithin(l, c)
    ensures ReplayBranch(k, wal, l, b, c) == ApplyAll(k, EMPTY, LoaderModel.Flat(Batches(wal, l, b, c)))
    decreases l
  {
    match l {
      case Root => EntriesAreOwn(k, EMPTY, wal, b, 0, c, Own(wal, b, 0, c));
      case Forked(parent, pl, base) =>
        ReplayIsBatches(k, wal, pl, parent, base);
        var before, own := Batches(wal, pl, parent, base), Own(wal, b, base, c);
        LoaderModel.FlatConcat(before, own);
        ApplyAllConcat(k, EMPTY, LoaderModel.Flat(before), LoaderModel.Flat(own));
        var y := ApplyAll(k, EMPTY, LoaderModel.Flat(before));
        if y.Some? { EntriesAreOwn(k, y.value, wal, b, base, c, own); }
    }
  }

  // ---- Loaders reading the manifests of a run

  /** The shared storage at each moment of a run. */
  type History = nat -> Shared

  ghost predicate IsHistory(h: History, n: nat) {
    && (forall t :: 0 <= t <= n ==> FlusherSafety.SharedInv(h(t)))
    && (forall t, u :: 0 <= t <= u <= n ==> FlusherSafety.Grows(h(t), h(u)))
  }

  /** How a generation is written; two generations never look alike, and none is empty. */
  ghost predicate Spells(name: nat -> string) {
    && (forall g :: name(g) != "")
    && (forall g, g' :: name(g) == name(g') ==> g == g')
  }

  /** One pass of a loader: the moment it reads the manifest, or none if that fails, and how the segments open. */
  datatype Glance = Glance(at: Option<nat>, open: nat -> LoaderModel.Opened)

  function ReadManifest(h: History, name: nat -> string, b: string, at: Option<nat>): LoaderModel.ManifestRead {
    match at
    case None => LoaderModel.Unreadable
    case Some(t) =>
      if b !in h(t).manifests then LoaderModel.NotFound
      else LoaderModel.Read(|h(t).manifests[b].manifest.segments|, name(h(t).manifests[b].generation))
  }

  function ToPass(h: History, name: nat -> string, b: string, r: Glance): LoaderModel.Pass {
    LoaderModel.Pass(ReadManifest(h, name, b, r.at), r.open)
  }

  function ToPasses(h: History, name: nat -> string, b: string, rs: seq<Glance>): seq<LoaderModel.Pass> {
    seq(|rs|, i requires 0 <= i < |rs| => ToPass(h, name, b, rs[i]))
  }

  /** A segment opens as the object stored under its id, or as a part of it before an error. */
  ghost predicate OpensStored(sh: Shared, m: Manifest, open: nat -> LoaderModel.Opened) {
    forall i :: 0 <= i < |m.segments| && open(i).Stream? ==>
      && m.segments[i].id in sh.segments
      && var stored := sh.segments[m.segments[i].id];
      open(i).mutations <= stored && (open(i).ends ==> open(i).mutations == stored)
  }

  ghost predicate Plausible(h: History, n: nat, b: string, r: Glance) {
    r.at.Some? ==>
      var t := r.at.value;
      t <= n && (b in h(t).manifests ==> OpensStored(h(t), h(t).manifests[b].manifest, r.open))
  }

  ghost predicate NamedAt(h: History, n: nat, name: nat -> string, b: string, t: nat, g: string) {
    t <= n && b in h(t).manifests && name(h(t).manifests[b].generation) == g
  }

  ghost function MomentOf(h: History, n: nat, name: nat -> string, b: string, g: string): (t: nat)
    requires exists t :: NamedAt(h, n, name, b, t, g)
    ensures NamedAt(h, n, name, b, t, g)
  {
    var t :| NamedAt(h, n, name, b, t, g);
    t
  }

  /** The number of segments at a generation. */
  ghost function LengthAt(h: History, n: nat, name: nat -> string, b: string): string -> nat {
    (g: string) =>
      if exists t :: NamedAt(h, n, name, b, t, g)
      then |h(MomentOf(h, n, name, b, g)).manifests[b].manifest.segments|
      else 0
  }

  lemma SameGeneration(h: History, n: nat, b: string, t: nat, u: nat)
    requires IsHistory(h, n) && t <= u <= n && b in h(t).manifests && b in h(u).manifests
    requires h(t).manifests[b].generation == h(u).manifests[b].generation
    ensures h(t).manifests[b] == h(u).manifests[b]
  {
    assert FlusherSafety.Grows(h(t), h(u)) && FlusherSafety.SharedInv(h(t));
  }

  lemma LengthIs(h: History, n: nat, name: nat -> string, b: string, t: nat, g: string)
    requires IsHistory(h, n) && Spells(name) && NamedAt(h, n, name, b, t, g)
    ensures LengthAt(h, n, name, b)(g) == |h(t).manifests[b].manifest.segments|
  {
    var u := MomentOf(h, n, name, b, g);
    if t <= u { SameGeneration(h, n, b, t, u); } else { SameGeneration(h, n, b, u, t); }
  }

  /** A reading is a pass over a prefix of what the branch holds at the end. */
  lemma GlanceIsFaithful(h: History, n: nat, name: nat -> string, b: string, r: Glance)
    requires IsHistory(h, n) && Spells(name) && Plausible(h, n, b, r) && b in h(n).manifests
    ensures LoaderModel.Faithful(Contents(h(n).manifests[b].manifest.segments), LengthAt(h, n, name, b),
                                 ToPass(h, name, b, r))
  {
    if r.at.Some? && b in h(r.at.value).manifests {
      var t := r.at.value;
      var m, last := h(t).manifests[b].manifest, h(n).manifests[b].manifest;
      LengthIs(h, n, name, b, t, name(h(t).manifests[b].generation));
      assert FlusherSafety.Grows(h(t), h(n)) && FlusherSafety.SharedInv(h(t));
      forall i | 0 <= i < |m.segments| && r.open(i).Stream?
        ensures r.open(i).mutations <= Contents(last.segments)[i]
                && (r.open(i).ends ==> r.open(i).mutations == Contents(last.segments)[i])
      {
        assert m.segments[i] == last.segments[i];
      }
    }
  }

  lemma {:induction false} LongestIsWithin(h: History, n: nat, name: nat -> string, b: string, rs: seq<Glance>)
    requires IsHistory(h, n) && b in h(n).manifests && forall i :: 0 <= i < |rs| ==> Plausible(h, n, b, rs[i])
    ensures LoaderModel.Longest(ToPasses(h, name, b, rs)) <= |h(n).manifests[b].manifest.segments|
  {
    if rs != [] {
      var init, r := rs[..|rs| - 1], rs[|rs| - 1];
      LongestIsWithin(h, n, name, b, init);
      assert ToPasses(h, name, b, rs)[..|rs| - 1] == ToPasses(h, name, b, init);
      if r.at.Some? && b in h(r.at.value).manifests { assert FlusherSafety.Grows(h(r.at.value), h(n)); }
    }
  }

  /** The loader's state after its passes. */
  function Loaded(k: Kernels, h: History, name: nat -> string, b: string, rs: seq<Glance>): LoaderModel.Progress {
    LoaderModel.Run(k, ToPasses(h, name, b, rs))
  }

  lemma LoadedIsReplay(k: Kernels, h: History, n: nat, name: nat -> string, b: string, rs: seq<Glance>,
                       open: nat -> LoaderModel.Opened)
    requires IsHistory(h, n) && Spells(name) && b in h(n).manifests
    requires (forall i :: 0 <= i < |rs| ==> Plausible(h, n, b, rs[i])) && Plausible(h, n, b, Glance(Some(n), open))
    requires LoaderModel.Sync(k, Loaded(k, h, name, b, rs), ReadManifest(h, name, b, Some(n)), open).err == None
    ensures var sh := h(n);
            var c := sh.manifests[b].manifest.checkpoint;
            && b in sh.lineage && c <= |sh.wal| && LineageWithin(sh.lineage[b], c)
            && ReplayBranch(k, sh.wal, sh.lineage[b], b, c)
               == Some(LoaderModel.Sync(k, Loaded(k, h, name, b, rs), ReadManifest(h, name, b, Some(n)),
                                        open).state.index)
  {
    var sh := h(n);
    var m := sh.manifests[b].manifest;
    var all, length, passes := Contents(m.segments), LengthAt(h, n, name, b), ToPasses(h, name, b, rs);
    forall i | 0 <= i < |passes| ensures LoaderModel.Faithful(all, length, passes[i]) {
      GlanceIsFaithful(h, n, name, b, rs[i]);
    }
    GlanceIsFaithful(h, n, name, b, Glance(Some(n), open));
    LongestIsWithin(h, n, name, b, rs);
    LoaderModel.ErrorFreeSyncIsRebuild(k, all, length, passes,
                                       LoaderModel.Pass(ReadManifest(h, name, b, Some(n)), open));
    assert FlusherSafety.SharedInv(sh);
    assert all[..|all|] == all;
    ReplayIsBatches(k, sh.wal, sh.lineage[b], b, m.checkpoint);
  }

  /** What the branch held at moment t is a prefix of what it holds at the end. */
  lemma HeldThen(h: History, n: nat, b: string, t: nat)
    requires IsHistory(h, n) && t <= n && b in h(t).manifests
    ensures b in h(n).manifests && b in h(t).lineage
    ensures var m, all := h(t).manifests[b].manifest, Contents(h(n).manifests[b].manifest.segments);
            && |m.segments| <= |all| && m.checkpoint <= |h(t).wal| && LineageWithin(h(t).lineage[b], m.checkpoint)
            && AllShaped(h(t).wal)
            && all[..|m.segments|] == Batches(h(t).wal, h(t).lineage[b], b, m.checkpoint)
  {
    assert FlusherSafety.Grows(h(t), h(n)) && FlusherSafety.SharedInv(h(t));
    var m, last := h(t).manifests[b].manifest, h(n).manifests[b].manifest;
    assert Contents(last.segments)[..|m.segments|] == Contents(m.segments);
  }

  /** A pass over a manifest of any moment t, however stale, that has a segment beyond those applied: the table is then
      the replay up to that manifest's checkpoint. */
  lemma StaleLoadedIsReplay(k: Kernels, h: History, n: nat, name: nat -> string, b: string, rs: seq<Glance>, t: nat,
                            open: nat -> LoaderModel.Opened)
    requires IsHistory(h, n) && Spells(name) && t <= n && b in h(t).manifests
    requires (forall i :: 0 <= i < |rs| ==> Plausible(h, n, b, rs[i])) && Plausible(h, n, b, Glance(Some(t), open))
    requires Loaded(k, h, name, b, rs).applied < |h(t).manifests[b].manifest.segments|
    requires LoaderModel.Sync(k, Loaded(k, h, name, b, rs), ReadManifest(h, name, b, Some(t)), open).err == None
    ensures var sh := h(t);
            var c := sh.manifests[b].manifest.checkpoint;
            && b in sh.lineage && c <= |sh.wal| && LineageWithin(sh.lineage[b], c)
            && ReplayBranch(k, sh.wal, sh.lineage[b], b, c)
               == Some(LoaderModel.Sync(k, Loaded(k, h, name, b, rs), ReadManifest(h, name, b, Some(t)),
                                        open).state.index)
  {
    hide LoaderModel.Sync, LoaderModel.Consistent, ReplayBranch, Batches, OpensStored;
    HeldThen(h, n, b, t);
    var all, length := Contents(h(n).manifests[b].manifest.segments), LengthAt(h, n, name, b);
    var passes, pass := ToPasses(h, name, b, rs), ToPass(h, name, b, Glance(Some(t), open));
    forall i | 0 <= i < |passes| ensures LoaderModel.Faithful(all, length, passes[i]) {
      GlanceIsFaithful(h, n, name, b, rs[i]);
    }
    GlanceIsFaithful(h, n, name, b, Glance(Some(t), open));
    var p := LoaderModel.RunIsConsistent(k, all, length, passes);
    LoaderModel.ErrorFreeSync(k, all, length, LoaderModel.Run(k, passes), LoaderModel.Longest(passes), p, pass);
    ReplayIsBatches(k, h(t).wal, h(t).lineage[b], b, h(t).manifests[b].manifest.checkpoint);
  }

  // ---- The theorem

  function HistoryOf(actions: seq<Action>): History {
    (t: nat) => Run(if t <= |actions| then actions[..t] else actions).shared
  }

  lemma RunIsHistory(actions: seq<Action>)
    requires WellShapedRun(actions)
    ensures IsHistory(HistoryOf(actions), |actions|)
  {
    var h := HistoryOf(actions);
    forall t | 0 <= t <= |actions| ensures FlusherSafety.SharedInv(h(t)) {
      FlusherSafety.RunInv(actions[..t]);
    }
    forall t, u | 0 <= t <= u <= |actions| ensures FlusherSafety.Grows(h(t), h(u)) {
      assert actions[..u] == actions[..t] + actions[t..u];
      FlusherSafety.RunGrows(actions[..t], actions[t..u]);
    }
  }

  /** End to end, in every run of ingesters, forks and crashing flushers: let a loader make any passes at any moments of
      the run, each failing or not, and then an error-free pass over the branch's manifest as it stands. The index of
      the published table is the sequential replay of the log, record by record, up to that manifest's checkpoint, from
      the parent's replay at the fork if the branch was forked. */
  lemma TableIsLogReplay(k: Kernels, actions: seq<Action>, name: nat -> string, b: string, rs: seq<Glance>,
                         open: nat -> LoaderModel.Opened)
    requires WellShapedRun(actions) && Spells(name)
    requires var h, n := HistoryOf(actions), |actions|;
             && b in h(n).manifests
             && (forall i :: 0 <= i < |rs| ==> Plausible(h, n, b, rs[i])) && Plausible(h, n, b, Glance(Some(n), open))
             && LoaderModel.Sync(k, Loaded(k, h, name, b, rs), ReadManifest(h, name, b, Some(n)), open).err == None
    ensures var h := HistoryOf(actions);
            var sh := Run(actions).shared;
            && b in sh.manifests && b in sh.lineage
            && var c := sh.manifests[b].manifest.checkpoint;
            && c <= |sh.wal| && LineageWithin(sh.lineage[b], c)
            && ReplayBranch(k, sh.wal, sh.lineage[b], b, c)
               == Some(LoaderModel.Sync(k, Loaded(k, h, name, b, rs), ReadManifest(h, name, b, Some(|actions|)),
                                        open).state.index)
  {
    RunIsHistory(actions);
    assert actions[..|actions|] == actions;
    LoadedIsReplay(k, HistoryOf(actions), |actions|, name, b, rs, open);
  }

  /** The same of a stale manifest, that of any moment t of the run, when it has a segment beyond those applied. */
  lemma StaleTableIsLogReplay(k: Kernels, actions: seq<Action>, name: nat -> string, b: string, rs: seq<Glance>,
                              t: nat, open: nat -> LoaderModel.Opened)
    requires WellShapedRun(actions) && Spells(name) && t <= |actions|
    requires var h, n := HistoryOf(actions), |actions|;
             && b in h(t).manifests
             && (forall i :: 0 <= i < |rs| ==> Plausible(h, n, b, rs[i])) && Plausible(h, n, b, Glance(Some(t), open))
             && Loaded(k, h, name, b, rs).applied < |h(t).manifests[b].manifest.segments|
             && LoaderModel.Sync(k, Loaded(k, h, name, b, rs), ReadManifest(h, name, b, Some(t)), open).err == None
    ensures var h := HistoryOf(actions);
            var sh := Run(actions[..t]).shared;
            && b in sh.manifests && b in sh.lineage
            && var c := sh.manifests[b].manifest.checkpoint;
            && c <= |sh.wal| && LineageWithin(sh.lineage[b], c)
            && ReplayBranch(k, sh.wal, sh.lineage[b], b, c)
               == Some(LoaderModel.Sync(k, Loaded(k, h, name, b, rs), ReadManifest(h, name, b, Some(t)),
                                        open).state.index)
  {
    RunIsHistory(actions);
    StaleLoadedIsReplay(k, HistoryOf(actions), |actions|, name, b, rs, t, open);
  }

  // ---- A flusher that has caught up

  /** Once the manifests cover the log, a branch at its checkpoint is the branch at the end of the log. */
  lemma CoveredIsWhole(k: Kernels, sh: Shared, b: string)
    requires FlusherSafety.SharedInv(sh) && FlusherSafety.Covered(sh, |sh.wal|) && b in sh.manifests
    ensures b in sh.lineage
    ensures var l, c := sh.lineage[b], sh.manifests[b].manifest.checkpoint;
            && c <= |sh.wal| && LineageWithin(l, c) && LineageWithin(l, |sh.wal|)
            && ReplayBranch(k, sh.wal, l, b, c) == ReplayBranch(k, sh.wal, l, b, |sh.wal|)
  {
    hide ReplayBranch, Batches, FlusherSafety.SharedInv, FlusherSafety.Covered;
    HeldNow(sh, b);
    var l, c, n := sh.lineage[b], sh.manifests[b].manifest.checkpoint, |sh.wal|;
    FlusherSafety.NothingBetween(sh, b, c, n, n);
    NothingMore(sh.wal, l, b, c);
    ReplayIsBatches(k, sh.wal, l, b, c);
    ReplayIsBatches(k, sh.wal, l, b, n);
  }

  lemma HeldNow(sh: Shared, b: string)
    requires FlusherSafety.SharedInv(sh) && b in sh.manifests
    ensures b in sh.lineage && AllShaped(sh.wal)
    ensures sh.manifests[b].manifest.checkpoint <= |sh.wal|
    ensures LineageWithin(sh.lineage[b], sh.manifests[b].manifest.checkpoint)
  {
  }

  lemma NothingMore(wal: seq<Entry>, l: Lineage, b: string, c: nat)
    requires c <= |wal| && LineageWithin(l, c) && Own(wal, b, c, |wal|) == []
    ensures LineageWithin(l, |wal|) && Batches(wal, l, b, c) == Batches(wal, l, b, |wal|)
  {
    hide Own;
    match l {
      case Root => FlusherSafety.OwnSplit(wal, b, 0, c, |wal|);
      case Forked(_, _, base) => FlusherSafety.OwnSplit(wal, b, base, c, |wal|);
    }
  }

  lemma CatchUpIsShaped(actions: seq<Action>, p: nat, branches: seq<string>, turns: nat)
    requires WellShapedRun(actions)
    ensures WellShapedRun(actions + FlusherProgress.CatchUp(p, branches, turns))
  {
    hide FlusherProgress.Startup, FlusherProgress.Turns;
    FlusherProgress.StartupAppendsNothing(p, branches);
    FlusherProgress.TurnsAppendNothing(p, turns);
  }

  /** After any run, let a flusher start on any listing and run undisturbed to the end of the log: then every branch
      with a batch in the log has a manifest, and a loader that makes an error-free pass over it publishes the replay of
      the whole log. */
  lemma CaughtUpTableIsWholeLog(k: Kernels, actions: seq<Action>, p: nat, branches: seq<string>, turns: nat,
                                name: nat -> string, b: string, rs: seq<Glance>, open: nat -> LoaderModel.Opened)
    requires WellShapedRun(actions) && Spells(name) && |Run(actions).shared.wal| <= turns
    requires exists i :: 0 <= i < |Run(actions).shared.wal| && BatchBranch(Run(actions).shared.wal[i]) == b != ""
    requires var all := actions + FlusherProgress.CatchUp(p, branches, turns);
             var h, n := HistoryOf(all), |all|;
             && (forall i :: 0 <= i < |rs| ==> Plausible(h, n, b, rs[i])) && Plausible(h, n, b, Glance(Some(n), open))
             && LoaderModel.Sync(k, Loaded(k, h, name, b, rs), ReadManifest(h, name, b, Some(n)), open).err == None
    ensures var all := actions + FlusherProgress.CatchUp(p, branches, turns);
            var h, sh := HistoryOf(all), Run(all).shared;
            && sh.wal == Run(actions).shared.wal
            && b in sh.manifests && b in sh.lineage && LineageWithin(sh.lineage[b], |sh.wal|)
            && ReplayBranch(k, sh.wal, sh.lineage[b], b, |sh.wal|)
               == Some(LoaderModel.Sync(k, Loaded(k, h, name, b, rs), ReadManifest(h, name, b, Some(|all|)),
                                        open).state.index)
  {
    hide LoaderModel.Sync, ReplayBranch, Plausible, WellShapedRun, Step, Run, FlusherSafety.SharedInv,
         FlusherProgress.CatchUp, FlusherProgress.RunFrom, Loaded;
    var more := FlusherProgress.CatchUp(p, branches, turns);
    var all := actions + more;
    CatchUpIsShaped(actions, p, branches, turns);
    FlusherSafety.RunInv(actions);
    FlusherProgress.RunThenFrom(actions, more);
    FlusherProgress.CatchUpCoversLog(Run(actions), p, branches, turns);
    CoveredIsWhole(k, Run(all).shared, b);
    assert all[..|all|] == all;
    TableIsLogReplay(k, all, name, b, rs, open);
  }
}
