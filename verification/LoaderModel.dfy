/** Loading a branch's segments into an index, pass by pass, as values: passes may fail part way, may hold a stale
    manifest and may publish a partly loaded segment. */
module LoaderModel {
  import opened Options
  import opened Mutations
  import opened Index

  /** What opening a segment gives: nothing, or mutations and then the end of the segment or an error. */
  datatype Opened = Missing | Stream(mutations: seq<Mutation>, ends: bool)

  /** What reading the manifest gives; of a manifest, the number of segments and its generation. */
  datatype ManifestRead = NotFound | Unreadable | Read(count: nat, gen: string)

  datatype SyncError = ManifestUnreadable | ManifestTruncated | SegmentFailed

  /** A loader: the index of the published table, the segments applied and the generation of the last complete pass. */
  datatype Progress = Progress(index: Index, applied: nat, lastGen: string)

  const START := Progress(EMPTY, 0, "")

  datatype Outcome = Outcome(state: Progress, loaded: nat, err: Option<SyncError>)

  datatype Replayed = Replayed(index: Index, ok: bool)

  /** Applying mutations up to the first that is refused. */
  function Replay(k: Kernels, x: Index, ms: seq<Mutation>): Replayed {
    if ms == [] then Replayed(x, true)
    else
      var prev := Replay(k, x, ms[..|ms| - 1]);
      if !prev.ok then prev
      else
        var y := Apply(k, prev.index, ms[|ms| - 1]);
        if y.Some? then Replayed(y.value, true) else Replayed(prev.index, false)
  }

  function LoadSegment(k: Kernels, x: Index, o: Opened): Replayed {
    match o
    case Missing => Replayed(x, false)
    case Stream(ms, ends) => var r := Replay(k, x, ms); Replayed(r.index, r.ok && ends)
  }

  datatype Loaded = Loaded(index: Index, count: nat, ok: bool)

  /** Loading one more segment, if none has failed. */
  function Advance(k: Kernels, l: Loaded, o: Opened): Loaded {
    if !l.ok then l
    else
      var r := LoadSegment(k, l.index, o);
      if r.ok then Loaded(r.index, l.count + 1, true) else Loaded(r.index, l.count, false)
  }

  /** Loading the segments at positions n up to m, until one fails. */
  function Load(k: Kernels, x: Index, open: nat -> Opened, n: nat, m: nat): Loaded
    requires n <= m
    decreases m
  {
    if n == m then Loaded(x, 0, true) else Advance(k, Load(k, x, open, n, m - 1), open(m - 1))
  }

  /** One pass: nothing new, a manifest shorter than what is applied, or the segments after it; a failed pass publishes
      only when it loaded a whole segment. */
  function Sync(k: Kernels, s: Progress, read: ManifestRead, open: nat -> Opened): Outcome {
    match read
    case NotFound => Outcome(s, 0, None)
    case Unreadable => Outcome(s, 0, Some(ManifestUnreadable))
    case Read(count, gen) =>
      if gen != "" && gen == s.lastGen then Outcome(s, 0, None)
      else if s.applied > count then Outcome(s, 0, Some(ManifestTruncated))
      else
        var l := Load(k, s.index, open, s.applied, count);
        if l.ok then Outcome(Progress(l.index, count, gen), l.count, None)
        else Outcome(Progress(if l.count > 0 then l.index else s.index, s.applied + l.count, s.lastGen), l.count,
                     Some(SegmentFailed))
  }

  // ---- The loader's functions

  lemma ReplayNone(k: Kernels, x: Index)
    ensures Replay(k, x, []) == Replayed(x, true)
  {
  }

  lemma ReplayOneMore(k: Kernels, x: Index, ms: seq<Mutation>, i: nat, y: Index, r: Replayed)
    requires i < |ms| && Replay(k, x, ms[..i]) == Replayed(y, true)
    requires r.ok <==> Apply(k, y, ms[i]).Some?
    requires r.index == if r.ok then Apply(k, y, ms[i]).value else y
    ensures Replay(k, x, ms[..i + 1]) == r
  {
    assert ms[..i + 1][..i] == ms[..i];
  }

  lemma LoadNone(k: Kernels, x: Index, open: nat -> Opened, n: nat)
    ensures Load(k, x, open, n, n) == Loaded(x, 0, true)
  {
  }

  lemma LoadOneMore(k: Kernels, x: Index, open: nat -> Opened, n: nat, i: nat, index: Index, loaded: nat, r: Replayed)
    requires n <= i && Load(k, x, open, n, i) == Loaded(index, loaded, true) && r == LoadSegment(k, index, open(i))
    ensures Load(k, x, open, n, i + 1) == Loaded(r.index, if r.ok then loaded + 1 else loaded, r.ok)
  {
  }

  lemma {:induction false} LoadFails(k: Kernels, x: Index, open: nat -> Opened, n: nat, i: nat, m: nat)
    requires n <= i <= m && !Load(k, x, open, n, i).ok
    ensures Load(k, x, open, n, m) == Load(k, x, open, n, i)
    decreases m
  {
    if i < m { LoadFails(k, x, open, n, i, m - 1); }
  }

  lemma {:induction false} LoadCounts(k: Kernels, x: Index, open: nat -> Opened, n: nat, m: nat)
    requires n <= m
    ensures var l := Load(k, x, open, n, m);
            l.count <= m - n && (l.ok <==> l.count == m - n) && (l.count == 0 && l.ok ==> l.index == x)
    decreases m
  {
    if n < m { LoadCounts(k, x, open, n, m - 1); }
  }

  /** A replay that stops has applied a prefix. */
  lemma {:induction false} ReplayAppliesPrefix(k: Kernels, x: Index, ms: seq<Mutation>) returns (p: seq<Mutation>)
    ensures p <= ms && ApplyAll(k, x, p) == Some(Replay(k, x, ms).index)
    ensures Replay(k, x, ms).ok ==> p == ms
  {
    if ms == [] {
      p := [];
    } else {
      var init := ms[..|ms| - 1];
      p := ReplayAppliesPrefix(k, x, init);
      if Replay(k, x, ms).ok { p := ms; }
    }
  }

  lemma {:induction false} ReplayFails(k: Kernels, x: Index, ms: seq<Mutation>, i: nat)
    requires i <= |ms| && !Replay(k, x, ms[..i]).ok
    ensures Replay(k, x, ms) == Replay(k, x, ms[..i])
    decreases |ms|
  {
    if i == |ms| {
      assert ms[..i] == ms;
    } else {
      assert ms[..|ms| - 1][..i] == ms[..i];
      ReplayFails(k, x, ms[..|ms| - 1], i);
    }
  }

  // ---- What a pass reports

  /** What the segments at positions n up to m hold, one after the other. */
  function Streams(open: nat -> Opened, n: nat, m: nat): seq<Mutation>
    decreases m
  {
    if m <= n then [] else Streams(open, n, m - 1) + if open(m - 1).Stream? then open(m - 1).mutations else []
  }

  /** They all open and read to their end, and every mutation can be applied after those before it. */
  ghost predicate Loadable(k: Kernels, dims: map<string, nat>, open: nat -> Opened, n: nat, m: nat) {
    && (forall i :: n <= i < m ==> open(i).Stream? && open(i).ends)
    && Applicable(k, dims, Streams(open, n, m))
  }

  lemma {:induction false} ReplayIsApplyAll(k: Kernels, x: Index, ms: seq<Mutation>)
    ensures Replay(k, x, ms).ok <==> ApplyAll(k, x, ms).Some?
    ensures Replay(k, x, ms).ok ==> ApplyAll(k, x, ms) == Some(Replay(k, x, ms).index)
  {
    if ms != [] { ReplayIsApplyAll(k, x, ms[..|ms| - 1]); }
  }

  lemma OneMoreLoads(k: Kernels, x: Index, l: Loaded, before: seq<Mutation>, o: Opened)
    requires l.ok ==> ApplyAll(k, x, before) == Some(l.index)
    ensures Advance(k, l, o).ok <==> l.ok && o.Stream? && o.ends && ApplyAll(k, x, before + o.mutations).Some?
    ensures Advance(k, l, o).ok ==> ApplyAll(k, x, before + o.mutations) == Some(Advance(k, l, o).index)
  {
    hide Replay, ApplyAll;
    if o.Stream? {
      ApplyAllConcat(k, x, before, o.mutations);
      if l.ok { ReplayIsApplyAll(k, l.index, o.mutations); }
    }
  }

  /** Loading succeeds exactly when every segment opens whole and every mutation is applicable. */
  lemma {:induction false} LoadSucceeds(k: Kernels, x: Index, open: nat -> Opened, n: nat, m: nat)
    requires n <= m
    ensures Load(k, x, open, n, m).ok <==> Loadable(k, x.dims, open, n, m)
    ensures Load(k, x, open, n, m).ok ==> ApplyAll(k, x, Streams(open, n, m)) == Some(Load(k, x, open, n, m).index)
    decreases m
  {
    hide Advance, Applicable, ApplyAll;
    ApplyAllDims(k, x, Streams(open, n, m));
    if n == m {
      NothingApplied(k, x);
    } else {
      LoadSucceeds(k, x, open, n, m - 1);
      ApplyAllDims(k, x, Streams(open, n, m - 1));
      OneMoreLoads(k, x, Load(k, x, open, n, m - 1), Streams(open, n, m - 1), open(m - 1));
      if !Load(k, x, open, n, m - 1).ok { Unloadable(k, x, open, n, m); }
    }
  }

  lemma NothingApplied(k: Kernels, x: Index)
    ensures ApplyAll(k, x, []) == Some(x)
  {
  }

  lemma Unloadable(k: Kernels, x: Index, open: nat -> Opened, n: nat, m: nat)
    requires n < m && !Loadable(k, x.dims, open, n, m - 1)
    ensures !Loadable(k, x.dims, open, n, m)
  {
    hide Applicable, ApplyAll;
    ApplyAllDims(k, x, Streams(open, n, m));
    ApplyAllDims(k, x, Streams(open, n, m - 1));
    if open(m - 1).Stream? { ApplyAllConcat(k, x, Streams(open, n, m - 1), open(m - 1).mutations); }
  }

  /** The number of segments loaded is that of the longest part that can be loaded. */
  lemma LoadsAll(k: Kernels, x: Index, open: nat -> Opened, n: nat, m: nat, i: nat)
    requires n <= i <= m
    ensures i <= n + Load(k, x, open, n, m).count <==> Loadable(k, x.dims, open, n, i)
  {
    hide Loadable;
    LoadSucceeds(k, x, open, n, i);
    LoadCounts(k, x, open, n, i);
    LoadCounts(k, x, open, n, m);
    if !Load(k, x, open, n, i).ok {
      LoadFails(k, x, open, n, i, m);
    } else {
      CountGrows(k, x, open, n, i, m);
    }
  }

  lemma {:induction false} CountGrows(k: Kernels, x: Index, open: nat -> Opened, n: nat, i: nat, m: nat)
    requires n <= i <= m
    ensures Load(k, x, open, n, i).count <= Load(k, x, open, n, m).count
    decreases m
  {
    if i < m { CountGrows(k, x, open, n, i, m - 1); }
  }

  /** The pass goes past the checks: its manifest is not the one of the last complete pass, and no shorter than what is
      applied. */
  predicate Proceeds(s: Progress, read: ManifestRead) {
    read.Read? && (read.gen == "" || read.gen != s.lastGen) && s.applied <= read.count
  }

  /** Exactly when a pass reports each error and what it changes then: a read that failed; another generation with fewer
      segments than are applied; a segment that does not open whole or whose mutations are not applicable. The count
      returned is the rise of `applied`, and that is the longest part of the new segments that can be loaded. */
  lemma SyncReports(k: Kernels, s: Progress, read: ManifestRead, open: nat -> Opened)
    ensures var o := Sync(k, s, read, open);
            && (o.err == Some(ManifestUnreadable) <==> read == Unreadable)
            && (o.err == Some(ManifestTruncated) <==>
                read.Read? && (read.gen == "" || read.gen != s.lastGen) && read.count < s.applied)
            && (o.err == Some(SegmentFailed) <==>
                Proceeds(s, read) && !Loadable(k, s.index.dims, open, s.applied, read.count))
            && o.state.applied == s.applied + o.loaded
            && (!Proceeds(s, read) ==> o.state == s)
    ensures Proceeds(s, read) ==>
              var o := Sync(k, s, read, open);
              && o.state.applied <= read.count
              && (forall i :: s.applied <= i <= read.count ==>
                    (i <= o.state.applied <==> Loadable(k, s.index.dims, open, s.applied, i)))
              && (o.err != None ==> o.state.lastGen == s.lastGen && (o.loaded == 0 ==> o.state.index == s.index))
              && (o.err == None ==>
                    && o.state.lastGen == read.gen && o.state.applied == read.count
                    && ApplyAll(k, s.index, Streams(open, s.applied, read.count)) == Some(o.state.index))
  {
    hide Loadable, Load;
    if Proceeds(s, read) {
      LoadSucceeds(k, s.index, open, s.applied, read.count);
      LoadCounts(k, s.index, open, s.applied, read.count);
      forall i | s.applied <= i <= read.count
        ensures i <= s.applied + Load(k, s.index, open, s.applied, read.count).count <==>
                Loadable(k, s.index.dims, open, s.applied, i)
      {
        LoadsAll(k, s.index, open, s.applied, read.count, i);
      }
    }
  }

  // ---- The branch's segments

  function Flat(segments: seq<seq<Mutation>>): seq<Mutation> {
    if segments == [] then [] else Flat(segments[..|segments| - 1]) + segments[|segments| - 1]
  }

  lemma {:induction false} FlatConcat(s: seq<seq<Mutation>>, t: seq<seq<Mutation>>)
    ensures Flat(s + t) == Flat(s) + Flat(t)
  {
    if t == [] {
      assert s + t == s;
    } else {
      var n := |t| - 1;
      assert (s + t)[..|s + t| - 1] == s + t[..n] && (s + t)[|s + t| - 1] == t[n];
      FlatConcat(s, t[..n]);
    }
  }

  /** A from-scratch load of the first n segments. */
  function Rebuild(k: Kernels, all: seq<seq<Mutation>>, n: nat): Option<Index>
    requires n <= |all|
  {
    ApplyAll(k, EMPTY, Flat(all[..n]))
  }

  lemma RebuildNext(k: Kernels, all: seq<seq<Mutation>>, n: nat)
    requires n < |all| && Rebuild(k, all, n).Some?
    ensures Rebuild(k, all, n + 1) == ApplyAll(k, Rebuild(k, all, n).value, all[n])
  {
    assert all[..n + 1][..n] == all[..n];
    ApplyAllConcat(k, EMPTY, Flat(all[..n]), all[n]);
  }

  /** Segments read as they are: in full, or a part before an error. */
  ghost predicate Honest(all: seq<seq<Mutation>>, open: nat -> Opened, m: nat)
    requires m <= |all|
  {
    forall i :: 0 <= i < m && open(i).Stream? ==>
      open(i).mutations <= all[i] && (open(i).ends ==> open(i).mutations == all[i])
  }

  function Next(all: seq<seq<Mutation>>, n: nat): seq<Mutation> {
    if n < |all| then all[n] else []
  }

  /** An index of the first n segments and part of the next. */
  ghost predicate HasPart(k: Kernels, all: seq<seq<Mutation>>, x: Index, n: nat, p: seq<Mutation>) {
    && n <= |all| && p <= Next(all, n)
    && Rebuild(k, all, n).Some? && ApplyAll(k, Rebuild(k, all, n).value, p) == Some(x)
  }

  lemma WholeIsRebuild(k: Kernels, all: seq<seq<Mutation>>, x: Index, n: nat)
    requires n <= |all| && Rebuild(k, all, n) == Some(x)
    ensures HasPart(k, all, x, n, [])
  {
  }

  /** Loading a segment in full heals whatever part of it was there. */
  lemma LoadSegmentHeals(k: Kernels, all: seq<seq<Mutation>>, x: Index, n: nat, p: seq<Mutation>, o: Opened)
    requires HasPart(k, all, x, n, p) && n < |all|
    requires o.Stream? ==> o.mutations <= all[n] && (o.ends ==> o.mutations == all[n])
    requires LoadSegment(k, x, o).ok
    ensures Rebuild(k, all, n + 1) == Some(LoadSegment(k, x, o).index)
  {
    var q := ReplayAppliesPrefix(k, x, o.mutations);
    assert all[n] == p + all[n][|p|..];
    ReplayAfterPrefix(k, Rebuild(k, all, n).value, p, all[n][|p|..]);
    RebuildNext(k, all, n);
  }

  /** A segment that fails on top of whole segments leaves part of it. */
  lemma LoadSegmentFails(k: Kernels, all: seq<seq<Mutation>>, x: Index, n: nat, o: Opened) returns (p: seq<Mutation>)
    requires n < |all| && Rebuild(k, all, n) == Some(x)
    requires o.Stream? ==> o.mutations <= all[n]
    ensures HasPart(k, all, LoadSegment(k, x, o).index, n, p)
  {
    if o.Stream? {
      p := ReplayAppliesPrefix(k, x, o.mutations);
      assert p <= o.mutations <= all[n];
    } else {
      p := [];
    }
  }

  /** What loading from position n on gives: a rebuild and part `q` of the next segment, once a segment is loaded. */
  ghost predicate Good(k: Kernels, all: seq<seq<Mutation>>, n: nat, l: Loaded, q: seq<Mutation>) {
    l.count > 0 ==>
      && HasPart(k, all, l.index, n + l.count, q)
      && (l.ok ==> q == [] && Rebuild(k, all, n + l.count) == Some(l.index))
  }

  ghost predicate OpensAs(o: Opened, segment: seq<Mutation>) {
    o.Stream? ==> o.mutations <= segment && (o.ends ==> o.mutations == segment)
  }

  lemma FirstSegment(k: Kernels, all: seq<seq<Mutation>>, x: Index, n: nat, p: seq<Mutation>, o: Opened)
    requires HasPart(k, all, x, n, p) && n < |all| && OpensAs(o, all[n])
    ensures Good(k, all, n, Advance(k, Loaded(x, 0, true), o), [])
  {
    var r := LoadSegment(k, x, o);
    if r.ok {
      LoadSegmentHeals(k, all, x, n, p, o);
      WholeIsRebuild(k, all, r.index, n + 1);
    }
  }

  lemma NextSegment(k: Kernels, all: seq<seq<Mutation>>, n: nat, l: Loaded, o: Opened) returns (q: seq<Mutation>)
    requires l.ok && l.count > 0 && Good(k, all, n, l, []) && n + l.count < |all|
    requires OpensAs(o, all[n + l.count])
    ensures Good(k, all, n, Advance(k, l, o), q)
  {
    hide Rebuild, LoadSegment, Next;
    var m := n + l.count;
    var r := LoadSegment(k, l.index, o);
    if r.ok {
      q := [];
      LoadSegmentHeals(k, all, l.index, m, [], o);
      WholeIsRebuild(k, all, r.index, m + 1);
    } else {
      q := LoadSegmentFails(k, all, l.index, m, o);
    }
  }

  lemma AdvanceIsGood(k: Kernels, all: seq<seq<Mutation>>, x: Index, n: nat, p: seq<Mutation>, l: Loaded,
                      before: seq<Mutation>, o: Opened)
    returns (q: seq<Mutation>)
    requires HasPart(k, all, x, n, p) && Good(k, all, n, l, before) && (l.count == 0 && l.ok ==> l.index == x)
    requires l.ok ==> n + l.count < |all| && OpensAs(o, all[n + l.count])
    ensures Good(k, all, n, Advance(k, l, o), q)
  {
    if !l.ok {
      q := before;
    } else if l.count == 0 {
      q := [];
      FirstSegment(k, all, x, n, p, o);
    } else {
      q := NextSegment(k, all, n, l, o);
    }
  }

  /** A pass that loads every segment gives the rebuild, and one that loads some gives a rebuild and part of the
      next. */
  lemma {:induction false} LoadIsRebuild(k: Kernels, all: seq<seq<Mutation>>, x: Index, open: nat -> Opened, n: nat,
                                         m: nat, p: seq<Mutation>)
    returns (q: seq<Mutation>)
    requires n <= m <= |all| && HasPart(k, all, x, n, p) && Honest(all, open, m)
    ensures Good(k, all, n, Load(k, x, open, n, m), q)
    decreases m
  {
    hide HasPart, Rebuild, Advance;
    if n == m {
      q := [];
    } else {
      var before := LoadIsRebuild(k, all, x, open, n, m - 1, p);
      LoadCounts(k, x, open, n, m - 1);
      q := AdvanceIsGood(k, all, x, n, p, Load(k, x, open, n, m - 1), before, open(m - 1));
    }
  }

  // ---- Any sequence of passes

  datatype Pass = Pass(read: ManifestRead, open: nat -> Opened)

  /** A pass over one of the branch's manifests, old or new: `length` is the number of segments at each generation. */
  ghost predicate Faithful(all: seq<seq<Mutation>>, length: string -> nat, p: Pass) {
    p.read.Read? ==>
      && p.read.gen != "" && p.read.count == length(p.read.gen) <= |all|
      && Honest(all, p.open, p.read.count)
  }

  ghost predicate AllFaithful(all: seq<seq<Mutation>>, length: string -> nat, passes: seq<Pass>) {
    forall i :: 0 <= i < |passes| ==> Faithful(all, length, passes[i])
  }

  function Run(k: Kernels, passes: seq<Pass>): Progress {
    if passes == [] then START
    else
      var p := passes[|passes| - 1];
      Sync(k, Run(k, passes[..|passes| - 1]), p.read, p.open).state
  }

  /** The longest manifest a pass has tried. */
  function Longest(passes: seq<Pass>): nat {
    if passes == [] then 0
    else
      var p, n := passes[|passes| - 1], Longest(passes[..|passes| - 1]);
      if p.read.Read? && p.read.count > n then p.read.count else n
  }

  /** What every run keeps: the published index is a rebuild of the applied segments and part of the next, which only a
      longer manifest can have brought, and no segment of the manifest at lastGen is missing. */
  ghost predicate Consistent(k: Kernels, all: seq<seq<Mutation>>, length: string -> nat, s: Progress, longest: nat,
                             p: seq<Mutation>) {
    && HasPart(k, all, s.index, s.applied, p)
    && s.applied <= longest && (p != [] ==> s.applied < longest)
    && (s.lastGen != "" ==> length(s.lastGen) <= s.applied)
  }

  /** A pass never loses a segment; one that changes nothing leaves the table alone. */
  lemma SyncKeeps(k: Kernels, all: seq<seq<Mutation>>, length: string -> nat, s: Progress, longest: nat,
                  p: seq<Mutation>, pass: Pass)
    returns (q: seq<Mutation>)
    requires Consistent(k, all, length, s, longest, p) && Faithful(all, length, pass)
    ensures var s' := Sync(k, s, pass.read, pass.open).state;
            && s.applied <= s'.applied
            && Consistent(k, all, length, s',
                          if pass.read.Read? && pass.read.count > longest then pass.read.count else longest, q)
  {
    hide Rebuild, Load;
    q := p;
    if pass.read.Read? && pass.read.gen != s.lastGen && s.applied <= pass.read.count {
      var n, m := s.applied, pass.read.count;
      LoadCounts(k, s.index, pass.open, n, m);
      var l := Load(k, s.index, pass.open, n, m);
      var r := LoadIsRebuild(k, all, s.index, pass.open, n, m, p);
      if l.count > 0 {
        q := r;
        if q != [] { assert n + l.count < m; }
      }
    }
  }

  lemma StartIsConsistent(k: Kernels, all: seq<seq<Mutation>>, length: string -> nat)
    ensures Consistent(k, all, length, START, 0, [])
  {
    assert all[..0] == [];
  }

  /** In every run of passes, failed or not, over manifests old and new. */
  lemma {:induction false} RunIsConsistent(k: Kernels, all: seq<seq<Mutation>>, length: string -> nat,
                                           passes: seq<Pass>)
    returns (p: seq<Mutation>)
    requires AllFaithful(all, length, passes)
    ensures Consistent(k, all, length, Run(k, passes), Longest(passes), p)
  {
    if passes == [] {
      p := [];
      StartIsConsistent(k, all, length);
    } else {
      var n := |passes| - 1;
      var q := RunIsConsistent(k, all, length, passes[..n]);
      p := SyncKeeps(k, all, length, Run(k, passes[..n]), Longest(passes[..n]), q, passes[n]);
    }
  }

  lemma {:induction false} AppliedNeverDecreases(k: Kernels, all: seq<seq<Mutation>>, length: string -> nat,
                                                 passes: seq<Pass>, i: nat)
    requires AllFaithful(all, length, passes) && i <= |passes|
    ensures Run(k, passes[..i]).applied <= Run(k, passes).applied
    decreases |passes|
  {
    hide Consistent, Sync, Faithful;
    if i == |passes| {
      assert passes[..i] == passes;
    } else {
      var n := |passes| - 1;
      assert passes[..n][..i] == passes[..i];
      AppliedNeverDecreases(k, all, length, passes[..n], i);
      var q := RunIsConsistent(k, all, length, passes[..n]);
      var _ := SyncKeeps(k, all, length, Run(k, passes[..n]), Longest(passes[..n]), q, passes[n]);
    }
  }

  /** An error-free pass over a manifest with new segments publishes the rebuild of that manifest, and any other
      error-free pass changes neither the table nor what is applied. */
  lemma ErrorFreeSync(k: Kernels, all: seq<seq<Mutation>>, length: string -> nat, s: Progress, longest: nat,
                      p: seq<Mutation>, pass: Pass)
    requires Consistent(k, all, length, s, longest, p) && Faithful(all, length, pass)
    requires Sync(k, s, pass.read, pass.open).err == None
    ensures var s' := Sync(k, s, pass.read, pass.open).state;
            if pass.read.Read? && s.applied < pass.read.count
            then s'.applied == pass.read.count && Rebuild(k, all, pass.read.count) == Some(s'.index)
            else s'.applied == s.applied && s'.index == s.index
  {
    hide Rebuild, Load;
    if pass.read.Read? && s.applied <= pass.read.count {
      var n, m := s.applied, pass.read.count;
      LoadCounts(k, s.index, pass.open, n, m);
      var r := LoadIsRebuild(k, all, s.index, pass.open, n, m, p);
    }
  }

  /** What a table holds beyond the first m segments: the rest of those applied, and the part of the next. */
  function Beyond(all: seq<seq<Mutation>>, m: nat, applied: nat, p: seq<Mutation>): seq<Mutation>
    requires m <= applied <= |all|
  {
    Flat(all[m..applied]) + p
  }

  lemma RebuildThenBeyond(k: Kernels, all: seq<seq<Mutation>>, x: Index, m: nat, n: nat, p: seq<Mutation>)
    requires HasPart(k, all, x, n, p) && m <= n
    ensures Rebuild(k, all, m).Some? && ApplyAll(k, Rebuild(k, all, m).value, Beyond(all, m, n, p)) == Some(x)
  {
    var base, rest := Flat(all[..m]), Flat(all[m..n]);
    assert all[..n] == all[..m] + all[m..n];
    FlatConcat(all[..m], all[m..n]);
    ApplyAllConcat(k, EMPTY, base, rest);
    ApplyAllConcat(k, ApplyAll(k, EMPTY, base).value, rest, p);
  }

  /** An error-free pass leaves the rebuild of the manifest it read exactly when that has a segment beyond those
      applied, or replaying over that rebuild whatever the table holds beyond the manifest changes no document and no
      dimension. */
  lemma ErrorFreeSyncIff(k: Kernels, all: seq<seq<Mutation>>, length: string -> nat, s: Progress, longest: nat,
                         p: seq<Mutation>, pass: Pass)
    requires Consistent(k, all, length, s, longest, p) && Faithful(all, length, pass) && pass.read.Read?
    requires Sync(k, s, pass.read, pass.open).err == None
    ensures var m := pass.read.count;
            m <= s.applied ==> Rebuild(k, all, m).Some? && Encodable(k, Beyond(all, m, s.applied, p))
    ensures var m := pass.read.count;
            Rebuild(k, all, m) == Some(Sync(k, s, pass.read, pass.open).state.index) <==>
            s.applied < m || Idle(k, Rebuild(k, all, m).value, Beyond(all, m, s.applied, p))
  {
    hide Rebuild, Load, Sync, Idle, Encodable, Beyond;
    var m := pass.read.count;
    ErrorFreeSync(k, all, length, s, longest, p, pass);
    if m <= s.applied {
      RebuildThenBeyond(k, all, s.index, m, s.applied, p);
      ReplayIsIdle(k, Rebuild(k, all, m).value, Beyond(all, m, s.applied, p));
    }
  }

  /** However many passes failed before and whatever they published, an error-free pass over a manifest no shorter than
      any tried before leaves exactly the from-scratch rebuild of that manifest. */
  lemma ErrorFreeSyncIsRebuild(k: Kernels, all: seq<seq<Mutation>>, length: string -> nat, passes: seq<Pass>,
                               pass: Pass)
    requires AllFaithful(all, length, passes) && Faithful(all, length, pass)
    requires pass.read.Read? && Longest(passes) <= pass.read.count
    requires Sync(k, Run(k, passes), pass.read, pass.open).err == None
    ensures var s := Sync(k, Run(k, passes), pass.read, pass.open).state;
            s.applied == pass.read.count && Rebuild(k, all, pass.read.count) == Some(s.index)
  {
    var p := RunIsConsistent(k, all, length, passes);
    ErrorFreeSync(k, all, length, Run(k, passes), Longest(passes), p, pass);
  }

  // ---- Without that condition it does not hold

  function PutOf(id: string): Mutation {
    Mutation("main", id, Put, Document(id, map[], map[]))
  }

  /** A stale manifest: a failed pass over two segments publishes the first and part of the second; an error-free pass
      that still holds the manifest of one segment then reports success over a table that is not its rebuild. */
  lemma StaleSyncIsNotRebuild(k: Kernels)
    returns (all: seq<seq<Mutation>>, length: string -> nat, passes: seq<Pass>, pass: Pass)
    ensures AllFaithful(all, length, passes) && Faithful(all, length, pass) && pass.read.Read?
    ensures Sync(k, Run(k, passes), pass.read, pass.open).err == None
    ensures Rebuild(k, all, pass.read.count).Some?
    ensures Rebuild(k, all, pass.read.count) != Some(Sync(k, Run(k, passes), pass.read, pass.open).state.index)
  {
    var a, b, c := PutOf("a"), PutOf("b"), PutOf("c");
    all := [[a], [b, c]];
    length := g => if g == "1" then 1 else 2;
    var open := (i: nat) => if i == 0 then Stream([a], true) else Stream([b], false);
    var first := Pass(Read(2, "2"), open);
    passes := [first];
    pass := Pass(Read(1, "1"), open);
    StaleRun(k, a, b, open);
    assert passes[..0] == [];
    assert Run(k, passes) == Sync(k, START, first.read, open).state;
    assert all[..1] == [[a]] && all[..1][..0] == [];
    assert Flat(all[..1]) == [a];
    assert [a][..0] == [];
  }

  lemma StaleRun(k: Kernels, a: Mutation, b: Mutation, open: nat -> Opened)
    requires a == PutOf("a") && b == PutOf("b") && open(0) == Stream([a], true) && open(1) == Stream([b], false)
    ensures var l := Load(k, EMPTY, open, 0, 2);
            !l.ok && l.count == 1 && "b" in l.index.docs
    ensures ApplyAll(k, EMPTY, [a]).Some? && "b" !in ApplyAll(k, EMPTY, [a]).value.docs
  {
    assert Load(k, EMPTY, open, 0, 0) == Loaded(EMPTY, 0, true);
    assert [a][..0] == [] && [b][..0] == [];
    var x := Apply(k, EMPTY, a).value;
    assert Replay(k, EMPTY, [a]) == Replayed(x, true);
    assert Load(k, EMPTY, open, 0, 1) == Loaded(x, 1, true);
    var y := Apply(k, x, b).value;
    assert Replay(k, x, [b]) == Replayed(y, true);
    assert Load(k, EMPTY, open, 0, 2) == Loaded(y, 1, false);
  }
}
