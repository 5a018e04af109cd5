/** The branch catalog of a namespace (branches.json) and the catalog of namespaces (ns.json), over the compare-and-swap
    protocol. */
module Catalogs {
  import opened Options
  import opened CasCatalog
  import Lexicographic
  import ObjectStore

  /** Listing a set of names in order, and a default when there is none: slices.Sorted. */
  method ListNames(names: set<string>, default: string) returns (out: seq<string>)
    ensures names == {} ==> out == [default]
    ensures names != {} ==> ObjectStore.Ascending(out) && forall x :: x in out <==> x in names
  {
    if names == {} { return [default]; }
    var rest := names;
    out := [];
    while rest != {}
      invariant rest <= names && ObjectStore.Ascending(out)
      invariant forall x :: x in out <==> x in names && x !in rest
      decreases rest
    {
      var k :| k in rest;
      rest := rest - {k};
      ObjectStore.InsertSorts(out, k);
      out := ObjectStore.Insert(out, k);
    }
  }

  // ---- Branches

  const DEFAULT_BRANCH := "main"

  datatype BranchChange = AddBranch(branch: string) | RemoveBranch(branch: string)

  function BranchEffect(): Effect<BranchChange, set<string>> {
    (c: BranchChange, v: set<string>) =>
      match c
      case AddBranch(b) => if b in v then None else Some(v + {b})
      case RemoveBranch(b) => if b in v then Some(v - {b}) else None
  }

  method ListBranches(catalog: set<string>) returns (out: seq<string>)
    ensures catalog == {} ==> out == [DEFAULT_BRANCH]
    ensures catalog != {} ==> ObjectStore.Ascending(out) && forall b :: b in out <==> b in catalog
  {
    out := ListNames(catalog, DEFAULT_BRANCH);
  }

  /** The last word of the history on branch b. */
  function SaysPresent(log: seq<Event<BranchChange>>, b: string): bool {
    log != [] &&
    match log[|log| - 1]
    case Erased => false
    case Commit(_, AddBranch(x)) => x == b || SaysPresent(log[..|log| - 1], b)
    case Commit(_, RemoveBranch(x)) => x != b && SaysPresent(log[..|log| - 1], b)
  }

  lemma {:induction false} FoldSaysPresent(log: seq<Event<BranchChange>>, b: string)
    ensures b in Fold(log, BranchEffect(), {}) <==> SaysPresent(log, b)
  {
    if log != [] { FoldSaysPresent(log[..|log| - 1], b); }
  }

  /** Under every interleaving a branch is in the catalog exactly when the last committed change about it added it. */
  lemma BranchesLoseNothing(actions: seq<Action<BranchChange>>, b: string)
    ensures var s := Run(actions, BranchEffect(), {});
            b in Current(s, {}) <==> SaysPresent(s.log, b)
  {
    CatalogIsFold(actions, BranchEffect(), {});
    FoldSaysPresent(Run(actions, BranchEffect(), {}).log, b);
  }

  ghost predicate NoRemoval(log: seq<Event<BranchChange>>, b: string) {
    forall i :: 0 <= i < |log| ==> log[i].Commit? && log[i].change != RemoveBranch(b)
  }

  lemma {:induction false} StaysPresent(log: seq<Event<BranchChange>>, i: nat, b: string)
    requires i <= |log| && SaysPresent(log[..i], b) && NoRemoval(log[i..], b)
    ensures SaysPresent(log, b)
    decreases |log|
  {
    if i == |log| {
      assert log[..i] == log;
    } else {
      var n := |log| - 1;
      assert log[..n][..i] == log[..i] && log[..n][i..] == log[i..][..n - i] && log[i..][n - i] == log[n];
      StaysPresent(log[..n], i, b);
    }
  }

  /** An AddBranch that has returned success, by writing or by finding the branch there, took hold at some point of the
      history, and the branch is in the catalog for as long as no RemoveBranch of it is committed after that point. */
  lemma AddedBranchStays(actions: seq<Action<BranchChange>>, p: nat, b: string) returns (i: nat)
    requires var s := Run(actions, BranchEffect(), {});
             && p in s.callers && (s.callers[p].Acknowledged? || s.callers[p].Unneeded?)
             && s.callers[p].change == AddBranch(b)
    ensures var s := Run(actions, BranchEffect(), {});
            i <= |s.log| && SaysPresent(s.log[..i], b) && (NoRemoval(s.log[i..], b) ==> b in Current(s, {}))
  {
    var s := Run(actions, BranchEffect(), {});
    i := AnswersAreLinear(actions, BranchEffect(), {}, p);
    if s.callers[p].Acknowledged? {
      assert s.log[..i + 1][..i] == s.log[..i];
      i := i + 1;
    }
    FoldSaysPresent(s.log[..i], b);
    BranchesLoseNothing(actions, b);
    if NoRemoval(s.log[i..], b) { StaysPresent(s.log, i, b); }
  }

  // ---- Namespaces

  const DEFAULT_NAMESPACE := "default"

  datatype Metadata = Metadata(createdAt: int, deletedAt: int)

  type Namespaces = map<string, Metadata>

  datatype NamespaceChange = Create(name: string, now: int) | Delete(name: string, now: int)

  function Max(a: int, b: int): int {
    if a < b then b else a
  }

  /** None: the namespace exists already, or is not there to delete, or is deleted already. */
  function NamespaceEffect(): Effect<NamespaceChange, Namespaces> {
    (c: NamespaceChange, v: Namespaces) =>
      match c
      case Create(name, now) => if name in v then None else Some(v[name := Metadata(Max(now, 0), 0)])
      case Delete(name, now) =>
        if name !in v || v[name].deletedAt != 0 then None
        else Some(v[name := v[name].(deletedAt := Max(now, 1))])
  }

  /** v' is v with the namespace created then: active, with the time requested, or 0 for one before the epoch. */
  ghost predicate IsCreated(v: Namespaces, name: string, now: int, v': Namespaces) {
    && name !in v && v'.Keys == v.Keys + {name} && (forall n :: n in v ==> v'[n] == v[n])
    && v'[name].deletedAt == 0 && v'[name].createdAt == (if now < 0 then 0 else now)
  }

  /** v' is v with the namespace deleted then, at a time that is never 0, and otherwise as it was. */
  ghost predicate IsDeleted(v: Namespaces, name: string, now: int, v': Namespaces) {
    && name in v && v[name].deletedAt == 0 && v'.Keys == v.Keys && (forall n :: n in v && n != name ==> v'[n] == v[n])
    && v'[name].createdAt == v[name].createdAt && v'[name].deletedAt == (if now < 1 then 1 else now)
  }

  /** Exactly when a change of the catalog of namespaces has an effect, and which. */
  lemma NamespaceChangeMeans(v: Namespaces, name: string, now: int)
    ensures var r := NamespaceEffect()(Create(name, now), v);
            (r.Some? <==> name !in v) && (r.Some? ==> IsCreated(v, name, now, r.value))
    ensures var r := NamespaceEffect()(Delete(name, now), v);
            && (r.Some? <==> name in v && v[name].deletedAt == 0)
            && (r.Some? ==> IsDeleted(v, name, now, r.value))
  {
  }

  /** An acknowledged change took the catalog it found, at its place in the history, to the one it wrote: a create made
      the namespace active with the requested time, and a delete gave it the requested deletion time. */
  lemma AcknowledgedChange(actions: seq<Action<NamespaceChange>>, p: nat) returns (v: Namespaces)
    requires var s := Run(actions, NamespaceEffect(), map[]); p in s.callers && s.callers[p].Acknowledged?
    ensures var s := Run(actions, NamespaceEffect(), map[]);
            var k := s.callers[p];
            && (exists i :: 0 <= i < |s.log| && s.log[i] == Commit(p, k.change)
                            && v == Fold(s.log[..i], NamespaceEffect(), map[]))
            && (k.change.Create? ==> IsCreated(v, k.change.name, k.change.now, k.wrote))
            && (k.change.Delete? ==> IsDeleted(v, k.change.name, k.change.now, k.wrote))
  {
    hide NamespaceEffect, IsCreated, IsDeleted, Run;
    var s := Run(actions, NamespaceEffect(), map[]);
    var k := s.callers[p];
    CatalogIsFold(actions, NamespaceEffect(), map[]);
    var i := AnswersAreLinear(actions, NamespaceEffect(), map[], p);
    v := Fold(s.log[..i], NamespaceEffect(), map[]);
    assert s.log[..i + 1][..i] == s.log[..i];
    assert NamespaceEffect()(k.change, v) == Some(k.wrote);
    NamespaceChangeMeans(v, k.change.name, k.change.now);
  }

  /** What is known of a namespace: it is there, as created, and deleted then if it is. */
  predicate Knows(v: Namespaces, name: string, m: Metadata) {
    name in v && v[name].createdAt == m.createdAt && (m.deletedAt != 0 ==> v[name] == m)
  }

  /** Entries never vanish, and neither a creation time nor a non-zero deletion time ever changes. */
  lemma NamespacesStay(log: seq<Event<NamespaceChange>>, i: nat, name: string)
    requires NeverErased(log) && i <= |log| && name in Fold(log[..i], NamespaceEffect(), map[])
    ensures Knows(Fold(log, NamespaceEffect(), map[]), name, Fold(log[..i], NamespaceEffect(), map[])[name])
  {
    var m := Fold(log[..i], NamespaceEffect(), map[])[name];
    FoldKeeps(log, i, NamespaceEffect(), map[], v => Knows(v, name, m));
  }

  lemma CommittedCreate(log: seq<Event<NamespaceChange>>, i: nat, name: string)
    requires i < |log| && log[i].Commit? && log[i].change.Create? && log[i].change.name == name
    requires TookEffect(log, NamespaceEffect(), map[])
    ensures name !in Fold(log[..i], NamespaceEffect(), map[]) && name in Fold(log[..i + 1], NamespaceEffect(), map[])
  {
    assert log[..i + 1][..i] == log[..i];
  }

  /** At most one creation of a name is ever committed. */
  lemma CreateCommitsOnce(log: seq<Event<NamespaceChange>>, i: nat, j: nat, name: string)
    requires TookEffect(log, NamespaceEffect(), map[]) && NeverErased(log) && i < |log| && j < |log|
    requires log[i].change.Create? && log[i].change.name == name && log[j].change.Create? && log[j].change.name == name
    ensures i == j
  {
    hide Fold, NamespaceEffect;
    CommittedCreate(log, i, name);
    CommittedCreate(log, j, name);
    if i < j {
      assert log[..j][..i + 1] == log[..i + 1];
      NamespacesStay(log[..j], i + 1, name);
    } else if j < i {
      assert log[..i][..j + 1] == log[..j + 1];
      NamespacesStay(log[..i], j + 1, name);
    }
  }

  /** At most one CreateNamespace of a name ever succeeds. */
  lemma CreateSucceedsOnce(actions: seq<Action<NamespaceChange>>, p: nat, q: nat, name: string)
    requires var s := Run(actions, NamespaceEffect(), map[]);
             && NeverErased(s.log) && p in s.callers && q in s.callers
             && s.callers[p].Acknowledged? && s.callers[p].change.Create? && s.callers[p].change.name == name
             && s.callers[q].Acknowledged? && s.callers[q].change.Create? && s.callers[q].change.name == name
    ensures p == q
  {
    var s := Run(actions, NamespaceEffect(), map[]);
    CatalogIsFold(actions, NamespaceEffect(), map[]);
    var i := AnswersAreLinear(actions, NamespaceEffect(), map[], p);
    var j := AnswersAreLinear(actions, NamespaceEffect(), map[], q);
    CreateCommitsOnce(s.log, i, j, name);
  }

  /** The catalog a caller's answer is about. */
  function About(k: Caller<NamespaceChange, Namespaces>): Namespaces
    requires k.Acknowledged? || k.Unneeded?
  {
    if k.Acknowledged? then k.wrote else k.seen
  }

  lemma AnswerIsAbout(log: seq<Event<NamespaceChange>>, p: nat, k: Caller<NamespaceChange, Namespaces>, i: nat)
    returns (j: nat)
    requires TookEffect(log, NamespaceEffect(), map[]) && Placed(log, p, k, i, NamespaceEffect(), map[])
    requires k.Acknowledged? || k.Unneeded?
    ensures j <= |log| && Fold(log[..j], NamespaceEffect(), map[]) == About(k)
    ensures k.change.Create? ==> k.change.name in About(k)
    ensures k.change.Delete? && k.change.name in About(k) ==> About(k)[k.change.name].deletedAt != 0
  {
    if k.Acknowledged? {
      j := i + 1;
      assert log[..j][..i] == log[..i];
    } else {
      j := i;
    }
  }

  /** Answers stay true: the namespace that a CreateNamespace made or found is there in every later catalog, and the
      metadata that a DeleteNamespace returned is its metadata in every later catalog. */
  lemma NamespaceAnswersStay(actions: seq<Action<NamespaceChange>>, p: nat, k: Caller<NamespaceChange, Namespaces>)
    requires var s := Run(actions, NamespaceEffect(), map[]);
             NeverErased(s.log) && p in s.callers && s.callers[p] == k && (k.Acknowledged? || k.Unneeded?)
    ensures var now := Current(Run(actions, NamespaceEffect(), map[]), map[]);
            && (k.change.Create? ==> k.change.name in About(k) && k.change.name in now)
            && (k.change.Delete? && k.change.name in About(k) ==>
                  && k.change.name in now && now[k.change.name] == About(k)[k.change.name]
                  && now[k.change.name].deletedAt != 0)
  {
    var s := Run(actions, NamespaceEffect(), map[]);
    CatalogIsFold(actions, NamespaceEffect(), map[]);
    var i := AnswersAreLinear(actions, NamespaceEffect(), map[], p);
    var j := AnswerIsAbout(s.log, p, k, i);
    if k.change.name in About(k) { NamespacesStay(s.log, j, k.change.name); }
  }

  /** The namespaces not deleted, in order, or the default one if there is no catalog or none is left. */
  method ActiveNamespaces(catalog: Option<Namespaces>) returns (out: seq<string>)
    ensures var active := if catalog.None? then {} else set n | n in catalog.value && catalog.value[n].deletedAt == 0;
            && (active == {} ==> out == [DEFAULT_NAMESPACE])
            && (active != {} ==> ObjectStore.Ascending(out) && forall n :: n in out <==> n in active)
  {
    if catalog.None? { return [DEFAULT_NAMESPACE]; }
    var names := {};
    var rest := catalog.value.Keys;
    while rest != {}
      invariant rest <= catalog.value.Keys
      invariant names == set n | n in catalog.value && n !in rest && catalog.value[n].deletedAt == 0
      decreases rest
    {
      var n :| n in rest;
      rest := rest - {n};
      if catalog.value[n].deletedAt == 0 { names := names + {n}; }
    }
    out := ListNames(names, DEFAULT_NAMESPACE);
  }
}
