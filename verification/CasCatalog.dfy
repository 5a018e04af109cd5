/** A catalog object that any number of callers change by compare-and-swap: read it with its generation, compute the
    change, write on condition that the generation is still current, and start over on a conflict. Every store call is
    one action. `effect` gives the new catalog, or none if the change is not needed or not allowed. */
module CasCatalog {
  import opened Options

  type Effect<!C, !V> = (C, V) -> Option<V>

  datatype Object<V> = Object(value: V, generation: nat)

  datatype Caller<C, V> =
    | Reading(change: C)
    | Writing(change: C, next: V, generation: Option<nat>)
    | Unneeded(change: C, seen: V)
    | Acknowledged(change: C, wrote: V)
    | Failed

  /** What happened to the object, in order: a committed change of some caller, or its deletion. */
  datatype Event<C> = Commit(caller: nat, change: C) | Erased

  /** The object, the last generation the store issued, the callers, and the history, which no step reads. */
  datatype State<C, V> = State(stored: Option<Object<V>>, generations: nat, callers: map<nat, Caller<C, V>>,
                               log: seq<Event<C>>)

  /** How a write that commits is answered. */
  datatype Reply = Success | ErrorAfterCommit | ConflictAfterCommit

  datatype Action<C> = Call(p: nat, change: C) | Read(p: nat) | Write(p: nat, reply: Reply) | Fail(p: nat) | Erase

  function Current<C, V>(s: State<C, V>, empty: V): V {
    if s.stored.Some? then s.stored.value.value else empty
  }

  /** The condition of the write: absent if nothing was read, else the generation read. */
  predicate Allowed<C, V>(s: State<C, V>, generation: Option<nat>) {
    match generation
    case None => s.stored.None?
    case Some(g) => s.stored.Some? && s.stored.value.generation == g
  }

  function Step<C, V>(s: State<C, V>, a: Action<C>, effect: Effect<C, V>, empty: V): State<C, V> {
    match a
    case Call(p, change) => if p in s.callers then s else s.(callers := s.callers[p := Reading(change)])
    case Read(p) => if p in s.callers && s.callers[p].Reading? then StepRead(s, p, effect, empty) else s
    case Write(p, reply) => if p in s.callers && s.callers[p].Writing? then StepWrite(s, p, reply) else s
    case Fail(p) => if p in s.callers then s.(callers := s.callers[p := Failed]) else s
    case Erase => s.(stored := None, log := s.log + [Erased])
  }

  function StepRead<C, V>(s: State<C, V>, p: nat, effect: Effect<C, V>, empty: V): State<C, V>
    requires p in s.callers && s.callers[p].Reading?
  {
    var c, v := s.callers[p].change, Current(s, empty);
    var next := effect(c, v);
    var caller := if next.None? then Unneeded(c, v)
                  else Writing(c, next.value, if s.stored.Some? then Some(s.stored.value.generation) else None);
    s.(callers := s.callers[p := caller])
  }

  function StepWrite<C, V>(s: State<C, V>, p: nat, reply: Reply): State<C, V>
    requires p in s.callers && s.callers[p].Writing?
  {
    var w := s.callers[p];
    if !Allowed(s, w.generation) then s.(callers := s.callers[p := Reading(w.change)])
    else
      var after := match reply
                   case Success => Acknowledged(w.change, w.next)
                   case ErrorAfterCommit => Failed
                   case ConflictAfterCommit => Reading(w.change);
      State(Some(Object(w.next, s.generations + 1)), s.generations + 1, s.callers[p := after],
            s.log + [Commit(p, w.change)])
  }

  function Run<C, V>(actions: seq<Action<C>>, effect: Effect<C, V>, empty: V): State<C, V> {
    if actions == [] then State(None, 0, map[], [])
    else Step(Run(actions[..|actions| - 1], effect, empty), actions[|actions| - 1], effect, empty)
  }

  // ---- The specification: one change after another

  function Fold<C, V>(log: seq<Event<C>>, effect: Effect<C, V>, empty: V): V {
    if log == [] then empty
    else
      var v, e := Fold(log[..|log| - 1], effect, empty), log[|log| - 1];
      match e
      case Erased => empty
      case Commit(_, c) => if effect(c, v).Some? then effect(c, v).value else v
  }

  /** Every committed change took effect where it stands. */
  ghost predicate TookEffect<C, V>(log: seq<Event<C>>, effect: Effect<C, V>, empty: V) {
    forall i :: 0 <= i < |log| && log[i].Commit? ==> effect(log[i].change, Fold(log[..i], effect, empty)).Some?
  }

  /** A caller's answer, placed in the history. */
  ghost predicate Placed<C, V>(log: seq<Event<C>>, p: nat, k: Caller<C, V>, i: nat, effect: Effect<C, V>, empty: V) {
    match k
    case Acknowledged(c, v) => i < |log| && log[i] == Commit(p, c) && Fold(log[..i + 1], effect, empty) == v
    case Unneeded(c, v) => i <= |log| && Fold(log[..i], effect, empty) == v && effect(c, v).None?
    case _ => true
  }

  ghost predicate CallerOk<C, V>(s: State<C, V>, p: nat, k: Caller<C, V>, effect: Effect<C, V>, empty: V) {
    && (exists i :: Placed(s.log, p, k, i, effect, empty))
    && (k.Writing? ==>
          match k.generation
          case None => effect(k.change, empty) == Some(k.next)
          case Some(g) => g <= s.generations
                          && (s.stored.Some? && s.stored.value.generation == g
                              ==> effect(k.change, s.stored.value.value) == Some(k.next)))
  }

  ghost predicate Inv<C, V>(s: State<C, V>, effect: Effect<C, V>, empty: V) {
    && Current(s, empty) == Fold(s.log, effect, empty) && TookEffect(s.log, effect, empty)
    && (s.stored.Some? ==> s.stored.value.generation <= s.generations)
    && (forall p :: p in s.callers ==> CallerOk(s, p, s.callers[p], effect, empty))
  }

  // ---- Every step keeps the invariant

  lemma PlacedStays<C, V>(log: seq<Event<C>>, e: Event<C>, p: nat, k: Caller<C, V>, i: nat, effect: Effect<C, V>,
                          empty: V)
    requires Placed(log, p, k, i, effect, empty)
    ensures Placed(log + [e], p, k, i, effect, empty)
  {
    if k.Acknowledged? { assert (log + [e])[..i + 1] == log[..i + 1]; }
    if k.Unneeded? { assert (log + [e])[..i] == log[..i]; }
  }

  lemma FoldSnoc<C, V>(log: seq<Event<C>>, e: Event<C>, effect: Effect<C, V>, empty: V)
    requires TookEffect(log, effect, empty)
    requires e.Commit? ==> effect(e.change, Fold(log, effect, empty)).Some?
    ensures TookEffect(log + [e], effect, empty)
    ensures Fold(log + [e], effect, empty)
            == if e.Erased? then empty else effect(e.change, Fold(log, effect, empty)).value
  {
    assert (log + [e])[..|log|] == log;
    forall i | 0 <= i < |log| ensures (log + [e])[..i] == log[..i] {}
  }

  /** A caller that does not move, in a state with a new object or none. */
  lemma OtherCaller<C, V>(s: State<C, V>, s': State<C, V>, e: Event<C>, p: nat, k: Caller<C, V>,
                          effect: Effect<C, V>, empty: V)
    requires CallerOk(s, p, k, effect, empty) && s'.log == s.log + [e] && s.generations <= s'.generations
    requires s'.stored.Some? ==> s'.stored.value.generation == s.generations + 1
    ensures CallerOk(s', p, k, effect, empty)
  {
    var i :| Placed(s.log, p, k, i, effect, empty);
    PlacedStays(s.log, e, p, k, i, effect, empty);
  }

  lemma EraseKeeps<C, V>(s: State<C, V>, effect: Effect<C, V>, empty: V)
    requires Inv(s, effect, empty)
    ensures Inv(Step(s, Erase, effect, empty), effect, empty)
  {
    var s' := Step(s, Erase, effect, empty);
    FoldSnoc(s.log, Erased, effect, empty);
    forall p | p in s'.callers ensures CallerOk(s', p, s'.callers[p], effect, empty) {
      OtherCaller(s, s', Erased, p, s.callers[p], effect, empty);
    }
  }

  lemma MoveKeeps<C, V>(s: State<C, V>, p: nat, k: Caller<C, V>, effect: Effect<C, V>, empty: V)
    requires Inv(s, effect, empty) && CallerOk(s, p, k, effect, empty)
    ensures Inv(s.(callers := s.callers[p := k]), effect, empty)
  {
    var s' := s.(callers := s.callers[p := k]);
    forall q | q in s'.callers ensures CallerOk(s', q, s'.callers[q], effect, empty) {
      var i :| Placed(s.log, q, s'.callers[q], i, effect, empty);
      assert Placed(s'.log, q, s'.callers[q], i, effect, empty);
    }
  }

  lemma IdleOk<C, V>(s: State<C, V>, p: nat, k: Caller<C, V>, effect: Effect<C, V>, empty: V)
    requires k.Reading? || k.Failed?
    ensures CallerOk(s, p, k, effect, empty)
  {
    assert Placed(s.log, p, k, 0, effect, empty);
  }

  lemma ReadKeeps<C, V>(s: State<C, V>, p: nat, effect: Effect<C, V>, empty: V)
    requires Inv(s, effect, empty) && p in s.callers && s.callers[p].Reading?
    ensures Inv(StepRead(s, p, effect, empty), effect, empty)
  {
    var k := StepRead(s, p, effect, empty).callers[p];
    assert s.log[..|s.log|] == s.log;
    assert Placed(s.log, p, k, |s.log|, effect, empty);
    MoveKeeps(s, p, k, effect, empty);
  }

  lemma WriteKeeps<C, V>(s: State<C, V>, p: nat, reply: Reply, effect: Effect<C, V>, empty: V)
    requires Inv(s, effect, empty) && p in s.callers && s.callers[p].Writing?
    ensures Inv(StepWrite(s, p, reply), effect, empty)
  {
    var w := s.callers[p];
    if !Allowed(s, w.generation) {
      IdleOk(s, p, Reading(w.change), effect, empty);
      MoveKeeps(s, p, Reading(w.change), effect, empty);
    } else {
      CommitKeeps(s, p, w, reply, effect, empty);
    }
  }

  lemma CommitKeeps<C, V>(s: State<C, V>, p: nat, w: Caller<C, V>, reply: Reply, effect: Effect<C, V>, empty: V)
    requires Inv(s, effect, empty) && p in s.callers && s.callers[p] == w && w.Writing? && Allowed(s, w.generation)
    ensures Inv(StepWrite(s, p, reply), effect, empty)
  {
    hide Fold, TookEffect;
    var s', e := StepWrite(s, p, reply), Commit(p, w.change);
    assert CallerOk(s, p, w, effect, empty);
    FoldSnoc(s.log, e, effect, empty);
    forall q | q in s'.callers ensures CallerOk(s', q, s'.callers[q], effect, empty) {
      if q != p {
        OtherCaller(s, s', e, q, s.callers[q], effect, empty);
      } else {
        assert s'.log[..|s.log| + 1] == s'.log;
        assert Placed(s'.log, p, s'.callers[p], |s.log|, effect, empty);
      }
    }
  }

  lemma {:induction false} RunInv<C, V>(actions: seq<Action<C>>, effect: Effect<C, V>, empty: V)
    ensures Inv(Run(actions, effect, empty), effect, empty)
  {
    if actions != [] {
      var s, a := Run(actions[..|actions| - 1], effect, empty), actions[|actions| - 1];
      RunInv(actions[..|actions| - 1], effect, empty);
      match a {
        case Call(p, c) =>
          IdleOk(s, p, Reading(c), effect, empty);
          MoveKeeps(s, p, Reading(c), effect, empty);
        case Read(p) => if p in s.callers && s.callers[p].Reading? { ReadKeeps(s, p, effect, empty); }
        case Write(p, reply) => if p in s.callers && s.callers[p].Writing? { WriteKeeps(s, p, reply, effect, empty); }
        case Fail(p) =>
          IdleOk(s, p, Failed, effect, empty);
          MoveKeeps(s, p, Failed, effect, empty);
        case Erase => EraseKeeps(s, effect, empty);
      }
    }
  }

  // ---- The theorems

  /** No committed change is lost, under every interleaving: the catalog is the fold of the committed changes in commit
      order, and each of them took effect there. */
  lemma CatalogIsFold<C, V>(actions: seq<Action<C>>, effect: Effect<C, V>, empty: V)
    ensures var s := Run(actions, effect, empty);
            Current(s, empty) == Fold(s.log, effect, empty) && TookEffect(s.log, effect, empty)
  {
    RunInv(actions, effect, empty);
  }

  /** Every answer has a place in the history: an acknowledged change is committed there and gave the catalog the caller
      wrote, and a change found unneeded was so at that point. */
  lemma AnswersAreLinear<C, V>(actions: seq<Action<C>>, effect: Effect<C, V>, empty: V, p: nat) returns (i: nat)
    requires p in Run(actions, effect, empty).callers
    ensures var s := Run(actions, effect, empty); Placed(s.log, p, s.callers[p], i, effect, empty)
  {
    RunInv(actions, effect, empty);
    var s := Run(actions, effect, empty);
    assert CallerOk(s, p, s.callers[p], effect, empty);
    i :| Placed(s.log, p, s.callers[p], i, effect, empty);
  }

  /** A conditional write: exactly when the object is still the one that was read, it becomes the catalog computed from
      it, whatever the reply, and the change enters the history; a caller told of success is done, one told of a
      conflict starts over, and so does one whose condition failed, with nothing changed. */
  lemma WriteMeans<C, V>(s: State<C, V>, p: nat, c: C, next: V, g: Option<nat>, reply: Reply, effect: Effect<C, V>,
                         empty: V)
    requires Inv(s, effect, empty) && p in s.callers && s.callers[p] == Writing(c, next, g)
    ensures var s' := Step(s, Write(p, reply), effect, empty);
            var still := if g.None? then s.stored.None? else s.stored.Some? && s.stored.value.generation == g.value;
            && s'.callers.Keys == s.callers.Keys
            && (forall q :: q in s.callers && q != p ==> s'.callers[q] == s.callers[q])
            && (still ==>
                  && effect(c, Current(s, empty)) == Some(next)
                  && s'.stored.Some? && s'.stored.value.value == next && s'.stored.value.generation > s.generations
                  && s'.log == s.log + [Commit(p, c)]
                  && (reply == Success ==> s'.callers[p] == Acknowledged(c, next))
                  && (reply == ErrorAfterCommit ==> s'.callers[p] == Failed)
                  && (reply == ConflictAfterCommit ==> s'.callers[p] == Reading(c)))
            && (!still ==> s' == s.(callers := s.callers[p := Reading(c)]))
  {
    assert CallerOk(s, p, s.callers[p], effect, empty);
  }

  /** A caller that reads and writes undisturbed: a change that has an effect on the current catalog is committed and
      acknowledged, and the catalog is its result; one that has none is found unneeded and changes nothing. */
  lemma UndisturbedUpdate<C, V>(s: State<C, V>, p: nat, c: C, effect: Effect<C, V>, empty: V)
    requires Inv(s, effect, empty) && p in s.callers && s.callers[p] == Reading(c)
    ensures var s', v := Step(Step(s, Read(p), effect, empty), Write(p, Success), effect, empty), Current(s, empty);
            && (forall q :: q in s.callers && q != p ==> q in s'.callers && s'.callers[q] == s.callers[q])
            && (effect(c, v).Some? ==>
                  && Current(s', empty) == effect(c, v).value && s'.log == s.log + [Commit(p, c)]
                  && p in s'.callers && s'.callers[p] == Acknowledged(c, effect(c, v).value))
            && (effect(c, v).None? ==> s' == s.(callers := s.callers[p := Unneeded(c, v)]))
  {
  }

  ghost predicate NeverErased<C>(log: seq<Event<C>>) {
    forall i :: 0 <= i < |log| ==> log[i].Commit?
  }

  /** What every effective change keeps, every later catalog keeps. */
  lemma {:induction false} FoldKeeps<C(!new), V(!new)>(log: seq<Event<C>>, i: nat, effect: Effect<C, V>, empty: V,
                                                       keeps: V -> bool)
    requires i <= |log| && NeverErased(log[i..])
    requires forall c, v :: keeps(v) && effect(c, v).Some? ==> keeps(effect(c, v).value)
    requires keeps(Fold(log[..i], effect, empty))
    ensures keeps(Fold(log, effect, empty))
    decreases |log|
  {
    if i == |log| {
      assert log[..i] == log;
    } else {
      var n := |log| - 1;
      assert log[..n][..i] == log[..i] && log[..n][i..] == log[i..][..n - i];
      FoldKeeps(log[..n], i, effect, empty, keeps);
      assert log[i..][n - i] == log[n];
    }
  }
}
