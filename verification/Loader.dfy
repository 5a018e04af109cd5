/** The loader as the object it is: each pass loads into a clone and publishes it, so a published table never
    changes. */
module Loader {
  import opened Options
  import opened Mutations
  import opened Index
  import opened Table
  import LoaderModel

  class Loader {
    var table: Table
    var applied: nat
    var lastGen: string

    ghost predicate Valid()
      reads this, table, table.Footprint()
    {
      table.Valid() && this !in table.Footprint()
    }

    ghost function State(): LoaderModel.Progress
      reads this, table, table.Footprint()
      requires Valid()
    {
      LoaderModel.Progress(table.Logical(), applied, lastGen)
    }

    constructor (kernels: Kernels)
      requires KernelsOk(kernels)
      ensures Valid() && State() == LoaderModel.START && table.kernels == kernels && fresh(table)
    {
      hide Table.Valid, Table.Logical, Table.Footprint;
      table := new Table(kernels);
      applied, lastGen := 0, "";
    }

    /** The mutations of one segment into an unpublished table, up to the first that is refused. */
    static method LoadSegment(t: Table, o: LoaderModel.Opened) returns (ok: bool)
      requires t.Valid()
      modifies t, t.Footprint()
      ensures t.Valid() && forall o :: o in t.Footprint() && o !in old(t.Footprint()) ==> fresh(o)
      ensures LoaderModel.LoadSegment(t.kernels, old(t.Logical()), o) == LoaderModel.Replayed(t.Logical(), ok)
    {
      hide Table.Valid, Table.Logical, Table.Footprint, LoaderModel.Replay, Apply;
      if o.Missing? { return false; }
      var ms := o.mutations;
      ghost var k, x := t.kernels, t.Logical();
      LoaderModel.ReplayNone(k, x);
      assert ms[..0] == [];
      var i := 0;
      while i < |ms|
        invariant 0 <= i <= |ms| && t.Valid()
        invariant forall o :: o in t.Footprint() && o !in old(t.Footprint()) ==> fresh(o)
        invariant LoaderModel.Replay(k, x, ms[..i]) == LoaderModel.Replayed(t.Logical(), true)
      {
        ghost var y := t.Logical();
        var applied := t.ApplyMutation(ms[i]);
        LoaderModel.ReplayOneMore(k, x, ms, i, y, LoaderModel.Replayed(t.Logical(), applied));
        if !applied {
          LoaderModel.ReplayFails(k, x, ms, i + 1);
          return false;
        }
        i := i + 1;
      }
      assert ms[..i] == ms;
      return o.ends;
    }

    /** The segments at positions n up to count, until one fails. */
    static method LoadAll(t: Table, open: nat -> LoaderModel.Opened, n: nat, count: nat) returns (loaded: nat, ok: bool)
      requires t.Valid() && n <= count
      modifies t, t.Footprint()
      ensures t.Valid() && forall o :: o in t.Footprint() && o !in old(t.Footprint()) ==> fresh(o)
      ensures LoaderModel.Load(t.kernels, old(t.Logical()), open, n, count)
              == LoaderModel.Loaded(t.Logical(), loaded, ok)
    {
      hide *;
      ghost var k, x := t.kernels, t.Logical();
      loaded, ok := 0, true;
      LoaderModel.LoadNone(k, x, open, n);
      while n + loaded < count
        invariant n + loaded <= count && t.Valid()
        invariant forall o :: o in t.Footprint() && o !in old(t.Footprint()) ==> fresh(o)
        invariant LoaderModel.Load(k, x, open, n, n + loaded) == LoaderModel.Loaded(t.Logical(), loaded, true)
      {
        ghost var y := t.Logical();
        ok := LoadSegment(t, open(n + loaded));
        LoaderModel.LoadOneMore(k, x, open, n, n + loaded, y, loaded, LoaderModel.Replayed(t.Logical(), ok));
        if !ok {
          LoaderModel.LoadFails(k, x, open, n, n + loaded + 1, count);
          return;
        }
        loaded := loaded + 1;
      }
    }

    /** The new segments, into a clone. */
    method LoadNew(open: nat -> LoaderModel.Opened, count: nat) returns (t: Table, loaded: nat, ok: bool)
      requires Valid() && applied <= count
      ensures fresh(t) && fresh(t.Footprint()) && t.Valid() && t.kernels == table.kernels
      ensures LoaderModel.Load(table.kernels, old(State()).index, open, applied, count)
              == LoaderModel.Loaded(t.Logical(), loaded, ok)
    {
      hide Table.Valid, Table.Logical, Table.View, Table.Footprint, LoaderModel.Load;
      assert allocated(table.Footprint());
      t := table.Clone();
      loaded, ok := LoadAll(t, open, applied, count);
    }

    method Publish(t: Table, applied: nat, gen: string)
      requires t.Valid() && this !in t.Footprint()
      modifies this
      ensures t.Footprint() == old(t.Footprint())
      ensures Valid() && table == t && State() == LoaderModel.Progress(old(t.Logical()), applied, gen)
    {
      hide Table.Valid, Table.Logical, Table.Footprint;
      assert allocated(t.Footprint());
      table, this.applied, lastGen := t, applied, gen;
    }

    /** One pass, over a manifest that may be stale and segments that may fail. Only the loader changes: the table
        published before is left as it was, and a new one is published in its place or none. */
    method Sync(read: LoaderModel.ManifestRead, open: nat -> LoaderModel.Opened)
      returns (loaded: nat, err: Option<LoaderModel.SyncError>)
      requires Valid()
      modifies this
      ensures Valid() && table.kernels == old(table.kernels)
      ensures table == old(table) || (fresh(table) && fresh(table.Footprint()))
      ensures LoaderModel.Sync(old(table).kernels, old(State()), read, open)
              == LoaderModel.Outcome(State(), loaded, err)
    {
      hide Table.Valid, Table.Logical, Table.Footprint, LoaderModel.Load;
      assert allocated(table.Footprint());
      if read.NotFound? { return 0, None; }
      if read.Unreadable? { return 0, Some(LoaderModel.ManifestUnreadable); }
      if read.gen != "" && read.gen == lastGen { return 0, None; }
      if applied > read.count { return 0, Some(LoaderModel.ManifestTruncated); }
      LoaderModel.LoadCounts(table.kernels, State().index, open, applied, read.count);
      var t, ok;
      t, loaded, ok := LoadNew(open, read.count);
      Publish(if loaded > 0 then t else table, applied + loaded, if ok then read.gen else lastGen);
      err := if ok then None else Some(LoaderModel.SegmentFailed);
    }
  }

  /** Snapshot isolation: whatever mutations are applied to a clone, the original keeps its rows and so every answer. */
  method ReplayOnClone(t: Table, ms: seq<Mutation>) returns (c: Table)
    requires t.Valid()
    ensures t.Valid() && t.View() == old(t.View())
    ensures fresh(c) && c.Valid() && c.Logical() == LoaderModel.Replay(t.kernels, old(t.Logical()), ms).index
  {
    hide Table.Valid, Table.View, Table.Logical, Table.Footprint, LoaderModel.Replay;
    assert allocated(t.Footprint());
    c := t.Clone();
    var _ := Loader.LoadSegment(c, LoaderModel.Stream(ms, true));
  }
}
