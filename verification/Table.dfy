/** The table as the object it is: columns updated in place, cloned before a load, searched row by row. Every method is
    proved against the functions on rows. */
module Table {
  import opened Options
  import opened Mutations
  import opened Index
  import opened Columns
  import opened TableRefinement
  import opened TopK
  import opened HitHeap
  import opened Search
  import Lexicographic

  /** A slice: its backing storage has an identity, and writes and appends are seen by everyone who holds it. */
  class Slice<T> {
    var items: seq<T>

    constructor (items: seq<T>)
      ensures this.items == items
    {
      this.items := items;
    }

    method Write(i: nat, x: T)
      requires i < |items|
      modifies this
      ensures items == old(items)[i := x]
    {
      items := items[i := x];
    }

    /** copy into items[at .. at + n]. */
    method Overwrite(at: nat, n: nat, xs: seq<T>)
      requires at + n <= |items|
      modifies this
      ensures items == old(items)[..at] + xs + old(items)[at + n..]
    {
      items := items[..at] + xs + items[at + n..];
    }

    method Append(xs: seq<T>)
      modifies this
      ensures items == old(items) + xs
    {
      items := items + xs;
    }
  }

  /** A map, likewise. */
  class Dict<V> {
    var entries: map<string, V>

    constructor (entries: map<string, V>)
      ensures this.entries == entries
    {
      this.entries := entries;
    }

    method Put(k: string, v: V)
      modifies this
      ensures entries == old(entries)[k := v]
    {
      entries := entries[k := v];
    }
  }

  type AttrSlice = Slice<Option<Attribute>>

  class VectorColumn {
    const dim: nat
    const data: Slice<Word>
    const hasVec: Slice<bool>
    const invNorms: Slice<real>

    ghost function Storage(): set<object> {
      {data as object, hasVec as object, invNorms as object}
    }

    ghost function View(): Column
      reads Storage()
    {
      Column(dim, data.items, hasVec.items, invNorms.items)
    }

    constructor (dim: nat, n: nat)
      ensures View() == FreshColumn(dim, n) && fresh(Storage())
    {
      this.dim := dim;
      data := new Slice(seq(n * dim, _ => 0));
      hasVec := new Slice(seq(n, _ => false));
      invNorms := new Slice(seq(n, _ => 0.0));
    }

    /** A column of the same cells in storage of its own. */
    constructor Copy(c: VectorColumn)
      ensures View() == c.View() && fresh(Storage())
    {
      dim := c.dim;
      data := new Slice(c.data.items);
      hasVec := new Slice(c.hasVec.items);
      invNorms := new Slice(c.invNorms.items);
    }

    method Set(n: nat, r: nat, v: Vector)
      requires ColumnOk(View(), n) && r < n
      modifies Storage()
      ensures View() == SetCell(old(View()), n, r, v)
    {
      RowBounds(r, n, dim);
      data.Overwrite(r * dim, dim, v.words);
      hasVec.Write(r, true);
      invNorms.Write(r, v.invNorm);
    }

    method Read(n: nat, r: nat) returns (v: Option<Vector>)
      requires ColumnOk(View(), n) && r < n
      ensures v == Cell(View(), n, r)
    {
      if !hasVec.items[r] { return None; }
      var offset := r * dim;
      RowBounds(r, n, dim);
      return Some(Vector(data.items[offset..offset + dim], invNorms.items[r]));
    }

    method Clear(r: nat)
      requires r < |hasVec.items| == |invNorms.items|
      modifies hasVec, invNorms
      ensures View() == ClearCell(old(View()), r)
    {
      hasVec.Write(r, false);
      invNorms.Write(r, 0.0);
    }

    method Append(v: Option<Vector>)
      modifies Storage()
      ensures View() == AppendCell(old(View()), v)
    {
      match v {
        case None =>
          data.Append(seq(dim, _ => 0));
          hasVec.Append([false]);
          invNorms.Append([0.0]);
        case Some(w) =>
          data.Append(w.words);
          hasVec.Append([true]);
          invNorms.Append([w.invNorm]);
      }
    }
  }

  /** The map of vector columns, and the loops over it. */
  class VectorMap {
    var columns: map<string, VectorColumn>

    ghost function Storage(): set<object>
      reads this
    {
      set c, o: object | c in columns && o in columns[c].Storage() :: o
    }

    /** No two columns share a slice. */
    ghost predicate Separate()
      reads this
    {
      forall c, d :: c in columns && d in columns && c != d ==> columns[c].Storage() !! columns[d].Storage()
    }

    ghost function Views(): map<string, Column>
      reads this, Storage()
    {
      map c | c in columns :: columns[c].View()
    }

    constructor ()
      ensures Separate() && Storage() == {} && Views() == map[]
    {
      columns := map[];
    }

    lemma At(c: string)
      requires c in columns
      ensures columns[c].Storage() <= Storage()
      ensures c in Views() && Views()[c] == columns[c].View()
    {
    }

    lemma Keys()
      ensures Views().Keys == columns.Keys
    {
    }

    method Add(c: string, dim: nat, n: nat)
      requires Separate() && c !in columns
      modifies this
      ensures Separate()
      ensures forall o :: o in Storage() && o !in old(Storage()) ==> fresh(o)
      ensures Views() == old(Views())[c := FreshColumn(dim, n)]
    {
      var column := new VectorColumn(dim, n);
      columns := columns[c := column];
    }

    /** Columns for the vectors that have none, without a value in any row. */
    method AddAll(staged: Vectors, n: nat)
      requires Separate()
      modifies this
      ensures Separate()
      ensures forall o :: o in Storage() && o !in old(Storage()) ==> fresh(o)
      ensures Views() == ColumnsAdded(old(Views()), staged, n, staged.Keys)
    {
      hide Views, Storage, Separate, FreshColumn;
      ghost var was := Views();
      var todo := staged.Keys;
      while todo != {}
        invariant todo <= staged.Keys && Separate()
        invariant forall o :: o in Storage() && o !in old(Storage()) ==> fresh(o)
        invariant Views() == ColumnsAdded(was, staged, n, staged.Keys - todo)
        decreases todo
      {
        var c :| c in todo;
        Keys();
        ColumnsAddedStep(was, staged, n, staged.Keys - todo, c);
        if c !in columns { Add(c, |staged[c].words|, n); }
        assert staged.Keys - todo + {c} == staged.Keys - (todo - {c});
        todo := todo - {c};
      }
      assert staged.Keys - todo == staged.Keys;
    }

    method Clear(c: string, r: nat)
      requires Separate() && c in columns && r < |columns[c].hasVec.items| == |columns[c].invNorms.items|
      modifies columns[c].Storage()
      ensures Views() == old(Views())[c := ClearCell(old(Views())[c], r)]
    {
      columns[c].Clear(r);
    }

    method ClearAll(r: nat, staged: Vectors, n: nat)
      requires Separate() && Sized(Views(), n) && r < n
      modifies Storage()
      ensures columns == old(columns)
      ensures Views() == UpdateAll(old(Views()), Clearing(r, staged), columns.Keys)
    {
      hide UpdateAll, ClearCell, Views, Storage, Separate;
      Keys();
      ghost var was, f := Views(), Clearing(r, staged);
      UpdateNone(was, f);
      var keys := columns.Keys;
      var todo := keys;
      assert keys - todo == {};
      while todo != {}
        invariant todo <= keys && Separate() && columns == old(columns) && Storage() == old(Storage())
        invariant Views() == UpdateAll(was, f, keys - todo)
        decreases todo
      {
        var c :| c in todo;
        At(c);
        UpdateStep(was, f, keys - todo, c);
        if c !in staged { Clear(c, r); }
        assert keys - todo + {c} == keys - (todo - {c});
        todo := todo - {c};
      }
      assert keys - todo == keys;
    }

    method Set(c: string, n: nat, r: nat, v: Vector)
      requires Separate() && c in columns && ColumnOk(columns[c].View(), n) && r < n
      modifies columns[c].Storage()
      ensures Views() == old(Views())[c := SetCell(old(Views())[c], n, r, v)]
    {
      columns[c].Set(n, r, v);
    }

    method SetAll(n: nat, r: nat, staged: Vectors)
      requires Separate() && Sized(Views(), n) && r < n && staged.Keys <= columns.Keys
      modifies Storage()
      ensures columns == old(columns)
      ensures Views() == UpdateAll(old(Views()), Setting(n, r, staged), staged.Keys)
    {
      hide UpdateAll, SetCell, Views, Storage, Separate;
      Keys();
      ghost var was, f := Views(), Setting(n, r, staged);
      UpdateNone(was, f);
      var todo := staged.Keys;
      assert staged.Keys - todo == {};
      while todo != {}
        invariant todo <= staged.Keys && Separate() && columns == old(columns) && Storage() == old(Storage())
        invariant Views() == UpdateAll(was, f, staged.Keys - todo)
        decreases todo
      {
        var c :| c in todo;
        At(c);
        UpdateStep(was, f, staged.Keys - todo, c);
        assert ColumnOk(was[c], n);
        Set(c, n, r, staged[c]);
        assert staged.Keys - todo + {c} == staged.Keys - (todo - {c});
        todo := todo - {c};
      }
      assert staged.Keys - todo == staged.Keys;
    }

    method Append(c: string, v: Option<Vector>)
      requires Separate() && c in columns
      modifies columns[c].Storage()
      ensures Views() == old(Views())[c := AppendCell(old(Views())[c], v)]
    {
      columns[c].Append(v);
    }

    method AppendAll(staged: Vectors)
      requires Separate()
      modifies Storage()
      ensures columns == old(columns)
      ensures Views() == UpdateAll(old(Views()), Appending(staged), columns.Keys)
    {
      hide UpdateAll, AppendCell, Views, Storage, Separate;
      Keys();
      ghost var was, f := Views(), Appending(staged);
      UpdateNone(was, f);
      var keys := columns.Keys;
      var todo := keys;
      assert keys - todo == {};
      while todo != {}
        invariant todo <= keys && Separate() && columns == old(columns) && Storage() == old(Storage())
        invariant Views() == UpdateAll(was, f, keys - todo)
        decreases todo
      {
        var c :| c in todo;
        At(c);
        UpdateStep(was, f, keys - todo, c);
        Append(c, Lift(staged, c));
        assert keys - todo + {c} == keys - (todo - {c});
        todo := todo - {c};
      }
      assert keys - todo == keys;
    }

    method AddCopy(c: string, column: VectorColumn)
      requires Separate() && c !in columns
      modifies this
      ensures Separate() && columns.Keys == old(columns.Keys) + {c}
      ensures forall o :: o in Storage() && o !in old(Storage()) ==> fresh(o)
      ensures Views() == old(Views())[c := column.View()]
    {
      var copy := new VectorColumn.Copy(column);
      columns := columns[c := copy];
    }

    method CopyFrom(m: VectorMap)
      requires Separate() && columns == map[] && Storage() == {} && Views() == map[] && m != this
               && this !in m.Storage()
      modifies this
      ensures Separate() && Views() == m.Views()
      ensures forall o :: o in Storage() ==> fresh(o)
    {
      hide Separate, Storage, Views;
      m.Keys();
      ghost var was := m.Views();
      var todo := m.columns.Keys;
      while todo != {}
        invariant todo <= m.columns.Keys && columns.Keys == m.columns.Keys - todo && Separate()
        invariant this !in m.Storage() && m.Views() == was && m.columns == old(m.columns)
        invariant forall o :: o in Storage() ==> fresh(o)
        invariant forall c :: c in Views() ==> c in was && Views()[c] == was[c]
        decreases todo
      {
        var c :| c in todo;
        m.At(c);
        assert allocated(m.Storage());
        AddCopy(c, m.columns[c]);
        todo := todo - {c};
      }
      Keys();
    }

    /** A map of the same columns in storage of its own. */
    constructor Copy(m: VectorMap)
      ensures Separate() && fresh(Storage()) && this !in Storage() && Views() == m.Views()
    {
      columns := map[];
      new;
      CopyFrom(m);
    }
  }

  /** The map of attribute columns, and the loops over it. */
  class AttrMap {
    var columns: map<string, AttrSlice>

    ghost function Storage(): set<object>
      reads this
    {
      columns.Values
    }

    ghost predicate Separate()
      reads this
    {
      forall k, l :: k in columns && l in columns && k != l ==> columns[k] != columns[l]
    }

    ghost function Views(): map<string, AttrCells>
      reads this, Storage()
    {
      map k | k in columns :: columns[k].items
    }

    constructor ()
      ensures Separate() && Storage() == {} && Views() == map[]
    {
      columns := map[];
    }

    lemma At(k: string)
      requires k in columns
      ensures columns[k] in Storage()
      ensures k in Views() && Views()[k] == columns[k].items
    {
    }

    lemma Keys()
      ensures Views().Keys == columns.Keys
    {
    }

    method Add(k: string, n: nat)
      requires Separate() && k !in columns
      modifies this
      ensures Separate()
      ensures forall o :: o in Storage() && o !in old(Storage()) ==> fresh(o)
      ensures Views() == old(Views())[k := seq(n, _ => None)]
    {
      var column := new Slice(seq(n, _ => None));
      columns := columns[k := column];
    }

    method AddAll(attributes: Attributes, n: nat)
      requires Separate()
      modifies this
      ensures Separate()
      ensures forall o :: o in Storage() && o !in old(Storage()) ==> fresh(o)
      ensures Views() == AttrsAdded(old(Views()), n, attributes.Keys)
    {
      hide Views, Storage, Separate;
      ghost var was := Views();
      var todo := attributes.Keys;
      while todo != {}
        invariant todo <= attributes.Keys && Separate()
        invariant forall o :: o in Storage() && o !in old(Storage()) ==> fresh(o)
        invariant Views() == AttrsAdded(was, n, attributes.Keys - todo)
        decreases todo
      {
        var k :| k in todo;
        Keys();
        AttrsAddedStep(was, n, attributes.Keys - todo, k);
        if k !in columns { Add(k, n); }
        assert attributes.Keys - todo + {k} == attributes.Keys - (todo - {k});
        todo := todo - {k};
      }
      assert attributes.Keys - todo == attributes.Keys;
    }

    method Write(k: string, r: nat, a: Option<Attribute>)
      requires Separate() && k in columns && r < |columns[k].items|
      modifies columns[k]
      ensures Views() == old(Views())[k := old(columns[k].items)[r := a]]
    {
      columns[k].Write(r, a);
    }

    method ClearAll(r: nat, attributes: Attributes, n: nat)
      requires Separate() && AttrsSized(Views(), n) && r < n
      modifies Storage()
      ensures columns == old(columns)
      ensures Views() == UpdateAll(old(Views()), ClearingAttr(r, attributes), columns.Keys)
    {
      hide UpdateAll, Views, Storage, Separate;
      Keys();
      ghost var was, f := Views(), ClearingAttr(r, attributes);
      UpdateNone(was, f);
      var keys := columns.Keys;
      var todo := keys;
      assert keys - todo == {};
      while todo != {}
        invariant todo <= keys && Separate() && columns == old(columns) && Storage() == old(Storage())
        invariant Views() == UpdateAll(was, f, keys - todo)
        decreases todo
      {
        var k :| k in todo;
        At(k);
        UpdateStep(was, f, keys - todo, k);
        assert |was[k]| == n;
        if k !in attributes { Write(k, r, None); }
        assert keys - todo + {k} == keys - (todo - {k});
        todo := todo - {k};
      }
      assert keys - todo == keys;
    }

    method SetAll(r: nat, attributes: Attributes, n: nat)
      requires Separate() && AttrsSized(Views(), n) && r < n && attributes.Keys <= columns.Keys
      modifies Storage()
      ensures columns == old(columns)
      ensures Views() == UpdateAll(old(Views()), SettingAttr(r, attributes), attributes.Keys)
    {
      hide UpdateAll, Views, Storage, Separate;
      Keys();
      ghost var was, f := Views(), SettingAttr(r, attributes);
      UpdateNone(was, f);
      var todo := attributes.Keys;
      assert attributes.Keys - todo == {};
      while todo != {}
        invariant todo <= attributes.Keys && Separate() && columns == old(columns) && Storage() == old(Storage())
        invariant Views() == UpdateAll(was, f, attributes.Keys - todo)
        decreases todo
      {
        var k :| k in todo;
        At(k);
        UpdateStep(was, f, attributes.Keys - todo, k);
        assert |was[k]| == n;
        Write(k, r, Some(attributes[k]));
        assert attributes.Keys - todo + {k} == attributes.Keys - (todo - {k});
        todo := todo - {k};
      }
      assert attributes.Keys - todo == attributes.Keys;
    }

    method Append(k: string, a: Option<Attribute>)
      requires Separate() && k in columns
      modifies columns[k]
      ensures Views() == old(Views())[k := old(columns[k].items) + [a]]
    {
      columns[k].Append([a]);
    }

    method AppendAll(attributes: Attributes)
      requires Separate()
      modifies Storage()
      ensures columns == old(columns)
      ensures Views() == UpdateAll(old(Views()), AppendingAttr(attributes), columns.Keys)
    {
      hide UpdateAll, Views, Storage, Separate;
      Keys();
      ghost var was, f := Views(), AppendingAttr(attributes);
      UpdateNone(was, f);
      var keys := columns.Keys;
      var todo := keys;
      assert keys - todo == {};
      while todo != {}
        invariant todo <= keys && Separate() && columns == old(columns) && Storage() == old(Storage())
        invariant Views() == UpdateAll(was, f, keys - todo)
        decreases todo
      {
        var k :| k in todo;
        At(k);
        UpdateStep(was, f, keys - todo, k);
        Append(k, Lift(attributes, k));
        assert keys - todo + {k} == keys - (todo - {k});
        todo := todo - {k};
      }
      assert keys - todo == keys;
    }

    constructor Copy(m: AttrMap)
      ensures Separate() && fresh(Storage()) && this !in Storage() && Views() == m.Views()
    {
      columns := map[];
      new;
      var todo := m.columns.Keys;
      while todo != {}
        invariant todo <= m.columns.Keys && columns.Keys == m.columns.Keys - todo && Separate()
        invariant forall k :: k in columns ==> fresh(columns[k]) && columns[k].items == m.columns[k].items
        decreases todo
      {
        var k :| k in todo;
        var column := new Slice(m.columns[k].items);
        todo, columns := todo - {k}, columns[k := column];
      }
    }
  }

  datatype UpsertError = EmptyDocId | DimensionDiffers(column: string) | NotEncodable(column: string)

  class Table {
    const kernels: Kernels
    var numRows: nat
    const docIDs: Slice<string>
    const index: Dict<nat>
    const tombstones: Slice<bool>
    const vectors: VectorMap
    const attrs: AttrMap

    /** Every slice and map of the table. */
    ghost function Footprint(): set<object>
      reads vectors, attrs
    {
      Headers() + vectors.Storage() + attrs.Storage()
    }

    ghost function Headers(): set<object> {
      {docIDs as object, index as object, tombstones as object, vectors as object, attrs as object}
    }

    /** No two of them are the same. */
    ghost predicate Separate()
      reads vectors, attrs
    {
      && vectors.Separate() && attrs.Separate() && vectors.Storage() !! attrs.Storage()
      && Headers() + {this} !! vectors.Storage() + attrs.Storage()
    }

    ghost function View(): Rows
      reads this, Footprint()
    {
      Rows(numRows, docIDs.items, index.entries, tombstones.items, vectors.Views(), attrs.Views())
    }

    ghost predicate Valid()
      reads this, Footprint()
    {
      KernelsOk(kernels) && Separate() && RowsOk(View())
    }

    /** The documents and dimensions this table stands for. */
    ghost function Logical(): Index
      reads this, Footprint()
      requires Valid()
    {
      ToIndex(View())
    }

    constructor (kernels: Kernels)
      requires KernelsOk(kernels)
      ensures Valid() && this.kernels == kernels && Logical() == EMPTY && fresh(Footprint()) && Footprint() == Headers()
    {
      hide VectorMap.Storage, VectorMap.Views, VectorMap.Separate, AttrMap.Storage, AttrMap.Views, AttrMap.Separate,
           KernelsOk;
      this.kernels, numRows := kernels, 0;
      docIDs := new Slice([]);
      index := new Dict(map[]);
      tombstones := new Slice([]);
      vectors := new VectorMap();
      attrs := new AttrMap();
    }

    constructor From(kernels: Kernels, numRows: nat, docIDs: Slice<string>, index: Dict<nat>, tombstones: Slice<bool>,
                     vectors: VectorMap, attrs: AttrMap)
      ensures this.kernels == kernels && this.numRows == numRows && this.docIDs == docIDs && this.index == index
      ensures this.tombstones == tombstones && this.vectors == vectors && this.attrs == attrs
    {
      this.kernels, this.numRows, this.docIDs, this.index := kernels, numRows, docIDs, index;
      this.tombstones, this.vectors, this.attrs := tombstones, vectors, attrs;
    }

    /** The checks of an upsert, before anything changes: the encoded vectors, or why one cannot be stored. */
    method Stage(vecs: map<string, seq<real>>) returns (staged: Vectors, err: Option<UpsertError>)
      requires Valid()
      ensures err == None <==> Accepts(kernels, Logical().dims, vecs)
      ensures err == None ==> staged == Staged(kernels, vecs) && Columns.Fits(View(), staged)
      ensures err == None ==> forall c :: c in staged <==> c in vecs && vecs[c] != []
      ensures err == None ==> forall c :: c in staged ==>
                kernels.encode(vecs[c]) == Some(staged[c].words) && staged[c].invNorm == kernels.invNorm(vecs[c])
      ensures err != Some(EmptyDocId)
      ensures err.Some? && err.value.DimensionDiffers? ==>
                var c := err.value.column;
                c in Stored(vecs) && c in vectors.columns && |vecs[c]| != vectors.columns[c].dim
      ensures err.Some? && err.value.NotEncodable? ==>
                var c := err.value.column; c in Stored(vecs) && kernels.encode(vecs[c]).None?
    {
      staged, err := map[], None;
      var todo := vecs.Keys;
      while todo != {}
        invariant todo <= vecs.Keys
        invariant forall c :: c in Stored(vecs) && c !in todo ==> Storable(kernels, Dim(Dims(View()), c), vecs[c])
        invariant forall c :: c in staged <==> c in Stored(vecs) && c !in todo
        invariant forall c :: c in staged ==>
                    staged[c] == Vector(kernels.encode(vecs[c]).value, kernels.invNorm(vecs[c]))
        decreases todo
      {
        var c :| c in todo;
        todo := todo - {c};
        if vecs[c] != [] {
          if c in vectors.columns && |vecs[c]| != vectors.columns[c].dim {
            assert !Storable(kernels, Dim(Dims(View()), c), vecs[c]);
            return staged, Some(DimensionDiffers(c));
          }
          var encoded := kernels.encode(vecs[c]);
          if encoded.None? {
            assert !Storable(kernels, Dim(Dims(View()), c), vecs[c]);
            return staged, Some(NotEncodable(c));
          }
          staged := staged[c := Vector(encoded.value, kernels.invNorm(vecs[c]))];
        }
      }
      StagedFits(kernels, View(), vecs);
    }

    // ---- The operations

    method ReviveRow(r: nat, staged: Vectors, attributes: Attributes)
      requires Separate() && RowsOk(View()) && r < numRows
      modifies vectors.Storage(), attrs.Storage()
      ensures vectors.columns == old(vectors.columns) && attrs.columns == old(attrs.columns)
      ensures Separate() && View() == ClearRow(old(View()), r, staged, attributes)
    {
      hide VectorMap.Storage, VectorMap.Views, VectorMap.Separate, AttrMap.Storage, AttrMap.Views, AttrMap.Separate,
           UpdateAll, RowsOk, ClearRow, Clearing, ClearingAttr, Sized, AttrsSized;
      ghost var was := View();
      RowsSized(was);
      vectors.Keys();
      attrs.Keys();
      assert allocated(vectors.Storage()) && allocated(attrs.Storage());
      attrs.ClearAll(r, attributes, numRows);
      vectors.ClearAll(r, staged, numRows);
      ClearRowIsUpdate(was, r, staged, attributes);
    }

    method WriteRow(r: nat, staged: Vectors, attributes: Attributes)
      requires Separate() && RowsOk(View()) && r < numRows
      requires staged.Keys <= vectors.columns.Keys && attributes.Keys <= attrs.columns.Keys
      modifies tombstones, vectors.Storage(), attrs.Storage()
      ensures Separate() && View() == FillRow(old(View()), r, staged, attributes)
    {
      hide VectorMap.Storage, VectorMap.Views, VectorMap.Separate, AttrMap.Storage, AttrMap.Views, AttrMap.Separate,
           UpdateAll, RowsOk, FillRow, Setting, SettingAttr, Sized, AttrsSized;
      ghost var was := View();
      RowsSized(was);
      FillRowIsUpdate(was, r, staged, attributes);
      assert allocated(vectors.Storage()) && allocated(attrs.Storage());
      tombstones.Write(r, false);
      vectors.SetAll(numRows, r, staged);
      attrs.SetAll(r, attributes, numRows);
    }

    method AddRow(id: string, staged: Vectors, attributes: Attributes)
      requires Separate()
      modifies this, docIDs, index, tombstones, vectors.Storage(), attrs.Storage()
      ensures Separate() && View() == AppendRow(old(View()), id, staged, attributes)
    {
      hide VectorMap.Storage, VectorMap.Views, VectorMap.Separate, AttrMap.Storage, AttrMap.Views, AttrMap.Separate,
           UpdateAll, AppendRow, Appending, AppendingAttr;
      ghost var was := View();
      vectors.Keys();
      attrs.Keys();
      assert allocated(vectors.Storage()) && allocated(attrs.Storage());
      docIDs.Append([id]);
      tombstones.Append([false]);
      index.Put(id, numRows);
      numRows := numRows + 1;
      vectors.AppendAll(staged);
      attrs.AppendAll(attributes);
      AppendRowIsUpdate(was, View(), id, staged, attributes);
    }

    method AddColumnsFor(staged: Vectors, attributes: Attributes)
      requires Separate()
      modifies vectors, attrs
      ensures Separate() && forall o :: o in Footprint() && o !in old(Footprint()) ==> fresh(o)
      ensures View() == AddAttrColumns(AddColumns(old(View()), staged), attributes)
    {
      hide VectorMap.Storage, VectorMap.Views, VectorMap.Separate, AttrMap.Storage, AttrMap.Views, AttrMap.Separate;
      assert allocated(vectors.Storage()) && allocated(attrs.Storage());
      vectors.AddAll(staged, numRows);
      assert vectors.Storage() !! attrs.Storage() && Headers() + {this} !! vectors.Storage() + attrs.Storage();
      assert allocated(vectors.Storage());
      attrs.AddAll(attributes, numRows);
    }

    method RewriteRow(r: nat, staged: Vectors, attributes: Attributes)
      requires Separate() && RowsOk(View()) && r < numRows
      requires staged.Keys <= vectors.columns.Keys && attributes.Keys <= attrs.columns.Keys
      modifies tombstones, vectors.Storage(), attrs.Storage()
      ensures var was := old(View());
              var cleared := if was.tombstones[r] then ClearRow(was, r, staged, attributes) else was;
              RowsOk(cleared) && Separate() && View() == FillRow(cleared, r, staged, attributes)
    {
      ClearRowOk(View(), r, staged, attributes);
      if tombstones.items[r] { ReviveRow(r, staged, attributes); }
      WriteRow(r, staged, attributes);
    }

    /** The part of an upsert after its checks. */
    method Store(id: string, staged: Vectors, attributes: Attributes)
      requires Separate() && RowsOk(View()) && Columns.Fits(View(), staged) && id != ""
      modifies this, Footprint()
      ensures Separate() && forall o :: o in Footprint() && o !in old(Footprint()) ==> fresh(o)
      ensures RowsOk(View()) && ToIndex(View()) == PutStaged(old(ToIndex(View())), id, staged, attributes)
    {
      ghost var was := View();
      AddColumnsFor(staged, attributes);
      ghost var t1 := View();
      WithColumns(was, t1, staged, attributes);
      if id in index.entries {
        RewriteRow(index.entries[id], staged, attributes);
      } else {
        AddRow(id, staged, attributes);
      }
      UpsertIs(was, t1, View(), id, staged, attributes);
    }

    method Put(d: Document, staged: Vectors)
      requires Valid() && PutAllowed(kernels, Logical(), d)
      requires staged == Staged(kernels, d.vectors) && Columns.Fits(View(), staged)
      modifies this, Footprint()
      ensures Valid() && forall o :: o in Footprint() && o !in old(Footprint()) ==> fresh(o)
      ensures Logical() == PutDoc(kernels, old(Logical()), d)
    {
      PutStagedIsPut(kernels, Logical(), d);
      Store(d.id, staged, d.attributes);
    }

    /** Stores a document, merging into a live one, or refuses it and changes nothing. */
    method Upsert(d: Document) returns (err: Option<UpsertError>)
      requires Valid()
      modifies this, Footprint()
      ensures Valid() && forall o :: o in Footprint() && o !in old(Footprint()) ==> fresh(o)
      ensures err == None <==> PutAllowed(kernels, old(Logical()), d)
      ensures err == None ==> Logical() == PutDoc(kernels, old(Logical()), d)
      ensures err == None <==> CanPut(kernels, old(Logical()), d)
      ensures err == None ==> IsPut(kernels, old(Logical()), d, Logical())
      ensures err == Some(EmptyDocId) <==> d.id == ""
      ensures err != None ==> View() == old(View())
    {
      hide VectorMap.Storage, VectorMap.Views, VectorMap.Separate, AttrMap.Storage, AttrMap.Views, AttrMap.Separate,
           Separate, KernelsOk, RowsOk, Docs, Accepts, Columns.Fits, Staged, CanPut, IsPut, PutDoc;
      assert allocated(vectors.Storage()) && allocated(attrs.Storage());
      PutAllowedIff(kernels, Logical(), d);
      if PutAllowed(kernels, Logical(), d) { PutMeans(kernels, Logical(), d); }
      if d.id == "" { return Some(EmptyDocId); }
      var staged: Vectors;
      staged, err := Stage(d.vectors);
      assert Footprint() == old(Footprint());
      if err.None? { Put(d, staged); }
    }

    /** Marks a live document deleted; anything else is left alone. */
    method Delete(id: string) returns (deleted: bool)
      requires Valid()
      modifies tombstones
      ensures Valid() && Logical() == DeleteDoc(old(Logical()), id) && IsDelete(old(Logical()), id, Logical())
      ensures deleted <==> id in old(Logical()).docs
    {
      hide VectorMap.Storage, VectorMap.Views, VectorMap.Separate, AttrMap.Storage, AttrMap.Views, AttrMap.Separate,
           IsDelete, DeleteDoc, KernelsOk, ToIndex;
      assert allocated(vectors.Storage()) && allocated(attrs.Storage());
      DeleteMeans(Logical(), id);
      ghost var was := View();
      if id !in index.entries || tombstones.items[index.entries[id]] {
        NothingToDelete(was, id);
        return false;
      }
      tombstones.Write(index.entries[id], true);
      MarkedIsDeleted(was, View(), id);
      return true;
    }

    method ReadVector(c: string, r: nat) returns (v: Option<Vector>)
      requires Valid() && r < numRows && c in vectors.columns
      ensures v == VecAt(View(), c, r)
    {
      assert View().vectors[c] == vectors.columns[c].View();
      v := vectors.columns[c].Read(numRows, r);
    }

    method ReadVectors(r: nat, ghost cells: string -> Option<Vector>) returns (vecs: map<string, seq<real>>)
      requires Valid() && r < numRows && CellsAre(View(), r, cells)
      ensures forall c :: c in vecs <==> c in vectors.columns && cells(c).Some?
      ensures forall c :: c in vecs ==> vecs[c] == kernels.decode(cells(c).value.words)
    {
      hide VectorMap.Storage, VectorMap.Views, VectorMap.Separate, AttrMap.Storage, AttrMap.Views, AttrMap.Separate,
           Separate, KernelsOk, VecAt;
      assert allocated(vectors.Storage()) && allocated(attrs.Storage());
      vecs := map[];
      var todo := vectors.columns.Keys;
      while todo != {}
        invariant todo <= vectors.columns.Keys
        invariant forall c :: c in vecs <==> c in vectors.columns && c !in todo && cells(c).Some?
        invariant forall c :: c in vecs ==> vecs[c] == kernels.decode(cells(c).value.words)
        decreases todo
      {
        var c :| c in todo;
        todo := todo - {c};
        var v := ReadVector(c, r);
        if v.Some? { vecs := vecs[c := kernels.decode(v.value.words)]; }
      }
    }

    method ReadAttr(k: string, r: nat) returns (a: Option<Attribute>)
      requires Valid() && r < numRows && k in attrs.columns
      ensures a == AttrAt(View(), k, r)
    {
      assert View().attrs[k] == attrs.columns[k].items;
      a := attrs.columns[k].items[r];
    }

    method ReadAttrs(r: nat, ghost cells: string -> Option<Attribute>) returns (attributes: Attributes)
      requires Valid() && r < numRows && AttrCellsAre(View(), r, cells)
      ensures forall k :: k in attributes <==> k in attrs.columns && cells(k).Some?
      ensures forall k :: k in attributes ==> attributes[k] == cells(k).value
    {
      hide VectorMap.Storage, VectorMap.Views, VectorMap.Separate, AttrMap.Storage, AttrMap.Views, AttrMap.Separate,
           Separate, KernelsOk, AttrAt;
      assert allocated(vectors.Storage()) && allocated(attrs.Storage());
      attributes := map[];
      var todo := attrs.columns.Keys;
      while todo != {}
        invariant todo <= attrs.columns.Keys
        invariant forall k :: k in attributes <==> k in attrs.columns && k !in todo && cells(k).Some?
        invariant forall k :: k in attributes ==> attributes[k] == cells(k).value
        decreases todo
      {
        var k :| k in todo;
        todo := todo - {k};
        var a := ReadAttr(k, r);
        if a.Some? { attributes := attributes[k := a.value]; }
      }
    }

    method ReadRecord(r: nat, id: string, ghost t: Rows, ghost cells: string -> Option<Vector>,
                      ghost attrCells: string -> Option<Attribute>)
      returns (rec: Document)
      requires Ready(t) && r < t.numRows && CellsAre(t, r, cells) && AttrCellsAre(t, r, attrCells)
      requires Valid() && View() == t
      ensures rec == Record(kernels, id, DocAt(t, r))
    {
      hide VectorMap.Storage, VectorMap.Views, VectorMap.Separate, AttrMap.Storage, AttrMap.Views, AttrMap.Separate,
           Separate, KernelsOk, CellsAre, AttrCellsAre, DocAt, Record;
      assert allocated(vectors.Storage()) && allocated(attrs.Storage());
      var vecs := ReadVectors(r, cells);
      var attributes := ReadAttrs(r, attrCells);
      rec := Document(id, vecs, attributes);
      vectors.Keys();
      attrs.Keys();
      RecordFromCells(kernels, t, r, rec, cells, attrCells);
    }

    method RecordAt(r: nat, id: string) returns (rec: Document)
      requires Valid() && r < numRows
      ensures rec == Record(kernels, id, DocAt(View(), r))
    {
      hide VectorMap.Storage, VectorMap.Views, VectorMap.Separate, AttrMap.Storage, AttrMap.Views, AttrMap.Separate,
           Separate, KernelsOk, DocAt, Record;
      assert allocated(vectors.Storage()) && allocated(attrs.Storage());
      ghost var t := View();
      rec := ReadRecord(r, id, t, c => VecAt(t, c, r), k => AttrAt(t, k, r));
    }

    /** The live document with this id, if any. */
    method Get(id: string) returns (rec: Option<Document>)
      requires Valid()
      ensures rec == if id in Logical().docs then Some(Record(kernels, id, Logical().docs[id])) else None
      ensures rec.Some? <==> id in Logical().docs
      ensures rec.Some? ==> rec.value.id == id && IsRecord(kernels, Logical().docs[id], rec.value)
    {
      if id !in index.entries || tombstones.items[index.entries[id]] { return None; }
      var d := RecordAt(index.entries[id], id);
      return Some(d);
    }

    // ---- Clone

    /** A copy that shares no slice and no map with this table. */
    method Clone() returns (t: Table)
      requires Valid()
      ensures fresh(t) && fresh(t.Footprint())
      ensures t.Valid() && t.View() == View() && t.kernels == kernels && t.Logical() == Logical()
    {
      hide VectorMap.Storage, VectorMap.Views, VectorMap.Separate, AttrMap.Storage, AttrMap.Views, AttrMap.Separate,
           RowsOk;
      assert allocated(vectors.Storage()) && allocated(attrs.Storage());
      var names := new Slice(docIDs.items);
      var rows := new Dict(index.entries);
      var marks := new Slice(tombstones.items);
      var vs := new VectorMap.Copy(vectors);
      assert allocated(vs.Storage());
      var ks := new AttrMap.Copy(attrs);
      assert allocated(ks.Storage());
      t := new Table.From(kernels, numRows, names, rows, marks, vs, ks);
    }

    // ---- Replay

    /** One mutation of a segment: applied as on the logical index, or refused without a change. */
    method ApplyMutation(m: Mutation) returns (ok: bool)
      requires Valid()
      modifies this, Footprint()
      ensures Valid() && forall o :: o in Footprint() && o !in old(Footprint()) ==> fresh(o)
      ensures ok <==> Apply(kernels, old(Logical()), m).Some?
      ensures Logical() == if ok then Apply(kernels, old(Logical()), m).value else old(Logical())
    {
      match m.op {
        case Put =>
          var err := Upsert(m.payload);
          ok := err == None;
        case Delete =>
          var _ := Delete(m.docId);
          ok := true;
        case Unspecified => ok := false;
      }
    }

    // ---- Search

    method ScoreOf(q: Query, invQ: real, v: Vector) returns (score: real)
      requires q.metric != UnknownMetric && invQ == kernels.invNorm(q.vector)
      ensures score == Score(kernels, q, v)
    {
      match q.metric {
        case Cosine =>
          var sim := kernels.dot(q.vector, v.words) * invQ * v.invNorm;
          if sim > 1.0 { sim := 1.0; } else if sim < -1.0 { sim := -1.0; }
          score := 1.0 - sim;
        case EuclideanSquared => score := kernels.l2(q.vector, v.words);
        case DotProduct => score := kernels.dot(q.vector, v.words);
      }
    }

    method HitFrom(q: Query, invQ: real, r: nat, id: string, v: Option<Vector>, a: Option<Attribute>)
      returns (hit: Option<SearchHit>)
      requires q.metric != UnknownMetric && invQ == kernels.invNorm(q.vector)
      ensures hit == HitAt(kernels, q, r, id, false, v, a)
    {
      if v.None? { return None; }
      if q.filter.Some? && a != Some(q.filter.value.value) { return None; }
      if q.metric == Cosine && v.value.invNorm == 0.0 { return None; }
      var score := ScoreOf(q, invQ, v.value);
      return Some(SearchHit(r, id, score));
    }

    method Candidate(q: Query, invQ: real, r: nat, ghost t: Rows, ghost hits: nat -> Option<SearchHit>)
      returns (hit: Option<SearchHit>)
      requires Valid() && View() == t && r < numRows && q.column in vectors.columns && q.metric != UnknownMetric
               && invQ == kernels.invNorm(q.vector)
      requires q.filter.Some? ==> q.filter.value.field in attrs.columns
      requires HitsAre(kernels, t, q, hits)
      ensures hit == hits(r)
    {
      RowHitFromCells(kernels, View(), q, r);
      if tombstones.items[r] { return None; }
      var v := ReadVector(q.column, r);
      var a := None;
      if q.filter.Some? { a := ReadAttr(q.filter.value.field, r); }
      hit := HitFrom(q, invQ, r, docIDs.items[r], v, a);
    }

    method Visit(heap: Hits<SearchHit>, q: Query, invQ: real, r: nat,
                 ghost t: Rows, ghost hits: nat -> Option<SearchHit>, ghost dropped: seq<SearchHit>)
      returns (ghost dropped': seq<SearchHit>)
      requires Valid() && View() == t && r < numRows && q.column in vectors.columns && q.metric != UnknownMetric
               && q.topK > 0
      requires q.filter.Some? ==> q.filter.value.field in attrs.columns
      requires HitsAre(kernels, t, q, hits) && invQ == kernels.invNorm(q.vector)
      requires heap.Valid() && ScoreDecides(heap.before, q.metric)
      requires Keeps(heap.before, Gather(hits, r), heap.hits, dropped, q.topK)
      modifies heap
      ensures heap.Valid() && Keeps(heap.before, Gather(hits, r + 1), heap.hits, dropped', q.topK)
    {
      dropped' := dropped;
      var hit := Candidate(q, invQ, r, t, hits);
      if hit.Some? { dropped' := Consider(heap, q.metric, hit.value, q.topK, Gather(hits, r), dropped); }
    }

    /** The scan of a search: a heap of at most topK hits, skipping rows whose score alone rules them out. */
    method Scan(heap: Hits<SearchHit>, q: Query, invQ: real, ghost t: Rows, ghost hits: nat -> Option<SearchHit>)
      returns (ghost dropped: seq<SearchHit>)
      requires Valid() && View() == t && q.column in vectors.columns && q.metric != UnknownMetric && q.topK > 0
      requires q.filter.Some? ==> q.filter.value.field in attrs.columns
      requires HitsAre(kernels, t, q, hits) && invQ == kernels.invNorm(q.vector)
      requires heap.Valid() && ScoreDecides(heap.before, q.metric) && heap.hits == [] && heap !in Footprint()
      modifies heap
      ensures Keeps(heap.before, Gather(hits, numRows), heap.hits, dropped, q.topK)
    {
      hide Valid, View, Footprint, HitsAre, ScoreDecides, Hits.Valid, Keeps, Gather;
      dropped := [];
      NothingKept(heap.before, hits, q.topK);
      for r := 0 to numRows
        invariant Valid() && View() == t && heap !in Footprint()
        invariant heap.Valid() && Keeps(heap.before, Gather(hits, r), heap.hits, dropped, q.topK)
      {
        assert allocated(Footprint());
        dropped := Visit(heap, q, invQ, r, t, hits, dropped);
      }
    }

    method MaterializeHits(hits: seq<SearchHit>, ghost t: Rows) returns (records: seq<ScoredRecord>)
      requires Ready(t) && forall i :: 0 <= i < |hits| ==> hits[i].row < t.numRows
      requires Valid() && View() == t
      ensures records == Records(kernels, Materialize(t, hits))
    {
      hide VectorMap.Storage, VectorMap.Views, VectorMap.Separate, AttrMap.Storage, AttrMap.Views, AttrMap.Separate,
           Separate, KernelsOk, DocAt, Record;
      assert allocated(vectors.Storage()) && allocated(attrs.Storage());
      records := [];
      for i := 0 to |hits|
        invariant |records| == i
        invariant forall j :: 0 <= j < i ==>
          records[j] == ScoredRecord(Record(kernels, hits[j].id, DocAt(t, hits[j].row)), hits[j].score)
      {
        var rec := RecordAt(hits[i].row, hits[i].id);
        records := records + [ScoredRecord(rec, hits[i].score)];
      }
    }

    method SearchAll(q: Query, invQ: real, before: Comparison<SearchHit>, ghost t: Rows,
                     ghost all: nat -> Option<SearchHit>)
      returns (hits: seq<ScoredRecord>)
      requires Ready(t) && HitsAre(kernels, t, q, all) && invQ == kernels.invNorm(q.vector)
      requires Valid() && View() == t && q.column in vectors.columns && q.metric != UnknownMetric && q.topK > 0
      requires q.filter.Some? ==> q.filter.value.field in attrs.columns
      requires StrictWeak(before) && ScoreDecides(before, q.metric) && Decisive(before, Gather(all, t.numRows))
      requires forall i :: 0 <= i < |First(before, Gather(all, t.numRows), q.topK)| ==>
                 First(before, Gather(all, t.numRows), q.topK)[i].row < t.numRows
      ensures hits == Records(kernels, Materialize(t, First(before, Gather(all, t.numRows), q.topK)))
    {
      hide VectorMap.Storage, VectorMap.Views, VectorMap.Separate, AttrMap.Storage, AttrMap.Views, AttrMap.Separate,
           Separate, KernelsOk, HitsAre, StrictWeak, ScoreDecides, Decisive, First, Gather, Materialize, Records;
      assert allocated(vectors.Storage()) && allocated(attrs.Storage());
      var heap := new Hits(before);
      ghost var dropped := Scan(heap, q, invQ, t, all);
      KeptIsFirst(before, Gather(all, t.numRows), heap.hits, dropped, q.topK);
      hits := MaterializeHits(Sort(before, heap.hits), t);
    }

    /** The checks before the scan: whether the answer is already known, and the error if there is one. */
    method Check(q: Query, invQ: real) returns (known: bool, err: Option<SearchError>)
      requires Valid() && invQ == kernels.invNorm(q.vector)
      ensures Checks(kernels, Dims(View()), q)
              == if !known then None else if err.None? then Some(Found([])) else Some(Refused(err.value))
      ensures !known ==> err == None && q.column in vectors.columns
    {
      if q.topK <= 0 { return true, None; }
      if q.column !in vectors.columns || numRows == 0 { return true, None; }
      if |q.vector| != vectors.columns[q.column].dim { return true, Some(DimensionMismatch); }
      if q.metric == Cosine && invQ == 0.0 { return true, Some(ZeroVector); }
      if q.metric == UnknownMetric { return true, Some(BadMetric); }
      return false, None;
    }

    method SearchChecked(q: Query, invQ: real, ghost t: Rows) returns (hits: seq<ScoredRecord>)
      requires Ready(t) && Checks(kernels, Dims(t), q).None? && invQ == kernels.invNorm(q.vector)
      requires Valid() && View() == t && q.column in vectors.columns && q.metric != UnknownMetric && q.topK > 0
      ensures Delivers(kernels, SearchRows(kernels, t, q), hits, None)
    {
      hide VectorMap.Storage, VectorMap.Views, VectorMap.Separate, AttrMap.Storage, AttrMap.Views, AttrMap.Separate,
           Separate, KernelsOk, SearchRows, HitsAre, StrictWeak, ScoreDecides, Decisive, First, Gather, Materialize;
      assert allocated(vectors.Storage()) && allocated(attrs.Storage());
      attrs.Keys();
      if q.filter.Some? && q.filter.value.field !in attrs.columns {
        UnknownFieldFindsNothing(kernels, t, q);
        return [];
      }
      ghost var before, all := Ranking(kernels, t, q);
      hits := SearchAll(q, invQ, HitOrder(q.metric), t, all);
    }

    /** Exact search: the answer over the rows, whatever the heap kept on the way. */
    method Search(q: Query) returns (hits: seq<ScoredRecord>, err: Option<SearchError>)
      requires Valid()
      ensures Delivers(kernels, SearchRows(kernels, View(), q), hits, err)
      ensures IsRefused(kernels, Logical(), q, err)
      ensures err != None || q.topK <= 0 || q.column !in Logical().dims ==> hits == []
      ensures err == None && q.topK > 0 && q.column in Logical().dims ==> IsAnswer(kernels, Logical(), q, hits)
    {
      hide VectorMap.Storage, VectorMap.Views, VectorMap.Separate, AttrMap.Storage, AttrMap.Views, AttrMap.Separate,
           Separate, KernelsOk, IsAnswer, IsRefused;
      assert allocated(vectors.Storage()) && allocated(attrs.Storage());
      hits := [];
      var invQ, known := kernels.invNorm(q.vector), false;
      known, err := Check(q, invQ);
      if !known { hits := SearchChecked(q, invQ, View()); }
      SearchMeans(kernels, View(), q, hits, err);
    }
  }

  /** What was stored is what is read: after an upsert the document has every attribute of the put, and every non-empty
      vector as its encoding decodes. */
  method UpsertThenGet(t: Table, d: Document) returns (err: Option<UpsertError>, rec: Option<Document>)
    requires t.Valid()
    modifies t, t.Footprint()
    ensures t.Valid() && (err == None <==> CanPut(t.kernels, old(t.Logical()), d))
    ensures err == None ==>
              && rec.Some? && rec.value.id == d.id
              && (forall c :: c in d.vectors && d.vectors[c] != [] ==>
                    && t.kernels.encode(d.vectors[c]).Some? && c in rec.value.vectors
                    && rec.value.vectors[c] == t.kernels.decode(t.kernels.encode(d.vectors[c]).value))
              && (forall a :: a in d.attributes ==>
                    a in rec.value.attributes && rec.value.attributes[a] == d.attributes[a])
    ensures err != None ==>
              && (rec.Some? <==> d.id in old(t.Logical()).docs)
              && (rec.Some? ==> IsRecord(t.kernels, old(t.Logical()).docs[d.id], rec.value))
  {
    hide Table.Valid, Table.View, Table.Footprint, ToIndex, CanPut, Record;
    err := t.Upsert(d);
    assert allocated(t.Footprint());
    rec := t.Get(d.id);
    if err == None {
      forall c | c in d.vectors && d.vectors[c] != [] ensures PutsVector(d, c) {}
    }
  }

  /** One hit of the scan: skipped when the heap is full of better scores, and otherwise offered to the heap. */
  method Consider(heap: Hits<SearchHit>, metric: Metric, x: SearchHit, k: nat, ghost seen: seq<SearchHit>,
                  ghost dropped: seq<SearchHit>)
    returns (ghost dropped': seq<SearchHit>)
    requires heap.Valid() && ScoreDecides(heap.before, metric) && k > 0
             && Keeps(heap.before, seen, heap.hits, dropped, k)
    modifies heap
    ensures heap.Valid() && Keeps(heap.before, seen + [x], heap.hits, dropped', k)
  {
    if |heap.hits| == k && WorseScore(metric, x, heap.hits[0]) {
      KeepDrop(heap.before, seen, heap.hits, dropped, k, x);
      dropped' := dropped + [x];
    } else {
      dropped' := heap.Offer(x, k, seen, dropped);
    }
  }

  lemma NothingKept(before: Comparison<SearchHit>, hits: nat -> Option<SearchHit>, k: nat)
    ensures Keeps(before, Gather(hits, 0), [], [], k)
  {
  }

  // ---- The same loops on values

  function ColumnsAdded(was: map<string, Column>, staged: Vectors, n: nat, done: set<string>): map<string, Column>
    requires done <= staged.Keys
  {
    map c | c in was.Keys + done :: if c in was then was[c] else FreshColumn(|staged[c].words|, n)
  }

  lemma ColumnsAddedStep(was: map<string, Column>, staged: Vectors, n: nat, done: set<string>, c: string)
    requires done <= staged.Keys && c in staged
    ensures var now := ColumnsAdded(was, staged, n, done);
            ColumnsAdded(was, staged, n, done + {c})
            == if c in now then now else now[c := FreshColumn(|staged[c].words|, n)]
  {
  }

  function AttrsAdded(was: map<string, AttrCells>, n: nat, done: set<string>): map<string, AttrCells> {
    map k | k in was.Keys + done :: if k in was then was[k] else seq(n, _ => None)
  }

  lemma AttrsAddedStep(was: map<string, AttrCells>, n: nat, done: set<string>, k: string)
    ensures var now := AttrsAdded(was, n, done);
            AttrsAdded(was, n, done + {k}) == if k in now then now else now[k := seq(n, _ => None)]
  {
  }

  ghost predicate Sized(m: map<string, Column>, n: nat) {
    forall c :: c in m ==> ColumnOk(m[c], n)
  }

  ghost predicate AttrsSized(m: map<string, AttrCells>, n: nat) {
    forall k :: k in m ==> |m[k]| == n
  }

  /** m with f applied at the keys in `done`. */
  ghost function UpdateAll<V>(m: map<string, V>, f: (string, V) -> V, done: set<string>): map<string, V> {
    map c | c in m :: if c in done then f(c, m[c]) else m[c]
  }

  lemma UpdateNone<V>(m: map<string, V>, f: (string, V) -> V)
    ensures UpdateAll(m, f, {}) == m
  {
  }

  lemma UpdateStep<V>(m: map<string, V>, f: (string, V) -> V, done: set<string>, c: string)
    requires c in m && c !in done
    ensures c in UpdateAll(m, f, done) && UpdateAll(m, f, done)[c] == m[c]
    ensures UpdateAll(m, f, done + {c}) == UpdateAll(m, f, done)[c := f(c, m[c])]
  {
  }

  ghost function Clearing(r: nat, staged: Vectors): (string, Column) -> Column {
    (c: string, column: Column) =>
      if c !in staged && r < |column.hasVec| == |column.invNorms| then ClearCell(column, r) else column
  }

  ghost function Setting(n: nat, r: nat, staged: Vectors): (string, Column) -> Column {
    (c: string, column: Column) =>
      if c in staged && ColumnOk(column, n) && r < n then SetCell(column, n, r, staged[c]) else column
  }

  ghost function Appending(staged: Vectors): (string, Column) -> Column {
    (c: string, column: Column) => AppendCell(column, Lift(staged, c))
  }

  ghost function ClearingAttr(r: nat, attributes: Attributes): (string, AttrCells) -> AttrCells {
    (k: string, cells: AttrCells) => if k !in attributes && r < |cells| then cells[r := None] else cells
  }

  ghost function SettingAttr(r: nat, attributes: Attributes): (string, AttrCells) -> AttrCells {
    (k: string, cells: AttrCells) => if k in attributes && r < |cells| then cells[r := Some(attributes[k])] else cells
  }

  ghost function AppendingAttr(attributes: Attributes): (string, AttrCells) -> AttrCells {
    (k: string, cells: AttrCells) => cells + [Lift(attributes, k)]
  }

  lemma RowsSized(t: Rows)
    requires RowsOk(t)
    ensures Sized(t.vectors, t.numRows) && AttrsSized(t.attrs, t.numRows) && |t.tombstones| == t.numRows
  {
  }

  lemma ClearRowIsUpdate(t: Rows, r: nat, staged: Vectors, attributes: Attributes)
    requires RowsOk(t) && r < t.numRows
    ensures ClearRow(t, r, staged, attributes)
            == t.(vectors := UpdateAll(t.vectors, Clearing(r, staged), t.vectors.Keys),
                  attrs := UpdateAll(t.attrs, ClearingAttr(r, attributes), t.attrs.Keys))
  {
  }

  lemma FillRowIsUpdate(t: Rows, r: nat, staged: Vectors, attributes: Attributes)
    requires RowsOk(t) && r < t.numRows
    ensures FillRow(t, r, staged, attributes)
            == t.(tombstones := t.tombstones[r := false],
                  vectors := UpdateAll(t.vectors, Setting(t.numRows, r, staged), staged.Keys),
                  attrs := UpdateAll(t.attrs, SettingAttr(r, attributes), attributes.Keys))
  {
  }

  lemma AppendRowIsUpdate(t: Rows, u: Rows, id: string, staged: Vectors, attributes: Attributes)
    requires u.numRows == t.numRows + 1 && u.docIDs == t.docIDs + [id]
    requires u.index == t.index[id := t.numRows] && u.tombstones == t.tombstones + [false]
    requires u.vectors == UpdateAll(t.vectors, Appending(staged), t.vectors.Keys)
    requires u.attrs == UpdateAll(t.attrs, AppendingAttr(attributes), t.attrs.Keys)
    ensures u == AppendRow(t, id, staged, attributes)
  {
  }

  lemma WithColumns(t: Rows, t1: Rows, staged: Vectors, attributes: Attributes)
    requires RowsOk(t) && Columns.Fits(t, staged) && t1 == AddAttrColumns(AddColumns(t, staged), attributes)
    ensures t1.index == t.index && t1.numRows == t.numRows
    ensures t1.vectors.Keys >= staged.Keys && t1.attrs.Keys >= attributes.Keys
    ensures forall id :: id in t.index ==> t.index[id] < t.numRows
    ensures t.numRows > 0 ==> RowsOk(t1)
  {
    AddColumnsOk(t, staged, attributes);
  }

  lemma UpsertIs(t: Rows, t1: Rows, u: Rows, id: string, staged: Vectors, attributes: Attributes)
    requires RowsOk(t) && Columns.Fits(t, staged) && t1 == AddAttrColumns(AddColumns(t, staged), attributes)
    requires if id in t.index then
               var r := t.index[id];
               && RowsOk(t1) && r < |t1.tombstones| && r < t1.numRows
               && var cleared := if t1.tombstones[r] then ClearRow(t1, r, staged, attributes) else t1;
               RowsOk(cleared) && u == FillRow(cleared, r, staged, attributes)
             else u == AppendRow(t1, id, staged, attributes)
    requires id != ""
    ensures RowsOk(u) && ToIndex(u) == PutStaged(ToIndex(t), id, staged, attributes)
  {
    assert u == Columns.Upsert(t, id, staged, attributes);
    UpsertRefines(t, id, staged, attributes);
  }

  lemma StagedFits(k: Kernels, t: Rows, vecs: map<string, seq<real>>)
    requires KernelsOk(k) && Accepts(k, Dims(t), vecs)
    ensures Columns.Fits(t, Staged(k, vecs))
  {
    forall c | c in Stored(vecs)
      ensures |k.encode(vecs[c]).value| == |vecs[c]| && (c in t.vectors ==> |vecs[c]| == t.vectors[c].dim)
    {
      assert Storable(k, Dim(Dims(t), c), vecs[c]);
    }
  }

  lemma HitsAreDecisive(k: Kernels, t: Rows, q: Query)
    requires Ready(t)
    ensures Decisive(HitOrder(q.metric), HitsUpTo(k, t, q, t.numRows))
  {
    var hits := HitsUpTo(k, t, q, t.numRows);
    HitsAreRows(k, t, q);
    forall i, j | 0 <= i < |hits| && 0 <= j < |hits|
      ensures HitOrder(q.metric)(hits[i], hits[j]) || HitOrder(q.metric)(hits[j], hits[i]) || hits[i] == hits[j]
    {
      Lexicographic.Total(hits[i].id, hits[j].id);
      assert t.index[hits[i].id] == hits[i].row && t.index[hits[j].id] == hits[j].row;
    }
  }

  lemma UnknownFieldFindsNothing(k: Kernels, t: Rows, q: Query)
    requires Ready(t) && q.filter.Some? && q.filter.value.field !in t.attrs && Checks(k, Dims(t), q).None?
    ensures SearchRows(k, t, q) == Found([])
  {
    UnknownFieldMatchesNothing(k, t, q, t.numRows);
  }

  /** What the scan works with: the order, which a worse score decides, and the hit of every row. */
  lemma Ranking(k: Kernels, t: Rows, q: Query) returns (before: Comparison<SearchHit>, all: nat -> Option<SearchHit>)
    requires Ready(t) && Checks(k, Dims(t), q).None?
    ensures before == HitOrder(q.metric) && HitsAre(k, t, q, all)
    ensures StrictWeak(before) && ScoreDecides(before, q.metric) && Decisive(before, Gather(all, t.numRows))
    ensures forall i :: 0 <= i < |First(before, Gather(all, t.numRows), q.topK)| ==>
              First(before, Gather(all, t.numRows), q.topK)[i].row < t.numRows
    ensures SearchRows(k, t, q) == Found(Materialize(t, First(before, Gather(all, t.numRows), q.topK)))
  {
    before, all := HitOrder(q.metric), RowHit(k, t, q);
    HitOrderIsStrictWeak(q.metric);
    HitsAreDecisive(k, t, q);
    HitsAreRows(k, t, q);
    FirstKeepsRows(t, q.metric, HitsUpTo(k, t, q, t.numRows), q.topK);
  }

  lemma NothingToDelete(t: Rows, id: string)
    requires RowsOk(t) && !Live(t, id)
    ensures id !in ToIndex(t).docs && DeleteDoc(ToIndex(t), id) == ToIndex(t)
  {
  }

  lemma MarkedIsDeleted(t: Rows, u: Rows, id: string)
    requires RowsOk(t) && Live(t, id) && u == Columns.Delete(t, id)
    ensures RowsOk(u) && id in ToIndex(t).docs && ToIndex(u) == DeleteDoc(ToIndex(t), id)
  {
    DeleteRefines(t, id);
  }
}
