// The reconciliation passes exactly when the target is the source.
module ReconcileExactness {
  import opened Results
  import Sorting
  import opened ReconcileTables
  import opened Reconcile
  import opened ReconcileOutcome

  // ---- rows of the same table, either way ----

  lemma FindSame(lib: Library, t: Table, a: seq<Row>, b: seq<Row>, i: nat) returns (j: nat)
    requires multiset(NormalRows(lib, t, a)) == multiset(NormalRows(lib, t, b)) && i < |a|
    ensures j < |b| && NormalRow(lib, t, a[i]) == NormalRow(lib, t, b[j])
  {
    var x := NormalRow(lib, t, a[i]);
    assert NormalRows(lib, t, a)[i] == x;
    assert x in multiset(NormalRows(lib, t, a));
    assert x in NormalRows(lib, t, b);
    j :| 0 <= j < |NormalRows(lib, t, b)| && NormalRows(lib, t, b)[j] == x;
  }

  lemma SameTableKeys(lib: Library, t: Table, a: seq<Row>, b: seq<Row>)
    requires multiset(NormalRows(lib, t, a)) == multiset(NormalRows(lib, t, b))
    requires RowsParse(lib, t, a) && RowsParse(lib, t, b)
    ensures Keys(lib, t, a) <= Keys(lib, t, b)
  {
    forall i | 0 <= i < |a| ensures Key(lib, t, a[i]) in Keys(lib, t, b) {
      var j := FindSame(lib, t, a, b, i);
      SameRowSameKey(lib, t, a[i], b[j]);
    }
  }

  lemma SameTableIds(lib: Library, t: Table, a: seq<Row>, b: seq<Row>, c: Column)
    requires multiset(NormalRows(lib, t, a)) == multiset(NormalRows(lib, t, b))
    requires RowsParse(lib, t, a) && RowsParse(lib, t, b)
    requires c in Columns(t) && !IsDate(c)
    ensures Ids(a, c) <= Ids(b, c)
  {
    forall i | 0 <= i < |a| ensures Field(a[i], c) in Ids(b, c) {
      var j := FindSame(lib, t, a, b, i);
      SameField(lib, t, a[i], b[j], c);
      assert Field(b[j], c) == Field(a[i], c);
    }
  }

  // A permutation of rows with distinct keys has distinct keys.
  lemma SameTableDistinct(lib: Library, t: Table, a: seq<Row>, b: seq<Row>)
    requires multiset(NormalRows(lib, t, a)) == multiset(NormalRows(lib, t, b))
    requires RowsParse(lib, t, a) && RowsParse(lib, t, b)
    requires DistinctKeys(lib, t, a)
    ensures DistinctKeys(lib, t, b)
  {
    NormalRowsDistinct(lib, t, a);
    forall j, k | 0 <= j < k < |b| ensures Key(lib, t, b[j]) != Key(lib, t, b[k]) {
      var i := FindSame(lib, t, b, a, j);
      var h := FindSame(lib, t, b, a, k);
      SameRowSameKey(lib, t, b[j], a[i]);
      SameRowSameKey(lib, t, b[k], a[h]);
      Sorting.CountInDistinct(NormalRows(lib, t, a), NormalRow(lib, t, b[j]));
      if i == h {
        Sorting.CountAtTwo(NormalRows(lib, t, b), j, k);
      }
    }
  }

  // The target row of the same key is the same row.
  lemma SameTableMatches(lib: Library, t: Table, a: seq<Row>, b: seq<Row>)
    requires multiset(NormalRows(lib, t, a)) == multiset(NormalRows(lib, t, b))
    requires RowsParse(lib, t, a) && RowsParse(lib, t, b)
    requires DistinctKeys(lib, t, b)
    ensures RowsMatch(lib, t, a, b)
  {
    forall i | 0 <= i < |a| && Lookup(lib, t, b, Key(lib, t, a[i])).Some?
      ensures NormalRow(lib, t, a[i]) == NormalRow(lib, t, Lookup(lib, t, b, Key(lib, t, a[i])).value)
    {
      var j := FindSame(lib, t, a, b, i);
      SameRowSameKey(lib, t, a[i], b[j]);
      LookupOwn(lib, t, b, j);
    }
  }

  lemma MatchedScalarsAgree(lib: Library, t: Table, source: Snapshot, target: Snapshot)
    requires RowsMatch(lib, t, source.Rows(t), target.Rows(t))
    requires RowsParse(lib, t, source.Rows(t)) && RowsParse(lib, t, target.Rows(t))
    ensures ScalarsAgree(lib, t, source, target)
  {
    forall m ensures !IsScalarMismatch(lib, t, Columns(t), source.Rows(t), target.Rows(t), m) {
      forall i | 0 <= i < |source.Rows(t)|
        ensures !RowDiffers(lib, t, Columns(t), source.Rows(t)[i], target.Rows(t), m)
      {
        MatchedRowAgrees(lib, t, source.Rows(t), target.Rows(t), i, m);
      }
    }
  }

  lemma MatchedRowAgrees(lib: Library, t: Table, source: seq<Row>, target: seq<Row>, i: nat, m: Mismatch)
    requires RowsMatch(lib, t, source, target) && RowsParse(lib, t, source) && RowsParse(lib, t, target) && i < |source|
    ensures !RowDiffers(lib, t, Columns(t), source[i], target, m)
  {
    var key := Key(lib, t, source[i]);
    LookupMeaning(lib, t, target, key);
    if Lookup(lib, t, target, key).Some? {
      SameNormalRow(lib, t, source[i], Lookup(lib, t, target, key).value);
    }
  }

  lemma MatchedCanvasAgrees(lib: Library, a: Row, b: Row)
    requires DatesParse(lib, NotebookCanvases, a) && DatesParse(lib, NotebookCanvases, b)
    requires NormalRow(lib, NotebookCanvases, a) == NormalRow(lib, NotebookCanvases, b) && CanvasReadable(lib, a)
    ensures CanvasAgrees(lib, a, b)
  {
    SameNormalRow(lib, NotebookCanvases, a, b);
    CanvasColumns();
    assert Field(a, DocumentJson) == Field(b, DocumentJson);
  }

  lemma CanvasColumns()
    ensures SearchText in Columns(NotebookCanvases) && DocumentJson in Columns(NotebookCanvases)
    ensures forall c :: c in SCALAR_CANVAS_COLUMNS ==> c in Columns(NotebookCanvases)
  {
  }

  lemma MatchedCanvasesAgree(lib: Library, source: Snapshot, target: Snapshot)
    requires RowsMatch(lib, NotebookCanvases, source.canvases, target.canvases) && InventoryReadable(lib, source)
    requires RowsParse(lib, NotebookCanvases, source.canvases) && RowsParse(lib, NotebookCanvases, target.canvases)
    ensures CanvasesAgree(lib, source, target)
  {
    var t := NotebookCanvases;
    forall i | 0 <= i < |source.canvases| ensures CanvasRowAgrees(lib, source.canvases[i], target.canvases) {
      var found := Lookup(lib, t, target.canvases, Key(lib, t, source.canvases[i]));
      LookupMeaning(lib, t, target.canvases, Key(lib, t, source.canvases[i]));
      if found.Some? {
        assert CanvasReadable(lib, source.canvases[i]);
        MatchedCanvasAgrees(lib, source.canvases[i], found.value);
      }
    }
  }

  lemma SameTableComplete(lib: Library, t: Table, a: seq<Row>, b: seq<Row>, i: nat)
    requires multiset(NormalRows(lib, t, a)) == multiset(NormalRows(lib, t, b))
    requires RowsParse(lib, t, a) && RowsParse(lib, t, b)
    requires i < |a| && forall j :: 0 <= j < |b| ==> Complete(t, b[j])
    ensures Complete(t, a[i])
  {
    RequiredAreColumns(t);
    var j := FindSame(lib, t, a, b, i);
    CompleteMeaning(t, a[i]);
    CompleteMeaning(t, b[j]);
    forall c | c in Required(t) ensures !IsNull(Field(a[i], c)) {
      SameField(lib, t, a[i], b[j], c);
    }
  }

  // ---- the whole database ----

  lemma SameIds(lib: Library, source: Snapshot, target: Snapshot, t: Table, c: Column)
    requires Readable(lib, source) && Readable(lib, target) && SameTables(lib, source, target)
    requires c in Columns(t) && !IsDate(c)
    ensures Ids(source.Rows(t), c) == Ids(target.Rows(t), c)
  {
    assert SameTable(lib, t, source, target);
    SnapshotParses(lib, source, t);
    SnapshotParses(lib, target, t);
    SameTableIds(lib, t, source.Rows(t), target.Rows(t), c);
    SameTableIds(lib, t, target.Rows(t), source.Rows(t), c);
  }

  lemma SameRelations(lib: Library, source: Snapshot, target: Snapshot)
    requires Readable(lib, source) && Readable(lib, target) && SameTables(lib, source, target)
    ensures SameParents(source, target) && (NoOrphans(source) <==> NoOrphans(target))
  {
    SameIds(lib, source, target, NotebookCanvases, NotebookId);
    SameIds(lib, source, target, Cues, NotebookId);
    SameIds(lib, source, target, NotebookTags, NotebookId);
    SameIds(lib, source, target, NotebookTags, TagId);
    SameIds(lib, source, target, Notebooks, Id);
    SameIds(lib, source, target, Tags, Id);
  }

  lemma SameNulls(lib: Library, source: Snapshot, target: Snapshot)
    requires Readable(lib, source) && Readable(lib, target) && SameTables(lib, source, target) && NoNulls(source)
    ensures NoNulls(target)
  {
    forall t: Table, i | 0 <= i < |target.Rows(t)| ensures Complete(t, target.Rows(t)[i]) {
      assert SameTable(lib, t, source, target);
      SnapshotParses(lib, source, t);
      SnapshotParses(lib, target, t);
      SameTableComplete(lib, t, target.Rows(t), source.Rows(t), i);
    }
  }

  lemma SameTableAgrees(lib: Library, source: Snapshot, target: Snapshot, t: Table)
    requires Readable(lib, source) && Readable(lib, target) && InventoryReadable(lib, source)
    requires SameTables(lib, source, target) && KeysDistinct(lib, source)
    ensures Keys(lib, t, source.Rows(t)) == Keys(lib, t, target.Rows(t)) && DistinctKeys(lib, t, target.Rows(t))
    ensures if t == NotebookCanvases then CanvasesAgree(lib, source, target) else ScalarsAgree(lib, t, source, target)
  {
    assert SameTable(lib, t, source, target);
    SnapshotParses(lib, source, t);
    SnapshotParses(lib, target, t);
    SameTableKeys(lib, t, source.Rows(t), target.Rows(t));
    SameTableKeys(lib, t, target.Rows(t), source.Rows(t));
    SameTableDistinct(lib, t, source.Rows(t), target.Rows(t));
    SameTableMatches(lib, t, source.Rows(t), target.Rows(t));
    if t == NotebookCanvases {
      MatchedCanvasesAgree(lib, source, target);
    } else {
      MatchedScalarsAgree(lib, t, source, target);
    }
  }

  lemma SameTablesHaveNoMismatch(lib: Library, source: Snapshot, target: Snapshot)
    requires Readable(lib, source) && Readable(lib, target) && InventoryReadable(lib, source)
    requires Clean(source) && SameTables(lib, source, target)
    ensures NoMismatch(lib, source, target)
  {
    forall t: Table ensures DistinctKeys(lib, t, source.Rows(t)) {
      DistinctIsPrimary(lib, t, source);
    }
    forall t: Table
      ensures Keys(lib, t, source.Rows(t)) == Keys(lib, t, target.Rows(t)) && DistinctKeys(lib, t, target.Rows(t))
      ensures if t == NotebookCanvases then CanvasesAgree(lib, source, target) else ScalarsAgree(lib, t, source, target)
    {
      SameTableAgrees(lib, source, target, t);
    }
    assert CanvasesAgree(lib, source, target) by {
      SameTableAgrees(lib, source, target, NotebookCanvases);
    }
    SameRelations(lib, source, target);
    SameNulls(lib, source, target);
  }

  // For readable data, link ids without NUL characters and a hash without
  // collisions, the checks find nothing exactly when the source is clean and
  // every target table is the source table in some order, up to dates.
  lemma PassIsEquality(lib: Library, source: Snapshot, target: Snapshot)
    requires Readable(lib, source) && Readable(lib, target) && InventoryReadable(lib, source) && CollisionFree(lib)
    ensures NoMismatch(lib, source, target) <==> Clean(source) && SameTables(lib, source, target)
  {
    if NoMismatch(lib, source, target) {
      forall t: Table ensures SameTable(lib, t, source, target) {
        NoMismatchIsSame(lib, source, target, t);
      }
      forall t: Table, i, j | 0 <= i < j < |source.Rows(t)|
        ensures PrimaryKey(t, source.Rows(t)[i]) != PrimaryKey(t, source.Rows(t)[j])
      {
        DistinctIsPrimary(lib, t, source);
      }
    } else if Clean(source) && SameTables(lib, source, target) {
      SameTablesHaveNoMismatch(lib, source, target);
    }
  }
}
