// What the reconciliation as a whole decides.
module ReconcileOutcome {
  import opened Results
  import Sorting
  import opened ReconcileTables
  import opened Reconcile

  datatype Reconciliation = Reconciliation(mismatches: seq<Mismatch>, pass: bool)

  ghost predicate SameKeys(lib: Library, source: Snapshot, target: Snapshot) {
    forall t: Table :: Keys(lib, t, source.Rows(t)) == Keys(lib, t, target.Rows(t))
  }

  ghost predicate ScalarsAgree(lib: Library, t: Table, source: Snapshot, target: Snapshot) {
    forall m :: !IsScalarMismatch(lib, t, Columns(t), source.Rows(t), target.Rows(t), m)
  }

  ghost predicate CanvasesAgree(lib: Library, source: Snapshot, target: Snapshot) {
    forall i :: 0 <= i < |source.canvases| ==> CanvasRowAgrees(lib, source.canvases[i], target.canvases)
  }

  ghost predicate KeysDistinct(lib: Library, s: Snapshot) {
    forall t: Table :: DistinctKeys(lib, t, s.Rows(t))
  }

  // None of the checks finds anything.
  ghost predicate NoMismatch(lib: Library, source: Snapshot, target: Snapshot) {
    && SameKeys(lib, source, target)
    && (forall t: Table :: t != NotebookCanvases ==> ScalarsAgree(lib, t, source, target))
    && CanvasesAgree(lib, source, target)
    && SameParents(source, target)
    && NoOrphans(source) && NoOrphans(target)
    && KeysDistinct(lib, source) && KeysDistinct(lib, target)
    && NoNulls(source) && NoNulls(target)
  }

  predicate HasTextId(row: Row) {
    Field(row, NotebookId).Text?
  }

  // Two canvases or more are sorted by their notebook ids, which have to be
  // texts on the left of each comparison.
  predicate Sortable(canvases: seq<Row>) {
    |canvases| >= 2 ==> forall i :: 0 <= i < |canvases| ==> HasTextId(canvases[i])
  }

  // Sorting compares every canvas but the first with an earlier one; which of
  // the two is on the left is up to the sort.
  method SortDetails(canvases: seq<Row>) returns (r: Result<(), ReconcileError>)
    ensures Sortable(canvases) ==> r.Ok?
    ensures r.Ok? && |canvases| >= 2 ==> exists i :: 0 <= i < |canvases| && HasTextId(canvases[i])
    ensures r.Err? ==> r.error == UncomparableId
  {
    if canvases == [] {
      return Ok(());
    }
    for i := 1 to |canvases|
      invariant i >= 2 ==> exists j :: 0 <= j < |canvases| && HasTextId(canvases[j])
    {
      var j: nat :| j < i;
      var swapped: bool := *;
      var left := if swapped then i else j;
      if !HasTextId(canvases[left]) {
        return Err(UncomparableId);
      }
    }
    r := Ok(());
  }

  ghost predicate DatesReadable(lib: Library, s: Snapshot) {
    forall t: Table, i :: 0 <= i < |s.Rows(t)| ==> DatesParse(lib, t, s.Rows(t)[i])
  }

  // What an error says of the data.
  ghost predicate Blames(lib: Library, s: Snapshot, error: ReconcileError) {
    match error
    case InvalidDate => !DatesReadable(lib, s)
    case InvalidDocument => !InventoryReadable(lib, s)
    case UncomparableId => !Sortable(s.canvases)
  }

  // Reads every canvas document and note date.
  method BuildInventory(lib: Library, s: Snapshot) returns (r: Result<(), ReconcileError>)
    ensures r.Ok? ==> InventoryReadable(lib, s)
    ensures r.Ok? && |s.canvases| >= 2 ==> exists i :: 0 <= i < |s.canvases| && HasTextId(s.canvases[i])
    ensures InventoryReadable(lib, s) && Readable(lib, s) && Sortable(s.canvases) ==> r.Ok?
    ensures r.Err? ==> Blames(lib, s, r.error)
  {
    for i := 0 to |s.notebooks| {
      if Normalized(lib, NoteDate, Field(s.notebooks[i], NoteDate)).None? {
        assert s.Rows(Notebooks)[i] == s.notebooks[i] && NoteDate in Columns(Notebooks);
        return Err(InvalidDate);
      }
    }
    for i := 0 to |s.canvases|
      invariant forall j :: 0 <= j < i ==> CanvasReadable(lib, s.canvases[j])
    {
      var document := ParseCanvasDocument(lib, Field(s.canvases[i], DocumentJson));
      if document.None? || !Field(s.canvases[i], SearchText).Text? {
        return Err(InvalidDocument);
      }
    }
    r := SortDetails(s.canvases);
  }

  method CompareIdSetsOfAll(lib: Library, source: Snapshot, target: Snapshot, report: Report)
    modifies report
    ensures old(report.mismatches) <= report.mismatches
    ensures report.mismatches == old(report.mismatches) <==> SameKeys(lib, source, target)
    ensures NoParse(old(report.mismatches)) ==> NoParse(report.mismatches)
  {
    for i := 0 to |SOURCE_TABLES|
      invariant old(report.mismatches) <= report.mismatches
      invariant NoParse(old(report.mismatches)) ==> NoParse(report.mismatches)
      invariant report.mismatches == old(report.mismatches) <==>
        forall t :: t in SOURCE_TABLES[..i] ==> Keys(lib, t, source.Rows(t)) == Keys(lib, t, target.Rows(t))
    {
      assert SOURCE_TABLES[..i + 1] == SOURCE_TABLES[..i] + [SOURCE_TABLES[i]];
      report.CompareIdSets(lib, SOURCE_TABLES[i], source.Rows(SOURCE_TABLES[i]), target.Rows(SOURCE_TABLES[i]));
    }
    assert SOURCE_TABLES[..|SOURCE_TABLES|] == SOURCE_TABLES;
    AllTables();
  }

  method CompareScalars(lib: Library, table: Table, source: Snapshot, target: Snapshot, report: Report)
      returns (r: Result<(), ReconcileError>)
    modifies report
    ensures old(report.mismatches) <= report.mismatches
    ensures r.Ok? ==> (report.mismatches == old(report.mismatches) <==> ScalarsAgree(lib, table, source, target))
    ensures r.Ok? && NoParse(old(report.mismatches)) ==> NoParse(report.mismatches)
    ensures DatesReadable(lib, source) && DatesReadable(lib, target) ==> r.Ok?
    ensures r.Err? ==> r.error == InvalidDate
  {
    ghost var added: seq<Mismatch>;
    r, added := report.CompareScalarRows(lib, table, Columns(table), source.Rows(table), target.Rows(table));
    if added != [] {
      assert added[0] in added;
    }
  }

  method CompareAllScalars(lib: Library, source: Snapshot, target: Snapshot, report: Report)
      returns (r: Result<(), ReconcileError>)
    modifies report
    ensures old(report.mismatches) <= report.mismatches
    ensures r.Ok? ==> (report.mismatches == old(report.mismatches) <==>
              forall t: Table :: t != NotebookCanvases ==> ScalarsAgree(lib, t, source, target))
    ensures r.Ok? && NoParse(old(report.mismatches)) ==> NoParse(report.mismatches)
    ensures DatesReadable(lib, source) && DatesReadable(lib, target) ==> r.Ok?
    ensures r.Err? ==> r.error == InvalidDate
  {
    var order := [Notebooks, Tags, Cues, NotebookTags];
    for i := 0 to |order|
      invariant old(report.mismatches) <= report.mismatches
      invariant NoParse(old(report.mismatches)) ==> NoParse(report.mismatches)
      invariant report.mismatches == old(report.mismatches) <==>
        forall j :: 0 <= j < i ==> ScalarsAgree(lib, order[j], source, target)
    {
      r := CompareScalars(lib, order[i], source, target, report);
      if r.Err? {
        return;
      }
    }
    assert order[0] == Notebooks && order[1] == Tags && order[2] == Cues && order[3] == NotebookTags;
    r := Ok(());
  }

  // Orphans, duplicates and nulls, in either database.
  method CheckEach(lib: Library, source: Snapshot, target: Snapshot, report: Report)
    modifies report
    ensures old(report.mismatches) <= report.mismatches
    ensures report.mismatches == old(report.mismatches) <==>
              && NoOrphans(source) && NoOrphans(target) && KeysDistinct(lib, source) && KeysDistinct(lib, target)
              && NoNulls(source) && NoNulls(target)
    ensures NoParse(old(report.mismatches)) ==> NoParse(report.mismatches)
  {
    var sourceOrphans := FindOrphans(source);
    var targetOrphans := FindOrphans(target);
    var sourceDuplicates := FindDuplicates(lib, source);
    var targetDuplicates := FindDuplicates(lib, target);
    var sourceNulls := FindNulls(source);
    var targetNulls := FindNulls(target);
    NothingFound(lib, source, sourceDuplicates, sourceNulls);
    NothingFound(lib, target, targetDuplicates, targetNulls);
    if sourceOrphans != [] || targetOrphans != [] {
      report.Push(Mismatch(ForeignKeyOrphan, None, None));
    }
    if sourceDuplicates != [] || targetDuplicates != [] {
      report.Push(Mismatch(DuplicateKey, None, None));
    }
    if sourceNulls != [] || targetNulls != [] {
      report.Push(Mismatch(UnexpectedNull, None, None));
    }
  }

  lemma NothingFound(lib: Library, s: Snapshot, duplicates: seq<Table>, nulls: seq<(Table, Column)>)
    requires forall t :: t in duplicates <==> !DistinctKeys(lib, t, s.Rows(t))
    requires forall t, c :: (t, c) in nulls <==> MissesColumn(s, t, c)
    ensures duplicates == [] <==> KeysDistinct(lib, s)
    ensures nulls == [] <==> NoNulls(s)
  {
    if duplicates != [] {
      assert duplicates[0] in duplicates;
    }
    if nulls != [] {
      var (t, c) := nulls[0];
      assert (t, c) in nulls;
      var i :| 0 <= i < |s.Rows(t)| && IsNull(Field(s.Rows(t)[i], c));
      CompleteMeaning(t, s.Rows(t)[i]);
    } else {
      forall t: Table, i | 0 <= i < |s.Rows(t)| ensures Complete(t, s.Rows(t)[i]) {
        CompleteMeaning(t, s.Rows(t)[i]);
        forall c | c in Required(t) ensures !IsNull(Field(s.Rows(t)[i], c)) {
          assert (t, c) !in nulls;
        }
      }
    }
  }

  // A document of the target that does not parse is never reported: the
  // inventory at the end needs every document, and fails instead.
  method ReconcileRows(lib: Library, source: Snapshot, target: Snapshot)
      returns (r: Result<Reconciliation, ReconcileError>)
    ensures r.Ok? ==> (r.value.pass <==> r.value.mismatches == [])
    ensures r.Ok? ==> (r.value.pass <==> NoMismatch(lib, source, target))
    ensures r.Ok? ==> InventoryReadable(lib, source) && InventoryReadable(lib, target)
    ensures r.Ok? ==> NoParse(r.value.mismatches)
    ensures (Readable(lib, source) && Readable(lib, target)
             && InventoryReadable(lib, source) && InventoryReadable(lib, target)
             && Sortable(source.canvases) && Sortable(target.canvases)) ==> r.Ok?
    ensures r.Err? ==> Blames(lib, source, r.error) || Blames(lib, target, r.error)
  {
    var report := new Report();
    CompareIdSetsOfAll(lib, source, target, report);
    var scalars := CompareAllScalars(lib, source, target, report);
    if scalars.Err? {
      return Err(scalars.error);
    }
    CanvasScalarsParse(lib, source);
    CanvasScalarsParse(lib, target);
    var canvases, found := report.CompareCanvasRows(lib, source.canvases, target.canvases);
    if canvases.Err? {
      CanvasBlame(lib, source, target, canvases.error);
      return Err(canvases.error);
    }
    ParsesAreFound(lib, source.canvases, target, found);
    report.CompareParentIdSets(source, target);
    CheckEach(lib, source, target, report);
    var sourceInventory := BuildInventory(lib, source);
    if sourceInventory.Err? {
      return Err(sourceInventory.error);
    }
    var targetInventory := BuildInventory(lib, target);
    if targetInventory.Err? {
      return Err(targetInventory.error);
    }
    r := Ok(Reconciliation(report.mismatches, report.mismatches == []));
  }

  lemma CanvasBlame(lib: Library, source: Snapshot, target: Snapshot, error: ReconcileError)
    requires error == InvalidDocument || error == InvalidDate
    requires error == InvalidDocument ==>
               exists row :: row in source.canvases && ParsedDocument(lib, Field(row, DocumentJson)).None?
    requires error == InvalidDate ==>
               exists row :: (row in source.canvases || row in target.canvases) && !ScalarsParse(lib, row)
    ensures Blames(lib, source, error) || Blames(lib, target, error)
  {
    CanvasScalarsParse(lib, source);
    CanvasScalarsParse(lib, target);
  }

  lemma ParsesAreFound(lib: Library, source: seq<Row>, target: Snapshot, found: seq<Mismatch>)
    requires forall m :: m in found ==> IsCanvasMismatch(lib, source, target.canvases, m)
    ensures InventoryReadable(lib, target) ==> NoParse(found)
  {
    if InventoryReadable(lib, target) {
      forall m | m in found ensures m.what != DocumentParse {
        var i :| 0 <= i < |source| && CanvasRowReports(lib, source[i], target.canvases, m);
        ParsedIsNotReported(lib, source[i], target, m);
      }
    }
  }

  lemma ParsedIsNotReported(lib: Library, row: Row, target: Snapshot, m: Mismatch)
    requires InventoryReadable(lib, target) && CanvasRowReports(lib, row, target.canvases, m)
    ensures m.what != DocumentParse
  {
    LookupMeaning(lib, NotebookCanvases, target.canvases, Key(lib, NotebookCanvases, row));
    CanvasScalarsParse(lib, target);
  }

  lemma CanvasScalarsParse(lib: Library, s: Snapshot)
    ensures DatesReadable(lib, s) ==> forall row :: row in s.canvases ==> ScalarsParse(lib, row)
    ensures InventoryReadable(lib, s) ==>
              forall row :: row in s.canvases ==> ParsedDocument(lib, Field(row, DocumentJson)).Some?
  {
    if DatesReadable(lib, s) {
      forall row | row in s.canvases ensures ScalarsParse(lib, row) {
        var i :| 0 <= i < |s.canvases| && s.canvases[i] == row;
        assert s.Rows(NotebookCanvases)[i] == row && DatesParse(lib, NotebookCanvases, row);
      }
    }
  }

  // ---- no mismatch means the same tables ----

  ghost predicate RowsParse(lib: Library, t: Table, rows: seq<Row>) {
    forall i :: 0 <= i < |rows| ==> DatesParse(lib, t, rows[i])
  }

  // Rows that are found by key are the same.
  ghost predicate RowsMatch(lib: Library, t: Table, source: seq<Row>, target: seq<Row>) {
    forall i :: 0 <= i < |source| ==>
      var found := Lookup(lib, t, target, Key(lib, t, source[i]));
      found.Some? ==> NormalRow(lib, t, source[i]) == NormalRow(lib, t, found.value)
  }

  lemma ScalarsMatch(lib: Library, t: Table, source: Snapshot, target: Snapshot)
    requires ScalarsAgree(lib, t, source, target)
    requires RowsParse(lib, t, source.Rows(t)) && RowsParse(lib, t, target.Rows(t))
    ensures RowsMatch(lib, t, source.Rows(t), target.Rows(t))
  {
    var rows := source.Rows(t);
    forall i | 0 <= i < |rows| && Lookup(lib, t, target.Rows(t), Key(lib, t, rows[i])).Some?
      ensures NormalRow(lib, t, rows[i])
           == NormalRow(lib, t, Lookup(lib, t, target.Rows(t), Key(lib, t, rows[i])).value)
    {
      var key := Key(lib, t, rows[i]);
      var found := Lookup(lib, t, target.Rows(t), key).value;
      LookupMeaning(lib, t, target.Rows(t), key);
      forall c | c in Columns(t) ensures !FieldDiffers(lib, rows[i], found, c) {
        assert !IsScalarMismatch(lib, t, Columns(t), rows, target.Rows(t), Mismatch(Scalar(c), Some(t), Some(key)));
        assert !RowDiffers(lib, t, Columns(t), rows[i], target.Rows(t), Mismatch(Scalar(c), Some(t), Some(key)));
      }
      SameNormalRow(lib, t, rows[i], found);
    }
  }

  lemma CanvasMatches(lib: Library, a: Row, b: Row)
    requires CollisionFree(lib) && CanvasAgrees(lib, a, b)
    requires Key(lib, NotebookCanvases, a) == Key(lib, NotebookCanvases, b)
    requires DatesParse(lib, NotebookCanvases, a) && DatesParse(lib, NotebookCanvases, b)
    ensures NormalRow(lib, NotebookCanvases, a) == NormalRow(lib, NotebookCanvases, b)
  {
    assert SchemaVersion in SCALAR_CANVAS_COLUMNS;
    assert CreatedAt in SCALAR_CANVAS_COLUMNS && UpdatedAt in SCALAR_CANVAS_COLUMNS;
    assert Field(a, DocumentJson) == Field(b, DocumentJson);
    SameNormalRow(lib, NotebookCanvases, a, b);
  }

  lemma CanvasesMatch(lib: Library, source: Snapshot, target: Snapshot)
    requires CollisionFree(lib) && CanvasesAgree(lib, source, target)
    requires RowsParse(lib, NotebookCanvases, source.canvases) && RowsParse(lib, NotebookCanvases, target.canvases)
    ensures RowsMatch(lib, NotebookCanvases, source.canvases, target.canvases)
  {
    var t := NotebookCanvases;
    forall i | 0 <= i < |source.canvases| && Lookup(lib, t, target.canvases, Key(lib, t, source.canvases[i])).Some?
      ensures NormalRow(lib, t, source.canvases[i])
           == NormalRow(lib, t, Lookup(lib, t, target.canvases, Key(lib, t, source.canvases[i])).value)
    {
      LookupMeaning(lib, t, target.canvases, Key(lib, t, source.canvases[i]));
      assert CanvasRowAgrees(lib, source.canvases[i], target.canvases);
      CanvasMatches(lib, source.canvases[i], Lookup(lib, t, target.canvases, Key(lib, t, source.canvases[i])).value);
    }
  }

  // Looking up the key of a row finds that row.
  lemma LookupOwn(lib: Library, t: Table, rows: seq<Row>, j: nat)
    requires j < |rows| && DistinctKeys(lib, t, rows)
    ensures Lookup(lib, t, rows, Key(lib, t, rows[j])) == Some(rows[j])
  {
    var key := Key(lib, t, rows[j]);
    LookupMeaning(lib, t, rows, key);
    var k :| 0 <= k < |rows| && rows[k] == Lookup(lib, t, rows, key).value;
    assert Key(lib, t, rows[k]) == Key(lib, t, rows[j]);
    assert k == j;
  }

  lemma SourceRowIsInTarget(lib: Library, t: Table, source: seq<Row>, target: seq<Row>, i: nat)
    requires Keys(lib, t, source) == Keys(lib, t, target) && RowsMatch(lib, t, source, target) && i < |source|
    ensures NormalRow(lib, t, source[i]) in NormalRows(lib, t, target)
  {
    var key := Key(lib, t, source[i]);
    assert key in Keys(lib, t, source);
    LookupMeaning(lib, t, target, key);
    var j :| 0 <= j < |target| && target[j] == Lookup(lib, t, target, key).value;
    assert NormalRows(lib, t, target)[j] == NormalRow(lib, t, source[i]);
  }

  lemma TargetRowIsInSource(lib: Library, t: Table, source: seq<Row>, target: seq<Row>, j: nat)
    requires Keys(lib, t, source) == Keys(lib, t, target) && RowsMatch(lib, t, source, target)
    requires j < |target| && DistinctKeys(lib, t, target)
    ensures NormalRow(lib, t, target[j]) in NormalRows(lib, t, source)
  {
    assert Key(lib, t, target[j]) in Keys(lib, t, target);
    var i :| 0 <= i < |source| && Key(lib, t, source[i]) == Key(lib, t, target[j]);
    LookupOwn(lib, t, target, j);
    assert NormalRows(lib, t, source)[i] == NormalRow(lib, t, target[j]);
  }

  lemma MatchedTablesAreSame(lib: Library, t: Table, source: seq<Row>, target: seq<Row>)
    requires Keys(lib, t, source) == Keys(lib, t, target) && RowsMatch(lib, t, source, target)
    requires DistinctKeys(lib, t, source) && DistinctKeys(lib, t, target)
    requires RowsParse(lib, t, source) && RowsParse(lib, t, target)
    ensures multiset(NormalRows(lib, t, source)) == multiset(NormalRows(lib, t, target))
  {
    NormalRowsDistinct(lib, t, source);
    NormalRowsDistinct(lib, t, target);
    var a, b := NormalRows(lib, t, source), NormalRows(lib, t, target);
    forall i | 0 <= i < |a| ensures a[i] in b {
      SourceRowIsInTarget(lib, t, source, target, i);
    }
    forall j | 0 <= j < |b| ensures b[j] in a {
      TargetRowIsInSource(lib, t, source, target, j);
    }
    Sorting.SameMembersPermute(a, b);
  }

  lemma SnapshotParses(lib: Library, s: Snapshot, t: Table)
    requires Readable(lib, s)
    ensures RowsParse(lib, t, s.Rows(t))
  {
  }

  lemma NoMismatchIsSame(lib: Library, source: Snapshot, target: Snapshot, t: Table)
    requires Readable(lib, source) && Readable(lib, target) && CollisionFree(lib)
    requires NoMismatch(lib, source, target)
    ensures SameTable(lib, t, source, target)
  {
    SnapshotParses(lib, source, t);
    SnapshotParses(lib, target, t);
    if t == NotebookCanvases {
      CanvasesMatch(lib, source, target);
    } else {
      ScalarsMatch(lib, t, source, target);
    }
    MatchedTablesAreSame(lib, t, source.Rows(t), target.Rows(t));
  }
}
