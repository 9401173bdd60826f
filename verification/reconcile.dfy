// Reconciling the target database with the source after a migration: many
// separate checks that push mismatches onto one list.
module Reconcile {
  import opened Results
  import opened ReconcileTables

  datatype PageField = PageWidth | PageHeight | PageBackground

  datatype What =
    | IdSet(missing: set<Value>, extra: set<Value>) | Scalar(column: Column)
    | DocumentParse | DocumentHash | DocumentDeepEqual | SearchTextDiffers | PageDiffers(page: PageField)
    | ElementIdSet | ElementDiffers(field: ElementField)
    | ParentIdSet(parent: Column, missing: set<Value>, extra: set<Value>)
    | ForeignKeyOrphan | DuplicateKey | UnexpectedNull

  // `table` and `id` are missing for the checks across tables.
  datatype Mismatch = Mismatch(what: What, table: Option<Table>, id: Option<Value>)

  datatype ReconcileError = InvalidDate | InvalidDocument | UncomparableId

  const CANVAS_MIN_PAGE_DIMENSION: int := 320
  const CANVAS_MAX_PAGE_DIMENSION: int := 4_000

  // ---- canvas documents ----

  predicate InRange(dimension: int) {
    CANVAS_MIN_PAGE_DIMENSION <= dimension <= CANVAS_MAX_PAGE_DIMENSION
  }

  predicate ValidPage(d: Document) {
    d.schemaVersion == 1 && d.page.background == "paper" && InRange(d.page.width) && InRange(d.page.height)
  }

  predicate ValidElements(elements: seq<Element>) {
    && (forall i :: 0 <= i < |elements| ==> elements[i].id != "")
    && (forall i, j :: 0 <= i < j < |elements| ==> elements[i].id != elements[j].id)
  }

  function ParsedDocument(lib: Library, v: Value): Option<Document> {
    if !v.Text? then None
    else
      match lib.json(v.text)
      case None => None
      case Some(d) => if ValidPage(d) && ValidElements(d.elements) then Some(d) else None
  }

  method ParseCanvasDocument(lib: Library, v: Value) returns (r: Option<Document>)
    ensures r == ParsedDocument(lib, v)
    ensures r.Some? <==>
      && v.Text? && lib.json(v.text).Some?
      && var d := lib.json(v.text).value;
         && d.schemaVersion == 1 && d.page.background == "paper"
         && 320 <= d.page.width <= 4000 && 320 <= d.page.height <= 4000
         && (forall i :: 0 <= i < |d.elements| ==> |d.elements[i].id| > 0)
         && (forall i, j :: 0 <= i < |d.elements| && 0 <= j < |d.elements| && d.elements[i].id == d.elements[j].id ==>
               i == j)
    ensures r.Some? ==> r == lib.json(v.text)
  {
    if !v.Text? || lib.json(v.text).None? {
      return None;
    }
    var document := lib.json(v.text).value;
    if !ValidPage(document) {
      return None;
    }
    var elementIds: set<string> := {};
    for i := 0 to |document.elements|
      invariant elementIds == set j | 0 <= j < i :: document.elements[j].id
      invariant ValidElements(document.elements[..i])
    {
      var id := document.elements[i].id;
      if id == "" || id in elementIds {
        return None;
      }
      elementIds := elementIds + {id};
    }
    assert document.elements[..|document.elements|] == document.elements;
    r := Some(document);
  }

  // What `buildInventory` needs of a canvas row.
  predicate CanvasReadable(lib: Library, row: Row) {
    ParsedDocument(lib, Field(row, DocumentJson)).Some? && Field(row, SearchText).Text?
  }

  ghost predicate InventoryReadable(lib: Library, s: Snapshot) {
    forall i :: 0 <= i < |s.canvases| ==> CanvasReadable(lib, s.canvases[i])
  }

  // ---- looking rows up by key ----

  // The row a `Map` built from the rows holds for a key: the last one.
  function Lookup(lib: Library, table: Table, rows: seq<Row>, key: Value): Option<Row> {
    if rows == [] then None
    else if Key(lib, table, rows[|rows| - 1]) == key then Some(rows[|rows| - 1])
    else Lookup(lib, table, rows[..|rows| - 1], key)
  }

  lemma {:induction false} LookupMeaning(lib: Library, table: Table, rows: seq<Row>, key: Value)
    ensures Lookup(lib, table, rows, key).Some? <==> exists j :: 0 <= j < |rows| && Key(lib, table, rows[j]) == key
    ensures Lookup(lib, table, rows, key).Some? ==>
              Lookup(lib, table, rows, key).value in rows
              && Key(lib, table, Lookup(lib, table, rows, key).value) == key
  {
    if rows != [] {
      var n := |rows| - 1;
      LookupMeaning(lib, table, rows[..n], key);
      assert forall j :: 0 <= j < n ==> rows[j] == rows[..n][j];
      assert rows == rows[..n] + [rows[n]];
    }
  }

  method IndexByKey(lib: Library, table: Table, rows: seq<Row>) returns (index: map<Value, Row>)
    ensures forall k :: k in index <==> Lookup(lib, table, rows, k).Some?
    ensures forall k :: k in index ==> Lookup(lib, table, rows, k) == Some(index[k])
  {
    index := map[];
    for i := 0 to |rows|
      invariant forall k :: k in index <==> Lookup(lib, table, rows[..i], k).Some?
      invariant forall k :: k in index ==> Lookup(lib, table, rows[..i], k) == Some(index[k])
    {
      assert rows[..i + 1][..i] == rows[..i];
      index := index[Key(lib, table, rows[i]) := rows[i]];
    }
    assert rows[..|rows|] == rows;
  }

  function Keys(lib: Library, table: Table, rows: seq<Row>): set<Value> {
    set i | 0 <= i < |rows| :: Key(lib, table, rows[i])
  }

  // ---- what each check reports ----

  predicate FieldDiffers(lib: Library, a: Row, b: Row, c: Column) {
    Normalized(lib, c, Field(a, c)) != Normalized(lib, c, Field(b, c))
  }

  ghost predicate IsScalarMismatch(
      lib: Library, table: Table, columns: seq<Column>, source: seq<Row>, target: seq<Row>, m: Mismatch) {
    exists i :: 0 <= i < |source| && RowDiffers(lib, table, columns, source[i], target, m)
  }

  ghost predicate RowDiffers(
      lib: Library, table: Table, columns: seq<Column>, row: Row, target: seq<Row>, m: Mismatch) {
    var key := Key(lib, table, row);
    var found := Lookup(lib, table, target, key);
    && m.what.Scalar? && m.table == Some(table) && m.id == Some(key)
    && found.Some? && m.what.column in columns && FieldDiffers(lib, row, found.value, m.what.column)
  }

  const SCALAR_CANVAS_COLUMNS: seq<Column> := [SchemaVersion, CreatedAt, UpdatedAt]

  predicate ScalarsParse(lib: Library, row: Row) {
    forall c :: c in SCALAR_CANVAS_COLUMNS ==> Normalized(lib, c, Field(row, c)).Some?
  }

  // No mismatch between two canvas rows.
  ghost predicate CanvasAgrees(lib: Library, a: Row, b: Row) {
    && (forall c :: c in SCALAR_CANVAS_COLUMNS ==> !FieldDiffers(lib, a, b, c))
    && Field(a, SearchText) == Field(b, SearchText)
    && ParsedDocument(lib, Field(a, DocumentJson)).Some?
    && ParsedDocument(lib, Field(a, DocumentJson)) == ParsedDocument(lib, Field(b, DocumentJson))
    && lib.hash(Field(a, DocumentJson).text) == lib.hash(Field(b, DocumentJson).text)
  }

  ghost predicate CanvasRowAgrees(lib: Library, row: Row, target: seq<Row>) {
    var found := Lookup(lib, NotebookCanvases, target, Key(lib, NotebookCanvases, row));
    found.Some? ==> CanvasAgrees(lib, row, found.value)
  }

  const ELEMENT_FIELDS: seq<ElementField> :=
    [Kind, X, Y, Width, Height, Rotation, Points, Z, Style, ElementText, TextStyle]

  lemma AllElementFields()
    ensures forall f: ElementField :: f in ELEMENT_FIELDS
  {
    var all := ELEMENT_FIELDS;
    assert all[0] == Kind && all[1] == X && all[2] == Y && all[3] == Width && all[4] == Height && all[5] == Rotation;
    assert all[6] == Points && all[7] == Z && all[8] == Style && all[9] == ElementText && all[10] == TextStyle;
    forall f: ElementField ensures f in all {
      match f
      case Kind =>
      case X =>
      case Y =>
      case Width =>
      case Height =>
      case Rotation =>
      case Points =>
      case Z =>
      case Style =>
      case ElementText =>
      case TextStyle =>
    }
  }

  function ElementValue(e: Element, f: ElementField): Value {
    if f in e.fields then e.fields[f] else Undefined
  }

  // The elements of a `Map` by id.
  function ElementsById(elements: seq<Element>): map<string, Element> {
    if elements == [] then map[]
    else ElementsById(elements[..|elements| - 1])[elements[|elements| - 1].id := elements[|elements| - 1]]
  }

  // What is reported about one element id.
  predicate ElementReports(a: seq<Element>, b: seq<Element>, e: string, what: What) {
    if e !in ElementsById(a) || e !in ElementsById(b) then what == ElementIdSet
    else ElementDiffersIn(ElementsById(a)[e], ElementsById(b)[e], what)
  }

  predicate ElementDiffersIn(a: Element, b: Element, what: What) {
    what.ElementDiffers? && ElementValue(a, what.field) != ElementValue(b, what.field)
  }

  function AllIds(a: seq<Element>, b: seq<Element>): set<string> {
    ElementsById(a).Keys + ElementsById(b).Keys
  }

  predicate DistinctIds(elements: seq<Element>) {
    forall i, j :: 0 <= i < j < |elements| ==> elements[i].id != elements[j].id
  }

  lemma {:induction false} ByIdMeaning(elements: seq<Element>, e: string)
    ensures e in ElementsById(elements) <==> exists i :: 0 <= i < |elements| && elements[i].id == e
    ensures DistinctIds(elements) ==>
              forall i :: 0 <= i < |elements| && elements[i].id == e ==> ElementsById(elements)[e] == elements[i]
  {
    if elements != [] {
      var n := |elements| - 1;
      ByIdMeaning(elements[..n], e);
      assert forall i :: 0 <= i < n ==> elements[..n][i] == elements[i];
      if i :| 0 <= i < n && elements[i].id == e {
        assert elements[..n][i].id == e;
      }
    }
  }

  // What is reported about two lists of elements with distinct ids: an element
  // without a counterpart, and every field in which counterparts differ.
  lemma ElementsReportExactly(a: seq<Element>, b: seq<Element>, what: What)
    requires DistinctIds(a) && DistinctIds(b)
    ensures ElementsReport(a, b, AllIds(a, b), what) <==>
              || (what == ElementIdSet && (LacksCounterpart(a, b) || LacksCounterpart(b, a)))
              || (what.ElementDiffers? && exists i, j :: DifferIn(a, b, i, j, what.field))
  {
    if ElementsReport(a, b, AllIds(a, b), what) {
      var e :| e in AllIds(a, b) && ElementReports(a, b, e, what);
      ReportedElement(a, b, e, what);
    }
    if what == ElementIdSet && LacksCounterpart(a, b) {
      var i :| 0 <= i < |a| && forall j :: 0 <= j < |b| ==> b[j].id != a[i].id;
      ReportsIfDifferent(a, b, a[i].id, what);
    }
    if what == ElementIdSet && LacksCounterpart(b, a) {
      var j :| 0 <= j < |b| && forall i :: 0 <= i < |a| ==> a[i].id != b[j].id;
      ReportsIfDifferent(a, b, b[j].id, what);
    }
    if what.ElementDiffers? && exists i, j :: DifferIn(a, b, i, j, what.field) {
      var i, j :| DifferIn(a, b, i, j, what.field);
      ReportsIfDifferent(a, b, a[i].id, what);
    }
  }

  // An id that only one list has, or elements of it that differ in the field.
  lemma ReportsIfDifferent(a: seq<Element>, b: seq<Element>, e: string, what: What)
    requires DistinctIds(a) && DistinctIds(b)
    requires var inA, inB := exists i :: 0 <= i < |a| && a[i].id == e, exists j :: 0 <= j < |b| && b[j].id == e;
             || (what == ElementIdSet && inA != inB)
             || (what.ElementDiffers? && exists i, j :: DifferIn(a, b, i, j, what.field) && a[i].id == e)
    ensures ElementsReport(a, b, AllIds(a, b), what)
  {
    ByIdMeaning(a, e);
    ByIdMeaning(b, e);
    assert e in AllIds(a, b) && ElementReports(a, b, e, what);
  }

  ghost predicate LacksCounterpart(a: seq<Element>, b: seq<Element>) {
    exists i :: 0 <= i < |a| && forall j :: 0 <= j < |b| ==> b[j].id != a[i].id
  }

  // A field of an element, when it is there.
  predicate HasField(e: Element, field: ElementField) {
    field in e.fields && e.fields[field] != Undefined
  }

  // Elements of the same id of which one has the field and the other has not, or
  // both have it with different values.
  predicate DifferIn(a: seq<Element>, b: seq<Element>, i: int, j: int, field: ElementField) {
    && 0 <= i < |a| && 0 <= j < |b| && a[i].id == b[j].id
    && (HasField(a[i], field) != HasField(b[j], field)
        || (HasField(a[i], field) && a[i].fields[field] != b[j].fields[field]))
  }

  lemma ReportedElement(a: seq<Element>, b: seq<Element>, e: string, what: What)
    requires DistinctIds(a) && DistinctIds(b) && e in AllIds(a, b) && ElementReports(a, b, e, what)
    ensures what == ElementIdSet ==> LacksCounterpart(a, b) || LacksCounterpart(b, a)
    ensures what == ElementIdSet || (what.ElementDiffers? && exists i, j :: DifferIn(a, b, i, j, what.field))
  {
    ByIdMeaning(a, e);
    ByIdMeaning(b, e);
    if e in ElementsById(a) {
      var i :| 0 <= i < |a| && a[i].id == e;
      if e in ElementsById(b) {
        var j :| 0 <= j < |b| && b[j].id == e;
        assert DifferIn(a, b, i, j, what.field);
      }
    } else {
      var j :| 0 <= j < |b| && b[j].id == e;
    }
  }

  ghost predicate ElementsReport(a: seq<Element>, b: seq<Element>, ids: set<string>, what: What) {
    exists e :: e in ids && ElementReports(a, b, e, what)
  }

  const PAGE_FIELDS: seq<PageField> := [PageWidth, PageHeight, PageBackground]

  predicate PageDiffersIn(a: Page, b: Page, f: PageField) {
    match f
    case PageWidth => a.width != b.width
    case PageHeight => a.height != b.height
    case PageBackground => a.background != b.background
  }

  predicate TextsReport(lib: Library, a: Row, b: Row, source: Document, target: Document, what: What)
    requires Field(a, DocumentJson).Text? && Field(b, DocumentJson).Text?
  {
    || (what == DocumentHash && lib.hash(Field(a, DocumentJson).text) != lib.hash(Field(b, DocumentJson).text))
    || (what == DocumentDeepEqual && source != target)
    || (what == SearchTextDiffers && Field(a, SearchText) != Field(b, SearchText))
  }

  ghost predicate ContentsReport(a: Document, b: Document, what: What) {
    || (what.PageDiffers? && PageDiffersIn(a.page, b.page, what.page))
    || ElementsReport(a.elements, b.elements, AllIds(a.elements, b.elements), what)
  }

  // What is reported about two canvas rows.
  ghost predicate CanvasReports(lib: Library, a: Row, b: Row, what: What)
    requires ParsedDocument(lib, Field(a, DocumentJson)).Some?
  {
    var source, target := ParsedDocument(lib, Field(a, DocumentJson)), ParsedDocument(lib, Field(b, DocumentJson));
    if target.None? then what == DocumentParse
    else ParsedReport(lib, a, b, source.value, target.value, what)
  }

  ghost predicate ParsedReport(lib: Library, a: Row, b: Row, source: Document, target: Document, what: What)
    requires Field(a, DocumentJson).Text? && Field(b, DocumentJson).Text?
  {
    || (what.Scalar? && what.column in SCALAR_CANVAS_COLUMNS && FieldDiffers(lib, a, b, what.column))
    || TextsReport(lib, a, b, source, target, what)
    || ContentsReport(source, target, what)
  }

  predicate HasTarget(lib: Library, row: Row, target: seq<Row>) {
    Lookup(lib, NotebookCanvases, target, Key(lib, NotebookCanvases, row)).Some?
  }

  ghost predicate CanvasRowReports(lib: Library, row: Row, target: seq<Row>, m: Mismatch) {
    var key := Key(lib, NotebookCanvases, row);
    && HasTarget(lib, row, target) && ParsedDocument(lib, Field(row, DocumentJson)).Some? && OfCanvas(m, key)
    && CanvasReports(lib, row, Lookup(lib, NotebookCanvases, target, key).value, m.what)
  }

  ghost predicate IsCanvasMismatch(lib: Library, source: seq<Row>, target: seq<Row>, m: Mismatch) {
    exists i :: 0 <= i < |source| && CanvasRowReports(lib, source[i], target, m)
  }

  // No document that does not parse is reported.
  predicate NoParse(reported: seq<Mismatch>) {
    forall m :: m in reported ==> m.what != DocumentParse
  }

  predicate OfCanvas(m: Mismatch, id: Value) {
    m.table == Some(NotebookCanvases) && m.id == Some(id)
  }

  ghost predicate SameParents(source: Snapshot, target: Snapshot) {
    && Ids(source.canvases, NotebookId) == Ids(target.canvases, NotebookId)
    && Ids(source.cues, NotebookId) == Ids(target.cues, NotebookId)
    && Ids(source.notebookTags, NotebookId) == Ids(target.notebookTags, NotebookId)
    && Ids(source.notebookTags, TagId) == Ids(target.notebookTags, TagId)
  }

  // Nothing is reported about two canvas rows exactly when they agree.
  lemma NothingReported(lib: Library, a: Row, b: Row)
    requires ParsedDocument(lib, Field(a, DocumentJson)).Some?
    ensures (forall what :: !CanvasReports(lib, a, b, what)) <==> CanvasAgrees(lib, a, b)
  {
    if forall what :: !CanvasReports(lib, a, b, what) {
      assert !CanvasReports(lib, a, b, DocumentParse);
      assert !CanvasReports(lib, a, b, DocumentHash) && !CanvasReports(lib, a, b, SearchTextDiffers);
      assert !CanvasReports(lib, a, b, DocumentDeepEqual);
      forall c | c in SCALAR_CANVAS_COLUMNS ensures !FieldDiffers(lib, a, b, c) {
        assert !CanvasReports(lib, a, b, Scalar(c));
      }
    }
  }

  lemma NothingReportedOfRow(lib: Library, row: Row, target: seq<Row>)
    requires HasTarget(lib, row, target) ==> ParsedDocument(lib, Field(row, DocumentJson)).Some?
    ensures (forall m :: !CanvasRowReports(lib, row, target, m)) <==> CanvasRowAgrees(lib, row, target)
  {
    if HasTarget(lib, row, target) {
      var key := Key(lib, NotebookCanvases, row);
      var other := Lookup(lib, NotebookCanvases, target, key).value;
      NothingReported(lib, row, other);
      if forall m :: !CanvasRowReports(lib, row, target, m) {
        forall what ensures !CanvasReports(lib, row, other, what) {
          assert !CanvasRowReports(lib, row, target, Mismatch(what, Some(NotebookCanvases), Some(key)));
        }
      }
    }
  }

  // No canvas mismatch is added exactly when all canvases agree.
  lemma NothingAdded(lib: Library, source: seq<Row>, target: seq<Row>, added: seq<Mismatch>)
    requires forall i :: 0 <= i < |source| && HasTarget(lib, source[i], target) ==>
               ParsedDocument(lib, Field(source[i], DocumentJson)).Some?
    requires forall m :: m in added <==> IsCanvasMismatch(lib, source, target, m)
    ensures added == [] <==> forall i :: 0 <= i < |source| ==> CanvasRowAgrees(lib, source[i], target)
  {
    forall i | 0 <= i < |source|
      ensures (forall m :: !CanvasRowReports(lib, source[i], target, m)) <==> CanvasRowAgrees(lib, source[i], target)
    {
      NothingReportedOfRow(lib, source[i], target);
    }
    if added == [] {
      forall i, m | 0 <= i < |source| ensures !CanvasRowReports(lib, source[i], target, m) {
        assert m !in added;
      }
    } else {
      assert added[0] in added;
    }
  }

  lemma OneMoreElement(a: seq<Element>, b: seq<Element>, ids: set<string>, e: string)
    ensures forall what :: ElementsReport(a, b, ids + {e}, what) <==>
              ElementsReport(a, b, ids, what) || ElementReports(a, b, e, what)
  {
    assert e in ids + {e};
  }

  lemma OneMoreCanvas(lib: Library, source: seq<Row>, target: seq<Row>, i: nat)
    requires i < |source|
    ensures forall m :: IsCanvasMismatch(lib, source[..i + 1], target, m) <==>
              IsCanvasMismatch(lib, source[..i], target, m) || CanvasRowReports(lib, source[i], target, m)
  {
    var init := source[..i + 1];
    assert init[i] == source[i];
    assert forall j :: 0 <= j < i ==> init[j] == source[..i][j];
  }

  // The list that every check pushes onto.
  class Report {
    var mismatches: seq<Mismatch>

    constructor ()
      ensures mismatches == []
    {
      mismatches := [];
    }

    method Push(m: Mismatch)
      modifies this
      ensures mismatches == old(mismatches) + [m]
    {
      mismatches := mismatches + [m];
    }

    method CompareIdSets(lib: Library, table: Table, source: seq<Row>, target: seq<Row>)
      modifies this
      ensures var s, t := Keys(lib, table, source), Keys(lib, table, target);
              mismatches == old(mismatches)
                + if s == t then [] else [Mismatch(IdSet(s - t, t - s), Some(table), None)]
    {
      var sourceSet, targetSet := Keys(lib, table, source), Keys(lib, table, target);
      var missing, extra := sourceSet - targetSet, targetSet - sourceSet;
      assert missing == {} && extra == {} <==> sourceSet == targetSet;
      if missing != {} || extra != {} {
        Push(Mismatch(IdSet(missing, extra), Some(table), None));
      }
    }

    method CompareFields(lib: Library, table: Table, key: Value, a: Row, b: Row, columns: seq<Column>)
        returns (r: Result<(), ReconcileError>, ghost added: seq<Mismatch>)
      modifies this
      ensures mismatches == old(mismatches) + added
      ensures (forall c :: c in columns ==>
                 Normalized(lib, c, Field(a, c)).Some? && Normalized(lib, c, Field(b, c)).Some?) ==> r.Ok?
      ensures r.Err? ==> r.error == InvalidDate
      ensures r.Ok? ==> forall m :: m in added <==>
                && m.what.Scalar? && m.table == Some(table) && m.id == Some(key)
                && m.what.column in columns && FieldDiffers(lib, a, b, m.what.column)
    {
      added := [];
      for i := 0 to |columns|
        invariant mismatches == old(mismatches) + added
        invariant forall m :: m in added <==>
          && m.what.Scalar? && m.table == Some(table) && m.id == Some(key)
          && m.what.column in columns[..i] && FieldDiffers(lib, a, b, m.what.column)
      {
        var c := columns[i];
        assert columns[..i + 1] == columns[..i] + [c];
        var x, y := Normalized(lib, c, Field(a, c)), Normalized(lib, c, Field(b, c));
        if x.None? || y.None? {
          assert c in columns;
          return Err(InvalidDate), added;
        }
        if x.value != y.value {
          var m := Mismatch(Scalar(c), Some(table), Some(key));
          Push(m);
          added := added + [m];
        }
      }
      assert columns[..|columns|] == columns;
      r := Ok(());
    }

    // One source row with the target row of its key, if there is one.
    method CompareRow(
        lib: Library, table: Table, columns: seq<Column>, row: Row, target: seq<Row>, targetById: map<Value, Row>)
        returns (r: Result<(), ReconcileError>, ghost added: seq<Mismatch>)
      requires forall k :: k in targetById <==> Lookup(lib, table, target, k).Some?
      requires forall k :: k in targetById ==> Lookup(lib, table, target, k) == Some(targetById[k])
      modifies this
      ensures mismatches == old(mismatches) + added
      ensures (forall other, c :: (other == row || other in target) && c in columns ==>
                 Normalized(lib, c, Field(other, c)).Some?) ==> r.Ok?
      ensures r.Err? ==> r.error == InvalidDate
      ensures r.Ok? ==> forall m :: m in added <==> RowDiffers(lib, table, columns, row, target, m)
    {
      var key := Key(lib, table, row);
      LookupMeaning(lib, table, target, key);
      if key in targetById {
        r, added := CompareFields(lib, table, key, row, targetById[key], columns);
      } else {
        r, added := Ok(()), [];
      }
    }

    // Reports exactly the columns in which a source row and the target row of
    // the same key differ.
    method CompareScalarRows(lib: Library, table: Table, columns: seq<Column>, source: seq<Row>, target: seq<Row>)
        returns (r: Result<(), ReconcileError>, ghost added: seq<Mismatch>)
      modifies this
      ensures mismatches == old(mismatches) + added
      ensures (forall row, c :: (row in source || row in target) && c in columns ==>
                 Normalized(lib, c, Field(row, c)).Some?) ==> r.Ok?
      ensures r.Err? ==> r.error == InvalidDate
      ensures r.Ok? ==> forall m :: m in added <==> IsScalarMismatch(lib, table, columns, source, target, m)
    {
      var targetById := IndexByKey(lib, table, target);
      added := [];
      for i := 0 to |source|
        invariant mismatches == old(mismatches) + added
        invariant forall m :: m in added <==> IsScalarMismatch(lib, table, columns, source[..i], target, m)
      {
        ghost var differing: seq<Mismatch>;
        assert source[i] in source;
        r, differing := CompareRow(lib, table, columns, source[i], target, targetById);
        added := added + differing;
        if r.Err? {
          return;
        }
        OneMoreRow(lib, table, columns, source, target, i);
      }
      assert source[..|source|] == source;
      r := Ok(());
    }

    method CompareElement(id: Value, a: Element, b: Element) returns (ghost added: seq<Mismatch>)
      modifies this
      ensures mismatches == old(mismatches) + added
      ensures forall m :: m in added <==> OfCanvas(m, id) && ElementDiffersIn(a, b, m.what)
    {
      added := [];
      for i := 0 to |ELEMENT_FIELDS|
        invariant mismatches == old(mismatches) + added
        invariant forall m :: m in added <==>
          OfCanvas(m, id) && ElementDiffersIn(a, b, m.what) && m.what.field in ELEMENT_FIELDS[..i]
      {
        var f := ELEMENT_FIELDS[i];
        assert ELEMENT_FIELDS[..i + 1] == ELEMENT_FIELDS[..i] + [f];
        if ElementValue(a, f) != ElementValue(b, f) {
          var m := Mismatch(ElementDiffers(f), Some(NotebookCanvases), Some(id));
          Push(m);
          added := added + [m];
        }
      }
      assert ELEMENT_FIELDS[..|ELEMENT_FIELDS|] == ELEMENT_FIELDS;
      AllElementFields();
    }

    // Elements by their id, in both documents.
    method CompareElements(id: Value, a: seq<Element>, b: seq<Element>) returns (ghost added: seq<Mismatch>)
      modifies this
      ensures mismatches == old(mismatches) + added
      ensures forall m :: m in added <==>
                OfCanvas(m, id) && ElementsReport(a, b, AllIds(a, b), m.what)
    {
      var sourceElements, targetElements := ElementsById(a), ElementsById(b);
      var ids := AllIds(a, b);
      var rest := ids;
      added := [];
      while rest != {}
        invariant rest <= ids && mismatches == old(mismatches) + added
        invariant forall m :: m in added <==> OfCanvas(m, id) && ElementsReport(a, b, ids - rest, m.what)
      {
        var e :| e in rest;
        OneMoreElement(a, b, ids - rest, e);
        assert ids - (rest - {e}) == ids - rest + {e};
        ghost var more: seq<Mismatch>;
        if e !in sourceElements || e !in targetElements {
          more := [Mismatch(ElementIdSet, Some(NotebookCanvases), Some(id))];
          Push(Mismatch(ElementIdSet, Some(NotebookCanvases), Some(id)));
        } else {
          more := CompareElement(id, sourceElements[e], targetElements[e]);
        }
        added := added + more;
        rest := rest - {e};
      }
      assert ids - {} == ids;
    }

    method ComparePages(id: Value, a: Page, b: Page) returns (ghost added: seq<Mismatch>)
      modifies this
      ensures mismatches == old(mismatches) + added
      ensures forall m :: m in added <==> OfCanvas(m, id) && m.what.PageDiffers? && PageDiffersIn(a, b, m.what.page)
      ensures Mismatch(PageDiffers(PageWidth), Some(NotebookCanvases), Some(id)) in added <==> a.width != b.width
      ensures Mismatch(PageDiffers(PageHeight), Some(NotebookCanvases), Some(id)) in added <==> a.height != b.height
      ensures Mismatch(PageDiffers(PageBackground), Some(NotebookCanvases), Some(id)) in added <==>
        a.background != b.background
    {
      added := [];
      for i := 0 to |PAGE_FIELDS|
        invariant mismatches == old(mismatches) + added
        invariant forall m :: m in added <==>
          OfCanvas(m, id) && m.what.PageDiffers? && PageDiffersIn(a, b, m.what.page) && m.what.page in PAGE_FIELDS[..i]
      {
        var f := PAGE_FIELDS[i];
        assert PAGE_FIELDS[..i + 1] == PAGE_FIELDS[..i] + [f];
        if PageDiffersIn(a, b, f) {
          var m := Mismatch(PageDiffers(f), Some(NotebookCanvases), Some(id));
          Push(m);
          added := added + [m];
        }
      }
      assert PAGE_FIELDS[..3] == PAGE_FIELDS;
      forall f: PageField ensures f in PAGE_FIELDS {
        assert f == PAGE_FIELDS[0] || f == PAGE_FIELDS[1] || f == PAGE_FIELDS[2];
      }
    }

    method CompareTexts(lib: Library, id: Value, a: Row, b: Row, source: Document, target: Document)
        returns (ghost added: seq<Mismatch>)
      requires Field(a, DocumentJson).Text? && Field(b, DocumentJson).Text?
      modifies this
      ensures mismatches == old(mismatches) + added
      ensures forall m :: m in added <==> OfCanvas(m, id) && TextsReport(lib, a, b, source, target, m.what)
    {
      added := [];
      if lib.hash(Field(a, DocumentJson).text) != lib.hash(Field(b, DocumentJson).text) {
        Push(Mismatch(DocumentHash, Some(NotebookCanvases), Some(id)));
        added := added + [Mismatch(DocumentHash, Some(NotebookCanvases), Some(id))];
      }
      if source != target {
        Push(Mismatch(DocumentDeepEqual, Some(NotebookCanvases), Some(id)));
        added := added + [Mismatch(DocumentDeepEqual, Some(NotebookCanvases), Some(id))];
      }
      if Field(a, SearchText) != Field(b, SearchText) {
        Push(Mismatch(SearchTextDiffers, Some(NotebookCanvases), Some(id)));
        added := added + [Mismatch(SearchTextDiffers, Some(NotebookCanvases), Some(id))];
      }
    }

    method CompareContents(id: Value, a: Document, b: Document) returns (ghost added: seq<Mismatch>)
      modifies this
      ensures mismatches == old(mismatches) + added
      ensures forall m :: m in added <==> OfCanvas(m, id) && ContentsReport(a, b, m.what)
    {
      ghost var pages := ComparePages(id, a.page, b.page);
      ghost var elements := CompareElements(id, a.elements, b.elements);
      added := pages + elements;
    }

    method CompareParsed(lib: Library, id: Value, a: Row, b: Row, source: Document, target: Document)
        returns (r: Result<(), ReconcileError>, ghost added: seq<Mismatch>)
      requires Field(a, DocumentJson).Text? && Field(b, DocumentJson).Text?
      modifies this
      ensures mismatches == old(mismatches) + added
      ensures r.Ok? ==> forall m :: m in added <==> OfCanvas(m, id) && ParsedReport(lib, a, b, source, target, m.what)
      ensures ScalarsParse(lib, a) && ScalarsParse(lib, b) ==> r.Ok?
      ensures r.Err? ==> r.error == InvalidDate
    {
      r, added := CompareFields(lib, NotebookCanvases, id, a, b, SCALAR_CANVAS_COLUMNS);
      if r.Err? {
        return;
      }
      ghost var texts := CompareTexts(lib, id, a, b, source, target);
      ghost var contents := CompareContents(id, source, target);
      added := added + texts + contents;
    }

    // One source canvas with its target.
    method CompareCanvas(lib: Library, id: Value, a: Row, b: Row)
        returns (r: Result<(), ReconcileError>, ghost added: seq<Mismatch>)
      modifies this
      ensures mismatches == old(mismatches) + added
      ensures r.Ok? ==> ParsedDocument(lib, Field(a, DocumentJson)).Some?
      ensures r.Ok? ==> forall m :: m in added <==> OfCanvas(m, id) && CanvasReports(lib, a, b, m.what)
      ensures ParsedDocument(lib, Field(a, DocumentJson)).Some? && ScalarsParse(lib, a) && ScalarsParse(lib, b) ==>
        r.Ok?
      ensures r.Err? ==>
        if ParsedDocument(lib, Field(a, DocumentJson)).None? then r.error == InvalidDocument else r.error == InvalidDate
    {
      added := [];
      var sourceDocument := ParseCanvasDocument(lib, Field(a, DocumentJson));
      if sourceDocument.None? {
        return Err(InvalidDocument), added;
      }
      var targetDocument := ParseCanvasDocument(lib, Field(b, DocumentJson));
      if targetDocument.None? {
        Push(Mismatch(DocumentParse, Some(NotebookCanvases), Some(id)));
        return Ok(()), [Mismatch(DocumentParse, Some(NotebookCanvases), Some(id))];
      }
      r, added := CompareParsed(lib, id, a, b, sourceDocument.value, targetDocument.value);
    }

    // A source canvas with the target canvas of its notebook, if there is one.
    method CompareCanvasRow(lib: Library, row: Row, target: seq<Row>, targetById: map<Value, Row>)
        returns (r: Result<(), ReconcileError>, ghost added: seq<Mismatch>)
      requires forall k :: k in targetById <==> Lookup(lib, NotebookCanvases, target, k).Some?
      requires forall k :: k in targetById ==> Lookup(lib, NotebookCanvases, target, k) == Some(targetById[k])
      modifies this
      ensures mismatches == old(mismatches) + added
      ensures r.Ok? && HasTarget(lib, row, target) ==> ParsedDocument(lib, Field(row, DocumentJson)).Some?
      ensures r.Ok? ==> forall m :: m in added <==> CanvasRowReports(lib, row, target, m)
      ensures (ParsedDocument(lib, Field(row, DocumentJson)).Some? && ScalarsParse(lib, row)
               && forall other :: other in target ==> ScalarsParse(lib, other)) ==> r.Ok?
      ensures r.Err? ==>
        if ParsedDocument(lib, Field(row, DocumentJson)).None? then r.error == InvalidDocument
        else r.error == InvalidDate && !(ScalarsParse(lib, row) && forall o :: o in target ==> ScalarsParse(lib, o))
    {
      r, added := Ok(()), [];
      var key := Key(lib, NotebookCanvases, row);
      LookupMeaning(lib, NotebookCanvases, target, key);
      if key in targetById {
        r, added := CompareCanvas(lib, key, row, targetById[key]);
      }
    }

    // Over all canvases that have a target.
    method CompareCanvasRows(lib: Library, source: seq<Row>, target: seq<Row>)
        returns (r: Result<(), ReconcileError>, ghost added: seq<Mismatch>)
      modifies this
      ensures mismatches == old(mismatches) + added
      ensures r.Ok? ==> forall m :: m in added <==> IsCanvasMismatch(lib, source, target, m)
      ensures r.Ok? ==> (added == [] <==> forall i :: 0 <= i < |source| ==> CanvasRowAgrees(lib, source[i], target))
      ensures ((forall row :: row in source ==> ParsedDocument(lib, Field(row, DocumentJson)).Some?)
               && forall row :: row in source || row in target ==> ScalarsParse(lib, row)) ==> r.Ok?
      ensures r.Err? ==> r.error == InvalidDocument || r.error == InvalidDate
      ensures r == Err(InvalidDocument) ==>
        exists row :: row in source && ParsedDocument(lib, Field(row, DocumentJson)).None?
      ensures r == Err(InvalidDate) ==> exists row :: (row in source || row in target) && !ScalarsParse(lib, row)
    {
      var targetById := IndexByKey(lib, NotebookCanvases, target);
      added := [];
      for i := 0 to |source|
        invariant mismatches == old(mismatches) + added
        invariant forall m :: m in added <==> IsCanvasMismatch(lib, source[..i], target, m)
        invariant forall j :: 0 <= j < i && HasTarget(lib, source[j], target) ==>
          ParsedDocument(lib, Field(source[j], DocumentJson)).Some?
      {
        OneMoreCanvas(lib, source, target, i);
        ghost var more: seq<Mismatch>;
        r, more := CompareCanvasRow(lib, source[i], target, targetById);
        added := added + more;
        if r.Err? {
          return;
        }
      }
      assert source[..|source|] == source;
      NothingAdded(lib, source, target, added);
      r := Ok(());
    }

    method CompareParentIds(table: Table, parent: Column, source: Snapshot, target: Snapshot)
      modifies this
      ensures var s, t := Ids(source.Rows(table), parent), Ids(target.Rows(table), parent);
              mismatches == old(mismatches)
                + if s == t then [] else [Mismatch(ParentIdSet(parent, s - t, t - s), Some(table), None)]
    {
      var s, t := Ids(source.Rows(table), parent), Ids(target.Rows(table), parent);
      assert s - t == {} && t - s == {} <==> s == t;
      if s - t != {} || t - s != {} {
        Push(Mismatch(ParentIdSet(parent, s - t, t - s), Some(table), None));
      }
    }

    method CompareParentIdSets(source: Snapshot, target: Snapshot)
      modifies this
      ensures old(mismatches) <= mismatches
      ensures mismatches == old(mismatches) <==> SameParents(source, target)
      ensures NoParse(old(mismatches)) ==> NoParse(mismatches)
    {
      CompareParentIds(NotebookCanvases, NotebookId, source, target);
      CompareParentIds(Cues, NotebookId, source, target);
      CompareParentIds(NotebookTags, NotebookId, source, target);
      CompareParentIds(NotebookTags, TagId, source, target);
    }
  }

  lemma OneMoreRow(lib: Library, table: Table, columns: seq<Column>, source: seq<Row>, target: seq<Row>, i: nat)
    requires i < |source|
    ensures forall m :: IsScalarMismatch(lib, table, columns, source[..i + 1], target, m) <==>
              IsScalarMismatch(lib, table, columns, source[..i], target, m)
              || RowDiffers(lib, table, columns, source[i], target, m)
  {
    var init := source[..i + 1];
    assert init[i] == source[i];
    assert forall j :: 0 <= j < i ==> init[j] == source[..i][j];
  }

  // ---- checks within one database ----

  method FindNulls(s: Snapshot) returns (found: seq<(Table, Column)>)
    ensures forall t, c :: (t, c) in found <==>
              c in Required(t) && exists i :: 0 <= i < |s.Rows(t)| && IsNull(Field(s.Rows(t)[i], c))
  {
    found := [];
    for i := 0 to |SOURCE_TABLES|
      invariant forall t, c :: (t, c) in found <==> t in SOURCE_TABLES[..i] && MissesColumn(s, t, c)
    {
      var table := SOURCE_TABLES[i];
      assert SOURCE_TABLES[..i + 1] == SOURCE_TABLES[..i] + [table];
      var columns := NullColumns(s.Rows(table), table);
      ghost var before := found;
      found := found + columns;
    }
    assert SOURCE_TABLES[..|SOURCE_TABLES|] == SOURCE_TABLES;
    AllTables();
  }

  predicate MissesColumn(s: Snapshot, t: Table, c: Column) {
    c in Required(t) && exists i :: 0 <= i < |s.Rows(t)| && IsNull(Field(s.Rows(t)[i], c))
  }

  lemma AllTables()
    ensures forall t: Table :: t in SOURCE_TABLES
  {
    forall t: Table ensures t in SOURCE_TABLES {
      match t
      case Notebooks => assert SOURCE_TABLES[0] == t;
      case NotebookCanvases => assert SOURCE_TABLES[1] == t;
      case Tags => assert SOURCE_TABLES[2] == t;
      case NotebookTags => assert SOURCE_TABLES[3] == t;
      case Cues => assert SOURCE_TABLES[4] == t;
    }
  }

  method NullColumns(rows: seq<Row>, table: Table) returns (found: seq<(Table, Column)>)
    ensures forall t, c :: (t, c) in found <==>
              t == table && c in Required(table) && exists i :: 0 <= i < |rows| && IsNull(Field(rows[i], c))
  {
    found := [];
    var columns := Required(table);
    for k := 0 to |columns|
      invariant forall t, c :: (t, c) in found <==>
        t == table && c in columns[..k] && exists i :: 0 <= i < |rows| && IsNull(Field(rows[i], c))
    {
      var column := columns[k];
      assert columns[..k + 1] == columns[..k] + [column];
      if exists i :: 0 <= i < |rows| && IsNull(Field(rows[i], column)) {
        found := found + [(table, column)];
      }
    }
    assert columns[..|columns|] == columns;
  }

  ghost predicate HasOrphan(s: Snapshot, t: Table) {
    match t
    case NotebookCanvases => !(Ids(s.canvases, NotebookId) <= Ids(s.notebooks, Id))
    case Cues => !(Ids(s.cues, NotebookId) <= Ids(s.notebooks, Id))
    case NotebookTags =>
      !(Ids(s.notebookTags, NotebookId) <= Ids(s.notebooks, Id) && Ids(s.notebookTags, TagId) <= Ids(s.tags, Id))
    case _ => false
  }

  // The tables with a row whose parent is missing.
  method FindOrphans(s: Snapshot) returns (found: seq<Table>)
    ensures found == [] <==> NoOrphans(s)
    ensures forall t :: t in found <==> HasOrphan(s, t)
  {
    found := [];
    var notebookIds, tagIds := Ids(s.notebooks, Id), Ids(s.tags, Id);
    OrphanRows(s.canvases, NotebookId, notebookIds);
    OrphanRows(s.cues, NotebookId, notebookIds);
    OrphanRows(s.notebookTags, NotebookId, notebookIds);
    OrphanRows(s.notebookTags, TagId, tagIds);
    if exists i :: 0 <= i < |s.canvases| && Field(s.canvases[i], NotebookId) !in notebookIds {
      found := found + [NotebookCanvases];
    }
    if exists i :: 0 <= i < |s.cues| && Field(s.cues[i], NotebookId) !in notebookIds {
      found := found + [Cues];
    }
    if exists i ::
         && 0 <= i < |s.notebookTags|
         && (Field(s.notebookTags[i], NotebookId) !in notebookIds || Field(s.notebookTags[i], TagId) !in tagIds) {
      found := found + [NotebookTags];
    }
  }

  lemma OrphanRows(rows: seq<Row>, c: Column, parents: set<Value>)
    ensures Ids(rows, c) <= parents <==> forall i :: 0 <= i < |rows| ==> Field(rows[i], c) in parents
  {
    forall i | 0 <= i < |rows| ensures Field(rows[i], c) in Ids(rows, c) {
    }
  }

  function CountKey(lib: Library, table: Table, rows: seq<Row>, key: Value): nat {
    if rows == [] then 0
    else CountKey(lib, table, rows[..|rows| - 1], key) + if Key(lib, table, rows[|rows| - 1]) == key then 1 else 0
  }

  method FindDuplicateKeys(lib: Library, table: Table, rows: seq<Row>) returns (duplicates: set<Value>)
    ensures forall k :: k in duplicates <==> CountKey(lib, table, rows, k) > 1
  {
    var counts: map<Value, nat> := map[];
    for i := 0 to |rows|
      invariant forall k :: k in counts ==> counts[k] == CountKey(lib, table, rows[..i], k)
      invariant forall k :: k !in counts ==> CountKey(lib, table, rows[..i], k) == 0
    {
      assert rows[..i + 1][..i] == rows[..i];
      var key := Key(lib, table, rows[i]);
      counts := counts[key := (if key in counts then counts[key] else 0) + 1];
    }
    assert rows[..|rows|] == rows;
    duplicates := set k | k in counts && counts[k] > 1;
  }

  lemma {:induction false} CountIsPositive(lib: Library, table: Table, rows: seq<Row>, key: Value)
    ensures CountKey(lib, table, rows, key) > 0 <==> exists i :: 0 <= i < |rows| && Key(lib, table, rows[i]) == key
  {
    if rows != [] {
      var n := |rows| - 1;
      CountIsPositive(lib, table, rows[..n], key);
      assert forall i :: 0 <= i < n ==> rows[i] == rows[..n][i];
    }
  }

  lemma {:induction false} CountOfTwo(lib: Library, table: Table, rows: seq<Row>, i: nat, j: nat)
    requires i < j < |rows| && Key(lib, table, rows[i]) == Key(lib, table, rows[j])
    ensures CountKey(lib, table, rows, Key(lib, table, rows[i])) > 1
  {
    var n := |rows| - 1;
    var init := rows[..n];
    assert init[i] == rows[i];
    if j < n {
      assert init[j] == rows[j];
      CountOfTwo(lib, table, init, i, j);
    } else {
      CountIsPositive(lib, table, init, Key(lib, table, init[i]));
    }
  }

  lemma {:induction false} CountedTwice(lib: Library, table: Table, rows: seq<Row>, key: Value)
    requires CountKey(lib, table, rows, key) > 1
    ensures !DistinctKeys(lib, table, rows)
  {
    var n := |rows| - 1;
    assert forall k :: 0 <= k < n ==> rows[..n][k] == rows[k];
    if CountKey(lib, table, rows[..n], key) > 1 {
      CountedTwice(lib, table, rows[..n], key);
    } else {
      CountIsPositive(lib, table, rows[..n], key);
      var i :| 0 <= i < n && Key(lib, table, rows[..n][i]) == key;
      assert Key(lib, table, rows[i]) == Key(lib, table, rows[n]);
    }
  }

  lemma DuplicatesMeaning(lib: Library, table: Table, rows: seq<Row>, duplicates: set<Value>)
    requires forall k :: k in duplicates <==> CountKey(lib, table, rows, k) > 1
    ensures duplicates == {} <==> DistinctKeys(lib, table, rows)
  {
    forall k | k in duplicates ensures !DistinctKeys(lib, table, rows) {
      CountedTwice(lib, table, rows, k);
    }
    if !DistinctKeys(lib, table, rows) {
      var i, j :| 0 <= i < j < |rows| && Key(lib, table, rows[i]) == Key(lib, table, rows[j]);
      CountOfTwo(lib, table, rows, i, j);
    }
  }

  // The tables with a duplicate key.
  method FindDuplicates(lib: Library, s: Snapshot) returns (found: seq<Table>)
    ensures forall t :: t in found <==> !DistinctKeys(lib, t, s.Rows(t))
  {
    found := [];
    for i := 0 to |SOURCE_TABLES|
      invariant forall t :: t in found <==> t in SOURCE_TABLES[..i] && !DistinctKeys(lib, t, s.Rows(t))
    {
      var table := SOURCE_TABLES[i];
      assert SOURCE_TABLES[..i + 1] == SOURCE_TABLES[..i] + [table];
      var duplicates := FindDuplicateKeys(lib, table, s.Rows(table));
      DuplicatesMeaning(lib, table, s.Rows(table), duplicates);
      if duplicates != {} {
        found := found + [table];
      }
    }
    assert SOURCE_TABLES[..|SOURCE_TABLES|] == SOURCE_TABLES;
    AllTables();
  }
}
