// The tables that are reconciled after a migration, and when a target table is
// the source table.
module ReconcileTables {
  import opened Results

  datatype Value = Null | Undefined | Text(text: string) | Number(number: int) | Date(millis: int)

  datatype Column =
    | Id | Title | NoteDate | SourceType | SourceTitle | Body | BodyMode | Summary | NextReviewDate | ReviewedAt
    | CreatedAt | UpdatedAt | DeletedAt | NotebookId | SchemaVersion | DocumentJson | SearchText | Name | Color
    | TagId | Order | CueText

  type Row = map<Column, Value>

  datatype Table = Notebooks | NotebookCanvases | Tags | NotebookTags | Cues

  const SOURCE_TABLES: seq<Table> := [Notebooks, NotebookCanvases, Tags, NotebookTags, Cues]

  datatype Snapshot = Snapshot(
    notebooks: seq<Row>, canvases: seq<Row>, tags: seq<Row>, notebookTags: seq<Row>, cues: seq<Row>)
  {
    function Rows(table: Table): seq<Row> {
      match table
      case Notebooks => notebooks
      case NotebookCanvases => canvases
      case Tags => tags
      case NotebookTags => notebookTags
      case Cues => cues
    }
  }

  function Columns(table: Table): seq<Column> {
    match table
    case Notebooks =>
      [Id, Title, NoteDate, SourceType, SourceTitle, Body, BodyMode, Summary, NextReviewDate, ReviewedAt,
       CreatedAt, UpdatedAt, DeletedAt]
    case NotebookCanvases => [NotebookId, SchemaVersion, DocumentJson, SearchText, CreatedAt, UpdatedAt]
    case Tags => [Id, Name, Color, CreatedAt]
    case NotebookTags => [NotebookId, TagId, Order]
    case Cues => [Id, NotebookId, CueText, Order, CreatedAt, UpdatedAt]
  }

  function Required(table: Table): seq<Column> {
    match table
    case Notebooks => [Id, Title, NoteDate, SourceTitle, Body, BodyMode, Summary, CreatedAt, UpdatedAt]
    case NotebookCanvases => [NotebookId, SchemaVersion, DocumentJson, SearchText, CreatedAt, UpdatedAt]
    case Tags => [Id, Name, CreatedAt]
    case NotebookTags => [NotebookId, TagId, Order]
    case Cues => [Id, NotebookId, CueText, Order, CreatedAt, UpdatedAt]
  }

  lemma RequiredAreColumns(table: Table)
    ensures forall c :: c in Required(table) ==> c in Columns(table)
  {
  }

  predicate IsDate(c: Column) {
    c in {NoteDate, NextReviewDate, ReviewedAt, CreatedAt, UpdatedAt, DeletedAt}
  }

  datatype Page = Page(width: int, height: int, background: string)

  datatype ElementField = Kind | X | Y | Width | Height | Rotation | Points | Z | Style | ElementText | TextStyle

  datatype Element = Element(id: string, fields: map<ElementField, Value>)

  // What `JSON.parse` makes of a canvas document.
  datatype Document = Document(schemaVersion: int, page: Page, elements: seq<Element>)

  // The library calls: dates to their ISO text, hashes, JSON, and template texts.
  datatype Library = Library(
    date: Value -> Option<string>, hash: string -> string, json: string -> Option<Document>, show: Value -> string)

  // ---- values, keys and rows ----

  function Field(row: Row, c: Column): Value {
    if c in row then row[c] else Undefined
  }

  predicate IsNull(v: Value) {
    v.Null? || v.Undefined?
  }

  function TextOf(lib: Library, v: Value): string {
    if v.Text? then v.text else lib.show(v)
  }

  function Key(lib: Library, table: Table, row: Row): Value {
    match table
    case NotebookCanvases => Field(row, NotebookId)
    case NotebookTags => Text(TextOf(lib, Field(row, NotebookId)) + "\0" + TextOf(lib, Field(row, TagId)))
    case _ => Field(row, Id)
  }

  // Dates that are not null are compared by their ISO text.
  function Normalized(lib: Library, c: Column, v: Value): Option<Value> {
    if !IsDate(c) then Some(v)
    else if IsNull(v) then Some(Null)
    else
      match lib.date(v)
      case None => None
      case Some(iso) => Some(Text(iso))
  }

  predicate DatesParse(lib: Library, table: Table, row: Row) {
    forall c :: c in Columns(table) ==> Normalized(lib, c, Field(row, c)).Some?
  }

  predicate HoldsDate(c: Column) {
    c in {NoteDate, NextReviewDate, ReviewedAt, CreatedAt, UpdatedAt, DeletedAt}
  }

  // The dates of a row are readable when each one that is there is a date.
  lemma DatesParseMeaning(lib: Library, table: Table, row: Row)
    ensures DatesParse(lib, table, row) <==>
            forall c | c in Columns(table) && HoldsDate(c) ::
              Field(row, c) == Null || Field(row, c) == Undefined || lib.date(Field(row, c)).Some?
  {
  }

  // A date as it is compared: missing, its ISO text, or no date at all.
  datatype Day = NoDay | Day(iso: string) | Unreadable

  function DayOf(lib: Library, v: Value): Day {
    if IsNull(v) then NoDay else if lib.date(v).None? then Unreadable else Day(lib.date(v).value)
  }

  // A row as it is compared, table by table.
  datatype Record =
    | NotebookRecord(
        id: Value, title: Value, noteDate: Day, sourceType: Value, sourceTitle: Value, body: Value, bodyMode: Value,
        summary: Value, nextReviewDate: Day, reviewedAt: Day, createdAt: Day, updatedAt: Day, deletedAt: Day)
    | CanvasRecord(
        notebookId: Value, schemaVersion: Value, documentJson: Value, searchText: Value, createdAt: Day,
        updatedAt: Day)
    | TagRecord(id: Value, name: Value, color: Value, createdAt: Day)
    | LinkRecord(notebookId: Value, tagId: Value, order: Value)
    | CueRecord(id: Value, notebookId: Value, cueText: Value, order: Value, createdAt: Day, updatedAt: Day)

  function NormalRow(lib: Library, table: Table, row: Row): Record {
    match table
    case Notebooks => NotebookOf(lib, row)
    case NotebookCanvases => CanvasOf(lib, row)
    case Tags => TagRecord(Field(row, Id), Field(row, Name), Field(row, Color), DayOf(lib, Field(row, CreatedAt)))
    case NotebookTags => LinkRecord(Field(row, NotebookId), Field(row, TagId), Field(row, Order))
    case Cues => CueOf(lib, row)
  }

  function NotebookOf(lib: Library, row: Row): Record {
    NotebookRecord(
      Field(row, Id), Field(row, Title), DayOf(lib, Field(row, NoteDate)), Field(row, SourceType),
      Field(row, SourceTitle), Field(row, Body), Field(row, BodyMode), Field(row, Summary),
      DayOf(lib, Field(row, NextReviewDate)), DayOf(lib, Field(row, ReviewedAt)),
      DayOf(lib, Field(row, CreatedAt)), DayOf(lib, Field(row, UpdatedAt)), DayOf(lib, Field(row, DeletedAt)))
  }

  function CanvasOf(lib: Library, row: Row): Record {
    CanvasRecord(
      Field(row, NotebookId), Field(row, SchemaVersion), Field(row, DocumentJson), Field(row, SearchText),
      DayOf(lib, Field(row, CreatedAt)), DayOf(lib, Field(row, UpdatedAt)))
  }

  function CueOf(lib: Library, row: Row): Record {
    CueRecord(
      Field(row, Id), Field(row, NotebookId), Field(row, CueText), Field(row, Order),
      DayOf(lib, Field(row, CreatedAt)), DayOf(lib, Field(row, UpdatedAt)))
  }

  function NormalRows(lib: Library, table: Table, rows: seq<Row>): (r: seq<Record>)
    ensures |r| == |rows| && forall i :: 0 <= i < |rows| ==> r[i] == NormalRow(lib, table, rows[i])
  {
    seq(|rows|, i requires 0 <= i < |rows| => NormalRow(lib, table, rows[i]))
  }

  // ---- what is demanded ----

  // Values that may not be missing, table by table.
  predicate Complete(table: Table, row: Row) {
    match table
    case Notebooks =>
      && Has(row, Id) && Has(row, Title) && Has(row, NoteDate) && Has(row, SourceTitle) && Has(row, Body)
      && Has(row, BodyMode) && Has(row, Summary) && Has(row, CreatedAt) && Has(row, UpdatedAt)
    case NotebookCanvases =>
      && Has(row, NotebookId) && Has(row, SchemaVersion) && Has(row, DocumentJson) && Has(row, SearchText)
      && Has(row, CreatedAt) && Has(row, UpdatedAt)
    case Tags => Has(row, Id) && Has(row, Name) && Has(row, CreatedAt)
    case NotebookTags => Has(row, NotebookId) && Has(row, TagId) && Has(row, Order)
    case Cues =>
      && Has(row, Id) && Has(row, NotebookId) && Has(row, CueText) && Has(row, Order)
      && Has(row, CreatedAt) && Has(row, UpdatedAt)
  }

  predicate Has(row: Row, c: Column) {
    c in row && row[c] != Null && row[c] != Undefined
  }

  lemma CompleteMeaning(table: Table, row: Row)
    ensures Complete(table, row) <==> forall c :: c in Required(table) ==> !IsNull(Field(row, c))
  {
    assert forall c :: Has(row, c) <==> !IsNull(Field(row, c));
    var required := Required(table);
    if Complete(table, row) {
      forall c | c in required ensures Has(row, c) {
      }
    } else {
      match table
      case Notebooks => NotebookRequires();
      case NotebookCanvases => CanvasRequires();
      case _ => OthersRequire();
    }
  }

  lemma NotebookRequires()
    ensures forall c :: c in {Id, Title, NoteDate, SourceTitle, Body, BodyMode, Summary, CreatedAt, UpdatedAt} ==>
              c in Required(Notebooks)
  {
  }

  lemma CanvasRequires()
    ensures forall c :: c in {NotebookId, SchemaVersion, DocumentJson, SearchText, CreatedAt, UpdatedAt} ==>
              c in Required(NotebookCanvases)
  {
  }

  lemma OthersRequire()
    ensures forall c :: c in {Id, Name, CreatedAt} ==> c in Required(Tags)
    ensures forall c :: c in {NotebookId, TagId, Order} ==> c in Required(NotebookTags)
    ensures forall c :: c in {Id, NotebookId, CueText, Order, CreatedAt, UpdatedAt} ==> c in Required(Cues)
  {
  }

  ghost predicate NoNulls(s: Snapshot) {
    forall t: Table, i :: 0 <= i < |s.Rows(t)| ==> Complete(t, s.Rows(t)[i])
  }

  ghost predicate DistinctKeys(lib: Library, table: Table, rows: seq<Row>) {
    forall i, j :: 0 <= i < j < |rows| ==> Key(lib, table, rows[i]) != Key(lib, table, rows[j])
  }

  // The columns of the primary key.
  function PrimaryKey(table: Table, row: Row): seq<Value> {
    match table
    case NotebookCanvases => [Field(row, NotebookId)]
    case NotebookTags => [Field(row, NotebookId), Field(row, TagId)]
    case _ => [Field(row, Id)]
  }

  ghost predicate NoDuplicates(s: Snapshot) {
    forall t: Table, i, j :: 0 <= i < j < |s.Rows(t)| ==> PrimaryKey(t, s.Rows(t)[i]) != PrimaryKey(t, s.Rows(t)[j])
  }

  function Ids(rows: seq<Row>, c: Column): set<Value> {
    set i | 0 <= i < |rows| :: Field(rows[i], c)
  }

  ghost predicate NoOrphans(s: Snapshot) {
    && Ids(s.canvases, NotebookId) <= Ids(s.notebooks, Id)
    && Ids(s.cues, NotebookId) <= Ids(s.notebooks, Id)
    && Ids(s.notebookTags, NotebookId) <= Ids(s.notebooks, Id)
    && Ids(s.notebookTags, TagId) <= Ids(s.tags, Id)
  }

  ghost predicate Clean(s: Snapshot) {
    NoNulls(s) && NoDuplicates(s) && NoOrphans(s)
  }

  // The target table is the source table in some order, up to dates.
  ghost predicate SameTable(lib: Library, table: Table, source: Snapshot, target: Snapshot) {
    multiset(NormalRows(lib, table, source.Rows(table))) == multiset(NormalRows(lib, table, target.Rows(table)))
  }

  ghost predicate SameTables(lib: Library, source: Snapshot, target: Snapshot) {
    forall t: Table :: SameTable(lib, t, source, target)
  }

  // ---- what has to hold of the data for the comparison to mean that ----

  predicate NulFree(v: Value) {
    v.Text? && forall i :: 0 <= i < |v.text| ==> v.text[i] != '\0'
  }

  // Ids of the link table are texts without NUL characters, or missing.
  predicate PlainIds(row: Row) {
    && (IsNull(Field(row, NotebookId)) || NulFree(Field(row, NotebookId)))
    && (IsNull(Field(row, TagId)) || NulFree(Field(row, TagId)))
  }

  ghost predicate Readable(lib: Library, s: Snapshot) {
    && (forall t: Table, i :: 0 <= i < |s.Rows(t)| ==> DatesParse(lib, t, s.Rows(t)[i]))
    && (forall i :: 0 <= i < |s.notebookTags| ==> PlainIds(s.notebookTags[i]))
  }

  ghost predicate CollisionFree(lib: Library) {
    forall a, b :: lib.hash(a) == lib.hash(b) ==> a == b
  }

  // ---- normal rows ----

  // A value and its normal form.
  lemma NormalDay(lib: Library, c: Column, a: Value, b: Value)
    requires Normalized(lib, c, a).Some? && Normalized(lib, c, b).Some?
    ensures Normalized(lib, c, a) == Normalized(lib, c, b) <==>
              if HoldsDate(c) then DayOf(lib, a) == DayOf(lib, b) else a == b
  {
  }

  // Two rows agree in a column: in the date it stands for, or in its value.
  predicate Agree(lib: Library, a: Row, b: Row, c: Column) {
    if HoldsDate(c) then DayOf(lib, Field(a, c)) == DayOf(lib, Field(b, c)) else Field(a, c) == Field(b, c)
  }

  // The compared columns are the fields of the records.
  lemma SameNormalRow(lib: Library, table: Table, a: Row, b: Row)
    requires DatesParse(lib, table, a) && DatesParse(lib, table, b)
    ensures NormalRow(lib, table, a) == NormalRow(lib, table, b) <==>
            forall c :: c in Columns(table) ==> Normalized(lib, c, Field(a, c)) == Normalized(lib, c, Field(b, c))
  {
    SameRecord(lib, table, a, b);
    forall c | c in Columns(table)
      ensures Agree(lib, a, b, c) <==> Normalized(lib, c, Field(a, c)) == Normalized(lib, c, Field(b, c))
    {
      NormalDay(lib, c, Field(a, c), Field(b, c));
    }
  }

  lemma SameRecord(lib: Library, table: Table, a: Row, b: Row)
    ensures NormalRow(lib, table, a) == NormalRow(lib, table, b) <==>
            forall c :: c in Columns(table) ==> Agree(lib, a, b, c)
  {
    match table
    case Notebooks => SameNotebook(lib, a, b);
    case NotebookCanvases => SameCanvas(lib, a, b);
    case Tags => SameTag(lib, a, b);
    case NotebookTags => SameLink(lib, a, b);
    case Cues => SameCue(lib, a, b);
  }

  lemma NotebookAgrees(lib: Library, a: Row, b: Row, c: Column)
    requires NotebookOf(lib, a) == NotebookOf(lib, b) && c in Columns(Notebooks)
    ensures Agree(lib, a, b, c)
  {
    match c
    case Id =>
    case Title =>
    case SourceType =>
    case SourceTitle =>
    case Body =>
    case BodyMode =>
    case Summary =>
    case _ =>
  }

  lemma AgreeingNotebooks(lib: Library, a: Row, b: Row)
    requires forall c :: c in Columns(Notebooks) ==> Agree(lib, a, b, c)
    ensures NotebookOf(lib, a) == NotebookOf(lib, b)
  {
    var all := Columns(Notebooks);
    assert Id in all && Title in all && NoteDate in all && SourceType in all && SourceTitle in all;
    assert Body in all && BodyMode in all && Summary in all && NextReviewDate in all && ReviewedAt in all;
    assert CreatedAt in all && UpdatedAt in all && DeletedAt in all;
  }

  lemma SameNotebook(lib: Library, a: Row, b: Row)
    ensures NotebookOf(lib, a) == NotebookOf(lib, b) <==> forall c :: c in Columns(Notebooks) ==> Agree(lib, a, b, c)
  {
    if NotebookOf(lib, a) == NotebookOf(lib, b) {
      forall c | c in Columns(Notebooks) ensures Agree(lib, a, b, c) {
        NotebookAgrees(lib, a, b, c);
      }
    } else if forall c :: c in Columns(Notebooks) ==> Agree(lib, a, b, c) {
      AgreeingNotebooks(lib, a, b);
    }
  }

  lemma SameCanvas(lib: Library, a: Row, b: Row)
    ensures CanvasOf(lib, a) == CanvasOf(lib, b) <==>
            forall c :: c in Columns(NotebookCanvases) ==> Agree(lib, a, b, c)
  {
    var all := Columns(NotebookCanvases);
    assert NotebookId in all && SchemaVersion in all && DocumentJson in all && SearchText in all && CreatedAt in all;
    assert UpdatedAt in all;
    assert forall c :: c in all ==>
      c in {NotebookId, SchemaVersion, DocumentJson, SearchText, CreatedAt, UpdatedAt};
  }

  lemma SameTag(lib: Library, a: Row, b: Row)
    ensures NormalRow(lib, Tags, a) == NormalRow(lib, Tags, b) <==>
            forall c :: c in Columns(Tags) ==> Agree(lib, a, b, c)
  {
    var all := Columns(Tags);
    assert Id in all && Name in all && Color in all && CreatedAt in all;
    assert forall c :: c in all ==>
      c in {Id, Name, Color, CreatedAt};
  }

  lemma SameLink(lib: Library, a: Row, b: Row)
    ensures NormalRow(lib, NotebookTags, a) == NormalRow(lib, NotebookTags, b) <==>
            forall c :: c in Columns(NotebookTags) ==> Agree(lib, a, b, c)
  {
    var all := Columns(NotebookTags);
    assert NotebookId in all && TagId in all && Order in all;
    assert forall c :: c in all ==>
      c in {NotebookId, TagId, Order};
  }

  lemma SameCue(lib: Library, a: Row, b: Row)
    ensures CueOf(lib, a) == CueOf(lib, b) <==> forall c :: c in Columns(Cues) ==> Agree(lib, a, b, c)
  {
    var all := Columns(Cues);
    assert Id in all && NotebookId in all && CueText in all && Order in all && CreatedAt in all;
    assert UpdatedAt in all;
    assert forall c :: c in all ==>
      c in {Id, NotebookId, CueText, Order, CreatedAt, UpdatedAt};
  }

  // Records that are the same have the same plain values, and miss the same.
  lemma SameField(lib: Library, table: Table, a: Row, b: Row, c: Column)
    requires DatesParse(lib, table, a) && DatesParse(lib, table, b) && c in Columns(table)
    requires NormalRow(lib, table, a) == NormalRow(lib, table, b)
    ensures IsNull(Field(a, c)) <==> IsNull(Field(b, c))
    ensures !IsDate(c) ==> Field(a, c) == Field(b, c)
  {
    SameNormalRow(lib, table, a, b);
    assert Normalized(lib, c, Field(a, c)) == Normalized(lib, c, Field(b, c));
  }

  lemma KeyColumns(table: Table)
    ensures table != NotebookTags && table != NotebookCanvases ==> Id in Columns(table)
    ensures table == NotebookCanvases || table == NotebookTags ==> NotebookId in Columns(table)
    ensures table == NotebookTags ==> TagId in Columns(table)
  {
  }

  // Rows that are the same have the same key.
  lemma SameRowSameKey(lib: Library, table: Table, a: Row, b: Row)
    requires DatesParse(lib, table, a) && DatesParse(lib, table, b)
    requires NormalRow(lib, table, a) == NormalRow(lib, table, b)
    ensures Key(lib, table, a) == Key(lib, table, b)
  {
    KeyColumns(table);
    SameNormalRow(lib, table, a, b);
    assert forall c :: c in Columns(table) && !IsDate(c) ==> Some(Field(a, c)) == Some(Field(b, c));
  }

  // ---- rows with distinct keys ----

  lemma NormalRowsDistinct(lib: Library, table: Table, rows: seq<Row>)
    requires DistinctKeys(lib, table, rows) && forall i :: 0 <= i < |rows| ==> DatesParse(lib, table, rows[i])
    ensures forall i, j :: 0 <= i < j < |rows| ==> NormalRows(lib, table, rows)[i] != NormalRows(lib, table, rows)[j]
  {
    forall i, j | 0 <= i < j < |rows| ensures NormalRow(lib, table, rows[i]) != NormalRow(lib, table, rows[j]) {
      if NormalRow(lib, table, rows[i]) == NormalRow(lib, table, rows[j]) {
        SameRowSameKey(lib, table, rows[i], rows[j]);
      }
    }
  }

  // ---- keys of the link table ----

  lemma TemplateIsInjective(a: string, b: string, c: string, d: string)
    requires '\0' !in a && '\0' !in c && a + "\0" + b == c + "\0" + d
    ensures a == c && b == d
  {
    var x, y := a + "\0" + b, c + "\0" + d;
    assert x[|a|] == '\0' && forall k :: 0 <= k < |a| ==> x[k] == a[k] != '\0';
    assert y[|c|] == '\0' && forall k :: 0 <= k < |c| ==> y[k] == c[k] != '\0';
    assert |a| == |c|;
    assert a == x[..|a|] && c == y[..|c|] && b == x[|a| + 1..] && d == y[|c| + 1..];
  }

  // The key that rows are compared by stands for their primary key.
  lemma KeyIsPrimary(lib: Library, table: Table, a: Row, b: Row)
    requires table == NotebookTags ==>
               && NulFree(Field(a, NotebookId)) && NulFree(Field(a, TagId))
               && NulFree(Field(b, NotebookId)) && NulFree(Field(b, TagId))
    ensures Key(lib, table, a) == Key(lib, table, b) <==> PrimaryKey(table, a) == PrimaryKey(table, b)
  {
    if table == NotebookTags && Key(lib, table, a) == Key(lib, table, b) {
      TemplateIsInjective(
        Field(a, NotebookId).text, Field(a, TagId).text, Field(b, NotebookId).text, Field(b, TagId).text);
    }
  }

  lemma DistinctIsPrimary(lib: Library, table: Table, s: Snapshot)
    requires NoNulls(s) && Readable(lib, s)
    ensures DistinctKeys(lib, table, s.Rows(table)) <==>
            forall i, j :: 0 <= i < j < |s.Rows(table)| ==>
              PrimaryKey(table, s.Rows(table)[i]) != PrimaryKey(table, s.Rows(table)[j])
  {
    var rows := s.Rows(table);
    forall i, j | 0 <= i < j < |rows|
      ensures Key(lib, table, rows[i]) == Key(lib, table, rows[j]) <==>
              PrimaryKey(table, rows[i]) == PrimaryKey(table, rows[j])
    {
      if table == NotebookTags {
        LinkIdsAreNulFree(lib, s, i);
        LinkIdsAreNulFree(lib, s, j);
      }
      KeyIsPrimary(lib, table, rows[i], rows[j]);
    }
  }

  lemma LinkIdsAreNulFree(lib: Library, s: Snapshot, i: nat)
    requires NoNulls(s) && Readable(lib, s) && i < |s.notebookTags|
    ensures NulFree(Field(s.notebookTags[i], NotebookId)) && NulFree(Field(s.notebookTags[i], TagId))
  {
    assert PlainIds(s.notebookTags[i]);
    assert s.Rows(NotebookTags)[i] == s.notebookTags[i] && Complete(NotebookTags, s.notebookTags[i]);
  }
}
