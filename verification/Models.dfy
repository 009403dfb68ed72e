/**
 The data of the sync service: table rows, wire mutations and their decoding
 (server/internal/models, server/migrations and the types of server/internal/syncsvc).
 */
module Models {
  import opened Results

  /** Row and label identifiers: opaque tokens, compared only for equality. */
  type RowId(==, !new)

  /** The field names of all entities; any other name is Unknown. */
  datatype Field =
    | Kind | Title | Body | Color | Pinned | Archived | TrashedAt | Position | ArchivePosition
    | Text | Checked | Deleted
    | Attached
    | Unknown

  datatype Entity = NoteEntity | ItemEntity | NoteLabelEntity | UnknownEntity

  /** A JSON value as far as the decoders tell values apart; JOther is everything none of them accepts. */
  datatype Json = JString(s: string) | JBool(b: bool) | JInt(i: int) | JNull | JOther

  /** A decoded column value. */
  datatype Scalar = SText(text: string) | SFlag(flag: bool) | STime(time: Option<int>)

  /** One field-level edit. Missing and empty identifiers are both None. */
  datatype Mutation = Mutation(entity: Entity, id: Option<RowId>, noteId: Option<RowId>, labelId: Option<RowId>,
                               field: Field, value: Json, hlc: string)

  datatype Error = BadEntity | BadField | MissingId | AudioKind | BadValue | ConstraintFailed

  datatype NoteData = NoteData(kind: string, title: string, body: string, color: string,
                               pinned: bool, archived: bool, trashedAt: Option<int>,
                               position: string, archivePosition: string)

  datatype ItemData = ItemData(text: string, checked: bool, deleted: bool, position: string)

  datatype NoteRow = NoteRow(data: NoteData, clocks: map<Field, string>, serverSeq: nat)

  datatype ItemRow = ItemRow(noteId: RowId, data: ItemData, clocks: map<Field, string>, serverSeq: nat)

  datatype LabelKey = LabelKey(noteId: RowId, labelId: RowId)

  datatype LabelRow = LabelRow(attached: bool, hlc: string, serverSeq: nat)

  /** The tables that share the server_seq counter, the label ids they refer to, and the counter. */
  datatype Tables = Tables(notes: map<RowId, NoteRow>, items: map<RowId, ItemRow>,
                           noteLabels: map<LabelKey, LabelRow>, labels: set<RowId>, counter: nat)

  // ---- column allowlists ----

  predicate IsNoteField(f: Field) {
    f.Kind? || f.Title? || f.Body? || f.Color? || f.Pinned? || f.Archived? || f.TrashedAt? || f.Position?
    || f.ArchivePosition?
  }

  predicate IsItemField(f: Field) {
    f.Text? || f.Checked? || f.Deleted? || f.Position?
  }

  // ---- decoding: JSON null leaves the zero value in place ----

  function DecodeText(j: Json): Result<string, Error> {
    match j
    case JString(s) => Ok(s)
    case JNull => Ok("")
    case _ => Err(BadValue)
  }

  function DecodeFlag(j: Json): Result<bool, Error> {
    match j
    case JBool(b) => Ok(b)
    case JNull => Ok(false)
    case _ => Err(BadValue)
  }

  function DecodeTime(j: Json): Result<Option<int>, Error> {
    match j
    case JInt(i) => Ok(Some(i))
    case JNull => Ok(None)
    case _ => Err(BadValue)
  }

  predicate IsFlagField(f: Field) {
    f.Pinned? || f.Archived? || f.Checked? || f.Deleted? || f.Attached?
  }

  predicate Typed(f: Field, v: Scalar) {
    if IsFlagField(f) then v.SFlag? else if f.TrashedAt? then v.STime? else v.SText?
  }

  /** The value a field takes, or the decoding error. */
  function Decode(f: Field, j: Json): (r: Result<Scalar, Error>)
    ensures r.Ok? ==> Typed(f, r.value)
  {
    if IsFlagField(f) then
      var b :- DecodeFlag(j);
      Ok(SFlag(b))
    else if f.TrashedAt? then
      var t :- DecodeTime(j);
      Ok(STime(t))
    else
      var s :- DecodeText(j);
      Ok(SText(s))
  }

  /** How a value is written as JSON. */
  function Encoded(v: Scalar): Json {
    match v
    case SText(s) => JString(s)
    case SFlag(b) => JBool(b)
    case STime(None) => JNull
    case STime(Some(i)) => JInt(i)
  }

  /** Exactly what decodes, and to what: a value of the column's type, and null to false, no time or the empty text. */
  lemma DecodeExact(f: Field, j: Json, v: Scalar)
    ensures Decode(f, j) == Ok(v) <==>
              Typed(f, v) && (j == Encoded(v) || (j == JNull && v in {SText(""), SFlag(false), STime(None)}))
  {
  }

  // ---- columns of a row ----

  function GetNote(d: NoteData, f: Field): Scalar {
    match f
    case Kind => SText(d.kind)
    case Title => SText(d.title)
    case Body => SText(d.body)
    case Color => SText(d.color)
    case Pinned => SFlag(d.pinned)
    case Archived => SFlag(d.archived)
    case TrashedAt => STime(d.trashedAt)
    case Position => SText(d.position)
    case ArchivePosition => SText(d.archivePosition)
    case _ => SText("")
  }

  function SetNote(d: NoteData, f: Field, v: Scalar): NoteData
    requires IsNoteField(f) && Typed(f, v)
  {
    match f
    case Kind => d.(kind := v.text)
    case Title => d.(title := v.text)
    case Body => d.(body := v.text)
    case Color => d.(color := v.text)
    case Pinned => d.(pinned := v.flag)
    case Archived => d.(archived := v.flag)
    case TrashedAt => d.(trashedAt := v.time)
    case Position => d.(position := v.text)
    case ArchivePosition => d.(archivePosition := v.text)
  }

  function GetItem(d: ItemData, f: Field): Scalar {
    match f
    case Text => SText(d.text)
    case Checked => SFlag(d.checked)
    case Deleted => SFlag(d.deleted)
    case Position => SText(d.position)
    case _ => SText("")
  }

  function SetItem(d: ItemData, f: Field, v: Scalar): ItemData
    requires IsItemField(f) && Typed(f, v)
  {
    match f
    case Text => d.(text := v.text)
    case Checked => d.(checked := v.flag)
    case Deleted => d.(deleted := v.flag)
    case Position => d.(position := v.text)
  }

  lemma GetSetNote(d: NoteData, f: Field, v: Scalar, g: Field)
    requires IsNoteField(f) && Typed(f, v)
    ensures GetNote(SetNote(d, f, v), g) == if g == f then v else GetNote(d, g)
  {
  }

  lemma GetSetItem(d: ItemData, f: Field, v: Scalar, g: Field)
    requires IsItemField(f) && Typed(f, v)
    ensures GetItem(SetItem(d, f, v), g) == if g == f then v else GetItem(d, g)
  {
  }

  /** A row's data is determined by its columns. */
  lemma NoteDataFromColumns(d: NoteData, e: NoteData)
    requires forall f :: GetNote(d, f) == GetNote(e, f)
    ensures d == e
  {
    assert GetNote(d, Kind) == GetNote(e, Kind) && GetNote(d, Title) == GetNote(e, Title);
    assert GetNote(d, Body) == GetNote(e, Body) && GetNote(d, Color) == GetNote(e, Color);
    assert GetNote(d, Pinned) == GetNote(e, Pinned) && GetNote(d, Archived) == GetNote(e, Archived);
    assert GetNote(d, TrashedAt) == GetNote(e, TrashedAt) && GetNote(d, Position) == GetNote(e, Position);
    assert GetNote(d, ArchivePosition) == GetNote(e, ArchivePosition);
  }

  lemma ItemDataFromColumns(d: ItemData, e: ItemData)
    requires forall f :: GetItem(d, f) == GetItem(e, f)
    ensures d == e
  {
    assert GetItem(d, Text) == GetItem(e, Text) && GetItem(d, Checked) == GetItem(e, Checked);
    assert GetItem(d, Deleted) == GetItem(e, Deleted) && GetItem(d, Position) == GetItem(e, Position);
  }
}
