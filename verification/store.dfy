/** `MonkDAO` and the connection functions of the main process: the `monges`
    table as a map from `id` to row, the normalisation shared by `create` and
    `update`, and the decoding and ordering done by `getAll`. */
module Store {
  import opened Wrappers
  import opened Schema
  import opened Connection
  import JsonList
  import Text

  /** One stored row: every column as text or SQL NULL. */
  datatype Row = Row(cells: map<Field, Option<string>>)

  /** The `monges` table, keyed by its primary key `id`. */
  type Table = map<string, Row>

  /** The store: the handle history and the table in the backing file
      (`None` while the file holds no `monges` table yet). */
  datatype Db = Db(handles: Handles, file: Option<Table>)

  datatype StoreError =
    | NotConnected
    | NoSuchTable
    | MissingParameter(field: Field)
    | DuplicateId(id: string)
    | MalformedList(field: Field, cause: JsonList.JsonError)

  /** The object handed to `create` / `update`: the caller's properties (a value
      may be a string, `""` or null) and the two lists, `None` when absent. */
  datatype Draft = Draft(fields: map<Field, Option<string>>, ocupacao: Option<seq<string>>, livros: Option<seq<string>>)

  // ---------------------------------------------------------------------------
  // Normalisation shared by create and update

  /** `defaultValues`: null for each optional scalar. */
  const Defaults: map<Field, Option<string>> := map f | f in DefaultKeys :: None

  /** `{...defaultValues, ...monk, livros: JSON.stringify(monk.livros || []),
      ocupacao_oficio: JSON.stringify(monk.ocupacao_oficio || [])}` */
  function Merge(d: Draft): map<Field, Option<string>> {
    Defaults + d.fields
      + map[Livros := Some(JsonList.Encode(d.livros.GetOr([])))]
      + map[OcupacaoOficio := Some(JsonList.Encode(d.ocupacao.GetOr([])))]
  }

  /** The loop replacing every `""` by null. */
  function NullIfEmpty(v: Option<string>): Option<string> {
    if v == Some("") then None else v
  }

  function Normalize(m: map<Field, Option<string>>): map<Field, Option<string>> {
    map f | f in m :: NullIfEmpty(m[f])
  }

  /** The statement parameters `create` and `update` bind. */
  function Prepare(d: Draft): map<Field, Option<string>> {
    Normalize(Merge(d))
  }

  /** What a column holds after `create` / `update`, stated field by field:
      the encoded list for the two list columns, the caller's value with `""`
      read as null when the caller supplied one, null otherwise. */
  function Expected(d: Draft, f: Field): Option<string> {
    if f == Livros then Some(JsonList.Encode(d.livros.GetOr([])))
    else if f == OcupacaoOficio then Some(JsonList.Encode(d.ocupacao.GetOr([])))
    else if f in d.fields && d.fields[f] != Some("") then d.fields[f]
    else None
  }

  /** The domain of `defaultValues`, read through the shape of the record. */
  lemma DefaultsDomain(f: Field)
    ensures f in Defaults <==> !IsList(f) && !IsAssigned(f) && f != Nome
    ensures f in Defaults ==> Defaults[f] == None
  {
    DefaultsAreOptionalScalars(f);
  }

  /** The spread before the `""` loop: list columns always encoded, then the
      caller's value, then the default. */
  lemma MergeAt(d: Draft, f: Field)
    ensures f in Merge(d) <==> IsList(f) || f in d.fields || (!IsAssigned(f) && f != Nome)
    ensures f == Livros ==> Merge(d)[f] == Some(JsonList.Encode(d.livros.GetOr([])))
    ensures f == OcupacaoOficio ==> Merge(d)[f] == Some(JsonList.Encode(d.ocupacao.GetOr([])))
    ensures !IsList(f) && f in d.fields ==> Merge(d)[f] == d.fields[f]
    ensures !IsList(f) && f !in d.fields && f in Merge(d) ==> Merge(d)[f] == None
  {
    var m0 := Defaults + d.fields;
    var livros := map[Livros := Some(JsonList.Encode(d.livros.GetOr([])))];
    var ocup := map[OcupacaoOficio := Some(JsonList.Encode(d.ocupacao.GetOr([])))];
    UnionAt(m0 + livros, ocup, f);
    if f != OcupacaoOficio {
      UnionAt(m0, livros, f);
      if f != Livros {
        UnionAt(Defaults, d.fields, f);
        DefaultsDomain(f);
      }
    }
  }

  /** Lookup in a map union: the right operand wins. */
  lemma UnionAt<K, V>(a: map<K, V>, b: map<K, V>, k: K)
    ensures k in a + b <==> k in a || k in b
    ensures k in b ==> (a + b)[k] == b[k]
    ensures k !in b && k in a ==> (a + b)[k] == a[k]
  {
  }

  /** Every parameter `create` and `update` bind is the value `Expected` states;
      a parameter exists for every optional scalar, every supplied key and both
      lists; and no parameter is ever the empty string. */
  lemma PrepareSpec(d: Draft, f: Field)
    ensures f in Prepare(d) <==> IsList(f) || f in d.fields || (!IsAssigned(f) && f != Nome)
    ensures f in Prepare(d) ==> Prepare(d)[f] == Expected(d, f)
    ensures f in Prepare(d) ==> Prepare(d)[f] != Some("")
  {
    MergeAt(d, f);
    if IsList(f) {
      JsonList.EncodeShape(d.livros.GetOr([]));
      JsonList.EncodeShape(d.ocupacao.GetOr([]));
    }
  }

  /** Columns named by the INSERT statement, in its order. */
  const InsertColumns: seq<Field> := [
    Id, Nome, OcupacaoOficio, DataNascimento, PaisNascimento, CidadeNascimento,
    NomeMae, NomePai, DataBatismo, LocalBatismo, DataIngressoMosteiro,
    DataProfissaoReligiosa, LocalProfissaoReligiosa, Formacao, MateriaEnsinada,
    Livros, EpisodiosEfemerides, ExerciciosEspirituais, Doencas, DataFalecimento,
    NomeAbade, Observacoes, ReferenciaManuscrito, ReferenciaEdicao]

  /** Columns assigned by the UPDATE statement, in its order. */
  const UpdateColumns: seq<Field> := [
    Nome, OcupacaoOficio, DataNascimento, PaisNascimento, CidadeNascimento,
    NomeMae, NomePai, DataBatismo, LocalBatismo, DataIngressoMosteiro,
    DataProfissaoReligiosa, LocalProfissaoReligiosa, Formacao, MateriaEnsinada,
    Livros, EpisodiosEfemerides, ExerciciosEspirituais, Doencas, DataFalecimento,
    NomeAbade, Observacoes, ReferenciaManuscrito, ReferenciaEdicao]

  /** The INSERT names every column but `created_at`, which takes its default. */
  lemma InsertColumnsCover(f: Field)
    ensures f in InsertColumns <==> f != CreatedAt
  {
    assert forall i :: 0 <= i < |InsertColumns| ==> InsertColumns[i] != CreatedAt;
    if f != CreatedAt {
      InsertColumnsHave(f);
    }
  }

  lemma InsertColumnsHave(f: Field)
    requires f != CreatedAt
    ensures f in InsertColumns
  {
    match f
    case Id => assert InsertColumns[0] == f;
    case Nome => assert InsertColumns[1] == f;
    case OcupacaoOficio => assert InsertColumns[2] == f;
    case DataNascimento => assert InsertColumns[3] == f;
    case PaisNascimento => assert InsertColumns[4] == f;
    case CidadeNascimento => assert InsertColumns[5] == f;
    case NomeMae => assert InsertColumns[6] == f;
    case NomePai => assert InsertColumns[7] == f;
    case DataBatismo => assert InsertColumns[8] == f;
    case LocalBatismo => assert InsertColumns[9] == f;
    case DataIngressoMosteiro => assert InsertColumns[10] == f;
    case DataProfissaoReligiosa => assert InsertColumns[11] == f;
    case LocalProfissaoReligiosa => assert InsertColumns[12] == f;
    case Formacao => assert InsertColumns[13] == f;
    case MateriaEnsinada => assert InsertColumns[14] == f;
    case Livros => assert InsertColumns[15] == f;
    case EpisodiosEfemerides => assert InsertColumns[16] == f;
    case ExerciciosEspirituais => assert InsertColumns[17] == f;
    case Doencas => assert InsertColumns[18] == f;
    case DataFalecimento => assert InsertColumns[19] == f;
    case NomeAbade => assert InsertColumns[20] == f;
    case Observacoes => assert InsertColumns[21] == f;
    case ReferenciaManuscrito => assert InsertColumns[22] == f;
    case ReferenciaEdicao => assert InsertColumns[23] == f;
  }

  /** The UPDATE assigns every column but the key `id` and `created_at`. */
  lemma UpdateColumnsCover(f: Field)
    ensures f in UpdateColumns <==> Rewritten(f)
  {
    assert forall i :: 0 <= i < |UpdateColumns| ==> Rewritten(UpdateColumns[i]);
    if Rewritten(f) {
      UpdateColumnsHave(f);
    }
  }

  lemma UpdateColumnsHave(f: Field)
    requires Rewritten(f)
    ensures f in UpdateColumns
  {
    match f
    case Nome => assert UpdateColumns[0] == f;
    case OcupacaoOficio => assert UpdateColumns[1] == f;
    case DataNascimento => assert UpdateColumns[2] == f;
    case PaisNascimento => assert UpdateColumns[3] == f;
    case CidadeNascimento => assert UpdateColumns[4] == f;
    case NomeMae => assert UpdateColumns[5] == f;
    case NomePai => assert UpdateColumns[6] == f;
    case DataBatismo => assert UpdateColumns[7] == f;
    case LocalBatismo => assert UpdateColumns[8] == f;
    case DataIngressoMosteiro => assert UpdateColumns[9] == f;
    case DataProfissaoReligiosa => assert UpdateColumns[10] == f;
    case LocalProfissaoReligiosa => assert UpdateColumns[11] == f;
    case Formacao => assert UpdateColumns[12] == f;
    case MateriaEnsinada => assert UpdateColumns[13] == f;
    case Livros => assert UpdateColumns[14] == f;
    case EpisodiosEfemerides => assert UpdateColumns[15] == f;
    case ExerciciosEspirituais => assert UpdateColumns[16] == f;
    case Doencas => assert UpdateColumns[17] == f;
    case DataFalecimento => assert UpdateColumns[18] == f;
    case NomeAbade => assert UpdateColumns[19] == f;
    case Observacoes => assert UpdateColumns[20] == f;
    case ReferenciaManuscrito => assert UpdateColumns[21] == f;
    case ReferenciaEdicao => assert UpdateColumns[22] == f;
  }

  /** The columns `update` overwrites. */
  predicate Rewritten(f: Field) {
    !IsAssigned(f)
  }

  /** The first named parameter a statement uses that the bound object lacks;
      binding such an object throws. */
  function FirstMissing(cols: seq<Field>, params: map<Field, Option<string>>): (r: Option<Field>)
    ensures r.None? <==> forall c :: c in cols ==> c in params
    ensures r.Some? ==> r.value in cols && r.value !in params
    decreases |cols|
  {
    if |cols| == 0 then None
    else if cols[0] !in params then Some(cols[0])
    else FirstMissing(cols[1..], params)
  }

  /** The only column a normalised draft can lack is `nome` (and `id` for update). */
  lemma MissingIsNomeOrId(d: Draft, cols: seq<Field>)
    requires forall c :: c in cols ==> c != CreatedAt
    ensures FirstMissing(cols, Prepare(d)).Some? ==>
      var f := FirstMissing(cols, Prepare(d)).value; (f == Nome || f == Id) && f !in d.fields
  {
    if FirstMissing(cols, Prepare(d)).Some? {
      var f := FirstMissing(cols, Prepare(d)).value;
      PrepareSpec(d, f);
    }
  }

  // ---------------------------------------------------------------------------
  // Connection

  /** `connectDB`: reconnect, then `CREATE TABLE IF NOT EXISTS`. */
  function ConnectDB(db: Db): (r: Db)
    ensures IsOpen(r.handles)
    ensures r.file.Some?
    ensures db.file.Some? ==> r.file == db.file
    ensures db.file.None? ==> r.file == Some(map[])
  {
    Db(Connect(db.handles), Some(db.file.GetOr(map[])))
  }

  /** `closeDB`. */
  function CloseDB(db: Db): (r: Db)
    ensures !IsOpen(r.handles)
    ensures r.file == db.file
    ensures !IsOpen(db.handles) ==> r == db
  {
    Db(Close(db.handles), db.file)
  }

  /** Reconnecting keeps at most one handle open and never loses a row. */
  lemma ConnectKeepsRows(db: Db)
    requires OnlyCurrentOpen(db.handles)
    ensures OnlyCurrentOpen(ConnectDB(db).handles) && OpenCount(ConnectDB(db).handles.states) == 1
    ensures db.file.Some? ==> ConnectDB(db).file.value == db.file.value
  {
    ConnectOpensOne(db.handles);
  }

  // ---------------------------------------------------------------------------
  // Writes

  /** The table the statement runs against, or why there is none. */
  function Target(db: Db): Result<Table, StoreError> {
    if !IsOpen(db.handles) then Failure(NotConnected)
    else if db.file.None? then Failure(NoSuchTable)
    else Success(db.file.value)
  }

  /** A draft as the IPC handler passes it: `id` set to a non-empty identifier. */
  predicate HasId(d: Draft) {
    Id in d.fields && d.fields[Id].Some? && d.fields[Id].value != ""
  }

  /** The row `create` inserts: every bound column but `created_at`, which
      takes the timestamp `now`. */
  function NewRow(p: map<Field, Option<string>>, now: string): Row {
    Row((map c | c in p && c != CreatedAt :: p[c])[CreatedAt := Some(now)])
  }

  /** `MonkDAO.create(monk)`; `now` is the `CURRENT_TIMESTAMP` default of `created_at`. */
  function Create(db: Db, d: Draft, now: string): Result<Db, StoreError>
    requires HasId(d)
  {
    var t :- Target(db);
    var p := Prepare(d);
    var id := d.fields[Id].value;
    if FirstMissing(InsertColumns, p).Some? then Failure(MissingParameter(FirstMissing(InsertColumns, p).value))
    else if id in t then Failure(DuplicateId(id))
    else Success(db.(file := Some(t[id := NewRow(p, now)])))
  }

  /** The `create-monk` handler: the identifier comes from `uuidv4`, here a parameter. */
  function CreateMonk(db: Db, data: Draft, uuid: string, now: string): Result<Db, StoreError>
    requires uuid != ""
  {
    Create(db, data.(fields := data.fields[Id := Some(uuid)]), now)
  }

  /** A stored row with the rewritable columns replaced from the bound parameters. */
  function Overwrite(old_: Row, p: map<Field, Option<string>>): Row {
    Row(old_.cells + map c | c in p && Rewritten(c) :: p[c])
  }

  /** `MonkDAO.update(monk)`: every column but `id` and `created_at` of the row whose
      `id` matches is overwritten; no matching row means no change. */
  function Update(db: Db, d: Draft): Result<Db, StoreError> {
    var t :- Target(db);
    var p := Prepare(d);
    if FirstMissing(UpdateColumns + [Id], p).Some? then
      Failure(MissingParameter(FirstMissing(UpdateColumns + [Id], p).value))
    else match p[Id]
      case None => Success(db)
      case Some(id) =>
        if id in t
        then Success(db.(file := Some(t[id := Overwrite(t[id], p)])))
        else Success(db)
  }

  /** `MonkDAO.delete(id)`. */
  function Delete(db: Db, id: string): Result<Db, StoreError> {
    var t :- Target(db);
    Success(db.(file := Some(t - {id})))
  }

  /** Binding a prepared draft to the INSERT fails exactly when the name was not supplied. */
  lemma InsertBinds(d: Draft)
    requires Id in d.fields
    ensures FirstMissing(InsertColumns, Prepare(d)).None? <==> Nome in d.fields
  {
    var p := Prepare(d);
    PrepareSpec(d, Nome);
    if Nome in d.fields {
      forall c | c in InsertColumns ensures c in p {
        PrepareSpec(d, c);
        InsertColumnsCover(c);
      }
    }
  }

  /** Binding a prepared draft to the UPDATE fails exactly when the name or the key was not supplied. */
  lemma UpdateBinds(d: Draft)
    ensures FirstMissing(UpdateColumns + [Id], Prepare(d)).None? <==> Nome in d.fields && Id in d.fields
  {
    var p := Prepare(d);
    PrepareSpec(d, Nome);
    PrepareSpec(d, Id);
    assert Nome in UpdateColumns + [Id] by { UpdateColumnsCover(Nome); }
    assert Id in UpdateColumns + [Id];
    if Nome in d.fields && Id in d.fields {
      forall c | c in UpdateColumns + [Id] ensures c in p {
        PrepareSpec(d, c);
        UpdateColumnsCover(c);
      }
    }
  }

  /** `create` succeeds exactly when the store is connected, the name was supplied
      (possibly empty or null) and the identifier is new. */
  lemma CreateSucceeds(db: Db, d: Draft, now: string)
    requires HasId(d)
    ensures Create(db, d, now).Success? <==>
      Target(db).Success? && Nome in d.fields && d.fields[Id].value !in Target(db).value
    ensures Target(db).Failure? ==> Create(db, d, now) == Failure(Target(db).error)
    ensures Target(db).Success? && Nome !in d.fields ==> Create(db, d, now) == Failure(MissingParameter(Nome))
  {
    InsertBinds(d);
    if Target(db).Success? && Nome !in d.fields {
      var m := FirstMissing(InsertColumns, Prepare(d));
      PrepareSpec(d, m.value);
      PrepareSpec(d, Id);
    }
  }

  /** A successful `create` adds one row under the new identifier and leaves every
      other row alone.  The new row holds every column: its identifier, the
      timestamp, and for every other column the value `Expected` states (null for an
      omitted optional scalar, the caller's value otherwise, never `""`). */
  lemma CreateSpec(db: Db, d: Draft, now: string)
    requires HasId(d)
    requires Create(db, d, now).Success?
    ensures var id := d.fields[Id].value;
      var t := Target(db).value;
      var t' := Create(db, d, now).value.file.value;
      && Create(db, d, now).value.handles == db.handles
      && t'.Keys == t.Keys + {id}
      && (forall k :: k in t && k != id ==> t'[k] == t[k])
      && (forall f :: f in t'[id].cells)
      && t'[id].cells[Id] == Some(id)
      && t'[id].cells[CreatedAt] == Some(now)
      && (forall f :: f != Id && f != CreatedAt ==> t'[id].cells[f] == Expected(d, f))
  {
    CreateKeepsOthers(db, d, now);
    CreateStoresRow(db, d, now);
  }

  lemma CreateKeepsOthers(db: Db, d: Draft, now: string)
    requires HasId(d)
    requires Create(db, d, now).Success?
    ensures var id := d.fields[Id].value;
      var t := Target(db).value;
      var t' := Create(db, d, now).value.file.value;
      && Create(db, d, now).value.handles == db.handles
      && t'.Keys == t.Keys + {id}
      && (forall k :: k in t && k != id ==> t'[k] == t[k])
  {
    CreateResult(db, d, now);
    var t := Target(db).value;
    var id := d.fields[Id].value;
    var row := NewRow(Prepare(d), now);
    assert Create(db, d, now).value.file.value == t[id := row];
    MapUpdate(t, id, row);
  }

  lemma MapUpdate<K, V>(t: map<K, V>, k: K, v: V)
    ensures t[k := v].Keys == t.Keys + {k}
    ensures forall j :: j in t && j != k ==> t[k := v][j] == t[j]
  {
  }

  lemma CreateStoresRow(db: Db, d: Draft, now: string)
    requires HasId(d)
    requires Create(db, d, now).Success?
    ensures var id := d.fields[Id].value;
      var t' := Create(db, d, now).value.file.value;
      && id in t'
      && (forall f :: f in t'[id].cells)
      && t'[id].cells[Id] == Some(id)
      && t'[id].cells[CreatedAt] == Some(now)
      && (forall f :: f != Id && f != CreatedAt ==> t'[id].cells[f] == Expected(d, f))
  {
    CreateSucceeds(db, d, now);
    CreateResult(db, d, now);
    NewRowSpec(d, now);
  }

  lemma CreateResult(db: Db, d: Draft, now: string)
    requires HasId(d)
    requires Create(db, d, now).Success?
    ensures Create(db, d, now).value == db.(file := Some(Target(db).value[d.fields[Id].value := NewRow(Prepare(d), now)]))
  {
  }

  /** The row `create` builds from a draft, column by column. */
  lemma NewRowSpec(d: Draft, now: string)
    requires HasId(d) && Nome in d.fields
    ensures var row := NewRow(Prepare(d), now);
      && (forall f :: f in row.cells)
      && row.cells[Id] == Some(d.fields[Id].value)
      && row.cells[CreatedAt] == Some(now)
      && (forall f :: f != Id && f != CreatedAt ==> row.cells[f] == Expected(d, f))
  {
    var row := NewRow(Prepare(d), now);
    forall f ensures f in row.cells && row.cells[f] == if f == CreatedAt then Some(now) else Expected(d, f) {
      NewRowAt(d, now, f);
    }
  }

  lemma NewRowAt(d: Draft, now: string, f: Field)
    requires HasId(d) && Nome in d.fields
    ensures f in NewRow(Prepare(d), now).cells
    ensures NewRow(Prepare(d), now).cells[f] ==
      if f == CreatedAt then Some(now) else Expected(d, f)
  {
    var p := Prepare(d);
    PrepareSpec(d, f);
    NewRowCell(p, now, f);
  }

  /** A column of the inserted row is the bound parameter, or the timestamp. */
  lemma NewRowCell(p: map<Field, Option<string>>, now: string, f: Field)
    ensures f in NewRow(p, now).cells <==> f == CreatedAt || f in p
    ensures f in NewRow(p, now).cells ==>
      NewRow(p, now).cells[f] == if f == CreatedAt then Some(now) else p[f]
  {
  }

  /** The IPC handler's `create` differs from the DAO's only in where `id` comes from. */
  lemma CreateMonkUsesUuid(db: Db, data: Draft, uuid: string, now: string)
    requires uuid != ""
    ensures CreateMonk(db, data, uuid, now).Success? ==>
      uuid in CreateMonk(db, data, uuid, now).value.file.value
      && uuid !in Target(db).value
  {
    var d := data.(fields := data.fields[Id := Some(uuid)]);
    if CreateMonk(db, data, uuid, now).Success? {
      CreateSucceeds(db, d, now);
      CreateSpec(db, d, now);
    }
  }

  /** `update` succeeds exactly when the store is connected and both the name and
      the key were supplied; it keeps the handles and the set of identifiers, and an
      absent, empty or unknown identifier changes no row. */
  lemma UpdateSucceeds(db: Db, d: Draft)
    ensures Update(db, d).Success? <==> Target(db).Success? && Nome in d.fields && Id in d.fields
    ensures Update(db, d).Success? ==>
      var t := Target(db).value;
      var t' := Update(db, d).value.file.value;
      && Update(db, d).value.handles == db.handles
      && t'.Keys == t.Keys
      && (Expected(d, Id).None? || Expected(d, Id).value !in t ==> t' == t)
  {
    UpdateBinds(d);
    PrepareSpec(d, Id);
  }

  /** On the matching row `update` overwrites every column but `id` and `created_at`
      with the value `Expected` states (so an omitted optional scalar reverts to
      null) and keeps `id` and `created_at`; every other row is untouched. */
  lemma UpdateSpec(db: Db, d: Draft)
    requires Update(db, d).Success?
    ensures var t := Target(db).value;
      var t' := Update(db, d).value.file.value;
      && (forall k :: k in t && Some(k) != Expected(d, Id) ==> t'[k] == t[k])
      && (Expected(d, Id).Some? && Expected(d, Id).value in t ==>
            var k := Expected(d, Id).value;
            && (forall f :: Rewritten(f) ==> f in t'[k].cells && t'[k].cells[f] == Expected(d, f))
            && (forall f :: !Rewritten(f) ==> (f in t'[k].cells <==> f in t[k].cells))
            && (forall f :: !Rewritten(f) && f in t[k].cells ==> t'[k].cells[f] == t[k].cells[f]))
  {
    UpdateResult(db, d);
    var t := Target(db).value;
    var p := Prepare(d);
    if Expected(d, Id).Some? && Expected(d, Id).value in t {
      var k := Expected(d, Id).value;
      var t' := t[k := Overwrite(t[k], p)];
      assert t'[k] == Overwrite(t[k], p);
      forall f
        ensures Rewritten(f) ==> f in t'[k].cells && t'[k].cells[f] == Expected(d, f)
        ensures !Rewritten(f) ==> (f in t'[k].cells <==> f in t[k].cells)
        ensures !Rewritten(f) && f in t[k].cells ==> t'[k].cells[f] == t[k].cells[f]
      {
        PrepareSpec(d, f);
        OverwriteAt(t[k], p, f);
      }
    }
  }

  /** The table after a successful `update`: the matching row overwritten, if any. */
  lemma UpdateResult(db: Db, d: Draft)
    requires Update(db, d).Success?
    ensures Target(db).Success? && Nome in d.fields && Id in d.fields
    ensures var t := Target(db).value;
      Update(db, d).value.file.value ==
        if Expected(d, Id).Some? && Expected(d, Id).value in t
        then t[Expected(d, Id).value := Overwrite(t[Expected(d, Id).value], Prepare(d))]
        else t
  {
    UpdateSucceeds(db, d);
    UpdateBinds(d);
    PrepareSpec(d, Id);
    var p := Prepare(d);
    assert FirstMissing(UpdateColumns + [Id], p).None?;
    assert p[Id] == Expected(d, Id);
  }

  /** A column of an overwritten row: the bound parameter if rewritable, the old value otherwise. */
  lemma OverwriteAt(row: Row, p: map<Field, Option<string>>, f: Field)
    ensures f in Overwrite(row, p).cells <==> f in row.cells || (f in p && Rewritten(f))
    ensures f in p && Rewritten(f) ==> Overwrite(row, p).cells[f] == p[f]
    ensures !Rewritten(f) && f in row.cells ==> Overwrite(row, p).cells[f] == row.cells[f]
  {
  }

  /** `delete` removes exactly the row with the given identifier, if any. */
  lemma DeleteSpec(db: Db, id: string)
    ensures Delete(db, id).Success? <==> Target(db).Success?
    ensures Delete(db, id).Success? ==>
      var t := Target(db).value;
      var t' := Delete(db, id).value.file.value;
      && t'.Keys == t.Keys - {id}
      && (forall k :: k in t' ==> t'[k] == t[k])
      && (id !in t ==> t' == t)
  {
  }

  // ---------------------------------------------------------------------------
  // Saving from the form

  /** The record the renderer sends, as the draft the store binds. */
  function DraftOf(m: Monk): Draft {
    Draft(m.cells, Some(m.ocupacao), Some(m.livros))
  }

  /** `editingMonk && editingMonk.id`: the identifier of the record being edited,
      when there is one and it is not empty. */
  function EditedId(editing: Option<Monk>): Option<string> {
    if editing.Some? && Cell(editing.value, Id).Some? && Cell(editing.value, Id).value != ""
    then Cell(editing.value, Id) else None
  }

  /** `handleSave`: a record opened for editing is updated under its own
      identifier; anything else is created under a fresh `uuid`. */
  function Save(db: Db, editing: Option<Monk>, data: Monk, uuid: string, now: string): Result<Db, StoreError>
    requires uuid != ""
  {
    match EditedId(editing)
    case Some(id) => Update(db, DraftOf(data).(fields := data.cells[Id := Some(id)]))
    case None => CreateMonk(db, DraftOf(data), uuid, now)
  }

  /** A new record whose `nome` is the empty string is stored with a null `nome`. */
  lemma NewWithEmptyName(db: Db, data: Monk, uuid: string, now: string)
    requires uuid != "" && Cell(data, Nome) == Some("")
    requires Target(db).Success? && uuid !in Target(db).value
    ensures Save(db, None, data, uuid, now).Success?
    ensures uuid in Save(db, None, data, uuid, now).value.file.value
    ensures Save(db, None, data, uuid, now).value.file.value[uuid].cells[Nome] == None
  {
    var d := SaveNewDraft(data, uuid);
    SaveNewIsCreate(db, data, uuid, now);
    EmptyNameStoredNull(db, d, now);
  }

  /** The draft `handleSave` hands to `create` for a new record. */
  function SaveNewDraft(data: Monk, uuid: string): (d: Draft)
    requires uuid != ""
    ensures HasId(d) && d.fields[Id].value == uuid
    ensures forall f :: f != Id ==> (f in d.fields <==> f in data.cells)
    ensures forall f :: f != Id && f in data.cells ==> d.fields[f] == data.cells[f]
  {
    DraftOf(data).(fields := data.cells[Id := Some(uuid)])
  }

  lemma SaveNewIsCreate(db: Db, data: Monk, uuid: string, now: string)
    requires uuid != ""
    ensures Save(db, None, data, uuid, now) == Create(db, SaveNewDraft(data, uuid), now)
  {
  }

  lemma EmptyNameStoredNull(db: Db, d: Draft, now: string)
    requires HasId(d) && Nome in d.fields && d.fields[Nome] == Some("")
    requires Target(db).Success? && d.fields[Id].value !in Target(db).value
    ensures Create(db, d, now).Success?
    ensures d.fields[Id].value in Create(db, d, now).value.file.value
    ensures Create(db, d, now).value.file.value[d.fields[Id].value].cells[Nome] == None
  {
    CreateSucceeds(db, d, now);
    CreateStoresRow(db, d, now);
    assert Expected(d, Nome) == None;
  }

  /** Saving an edit keeps the set of records and rewrites the edited one; saving a
      new record adds exactly one record, under the fresh identifier. Both fail
      when the data has no `nome` key or the table is unreachable, and a new record
      also fails on an identifier already in use. */
  lemma SaveSpec(db: Db, editing: Option<Monk>, data: Monk, uuid: string, now: string)
    requires uuid != ""
    ensures EditedId(editing).Some? ==>
      (Save(db, editing, data, uuid, now).Success? <==> Target(db).Success? && Nome in data.cells)
    ensures EditedId(editing).Some? && Save(db, editing, data, uuid, now).Success? ==>
      Save(db, editing, data, uuid, now).value.file.value.Keys == Target(db).value.Keys
    ensures EditedId(editing).None? ==>
      (Save(db, editing, data, uuid, now).Success? <==>
        Target(db).Success? && Nome in data.cells && uuid !in Target(db).value)
    ensures EditedId(editing).None? && Save(db, editing, data, uuid, now).Success? ==>
      Save(db, editing, data, uuid, now).value.file.value.Keys == Target(db).value.Keys + {uuid}
  {
    match EditedId(editing)
    case Some(id) =>
      UpdateSucceeds(db, DraftOf(data).(fields := data.cells[Id := Some(id)]));
    case None =>
      var d := DraftOf(data).(fields := data.cells[Id := Some(uuid)]);
      CreateSucceeds(db, d, now);
      if Create(db, d, now).Success? {
        CreateSpec(db, d, now);
      }
  }

  // ---------------------------------------------------------------------------
  // Reads

  /** `row.f ? JSON.parse(row.f) : []` for a list column. */
  function DecodeColumn(row: Row, f: Field): Result<seq<string>, StoreError> {
    var blob := if f in row.cells then row.cells[f] else None;
    if blob.None? || blob.value == "" then Success([])
    else match JsonList.Decode(blob.value)
      case Success(xs) => Success(xs)
      case Failure(e) => Failure(MalformedList(f, e))
  }

  /** `{...row, livros: …, ocupacao_oficio: …}`. */
  function DecodeRow(row: Row): Result<Monk, StoreError> {
    var livros :- DecodeColumn(row, Livros);
    var ocupacao :- DecodeColumn(row, OcupacaoOficio);
    Success(Monk(row.cells - {Livros, OcupacaoOficio}, ocupacao, livros))
  }

  /** A row written by `create` or `update` reads back with exactly the lists the
      caller gave (`[]` for an absent list), every other column as stored. */
  lemma DecodeWrittenRow(row: Row, d: Draft)
    requires Livros in row.cells && row.cells[Livros] == Expected(d, Livros)
    requires OcupacaoOficio in row.cells && row.cells[OcupacaoOficio] == Expected(d, OcupacaoOficio)
    ensures DecodeRow(row) == Success(Monk(row.cells - {Livros, OcupacaoOficio}, d.ocupacao.GetOr([]), d.livros.GetOr([])))
  {
    JsonList.DecodeEncode(d.livros.GetOr([]));
    JsonList.DecodeEncode(d.ocupacao.GetOr([]));
    JsonList.EncodeShape(d.livros.GetOr([]));
    JsonList.EncodeShape(d.ocupacao.GetOr([]));
  }

  /** An absent or empty list column reads as the empty list. */
  lemma DecodeNullColumn(row: Row, f: Field)
    requires f !in row.cells || row.cells[f] == None || row.cells[f] == Some("")
    ensures DecodeColumn(row, f) == Success([])
  {
  }

  /** `ORDER BY nome ASC`: NULL sorts first, then text in binary order. */
  predicate KeyLt(a: Option<string>, b: Option<string>) {
    (a.None? && b.Some?) || (a.Some? && b.Some? && Text.Less(a.value, b.value))
  }

  predicate KeyLe(a: Option<string>, b: Option<string>) {
    a == b || KeyLt(a, b)
  }

  function NomeKey(m: Monk): Option<string> {
    Cell(m, Nome)
  }

  predicate SortedByNome(ms: seq<Monk>) {
    forall i, j :: 0 <= i < j < |ms| ==> KeyLe(NomeKey(ms[i]), NomeKey(ms[j]))
  }

  lemma KeyTotal(a: Option<string>, b: Option<string>)
    ensures !KeyLt(a, b) ==> KeyLe(b, a)
  {
    if a.Some? && b.Some? {
      Text.LessTotal(a.value, b.value);
    }
  }

  lemma KeyLtLeTransitive(a: Option<string>, b: Option<string>, c: Option<string>)
    requires KeyLt(a, b) && KeyLe(b, c)
    ensures KeyLt(a, c)
  {
    if a.Some? && b != c {
      Text.LessTransitive(a.value, b.value, c.value);
    }
  }

  lemma KeyLeTransitive(a: Option<string>, b: Option<string>, c: Option<string>)
    requires KeyLe(a, b) && KeyLe(b, c)
    ensures KeyLe(a, c)
  {
    if a != b {
      KeyLtLeTransitive(a, b, c);
    }
  }

  /** Where `getAll`'s ordering places a record with key `k`: after every record
      whose key is not greater. */
  function InsertPos(ms: seq<Monk>, k: Option<string>): (p: nat)
    ensures p <= |ms|
    ensures forall i :: 0 <= i < p ==> !KeyLt(k, NomeKey(ms[i]))
    ensures p < |ms| ==> KeyLt(k, NomeKey(ms[p]))
    decreases |ms|
  {
    if |ms| == 0 || KeyLt(k, NomeKey(ms[0])) then 0 else 1 + InsertPos(ms[1..], k)
  }

  lemma InsertKeepsSorted(ms: seq<Monk>, m: Monk)
    requires SortedByNome(ms)
    ensures var p := InsertPos(ms, NomeKey(m)); SortedByNome(ms[..p] + [m] + ms[p..])
  {
    var p := InsertPos(ms, NomeKey(m));
    var r := ms[..p] + [m] + ms[p..];
    forall i, j | 0 <= i < j < |r| ensures KeyLe(NomeKey(r[i]), NomeKey(r[j])) {
      if j < p {
        assert r[i] == ms[i] && r[j] == ms[j];
      } else if j == p {
        assert r[i] == ms[i] && r[j] == m;
        KeyTotal(NomeKey(m), NomeKey(ms[i]));
      } else if i == p {
        assert r[j] == ms[j - 1];
        assert KeyLe(NomeKey(ms[p]), NomeKey(ms[j - 1]));
        KeyLtLeTransitive(NomeKey(m), NomeKey(ms[p]), NomeKey(ms[j - 1]));
      } else if i < p {
        assert r[i] == ms[i] && r[j] == ms[j - 1];
      } else {
        assert r[i] == ms[i - 1] && r[j] == ms[j - 1];
      }
    }
  }

  /** `ids[i]` names the stored row that decodes to `ms[i]`. */
  predicate DecodedFrom(t: Table, ids: seq<string>, ms: seq<Monk>) {
    |ids| == |ms| && forall i :: 0 <= i < |ids| ==> ids[i] in t && DecodeRow(t[ids[i]]) == Success(ms[i])
  }

  /** Placing one more decoded row at the same position in both sequences keeps
      them in step and adds its identifier once. */
  lemma InsertDecoded(t: Table, ids: seq<string>, ms: seq<Monk>, k: string, m: Monk, p: nat)
    requires DecodedFrom(t, ids, ms) && p <= |ms|
    requires k in t && DecodeRow(t[k]) == Success(m)
    ensures DecodedFrom(t, ids[..p] + [k] + ids[p..], ms[..p] + [m] + ms[p..])
    ensures multiset(ids[..p] + [k] + ids[p..]) == multiset(ids) + multiset{k}
  {
    var ids' := ids[..p] + [k] + ids[p..];
    var ms' := ms[..p] + [m] + ms[p..];
    forall i | 0 <= i < |ids'| ensures ids'[i] in t && DecodeRow(t[ids'[i]]) == Success(ms'[i]) {
      if i < p {
        assert ids'[i] == ids[i] && ms'[i] == ms[i];
      } else if i > p {
        assert ids'[i] == ids[i - 1] && ms'[i] == ms[i - 1];
      }
    }
    assert ids == ids[..p] + ids[p..];
  }

  /** `MonkDAO.getAll()`: every row decoded, ordered by `nome`.  `ids` names the
      stored row each result came from. */
  method GetAll(db: Db) returns (r: Result<seq<Monk>, StoreError>, ghost ids: seq<string>)
    ensures Target(db).Failure? ==> r == Failure(Target(db).error)
    ensures Target(db).Success? ==>
      (r.Failure? <==> exists k :: k in Target(db).value && DecodeRow(Target(db).value[k]).Failure?)
    ensures r.Success? ==>
      && SortedByNome(r.value)
      && multiset(ids) == multiset(Target(db).value.Keys)
      && DecodedFrom(Target(db).value, ids, r.value)
  {
    ids := [];
    if Target(db).Failure? {
      r := Failure(Target(db).error);
      return;
    }
    var t := Target(db).value;
    var todo := t.Keys;
    var acc: seq<Monk> := [];
    while todo != {}
      invariant todo <= t.Keys
      invariant multiset(ids) + multiset(todo) == multiset(t.Keys)
      invariant DecodedFrom(t, ids, acc)
      invariant forall k :: k in t && k !in todo ==> DecodeRow(t[k]).Success?
      invariant SortedByNome(acc)
      decreases |todo|
    {
      var k :| k in todo;
      var decoded := DecodeRow(t[k]);
      if decoded.Failure? {
        r := Failure(decoded.error);
        return;
      }
      var m := decoded.value;
      var p := InsertPos(acc, NomeKey(m));
      InsertKeepsSorted(acc, m);
      InsertDecoded(t, ids, acc, k, m, p);
      assert multiset(todo - {k}) + multiset{k} == multiset(todo);
      acc := acc[..p] + [m] + acc[p..];
      ids := ids[..p] + [k] + ids[p..];
      todo := todo - {k};
    }
    r := Success(acc);
  }
}
