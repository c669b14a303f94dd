/** The record of an archived monk: the columns of the `monges` table and the
    `Monk` interface the renderer works with. */
module Schema {
  import opened Wrappers

  /** Every key of the record, one constructor per column of the table. */
  datatype Field =
    | Id | Nome | OcupacaoOficio | DataNascimento | PaisNascimento | CidadeNascimento
    | NomeMae | NomePai | DataBatismo | LocalBatismo | DataIngressoMosteiro
    | DataProfissaoReligiosa | LocalProfissaoReligiosa | Formacao | MateriaEnsinada
    | Livros | EpisodiosEfemerides | ExerciciosEspirituais | Doencas | DataFalecimento
    | NomeAbade | Observacoes | ReferenciaManuscrito | ReferenciaEdicao | CreatedAt

  /** The column / property name of a field. */
  function Name(f: Field): string {
    match f
    case Id => "id"
    case Nome => "nome"
    case OcupacaoOficio => "ocupacao_oficio"
    case DataNascimento => "data_nascimento"
    case PaisNascimento => "pais_nascimento"
    case CidadeNascimento => "cidade_nascimento"
    case NomeMae => "nome_mae"
    case NomePai => "nome_pai"
    case DataBatismo => "data_batismo"
    case LocalBatismo => "local_batismo"
    case DataIngressoMosteiro => "data_ingresso_mosteiro"
    case DataProfissaoReligiosa => "data_profissao_religiosa"
    case LocalProfissaoReligiosa => "local_profissao_religiosa"
    case Formacao => "formacao"
    case MateriaEnsinada => "materia_ensinada"
    case Livros => "livros"
    case EpisodiosEfemerides => "episodios_efemerides"
    case ExerciciosEspirituais => "exercicios_espirituais"
    case Doencas => "doencas"
    case DataFalecimento => "data_falecimento"
    case NomeAbade => "nome_abade"
    case Observacoes => "observacoes"
    case ReferenciaManuscrito => "referencia_manuscrito"
    case ReferenciaEdicao => "referencia_edicao"
    case CreatedAt => "created_at"
  }

  /** The two list-valued fields; every other field holds one string or null. */
  predicate IsList(f: Field) {
    f == OcupacaoOficio || f == Livros
  }

  /** The fields the interface marks optional (`?`): assigned by the store, not by the caller. */
  predicate IsAssigned(f: Field) {
    f == Id || f == CreatedAt
  }

  /** Properties of the `Monk` interface, in declaration order. */
  const RecordFields: seq<Field> := [
    Id, Nome, OcupacaoOficio, DataNascimento, PaisNascimento, CidadeNascimento,
    NomeMae, NomePai, DataBatismo, LocalBatismo, DataIngressoMosteiro,
    DataProfissaoReligiosa, LocalProfissaoReligiosa, Formacao, MateriaEnsinada,
    Livros, EpisodiosEfemerides, ExerciciosEspirituais, Doencas, DataFalecimento,
    NomeAbade, Observacoes, ReferenciaManuscrito, ReferenciaEdicao, CreatedAt]

  /** Columns of `CREATE TABLE monges`, in declaration order. */
  const TableColumns: seq<string> := [
    "id", "nome", "ocupacao_oficio", "data_nascimento", "pais_nascimento",
    "cidade_nascimento", "nome_mae", "nome_pai", "data_batismo", "local_batismo",
    "data_ingresso_mosteiro", "data_profissao_religiosa", "local_profissao_religiosa",
    "formacao", "materia_ensinada", "livros", "episodios_efemerides",
    "exercicios_espirituais", "doencas", "data_falecimento", "nome_abade",
    "observacoes", "referencia_manuscrito", "referencia_edicao", "created_at"]

  /** Keys of the store's `defaultValues` object, each defaulting to null. */
  const DefaultKeys: seq<Field> := [
    DataNascimento, PaisNascimento, CidadeNascimento, NomeMae, NomePai, DataBatismo,
    LocalBatismo, DataIngressoMosteiro, DataProfissaoReligiosa,
    LocalProfissaoReligiosa, Formacao, MateriaEnsinada, EpisodiosEfemerides,
    ExerciciosEspirituais, Doencas, DataFalecimento, NomeAbade, Observacoes,
    ReferenciaManuscrito, ReferenciaEdicao]

  /** A record as the renderer holds it: every non-list property as a string or
      null (a missing key reads as undefined, which behaves as null), and the
      two lists already decoded. */
  datatype Monk = Monk(cells: map<Field, Option<string>>, ocupacao: seq<string>, livros: seq<string>)

  /** `m[f]` for a field that is not a list. */
  function Cell(m: Monk, f: Field): Option<string> {
    if f in m.cells then m.cells[f] else None
  }

  /** Every field of the record is a column of the table and every column a field of
      the record, in the same order. */
  lemma RecordMatchesTable()
    ensures |RecordFields| == |TableColumns|
    ensures forall i :: 0 <= i < |RecordFields| ==> Name(RecordFields[i]) == TableColumns[i]
  {
    forall i | 0 <= i < |RecordFields| ensures Name(RecordFields[i]) == TableColumns[i] {
      if i < 7 { ColumnAtFirst(i); } else if i < 13 { ColumnAtLow(i); } else { ColumnAtHigh(i); }
    }
  }

  /** The field at one of the first seven positions of the interface names the
      column at that position. */
  lemma ColumnAtFirst(i: int)
    requires 0 <= i < 7
    ensures Name(RecordFields[i]) == TableColumns[i]
  {
    if i == 0 { assert RecordFields[0] == Id; }
    else if i == 1 { assert RecordFields[1] == Nome; }
    else if i == 2 { assert RecordFields[2] == OcupacaoOficio; }
    else if i == 3 { assert RecordFields[3] == DataNascimento; }
    else if i == 4 { assert RecordFields[4] == PaisNascimento; }
    else if i == 5 { assert RecordFields[5] == CidadeNascimento; }
    else { assert RecordFields[6] == NomeMae; }
  }

  /** The same for positions seven to twelve. */
  lemma ColumnAtLow(i: int)
    requires 7 <= i < 13
    ensures Name(RecordFields[i]) == TableColumns[i]
  {
    if i == 7 { assert RecordFields[7] == NomePai; }
    else if i == 8 { assert RecordFields[8] == DataBatismo; }
    else if i == 9 { assert RecordFields[9] == LocalBatismo; }
    else if i == 10 { assert RecordFields[10] == DataIngressoMosteiro; }
    else if i == 11 { assert RecordFields[11] == DataProfissaoReligiosa; }
    else { assert RecordFields[12] == LocalProfissaoReligiosa; }
  }

  /** The same for the remaining positions. */
  lemma ColumnAtHigh(i: int)
    requires 13 <= i < |RecordFields|
    ensures Name(RecordFields[i]) == TableColumns[i]
  {
    if i == 13 { assert RecordFields[13] == Formacao; }
    else if i == 14 { assert RecordFields[14] == MateriaEnsinada; }
    else if i == 15 { assert RecordFields[15] == Livros; }
    else if i == 16 { assert RecordFields[16] == EpisodiosEfemerides; }
    else if i == 17 { assert RecordFields[17] == ExerciciosEspirituais; }
    else if i == 18 { assert RecordFields[18] == Doencas; }
    else if i == 19 { assert RecordFields[19] == DataFalecimento; }
    else if i == 20 { assert RecordFields[20] == NomeAbade; }
    else if i == 21 { assert RecordFields[21] == Observacoes; }
    else if i == 22 { assert RecordFields[22] == ReferenciaManuscrito; }
    else if i == 23 { assert RecordFields[23] == ReferenciaEdicao; }
    else { assert RecordFields[24] == CreatedAt; }
  }

  /** The interface declares every field. */
  lemma RecordIsComplete(f: Field)
    ensures f in RecordFields
  {
    match f
    case Id => assert RecordFields[0] == f;
    case Nome => assert RecordFields[1] == f;
    case OcupacaoOficio => assert RecordFields[2] == f;
    case DataNascimento => assert RecordFields[3] == f;
    case PaisNascimento => assert RecordFields[4] == f;
    case CidadeNascimento => assert RecordFields[5] == f;
    case NomeMae => assert RecordFields[6] == f;
    case NomePai => assert RecordFields[7] == f;
    case DataBatismo => assert RecordFields[8] == f;
    case LocalBatismo => assert RecordFields[9] == f;
    case DataIngressoMosteiro => assert RecordFields[10] == f;
    case DataProfissaoReligiosa => assert RecordFields[11] == f;
    case LocalProfissaoReligiosa => assert RecordFields[12] == f;
    case Formacao => assert RecordFields[13] == f;
    case MateriaEnsinada => assert RecordFields[14] == f;
    case Livros => assert RecordFields[15] == f;
    case EpisodiosEfemerides => assert RecordFields[16] == f;
    case ExerciciosEspirituais => assert RecordFields[17] == f;
    case Doencas => assert RecordFields[18] == f;
    case DataFalecimento => assert RecordFields[19] == f;
    case NomeAbade => assert RecordFields[20] == f;
    case Observacoes => assert RecordFields[21] == f;
    case ReferenciaManuscrito => assert RecordFields[22] == f;
    case ReferenciaEdicao => assert RecordFields[23] == f;
    case CreatedAt => assert RecordFields[24] == f;
  }

  /** The store's defaults cover exactly the scalar fields other than `nome`:
      everything except the two lists, the mandatory name and the assigned keys. */
  lemma DefaultsAreOptionalScalars(f: Field)
    ensures f in DefaultKeys <==> !IsList(f) && !IsAssigned(f) && f != Nome
  {
    DefaultKeysAreScalars();
    if !IsList(f) && !IsAssigned(f) && f != Nome {
      OptionalScalarIsDefaulted(f);
    }
  }

  lemma DefaultKeysAreScalars()
    ensures forall i :: 0 <= i < |DefaultKeys| ==>
      !IsList(DefaultKeys[i]) && !IsAssigned(DefaultKeys[i]) && DefaultKeys[i] != Nome
  {
  }

  lemma OptionalScalarIsDefaulted(f: Field)
    requires !IsList(f) && !IsAssigned(f) && f != Nome
    ensures f in DefaultKeys
  {
    {
      match f
      case DataNascimento => assert DefaultKeys[0] == f;
      case PaisNascimento => assert DefaultKeys[1] == f;
      case CidadeNascimento => assert DefaultKeys[2] == f;
      case NomeMae => assert DefaultKeys[3] == f;
      case NomePai => assert DefaultKeys[4] == f;
      case DataBatismo => assert DefaultKeys[5] == f;
      case LocalBatismo => assert DefaultKeys[6] == f;
      case DataIngressoMosteiro => assert DefaultKeys[7] == f;
      case DataProfissaoReligiosa => assert DefaultKeys[8] == f;
      case LocalProfissaoReligiosa => assert DefaultKeys[9] == f;
      case Formacao => assert DefaultKeys[10] == f;
      case MateriaEnsinada => assert DefaultKeys[11] == f;
      case EpisodiosEfemerides => assert DefaultKeys[12] == f;
      case ExerciciosEspirituais => assert DefaultKeys[13] == f;
      case Doencas => assert DefaultKeys[14] == f;
      case DataFalecimento => assert DefaultKeys[15] == f;
      case NomeAbade => assert DefaultKeys[16] == f;
      case Observacoes => assert DefaultKeys[17] == f;
      case ReferenciaManuscrito => assert DefaultKeys[18] == f;
      case ReferenciaEdicao => assert DefaultKeys[19] == f;
    }
  }
}
