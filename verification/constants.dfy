/** The fixed option list of occupations and the layout of the advanced filters. */
module Constants {
  import opened Wrappers
  import opened Schema
  import Text

  /** Occupations offered even when no record uses them. */
  const PredefinedOccupations: seq<string> := [
    "Abade", "Celeireiro ou Ecônomo", "Companheiro ou secretário pessoal do abade",
    "Conventual ou Colegial", "Cronista", "Definidor", "Doutor", "Donato ou Irmão Leigo",
    "Frei", "Jubilado", "Mestre", "Mestre de Noviços", "Noviço", "Padre", "Passante",
    "Postulante", "Pregador", "Pregador geral", "Pregador úrbico ou urbano", "Presidente",
    "Prior", "Procurador", "Provedor", "Provincial", "Religioso", "Reverendo",
    "Secretário geral", "Subprior", "Visitador", "Vogal"]

  /** A free-text date input or a searchable option list. */
  datatype Kind = Select | Date

  datatype FilterField = FilterField(key: Field, caption: string, kind: Kind, placeholder: Option<string>)

  datatype FilterGroup = FilterGroup(title: string, fields: seq<FilterField>)

  const DatePlaceholder: string := "DD/MM/AAAA"

  const FilterGroups: seq<FilterGroup> := [
    FilterGroup("Vida Civil & Origem", [
      FilterField(PaisNascimento, "País Nascimento", Select, None),
      FilterField(CidadeNascimento, "Cidade Nascimento", Select, None),
      FilterField(DataNascimento, "Data Nascimento", Date, Some(DatePlaceholder)),
      FilterField(NomePai, "Nome do Pai", Select, None),
      FilterField(NomeMae, "Nome da Mãe", Select, None),
      FilterField(LocalBatismo, "Local Batismo", Select, None)]),
    FilterGroup("Vida Monástica", [
      FilterField(OcupacaoOficio, "Ocupação/Ofício", Select, None),
      FilterField(DataIngressoMosteiro, "Data Ingresso", Date, Some(DatePlaceholder)),
      FilterField(LocalProfissaoReligiosa, "Local Profissão", Select, None),
      FilterField(DataProfissaoReligiosa, "Data Profissão", Date, Some(DatePlaceholder)),
      FilterField(MateriaEnsinada, "Matéria Ensinada", Select, None)]),
    FilterGroup("Legado & Fim", [
      FilterField(Doencas, "Doenças/Causa Mortis", Select, None),
      FilterField(DataFalecimento, "Data Falecimento", Date, Some(DatePlaceholder))])]

  /** Every filter of every group, in display order. */
  function AllFilters(groups: seq<FilterGroup>): seq<FilterField>
    decreases |groups|
  {
    if |groups| == 0 then [] else groups[0].fields + AllFilters(groups[1..])
  }

  function Keys(fs: seq<FilterField>): seq<Field> {
    seq(|fs|, i requires 0 <= i < |fs| => fs[i].key)
  }

  /** The fields whose values are dates. */
  predicate IsDateField(f: Field) {
    f == DataNascimento || f == DataBatismo || f == DataIngressoMosteiro
    || f == DataProfissaoReligiosa || f == DataFalecimento
  }

  lemma AllFiltersUnfold()
    ensures AllFilters(FilterGroups) == FilterGroups[0].fields + FilterGroups[1].fields + FilterGroups[2].fields
  {
    assert AllFilters(FilterGroups[3..]) == [];
    assert AllFilters(FilterGroups[2..]) == FilterGroups[2].fields;
    assert AllFilters(FilterGroups[1..]) == FilterGroups[1].fields + FilterGroups[2].fields;
  }

  /** Filter keys are distinct across all groups, so each is one entry of the
      active-filter map. */
  lemma FilterKeysDistinct()
    ensures |Keys(AllFilters(FilterGroups))| == 13
    ensures forall i, j :: 0 <= i < j < 13 ==> Keys(AllFilters(FilterGroups))[i] != Keys(AllFilters(FilterGroups))[j]
  {
    AllFiltersUnfold();
  }

  /** A property every filter enjoys: `ocupacao_oficio` is the only list-valued
      key, no filter targets `livros`, `nome` or the assigned keys, every date
      filter is a date field with the `DD/MM/AAAA` placeholder and every other
      filter is an option list without a placeholder. */
  predicate WellFormedFilter(f: FilterField) {
    && (IsList(f.key) <==> f.key == OcupacaoOficio)
    && f.key != Livros && f.key != Nome && !IsAssigned(f.key)
    && (f.kind == Date <==> IsDateField(f.key))
    && (f.kind == Date ==> f.placeholder == Some(DatePlaceholder) && Text.StartsWith(Name(f.key), "data_"))
    && (f.kind == Select ==> f.placeholder == None)
  }

  lemma FiltersWellFormed()
    ensures forall i :: 0 <= i < |AllFilters(FilterGroups)| ==> WellFormedFilter(AllFilters(FilterGroups)[i])
  {
    AllFiltersUnfold();
    var g0 := FilterGroups[0].fields;
    var g1 := FilterGroups[1].fields;
    var g2 := FilterGroups[2].fields;
    GroupWellFormed(0);
    GroupWellFormed(1);
    GroupWellFormed(2);
    forall i | 0 <= i < |g0 + g1 + g2| ensures WellFormedFilter((g0 + g1 + g2)[i]) {
      if i < |g0| {
        assert (g0 + g1 + g2)[i] == g0[i];
      } else if i < |g0| + |g1| {
        assert (g0 + g1 + g2)[i] == g1[i - |g0|];
      } else {
        assert (g0 + g1 + g2)[i] == g2[i - |g0| - |g1|];
      }
    }
  }

  lemma GroupWellFormed(k: nat)
    requires k < |FilterGroups|
    ensures forall i :: 0 <= i < |FilterGroups[k].fields| ==> WellFormedFilter(FilterGroups[k].fields[i])
  {
    var fs := FilterGroups[k].fields;
    forall i | 0 <= i < |fs| ensures WellFormedFilter(fs[i]) {
      FieldWellFormed(fs[i]);
    }
  }

  /** The check of one filter, with the date-name fact it needs. */
  lemma FieldWellFormed(f: FilterField)
    requires (IsList(f.key) <==> f.key == OcupacaoOficio)
    requires f.key != Livros && f.key != Nome && !IsAssigned(f.key)
    requires (f.kind == Date <==> IsDateField(f.key))
    requires f.kind == Date ==> f.placeholder == Some(DatePlaceholder)
    requires f.kind == Select ==> f.placeholder == None
    ensures WellFormedFilter(f)
  {
    if f.kind == Date {
      DateFieldNamed(f.key);
    }
  }

  /** Every date field's column name starts with `data_`. */
  lemma DateFieldNamed(f: Field)
    requires IsDateField(f)
    ensures Text.StartsWith(Name(f), "data_")
  {
    if f == DataNascimento {
      assert Name(f) == "data_nascimento";
    } else if f == DataBatismo {
      assert Name(f) == "data_batismo";
    } else if f == DataIngressoMosteiro {
      assert Name(f) == "data_ingresso_mosteiro";
    } else if f == DataProfissaoReligiosa {
      assert Name(f) == "data_profissao_religiosa";
    } else {
      assert Name(f) == "data_falecimento";
    }
  }
}
