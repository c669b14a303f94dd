/** The list screen's derived data: quick search, advanced filters, pagination
    and the reset of the current page when the query changes. */
module Query {
  import opened Wrappers
  import opened Schema
  import opened Text
  import Seqs

  /** `activeFilters`: a text value per filtered key. */
  type Filters = map<Field, string>

  /** JavaScript truthiness of a nullable string. */
  predicate Truthy(v: Option<string>) {
    v.Some? && v.value != ""
  }

  /** The city half of the quick search, which guards against null. */
  predicate CityMatches(m: Monk, term: string) {
    Truthy(Cell(m, CidadeNascimento)) && ContainsCi(Cell(m, CidadeNascimento).value, term)
  }

  /** The quick search as written: `None` where `m.nome.toLowerCase()` throws
      because the name is null. */
  function MatchesSearchAsWritten(m: Monk, term: string): Option<bool> {
    if term == "" then Some(true)
    else match Cell(m, Nome)
      case None => None
      case Some(n) => Some(ContainsCi(n, term) || CityMatches(m, term))
  }

  /** The quick search with a null name read as not matching. */
  predicate MatchesSearch(m: Monk, term: string) {
    || term == ""
    || (Cell(m, Nome).Some? && ContainsCi(Cell(m, Nome).value, term))
    || CityMatches(m, term)
  }

  /** The quick search, as written, throws for every non-empty term on a
      record without a name (a record saved with an empty name stores null). */
  lemma NullNameBreaksSearch()
    ensures MatchesSearchAsWritten(Monk(map[Nome := None], [], []), "a") == None
    ensures MatchesSearchAsWritten(Monk(map[], [], []), "a") == None
  {
  }

  /** The corrected search agrees with the code wherever the code does not throw,
      and the code throws exactly on a non-empty term and a null name. */
  lemma SearchAgrees(m: Monk, term: string)
    ensures MatchesSearchAsWritten(m, term).None? <==> term != "" && Cell(m, Nome).None?
    ensures MatchesSearchAsWritten(m, term).Some? ==> MatchesSearchAsWritten(m, term).value == MatchesSearch(m, term)
  {
  }

  /** A record matches a non-empty term exactly when the lower-cased term occurs
      at some position of the lower-cased name or (non-empty) city. */
  lemma SearchMeaning(m: Monk, term: string)
    requires term != ""
    ensures MatchesSearch(m, term) <==>
      || (Cell(m, Nome).Some? && exists i :: OccursAt(Lower(Cell(m, Nome).value), Lower(term), i))
      || (Truthy(Cell(m, CidadeNascimento)) && exists i :: OccursAt(Lower(Cell(m, CidadeNascimento).value), Lower(term), i))
  {
    if Cell(m, Nome).Some? {
      ContainsIffOccurs(Lower(Cell(m, Nome).value), Lower(term));
    }
    if Cell(m, CidadeNascimento).Some? {
      ContainsIffOccurs(Lower(Cell(m, CidadeNascimento).value), Lower(term));
    }
  }

  /** One entry of `activeFilters`: an empty value is inactive, `ocupacao_oficio`
      needs the exact occupation, `livros` (always an array, hence truthy) is
      compared through its comma-joined text, every other key needs a non-empty
      value containing the filter text, ignoring case. */
  predicate PassesFilter(m: Monk, key: Field, value: string) {
    if value == "" then true
    else if key == OcupacaoOficio then value in m.ocupacao
    else if key == Livros then ContainsCi(Join(m.livros, ","), value)
    else Truthy(Cell(m, key)) && ContainsCi(Cell(m, key).value, value)
  }

  predicate MatchesFilters(m: Monk, fs: Filters) {
    forall k :: k in fs ==> PassesFilter(m, k, fs[k])
  }

  predicate Selected(m: Monk, term: string, fs: Filters) {
    MatchesSearch(m, term) && MatchesFilters(m, fs)
  }

  /** `filteredMonks`, with the corrected search. */
  function FilteredMonks(ms: seq<Monk>, term: string, fs: Filters): seq<Monk> {
    Seqs.Keep(ms, m => Selected(m, term, fs))
  }

  /** `filteredMonks` as written: `None` where the render throws. */
  function FilteredMonksAsWritten(ms: seq<Monk>, term: string, fs: Filters): Option<seq<Monk>>
    decreases |ms|
  {
    if |ms| == 0 then Some([])
    else
      var hit :- MatchesSearchAsWritten(ms[0], term);
      var rest :- FilteredMonksAsWritten(ms[1..], term, fs);
      Some(if hit && MatchesFilters(ms[0], fs) then [ms[0]] + rest else rest)
  }

  /** The list as written fails exactly when the term is non-empty and some record
      has a null name; otherwise it is the corrected list. */
  lemma {:induction false} FilteredAgrees(ms: seq<Monk>, term: string, fs: Filters)
    ensures FilteredMonksAsWritten(ms, term, fs).None? <==>
      term != "" && exists i :: 0 <= i < |ms| && Cell(ms[i], Nome).None?
    ensures FilteredMonksAsWritten(ms, term, fs).Some? ==>
      FilteredMonksAsWritten(ms, term, fs).value == FilteredMonks(ms, term, fs)
    decreases |ms|
  {
    if |ms| > 0 {
      FilteredAgrees(ms[1..], term, fs);
      SearchAgrees(ms[0], term);
      if term != "" && Cell(ms[0], Nome).Some? && (exists i :: 0 <= i < |ms| && Cell(ms[i], Nome).None?) {
        var i :| 0 <= i < |ms| && Cell(ms[i], Nome).None?;
        assert ms[1..][i - 1] == ms[i];
      }
      if term != "" && exists i :: 0 <= i < |ms[1..]| && Cell(ms[1..][i], Nome).None? {
        var i :| 0 <= i < |ms[1..]| && Cell(ms[1..][i], Nome).None?;
        assert ms[i + 1] == ms[1..][i];
      }
    }
  }

  /** A record is listed exactly when it is stored and passes the search and every
      filter; the list keeps the stored order. */
  lemma FilteredSpec(ms: seq<Monk>, term: string, fs: Filters)
    ensures forall m :: m in FilteredMonks(ms, term, fs) <==> m in ms && MatchesSearch(m, term) && MatchesFilters(m, fs)
    ensures Seqs.IsSubseq(FilteredMonks(ms, term, fs), ms)
  {
    Seqs.KeepSpec(ms, m => Selected(m, term, fs));
  }

  /** With an empty search and no active filter (the state after "Limpar Filtros"
      with an empty search box), every record is listed. */
  lemma NoQueryListsAll(ms: seq<Monk>, fs: Filters)
    requires forall k :: k in fs ==> fs[k] == ""
    ensures FilteredMonks(ms, "", fs) == ms
  {
    Seqs.KeepAll(ms, m => Selected(m, "", fs));
  }

  /** Setting one more filter can only narrow the list, keeping its order. */
  lemma AddFilterNarrows(ms: seq<Monk>, term: string, fs: Filters, k: Field, v: string)
    requires k !in fs
    ensures Seqs.IsSubseq(FilteredMonks(ms, term, fs[k := v]), FilteredMonks(ms, term, fs))
  {
    forall m | Selected(m, term, fs[k := v]) ensures Selected(m, term, fs) {
      forall k' | k' in fs ensures PassesFilter(m, k', fs[k']) {
        assert fs[k := v][k'] == fs[k'];
      }
    }
    Seqs.KeepStronger(ms, m => Selected(m, term, fs), m => Selected(m, term, fs[k := v]));
  }

  // ---------------------------------------------------------------------------
  // Pagination

  const ItemsPerPage: nat := 10

  /** `Math.ceil(filteredMonks.length / ITEMS_PER_PAGE)`. */
  function TotalPages(n: nat): nat {
    (n + ItemsPerPage - 1) / ItemsPerPage
  }

  /** `filteredMonks.slice((page - 1) * 10, (page - 1) * 10 + 10)`; `slice`
      clamps both ends to the length. */
  function PageOf(xs: seq<Monk>, page: int): (r: seq<Monk>)
    requires page >= 1
  {
    var start := (page - 1) * ItemsPerPage;
    var stop := start + ItemsPerPage;
    if start >= |xs| then [] else xs[start..if stop <= |xs| then stop else |xs|]
  }

  /** The page count is the least number of ten-record pages that hold every record. */
  lemma TotalPagesBounds(n: nat)
    ensures TotalPages(n) * ItemsPerPage >= n
    ensures n > 0 ==> (TotalPages(n) - 1) * ItemsPerPage < n
    ensures TotalPages(n) == 0 <==> n == 0
  {
  }

  /** A page holds the records at offsets `(page-1)*10 …` of the list, in order: ten
      on every page before the last, none past the last. */
  lemma PageSpec(xs: seq<Monk>, page: int)
    requires page >= 1
    ensures |PageOf(xs, page)| <= ItemsPerPage
    ensures forall i :: 0 <= i < |PageOf(xs, page)| ==> PageOf(xs, page)[i] == xs[(page - 1) * ItemsPerPage + i]
    ensures page < TotalPages(|xs|) ==> |PageOf(xs, page)| == ItemsPerPage
    ensures page > TotalPages(|xs|) ==> PageOf(xs, page) == []
    ensures 1 <= page <= TotalPages(|xs|) ==> |PageOf(xs, page)| > 0
  {
    TotalPagesBounds(|xs|);
  }

  /** Pages `1 .. k` laid end to end. */
  function PagesUpTo(xs: seq<Monk>, k: nat): seq<Monk>
    decreases k
  {
    if k == 0 then [] else PagesUpTo(xs, k - 1) + PageOf(xs, k)
  }

  function Min(a: int, b: int): int {
    if a <= b then a else b
  }

  /** Page `k` is the slice between the clamped offsets `(k-1)*10` and `k*10`. */
  lemma PageAsSlice(xs: seq<Monk>, k: nat)
    requires k >= 1
    ensures Min((k - 1) * ItemsPerPage, |xs|) <= Min(k * ItemsPerPage, |xs|)
    ensures PageOf(xs, k) == xs[Min((k - 1) * ItemsPerPage, |xs|)..Min(k * ItemsPerPage, |xs|)]
  {
    assert k * ItemsPerPage == (k - 1) * ItemsPerPage + ItemsPerPage;
  }

  lemma {:induction false} PagesUpToPrefix(xs: seq<Monk>, k: nat)
    ensures PagesUpTo(xs, k) == xs[..Min(k * ItemsPerPage, |xs|)]
    decreases k
  {
    if k > 0 {
      PagesUpToPrefix(xs, k - 1);
      PageAsSlice(xs, k);
      var a := Min((k - 1) * ItemsPerPage, |xs|);
      var b := Min(k * ItemsPerPage, |xs|);
      assert xs[..b] == xs[..a] + xs[a..b];
    }
  }

  /** Reading every page in turn shows each filtered record once, in list order. */
  lemma PagesCoverList(xs: seq<Monk>)
    ensures PagesUpTo(xs, TotalPages(|xs|)) == xs
  {
    PagesUpToPrefix(xs, TotalPages(|xs|));
    TotalPagesBounds(|xs|);
  }

  // ---------------------------------------------------------------------------
  // The query state of the list screen

  datatype ListView = ListView(search: string, filters: Filters, page: int)

  const InitialView: ListView := ListView("", map[], 1)

  /** Typing in the search box.  React skips the update, and so the reset,
      when the text is unchanged. */
  function SetSearch(v: ListView, s: string): (r: ListView)
    ensures r.search == s && r.filters == v.filters
  {
    if s == v.search then v else ListView(s, v.filters, 1)
  }

  /** `updateFilter(key, value)`: a new filter object, so the page resets. */
  function UpdateFilter(v: ListView, k: Field, value: string): (r: ListView)
    ensures r.search == v.search
  {
    ListView(v.search, v.filters[k := value], 1)
  }

  /** "Limpar Filtros": `setActiveFilters({})`. */
  function ClearFilters(v: ListView): (r: ListView)
    ensures r.search == v.search
  {
    ListView(v.search, map[], 1)
  }

  /** `onPageChange`. */
  function GoToPage(v: ListView, page: int): (r: ListView)
    ensures r.search == v.search && r.filters == v.filters
  {
    v.(page := page)
  }

  /** The records the screen shows. */
  function Shown(ms: seq<Monk>, v: ListView): seq<Monk>
    requires v.page >= 1
  {
    PageOf(FilteredMonks(ms, v.search, v.filters), v.page)
  }

  /** Whenever the query changes the screen returns to page one, so it shows the
      first records of the new result; the query is otherwise unaffected. */
  lemma QueryChangeShowsFirstPage(ms: seq<Monk>, v: ListView, s: string, k: Field, value: string)
    requires v.page >= 1
    ensures s != v.search ==> SetSearch(v, s).page == 1 && SetSearch(v, s).search == s
    ensures s == v.search ==> SetSearch(v, s) == v
    ensures UpdateFilter(v, k, value).page == 1
    ensures UpdateFilter(v, k, value).filters == v.filters[k := value]
    ensures ClearFilters(v).page == 1 && ClearFilters(v).filters == map[]
    ensures var xs := FilteredMonks(ms, s, v.filters);
      s != v.search ==> Shown(ms, SetSearch(v, s)) == xs[..if |xs| < ItemsPerPage then |xs| else ItemsPerPage]
    ensures var xs := FilteredMonks(ms, v.search, v.filters[k := value]);
      Shown(ms, UpdateFilter(v, k, value)) == xs[..if |xs| < ItemsPerPage then |xs| else ItemsPerPage]
    ensures var xs := FilteredMonks(ms, v.search, map[]);
      Shown(ms, ClearFilters(v)) == xs[..if |xs| < ItemsPerPage then |xs| else ItemsPerPage]
  {
  }

  /** Clearing the filters leaves only the search in force. */
  lemma ClearedFiltersSearchOnly(ms: seq<Monk>, v: ListView)
    ensures forall m :: m in FilteredMonks(ms, v.search, ClearFilters(v).filters) <==> m in ms && MatchesSearch(m, v.search)
  {
    FilteredSpec(ms, v.search, map[]);
  }
}
