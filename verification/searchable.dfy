/** The single-value picker of the advanced filters: a search box over a list of
    options that reports the chosen value, or `''` for "no filter", to its
    parent. */
module SearchableSelect {
  import opened Wrappers
  import opened Text
  import Seqs

  /** `filteredOptions`: the options whose text contains the search, ignoring case. */
  function Filtered(options: seq<string>, search: string): seq<string> {
    Seqs.Keep(options, opt => ContainsCi(opt, search))
  }

  /** The offer keeps the options' order and holds exactly the matching ones. */
  lemma FilteredSpec(options: seq<string>, search: string)
    ensures forall o :: o in Filtered(options, search) <==> o in options && ContainsCi(o, search)
    ensures Seqs.IsSubseq(Filtered(options, search), options)
  {
    Seqs.KeepSpec(options, opt => ContainsCi(opt, search));
  }

  /** An empty search offers every option. */
  lemma EmptySearchOffersAll(options: seq<string>)
    ensures Filtered(options, "") == options
  {
    forall o | o in options ensures ContainsCi(o, "") {
      ContainsEmpty(Lower(o));
    }
    Seqs.KeepAll(options, opt => ContainsCi(opt, ""));
  }

  /** The search box and whether its dropdown is open. */
  datatype Picker = Picker(search: string, open: bool)

  datatype Event =
    | Focus                  // a click on or focus of the input
    | Type(text: string)     // the input changes
    | Clear                  // "Limpar seleção"
    | Choose(index: nat)     // the `index`-th offered option

  /** The picker after an event, and the value it reports through `onChange`, if
      any. Entries that are not on screen cannot be clicked. */
  function Step(options: seq<string>, p: Picker, e: Event): (Picker, Option<string>) {
    match e
    case Focus => (p.(open := true), None)
    case Type(text) => (Picker(text, true), if text == "" then Some("") else None)
    case Clear => if p.open then (Picker("", false), Some("")) else (p, None)
    case Choose(i) =>
      var offered := Filtered(options, p.search);
      if p.open && i < |offered| then (Picker("", false), Some(offered[i])) else (p, None)
  }

  /** What the input shows: the search while open, the current value otherwise. */
  function Shown(p: Picker, value: string): string {
    if p.open then p.search else value
  }

  /** The picker reports `''` exactly when the input is emptied or the selection
      cleared, and otherwise only an option that matched the search; whenever it
      reports, the search box is left empty or holds what was typed. */
  lemma StepSpec(options: seq<string>, p: Picker, e: Event)
    ensures var (q, out) := Step(options, p, e);
      (out == Some("") <==> ((e.Type? && e.text == "") || (e.Clear? && p.open) ||
        (e.Choose? && p.open && e.index < |Filtered(options, p.search)| && Filtered(options, p.search)[e.index] == ""))) &&
      (out.Some? && e.Choose? ==> out.value in options && ContainsCi(out.value, p.search)) &&
      (out.Some? ==> q.search == "" && (e.Type? || !q.open)) &&
      (e.Type? ==> q.open && q.search == e.text)
  {
    if e.Choose? && p.open && e.index < |Filtered(options, p.search)| {
      FilteredSpec(options, p.search);
      assert Filtered(options, p.search)[e.index] in Filtered(options, p.search);
    }
  }

  /** Choosing the `i`-th offered option reports exactly that option. */
  lemma ChooseReportsOption(options: seq<string>, p: Picker, i: nat)
    requires p.open && i < |Filtered(options, p.search)|
    ensures Step(options, p, Choose(i)).1 == Some(Filtered(options, p.search)[i])
    ensures Shown(Step(options, p, Choose(i)).0, Filtered(options, p.search)[i]) == Filtered(options, p.search)[i]
  {
  }
}
