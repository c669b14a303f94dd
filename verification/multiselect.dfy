/** The occupation picker: a tag list with a search box whose dropdown offers the
    options not yet chosen, and lets the user add a new value with Enter or the
    "+ Adicionar" entry. The chosen list lives in the parent form; every change
    of it reaches the picker back through `value`. */
module MultiSelect {
  import opened Text
  import Seqs

  /** The picker's own state together with the list the parent holds for it. */
  datatype Picker = Picker(value: seq<string>, search: string, open: bool)

  /** `handleAdd(item)`: appends `item` unless already chosen. */
  function Add(value: seq<string>, item: string): (r: seq<string>)
    ensures item in r
    ensures item in value ==> r == value
    ensures item !in value ==> r == value + [item]
    ensures forall x :: x in r <==> x in value || x == item
  {
    if item in value then value else value + [item]
  }

  /** `handleRemove(item)`: `value.filter(x => x !== item)`. */
  function Remove(value: seq<string>, item: string): seq<string> {
    Seqs.Keep(value, x => x != item)
  }

  /** Adding never creates a repeated entry. */
  lemma AddKeepsDistinct(value: seq<string>, item: string)
    requires Seqs.NoDuplicates(value)
    ensures Seqs.NoDuplicates(Add(value, item))
  {
  }

  /** Removing drops every copy of the item and keeps the rest in order. */
  lemma RemoveSpec(value: seq<string>, item: string)
    ensures item !in Remove(value, item)
    ensures forall x :: x in Remove(value, item) <==> x in value && x != item
    ensures Seqs.IsSubseq(Remove(value, item), value)
  {
    Seqs.KeepSpec(value, x => x != item);
  }

  /** Removing a value that was just added restores the list. */
  lemma {:induction false} RemoveUndoesAdd(value: seq<string>, item: string)
    requires item !in value
    ensures Remove(Add(value, item), item) == value
    decreases |value|
  {
    if |value| == 0 {
      assert Remove([item], item) == Seqs.Keep([item][1..], x => x != item);
    } else {
      RemoveUndoesAdd(value[1..], item);
      assert (value + [item])[1..] == value[1..] + [item];
    }
  }

  /** `filteredOptions`: the options not yet chosen whose text contains the
      search, ignoring case. */
  function Filtered(options: seq<string>, value: seq<string>, search: string): seq<string> {
    Seqs.Keep(Seqs.Keep(options, opt => opt !in value), opt => ContainsCi(opt, search))
  }

  /** An option is offered exactly when it is not chosen and matches the search;
      the offer keeps the options' order. */
  lemma FilteredSpec(options: seq<string>, value: seq<string>, search: string)
    ensures forall o :: o in Filtered(options, value, search) <==>
      o in options && o !in value && ContainsCi(o, search)
    ensures Seqs.IsSubseq(Filtered(options, value, search), Seqs.Keep(options, opt => opt !in value))
  {
    var unchosen := Seqs.Keep(options, opt => opt !in value);
    Seqs.KeepSpec(options, opt => opt !in value);
    Seqs.KeepSpec(unchosen, opt => ContainsCi(opt, search));
  }

  /** What the user does with the picker. */
  datatype Event =
    | Type(text: string)     // the search input changes
    | Enter                  // Enter in the search input
    | Create                 // the "+ Adicionar" entry
    | Choose(index: nat)     // the `index`-th offered option
    | Untag(item: string)    // the `×` of a tag

  /** The "+ Adicionar" entry shows while the dropdown is open with a search that
      is not itself an offered option. */
  predicate CreateShown(options: seq<string>, p: Picker) {
    p.open && p.search != "" && p.search !in Filtered(options, p.value, p.search)
  }

  /** `handleAdd` as an event handler: the list grows by `item` and the search box
      is cleared and closed. */
  function Added(p: Picker, item: string): Picker {
    Picker(Add(p.value, item), "", false)
  }

  /** One event. Entries that are not on screen cannot be clicked, so such an
      event changes nothing. */
  function Step(options: seq<string>, p: Picker, e: Event): Picker {
    match e
    case Type(text) => p.(search := text, open := true)
    case Enter => if Trim(p.search) != "" then Added(p, Trim(p.search)) else p
    case Create => if CreateShown(options, p) then Added(p, p.search) else p
    case Choose(i) =>
      var offered := Filtered(options, p.value, p.search);
      if p.open && i < |offered| then Added(p, offered[i]) else p
    case Untag(item) => p.(value := Remove(p.value, item))
  }

  /** Enter adds the trimmed search, and only when it is not blank. */
  lemma EnterSpec(options: seq<string>, p: Picker)
    ensures Trim(p.search) == "" ==> Step(options, p, Enter) == p
    ensures Trim(p.search) != "" ==>
      Step(options, p, Enter) == Picker(Add(p.value, Trim(p.search)), "", false)
  {
  }

  /** No event puts a repeated entry in the list; every event but a tag's `×`
      either leaves the list alone or appends one new value, and then clears the
      search box. */
  lemma StepSpec(options: seq<string>, p: Picker, e: Event)
    requires Seqs.NoDuplicates(p.value)
    ensures Seqs.NoDuplicates(Step(options, p, e).value)
    ensures Step(options, p, e).value != p.value ==> e.Untag? || Step(options, p, e).search == ""
    ensures !e.Untag? ==> var v := Step(options, p, e).value;
      v == p.value || (|v| == |p.value| + 1 && v[..|p.value|] == p.value && v[|p.value|] !in p.value)
    ensures e.Type? ==> Step(options, p, e).value == p.value
    ensures ((e.Enter? && Trim(p.search) != "") || (e.Create? && CreateShown(options, p)) ||
      (e.Choose? && p.open && e.index < |Filtered(options, p.value, p.search)|)) ==>
      Step(options, p, e).search == "" && !Step(options, p, e).open
  {
    match e
    case Untag(item) =>
      RemoveSpec(p.value, item);
      RemoveKeepsDistinct(p.value, item);
    case _ =>
  }

  lemma {:induction false} RemoveKeepsDistinct(value: seq<string>, item: string)
    requires Seqs.NoDuplicates(value)
    ensures Seqs.NoDuplicates(Remove(value, item))
    decreases |value|
  {
    if |value| > 0 {
      assert Seqs.NoDuplicates(value[1..]) by {
        forall i, j | 0 <= i < j < |value[1..]| ensures value[1..][i] != value[1..][j] {
          assert value[1..][i] == value[i + 1] && value[1..][j] == value[j + 1];
        }
      }
      RemoveKeepsDistinct(value[1..], item);
      var rest := Remove(value[1..], item);
      Seqs.KeepSpec(value[1..], x => x != item);
      if value[0] != item {
        assert value[0] !in value[1..] by {
          forall k | 0 <= k < |value[1..]| ensures value[1..][k] != value[0] {
            assert value[1..][k] == value[k + 1];
          }
        }
        assert Remove(value, item) == [value[0]] + rest;
        forall i, j | 0 <= i < j < |[value[0]] + rest| ensures ([value[0]] + rest)[i] != ([value[0]] + rest)[j] {
          if i > 0 {
            assert ([value[0]] + rest)[i] == rest[i - 1];
          }
          assert ([value[0]] + rest)[j] == rest[j - 1];
        }
      } else {
        assert Remove(value, item) == rest;
      }
    }
  }

  /** A chosen option is one the dropdown offered: unchosen before, and matching
      the search. */
  lemma ChooseAddsOffered(options: seq<string>, p: Picker, i: nat)
    requires p.open && i < |Filtered(options, p.value, p.search)|
    ensures var o := Filtered(options, p.value, p.search)[i];
      o in options && ContainsCi(o, p.search) &&
      Step(options, p, Choose(i)).value == p.value + [o]
  {
    FilteredSpec(options, p.value, p.search);
    var o := Filtered(options, p.value, p.search)[i];
    assert o in Filtered(options, p.value, p.search);
  }
}
