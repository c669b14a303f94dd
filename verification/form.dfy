/** The record form: the date mask of its date inputs, the values it starts
    from, the book list it edits as `{value}` entries, and what it submits. */
module Form {
  import opened Wrappers
  import opened Schema
  import opened Text
  import Store

  // ---------------------------------------------------------------------------
  // maskDate, one regular-expression replacement at a time

  /** `replace(/\D/g, '')`: the digits of `s`, in order. */
  function OnlyDigits(s: string): (r: string)
    ensures forall i :: 0 <= i < |r| ==> IsDigit(r[i])
    ensures |r| <= |s|
    decreases |s|
  {
    if |s| == 0 then ""
    else (if IsDigit(s[0]) then [s[0]] else []) + OnlyDigits(s[1..])
  }

  predicate AllDigits(s: string) {
    forall i :: 0 <= i < |s| ==> IsDigit(s[i])
  }

  /** `/(\d{2})(\d)/` matches at `p`: three digits in a row. */
  predicate TripleAt(s: string, p: int) {
    0 <= p && p + 3 <= |s| && IsDigit(s[p]) && IsDigit(s[p + 1]) && IsDigit(s[p + 2])
  }

  /** The leftmost match of `/(\d{2})(\d)/` at or after `from`. */
  function FirstTriple(s: string, from: nat): (r: Option<nat>)
    ensures r.Some? ==> from <= r.value && TripleAt(s, r.value)
    ensures forall q :: from <= q && (r.None? || q < r.value) ==> !TripleAt(s, q)
    decreases |s| - from
  {
    if from + 3 > |s| then None
    else if TripleAt(s, from) then Some(from)
    else FirstTriple(s, from + 1)
  }

  /** `replace(/(\d{2})(\d)/, '$1/$2')`: a slash after the first two digits of the
      first run of three. */
  function SlashAfterPair(s: string): string {
    match FirstTriple(s, 0)
    case None => s
    case Some(p) => s[..p + 2] + "/" + s[p + 2..]
  }

  /** `/(\d{4})\d+?$/` matches at `p`: five or more digits running to the end. */
  predicate YearTailAt(s: string, p: int) {
    0 <= p && p + 5 <= |s| && forall k :: p <= k < |s| ==> IsDigit(s[k])
  }

  /** The leftmost match of `/(\d{4})\d+?$/` at or after `from`. */
  function FirstYearTail(s: string, from: nat): (r: Option<nat>)
    ensures r.Some? ==> from <= r.value && YearTailAt(s, r.value)
    ensures forall q :: from <= q && (r.None? || q < r.value) ==> !YearTailAt(s, q)
    decreases |s| - from
  {
    if from + 5 > |s| then None
    else if YearTailAt(s, from) then Some(from)
    else FirstYearTail(s, from + 1)
  }

  /** `replace(/(\d{4})\d+?$/, '$1')`: a trailing run of five or more digits is
      cut to its first four. */
  function CutYear(s: string): string {
    match FirstYearTail(s, 0)
    case None => s
    case Some(p) => s[..p + 4]
  }

  /** `maskDate(value)`. */
  function MaskDate(v: string): string {
    CutYear(SlashAfterPair(SlashAfterPair(OnlyDigits(v))))
  }

  /** The shape `DD/MM/AAAA` filled from the digits `d`: slashes after the second
      and fourth digit once a digit follows them, at most eight digits. */
  function DateShape(d: string): string {
    if |d| <= 2 then d
    else if |d| <= 4 then d[..2] + "/" + d[2..]
    else if |d| <= 8 then d[..2] + "/" + d[2..4] + "/" + d[4..]
    else d[..2] + "/" + d[2..4] + "/" + d[4..8]
  }

  /** The first replacement on a string of digits. */
  lemma FirstSlash(d: string)
    requires AllDigits(d)
    ensures SlashAfterPair(d) == if |d| <= 2 then d else d[..2] + "/" + d[2..]
  {
    if |d| >= 3 {
      assert TripleAt(d, 0);
    }
  }

  /** The second replacement, after the first has put a slash at index 2. */
  lemma SecondSlash(d: string)
    requires AllDigits(d) && |d| >= 3
    ensures SlashAfterPair(d[..2] + "/" + d[2..]) ==
      if |d| <= 4 then d[..2] + "/" + d[2..] else d[..2] + "/" + d[2..4] + "/" + d[4..]
  {
    var s := d[..2] + "/" + d[2..];
    assert s[2] == '/';
    assert !TripleAt(s, 0) && !TripleAt(s, 1) && !TripleAt(s, 2);
    if |d| >= 5 {
      assert s[3] == d[2] && s[4] == d[3] && s[5] == d[4];
      assert TripleAt(s, 3);
      assert s[..5] == d[..2] + "/" + d[2..4];
      assert s[5..] == d[4..];
    }
  }

  /** The year cut, after both slashes are in place. */
  lemma YearCut(d: string)
    requires AllDigits(d) && |d| >= 5
    ensures CutYear(d[..2] + "/" + d[2..4] + "/" + d[4..]) ==
      if |d| <= 8 then d[..2] + "/" + d[2..4] + "/" + d[4..] else d[..2] + "/" + d[2..4] + "/" + d[4..8]
  {
    var s := d[..2] + "/" + d[2..4] + "/" + d[4..];
    assert s[2] == '/' && s[5] == '/';
    forall q | 0 <= q <= 5 ensures !YearTailAt(s, q) {
      if q <= 2 {
        assert !IsDigit(s[2]);
      } else {
        assert !IsDigit(s[5]);
      }
    }
    if |d| >= 9 {
      forall k | 6 <= k < |s| ensures IsDigit(s[k]) {
        assert s[k] == d[k - 2];
      }
      assert YearTailAt(s, 6);
      assert s[..10] == d[..2] + "/" + d[2..4] + "/" + d[4..8];
    }
  }

  /** A string too short for a year cut keeps its length after the cut. */
  lemma ShortNoCut(s: string)
    requires |s| <= 5 && (|s| >= 3 ==> s[2] == '/')
    ensures CutYear(s) == s
  {
    if |s| == 5 {
      assert !YearTailAt(s, 0);
    }
  }

  /** The three replacements after the first fill the date shape from the digits. */
  lemma MaskDateShape(v: string)
    ensures MaskDate(v) == DateShape(OnlyDigits(v))
  {
    var d := OnlyDigits(v);
    FirstSlash(d);
    if |d| <= 2 {
      ShortNoCut(d);
    } else {
      SecondSlash(d);
      if |d| <= 4 {
        ShortNoCut(d[..2] + "/" + d[2..]);
      } else {
        YearCut(d);
      }
    }
  }

  lemma {:induction false} OnlyDigitsAppend(a: string, b: string)
    ensures OnlyDigits(a + b) == OnlyDigits(a) + OnlyDigits(b)
    decreases |a|
  {
    if |a| > 0 {
      OnlyDigitsAppend(a[1..], b);
      assert (a + b)[1..] == a[1..] + b;
    } else {
      assert a + b == b;
    }
  }

  lemma {:induction false} OnlyDigitsKeeps(d: string)
    requires AllDigits(d)
    ensures OnlyDigits(d) == d
    decreases |d|
  {
    if |d| > 0 {
      OnlyDigitsKeeps(d[1..]);
      assert d == [d[0]] + d[1..];
    }
  }

  lemma OnlyDigitsSlash()
    ensures OnlyDigits("/") == ""
  {
    assert "/"[1..] == "";
  }

  /** The shape predicate of the mask's output for `n` digits: digits, and
      slashes exactly at index 2 from the third digit on and at index 5 from the
      fifth digit on. */
  predicate Slashed(r: string, n: nat) {
    forall i :: 0 <= i < |r| ==> (IsDigit(r[i]) || r[i] == '/') && (r[i] == '/' <==> (i == 2 && n >= 3) || (i == 5 && n >= 5))
  }

  lemma ShapeShort(d: string)
    requires AllDigits(d) && 3 <= |d| <= 4
    ensures Slashed(DateShape(d), |d|)
  {
    var r := DateShape(d);
    assert r == d[..2] + "/" + d[2..];
    forall i | 0 <= i < |r| ensures (IsDigit(r[i]) || r[i] == '/') && (r[i] == '/' <==> i == 2) {
      if i < 2 {
        assert r[i] == d[i];
      } else if i > 2 {
        assert r[i] == d[i - 1];
      }
    }
  }

  lemma ShapeLong(d: string)
    requires AllDigits(d) && 5 <= |d|
    ensures Slashed(DateShape(d), |d|)
  {
    var r := DateShape(d);
    var y := if |d| <= 8 then d[4..] else d[4..8];
    assert r == d[..2] + "/" + d[2..4] + "/" + y;
    forall i | 0 <= i < |r| ensures (IsDigit(r[i]) || r[i] == '/') && (r[i] == '/' <==> i == 2 || i == 5) {
      if i < 2 {
        assert r[i] == d[i];
      } else if 2 < i < 5 {
        assert r[i] == d[i - 1];
      } else if i > 5 {
        assert r[i] == y[i - 6] == d[i - 2];
      }
    }
  }

  /** Every output character is a digit or a slash, there are at most ten, and
      slashes stand exactly at index 2 (from the third digit on) and index 5
      (from the fifth digit on). */
  lemma MaskDateSpec(v: string)
    ensures |MaskDate(v)| <= 10
    ensures Slashed(MaskDate(v), |OnlyDigits(v)|)
  {
    MaskDateShape(v);
    var d := OnlyDigits(v);
    if |d| >= 5 {
      ShapeLong(d);
    } else if |d| >= 3 {
      ShapeShort(d);
    }
  }

  /** The digits of the filled shape are the first eight digits. */
  lemma ShapeDigits(d: string)
    requires AllDigits(d)
    ensures OnlyDigits(DateShape(d)) == if |d| <= 8 then d else d[..8]
  {
    if |d| <= 2 {
      OnlyDigitsKeeps(d);
    } else if |d| <= 4 {
      DigitsSlice(d, 0, 2);
      DigitsSlice(d, 2, |d|);
      OnlyDigitsKeeps(d[..2]);
      OnlyDigitsSlashed(d[..2], d[2..]);
      assert d[..2] + d[2..] == d;
    } else {
      var y := if |d| <= 8 then d[4..] else d[4..8];
      DigitsSlice(d, 0, 2);
      DigitsSlice(d, 2, 4);
      DigitsSlice(d, 4, if |d| <= 8 then |d| else 8);
      OnlyDigitsKeeps(d[..2]);
      OnlyDigitsSlashed(d[..2], d[2..4]);
      OnlyDigitsSlashed(d[..2] + "/" + d[2..4], y);
      assert DateShape(d) == d[..2] + "/" + d[2..4] + "/" + y;
      assert d[..2] + d[2..4] + y == if |d| <= 8 then d else d[..8];
    }
  }

  lemma DigitsSlice(d: string, i: int, j: int)
    requires AllDigits(d) && 0 <= i <= j <= |d|
    ensures AllDigits(d[i..j])
  {
    forall k | 0 <= k < j - i ensures IsDigit(d[i..j][k]) {
      assert d[i..j][k] == d[i + k];
    }
  }

  /** Dropping the non-digits of `x/y` joins the two parts. */
  lemma OnlyDigitsSlashed(x: string, y: string)
    requires AllDigits(y)
    ensures OnlyDigits(x + "/" + y) == OnlyDigits(x) + y
  {
    OnlyDigitsSlash();
    OnlyDigitsAppend(x + "/", y);
    OnlyDigitsAppend(x, "/");
    OnlyDigitsKeeps(y);
  }

  /** The mask keeps the first eight digits of the input, in order, and drops
      everything else. */
  lemma MaskDateDigits(v: string)
    ensures var d := OnlyDigits(v);
      OnlyDigits(MaskDate(v)) == if |d| <= 8 then d else d[..8]
  {
    MaskDateShape(v);
    ShapeDigits(OnlyDigits(v));
  }

  /** Masking a masked date changes nothing. */
  lemma MaskDateIdempotent(v: string)
    ensures MaskDate(MaskDate(v)) == MaskDate(v)
  {
    var d := OnlyDigits(v);
    var m := MaskDate(v);
    MaskDateShape(v);
    MaskDateShape(m);
    MaskDateDigits(v);
    ShapeTruncate(d);
  }

  /** Only the first eight digits matter to the shape. */
  lemma ShapeTruncate(d: string)
    ensures DateShape(if |d| <= 8 then d else d[..8]) == DateShape(d)
  {
    if |d| > 8 {
      var e := d[..8];
      assert e[..2] == d[..2] && e[2..4] == d[2..4] && e[4..] == d[4..8];
    }
  }

  // ---------------------------------------------------------------------------
  // The book list as form entries

  /** One `{ value }` entry of the `livros` field array. */
  datatype BookEntry = BookEntry(value: string)

  /** `livros.map((l) => ({ value: l }))`. */
  function Wrap(ls: seq<string>): (r: seq<BookEntry>)
    ensures |r| == |ls|
    decreases |ls|
  {
    if |ls| == 0 then [] else [BookEntry(ls[0])] + Wrap(ls[1..])
  }

  /** `livros.map((item) => item.value)`. */
  function Unwrap(es: seq<BookEntry>): (r: seq<string>)
    ensures |r| == |es|
    decreases |es|
  {
    if |es| == 0 then [] else [es[0].value] + Unwrap(es[1..])
  }

  /** Wrapping a book list and unwrapping it on submit gives the list back. */
  lemma {:induction false} UnwrapWrap(ls: seq<string>)
    ensures Unwrap(Wrap(ls)) == ls
    decreases |ls|
  {
    if |ls| > 0 {
      UnwrapWrap(ls[1..]);
      assert Wrap(ls)[1..] == Wrap(ls[1..]);
    }
  }

  /** And every entry list is the wrapping of its values. */
  lemma {:induction false} WrapUnwrap(es: seq<BookEntry>)
    ensures Wrap(Unwrap(es)) == es
    decreases |es|
  {
    if |es| > 0 {
      WrapUnwrap(es[1..]);
      assert Unwrap(es)[1..] == Unwrap(es[1..]);
    }
  }

  lemma {:induction false} UnwrapAppend(es: seq<BookEntry>, e: BookEntry)
    ensures Unwrap(es + [e]) == Unwrap(es) + [e.value]
    decreases |es|
  {
    if |es| > 0 {
      UnwrapAppend(es[1..], e);
      assert (es + [e])[1..] == es[1..] + [e];
    }
  }

  // ---------------------------------------------------------------------------
  // Form values

  /** The values the form edits: the record's scalars, the occupation list and the
      book entries. */
  datatype FormValues = FormValues(cells: map<Field, Option<string>>, ocupacao: seq<string>, livros: seq<BookEntry>)

  /** `defaultValues`: the record being edited, if any, with `nome` made a string
      (`|| ''`) and the books wrapped. */
  function DefaultValues(initial: Option<Monk>): (v: FormValues)
    ensures initial.None? ==> v.cells == map[Nome := Some("")] && v.ocupacao == [] && v.livros == []
    ensures initial.Some? ==> v.ocupacao == initial.value.ocupacao && Unwrap(v.livros) == initial.value.livros
    ensures Nome in v.cells && v.cells[Nome].Some?
    ensures forall f :: f != Nome ==> (f in v.cells <==> initial.Some? && f in initial.value.cells)
  {
    match initial
    case None => FormValues(map[Nome := Some("")], [], [])
    case Some(m) =>
      var nome := Cell(m, Nome);
      UnwrapWrap(m.livros);
      FormValues(m.cells[Nome := Some(if nome.Some? then nome.value else "")], m.ocupacao, Wrap(m.livros))
  }

  /** The three tabs of the form. Only the first one mounts the `nome` input. */
  datatype Tab = VidaOrigem | VidaMonastica | LegadoFim

  /** The `required` rule on `nome` is satisfied: the value is non-empty. */
  predicate NameGiven(v: FormValues) {
    Nome in v.cells && v.cells[Nome].Some? && v.cells[Nome].value != ""
  }

  /** `handleSubmit(onFormSubmit)` pressed while `tab` is shown: the record handed to
      the parent, with the book entries unwrapped, or nothing when validation blocks
      the submission. The `required` rule is checked only while its input is
      mounted, that is on the first tab; from the other tabs the values are handed
      on whatever `nome` holds. */
  function Submit(v: FormValues, tab: Tab): (r: Option<Monk>)
    ensures r.None? <==> tab == VidaOrigem && !NameGiven(v)
    ensures r.Some? ==> r.value.cells == v.cells && r.value.ocupacao == v.ocupacao && r.value.livros == Unwrap(v.livros)
    ensures r.Some? && tab == VidaOrigem ==> Cell(r.value, Nome).Some? && Cell(r.value, Nome).value != ""
  {
    if tab == VidaOrigem && !NameGiven(v) then None else Some(Monk(v.cells, v.ocupacao, Unwrap(v.livros)))
  }

  /** Opening a record with a name in the form and submitting it unchanged hands
      back the very same record, from any tab. */
  lemma EditRoundTrip(m: Monk, tab: Tab)
    requires Cell(m, Nome).Some? && Cell(m, Nome).value != ""
    ensures Submit(DefaultValues(Some(m)), tab) == Some(m)
  {
    UnwrapWrap(m.livros);
    assert m.cells[Nome := Cell(m, Nome)] == m.cells;
  }

  /** On the first tab a fresh form cannot be submitted before a name is typed. */
  lemma NewFormNeedsName()
    ensures Submit(DefaultValues(None), VidaOrigem) == None
  {
  }

  /** From the other two tabs a fresh form is submitted with an empty `nome`. */
  lemma NewFormOtherTabEmptyName(tab: Tab)
    requires tab != VidaOrigem
    ensures Submit(DefaultValues(None), tab).Some?
    ensures Cell(Submit(DefaultValues(None), tab).value, Nome) == Some("")
  {
  }

  /** Saving that record as a new one stores it with a null `nome`: the store turns
      the empty string into null. */
  lemma NamelessSaveStoresNull(db: Store.Db, tab: Tab, uuid: string, now: string)
    requires tab != VidaOrigem && uuid != ""
    requires Store.Target(db).Success? && uuid !in Store.Target(db).value
    ensures var m := Submit(DefaultValues(None), tab).value;
      && Store.Save(db, None, m, uuid, now).Success?
      && uuid in Store.Save(db, None, m, uuid, now).value.file.value
      && Store.Save(db, None, m, uuid, now).value.file.value[uuid].cells[Nome] == None
  {
    NewFormOtherTabEmptyName(tab);
    Store.NewWithEmptyName(db, Submit(DefaultValues(None), tab).value, uuid, now);
  }

  // ---------------------------------------------------------------------------
  // Adding and removing books

  /** `handleAddLivro`: the trimmed input is appended and the input cleared, unless
      it is blank, in which case nothing changes. */
  function AddBook(es: seq<BookEntry>, input: string): (r: (seq<BookEntry>, string))
    ensures Trim(input) == "" ==> r == (es, input)
    ensures Trim(input) != "" ==> Unwrap(r.0) == Unwrap(es) + [Trim(input)] && r.1 == ""
  {
    var t := Trim(input);
    if t != "" then
      UnwrapAppend(es, BookEntry(t));
      (es + [BookEntry(t)], "")
    else (es, input)
  }

  /** A book added this way never starts or ends with whitespace. */
  lemma AddedBookTrimmed(es: seq<BookEntry>, input: string)
    requires Trim(input) != ""
    ensures var b := AddBook(es, input).0[|es|].value;
      |b| > 0 && !IsJsSpace(b[0]) && !IsJsSpace(b[|b| - 1])
  {
    TrimSpec(input);
  }

  /** The `x` button of entry `i`: `remove(index)`. */
  function RemoveBook(es: seq<BookEntry>, i: nat): (r: seq<BookEntry>)
    ensures i < |es| ==> |r| == |es| - 1 && (forall k :: 0 <= k < |r| ==> r[k] == if k < i then es[k] else es[k + 1])
    ensures i >= |es| ==> r == es
  {
    if i < |es| then es[..i] + es[i + 1..] else es
  }

  /** Removing the book just added restores the list. */
  lemma AddThenRemoveBook(es: seq<BookEntry>, input: string)
    requires Trim(input) != ""
    ensures RemoveBook(AddBook(es, input).0, |es|) == es
  {
    assert (es + [BookEntry(Trim(input))])[..|es|] == es;
  }
}
