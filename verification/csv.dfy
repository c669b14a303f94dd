/** `handleExportCSV`: the spreadsheet export of the records, one `;`-separated
    line per record, string cells quoted as section 2, rule 7 of RFC 4180 asks
    (an embedded double quote is doubled). */
module Csv {
  import opened Wrappers
  import opened Schema
  import Text

  const Quote: char := '"'
  const Separator: char := ';'
  const Newline: char := '\n'

  /** `'"' + s.replace(/"/g, '""') + '"'`, minus the outer quotes. */
  function DoubleQuotes(s: string): (r: string)
    ensures |r| >= |s|
    decreases |s|
  {
    if |s| == 0 then ""
    else (if s[0] == Quote then [Quote, Quote] else [s[0]]) + DoubleQuotes(s[1..])
  }

  function QuoteCell(s: string): string {
    [Quote] + DoubleQuotes(s) + [Quote]
  }

  /** A cell as a spreadsheet reads it back: empty, or a text. */
  datatype CsvValue = Blank | Text(s: string)

  function EncodeCell(v: CsvValue): string {
    match v
    case Blank => ""
    case Text(s) => QuoteCell(s)
  }

  // ---------------------------------------------------------------------------
  // Reading a line back (section 2 of RFC 4180, with `;` as the separator)

  /** The rest of a quoted field after its opening quote: the field's text and
      what follows the closing quote; `""` stands for one quote. */
  function ParseQuotedTail(t: string): (r: Option<(string, string)>)
    ensures r.Some? ==> |r.value.1| < |t|
    decreases |t|
  {
    if |t| == 0 then None
    else if t[0] == Quote then
      if |t| > 1 && t[1] == Quote then
        match ParseQuotedTail(t[2..])
        case None => None
        case Some((c, rest)) => Some(([Quote] + c, rest))
      else Some(("", t[1..]))
    else
      match ParseQuotedTail(t[1..])
      case None => None
      case Some((c, rest)) => Some(([t[0]] + c, rest))
  }

  /** One field at the start of `s` and the text after it. */
  function ParseField(s: string): (r: Option<(CsvValue, string)>)
    ensures r.Some? ==> |r.value.1| <= |s|
  {
    if |s| == 0 || s[0] == Separator || s[0] == Newline then Some((Blank, s))
    else if s[0] == Quote then
      match ParseQuotedTail(s[1..])
      case None => None
      case Some((c, rest)) => Some((Text(c), rest))
    else None
  }

  /** A record ends at the end of the text or at a line break outside quotes. */
  predicate RecordEnd(rest: string) {
    |rest| == 0 || rest[0] == Newline
  }

  /** The fields of the record at the start of `s`, and the text from its end on. */
  function ParseRecord(s: string): (r: Option<(seq<CsvValue>, string)>)
    ensures r.Some? ==> |r.value.1| <= |s| && RecordEnd(r.value.1)
    decreases |s|
  {
    match ParseField(s)
    case None => None
    case Some((v, rest)) =>
      if RecordEnd(rest) then Some(([v], rest))
      else if rest[0] == Separator then
        match ParseRecord(rest[1..])
        case None => None
        case Some((vs, after)) => Some(([v] + vs, after))
      else None
  }

  /** The fields of a text that holds exactly one record. */
  function ParseLine(s: string): Option<seq<CsvValue>> {
    match ParseRecord(s)
    case Some((vs, rest)) => if |rest| == 0 then Some(vs) else None
    case None => None
  }

  /** The records of a whole text, one per line, where a line break inside a quoted
      field belongs to the field. */
  function ParseDocument(s: string): Option<seq<seq<CsvValue>>>
    decreases |s|
  {
    match ParseRecord(s)
    case None => None
    case Some((vs, rest)) =>
      if |rest| == 0 then Some([vs])
      else
        match ParseDocument(rest[1..])
        case None => None
        case Some(rows) => Some([vs] + rows)
  }

  lemma {:induction false} QuotedRoundTrip(s: string, rest: string)
    requires |rest| == 0 || rest[0] != Quote
    ensures ParseQuotedTail(DoubleQuotes(s) + [Quote] + rest) == Some((s, rest))
    decreases |s|
  {
    var t := DoubleQuotes(s) + [Quote] + rest;
    if |s| == 0 {
      assert t == [Quote] + rest;
      assert t[1..] == rest;
    } else {
      QuotedRoundTrip(s[1..], rest);
      if s[0] == Quote {
        assert t == [Quote, Quote] + (DoubleQuotes(s[1..]) + [Quote] + rest);
        assert t[2..] == DoubleQuotes(s[1..]) + [Quote] + rest;
      } else {
        assert t == [s[0]] + (DoubleQuotes(s[1..]) + [Quote] + rest);
        assert t[1..] == DoubleQuotes(s[1..]) + [Quote] + rest;
      }
      assert [s[0]] + s[1..] == s;
    }
  }

  /** A cell followed by the end of the record or a separator reads back as itself. */
  lemma CellRoundTrip(v: CsvValue, rest: string)
    requires RecordEnd(rest) || rest[0] == Separator
    ensures ParseField(EncodeCell(v) + rest) == Some((v, rest))
  {
    match v
    case Blank =>
      assert EncodeCell(v) + rest == rest;
    case Text(t) =>
      var line := EncodeCell(v) + rest;
      var tail := DoubleQuotes(t) + [Quote] + rest;
      assert line == [Quote] + tail;
      assert line[0] == Quote && line[1..] == tail;
      QuotedRoundTrip(t, rest);
  }

  function EncodeCells(vs: seq<CsvValue>): seq<string> {
    seq(|vs|, i requires 0 <= i < |vs| => EncodeCell(vs[i]))
  }

  /** `cells.join(';')`. */
  function EncodeLine(vs: seq<CsvValue>): string {
    Text.Join(EncodeCells(vs), [Separator])
  }

  /** Every line the export writes splits back into exactly the cells it was made
      of, whatever quotes, separators or line breaks the texts contain, and reading
      stops where the record ends. */
  lemma {:induction false} RecordRoundTrip(vs: seq<CsvValue>, rest: string)
    requires |vs| > 0 && RecordEnd(rest)
    ensures ParseRecord(EncodeLine(vs) + rest) == Some((vs, rest))
    decreases |vs|
  {
    if |vs| == 1 {
      SingleCellRecord(vs, rest);
    } else {
      RecordRoundTrip(vs[1..], rest);
      RecordStep(vs, rest);
    }
  }

  lemma SingleCellRecord(vs: seq<CsvValue>, rest: string)
    requires |vs| == 1 && RecordEnd(rest)
    ensures ParseRecord(EncodeLine(vs) + rest) == Some((vs, rest))
  {
    assert EncodeCells(vs) == [EncodeCell(vs[0])];
    CellRoundTrip(vs[0], rest);
    assert [vs[0]] == vs;
  }

  lemma RecordStep(vs: seq<CsvValue>, rest: string)
    requires |vs| > 1
    requires ParseRecord(EncodeLine(vs[1..]) + rest) == Some((vs[1..], rest))
    ensures ParseRecord(EncodeLine(vs) + rest) == Some((vs, rest))
  {
    var tail := EncodeLine(vs[1..]) + rest;
    EncodeLineRest(vs, rest);
    ParseRecordCons(vs[0], tail, vs[1..], rest);
    assert [vs[0]] + vs[1..] == vs;
  }

  lemma EncodeLineRest(vs: seq<CsvValue>, rest: string)
    requires |vs| > 1
    ensures EncodeLine(vs) + rest == EncodeCell(vs[0]) + ([Separator] + (EncodeLine(vs[1..]) + rest))
  {
    EncodeLineCons(vs);
  }

  /** A line on its own reads back as its cells. */
  lemma LineRoundTrip(vs: seq<CsvValue>)
    requires |vs| > 0
    ensures ParseLine(EncodeLine(vs)) == Some(vs)
  {
    RecordRoundTrip(vs, "");
    assert EncodeLine(vs) + "" == EncodeLine(vs);
  }

  /** A line of several cells is its first cell, a separator and the rest of the line. */
  lemma EncodeLineCons(vs: seq<CsvValue>)
    requires |vs| > 1
    ensures EncodeLine(vs) == EncodeCell(vs[0]) + ([Separator] + EncodeLine(vs[1..]))
  {
    var cells := EncodeCells(vs);
    assert EncodeCells(vs[1..]) == cells[1..];
    assert EncodeLine(vs) == cells[0] + [Separator] + EncodeLine(vs[1..]);
  }

  /** Reading a cell in front of a separator and a record that reads back. */
  lemma ParseRecordCons(v: CsvValue, tail: string, vs: seq<CsvValue>, rest: string)
    requires ParseRecord(tail) == Some((vs, rest))
    ensures ParseRecord(EncodeCell(v) + ([Separator] + tail)) == Some(([v] + vs, rest))
  {
    CellRoundTrip(v, [Separator] + tail);
    assert ([Separator] + tail)[1..] == tail;
  }

  /** The encoded line of every record. */
  function Lines(rows: seq<seq<CsvValue>>): seq<string> {
    seq(|rows|, i requires 0 <= i < |rows| => EncodeLine(rows[i]))
  }

  /** `lines.join('\n')` of the encoded records. */
  function EncodeDocument(rows: seq<seq<CsvValue>>): string {
    Text.Join(Lines(rows), [Newline])
  }

  /** A text of several encoded records reads back as those records, one per line. */
  lemma {:induction false} DocumentRoundTrip(rows: seq<seq<CsvValue>>)
    requires |rows| > 0
    requires forall i :: 0 <= i < |rows| ==> |rows[i]| > 0
    ensures ParseDocument(EncodeDocument(rows)) == Some(rows)
    decreases |rows|
  {
    var lines := Lines(rows);
    if |rows| == 1 {
      RecordRoundTrip(rows[0], "");
      assert EncodeDocument(rows) == EncodeLine(rows[0]) + "";
      assert [rows[0]] == rows;
    } else {
      var tail := EncodeDocument(rows[1..]);
      DocumentRoundTrip(rows[1..]);
      assert lines[1..] == Lines(rows[1..]);
      assert EncodeDocument(rows) == EncodeLine(rows[0]) + ([Newline] + tail);
      RecordRoundTrip(rows[0], [Newline] + tail);
      assert ([Newline] + tail)[1..] == tail;
      assert [rows[0]] + rows[1..] == rows;
    }
  }

  // ---------------------------------------------------------------------------
  // The export

  /** The exported keys: every property of a stored record but `id` and
      `created_at`, in table order. */
  const ExportFields: seq<Field> := [
    Nome, OcupacaoOficio, DataNascimento, PaisNascimento, CidadeNascimento,
    NomeMae, NomePai, DataBatismo, LocalBatismo, DataIngressoMosteiro,
    DataProfissaoReligiosa, LocalProfissaoReligiosa, Formacao, MateriaEnsinada,
    Livros, EpisodiosEfemerides, ExerciciosEspirituais, Doencas, DataFalecimento,
    NomeAbade, Observacoes, ReferenciaManuscrito, ReferenciaEdicao]

  /** The array cell as written: the joined list between quotes, no doubling. */
  function ArrayCellAsWritten(xs: seq<string>): string {
    [Quote] + Text.Join(xs, ", ") + [Quote]
  }

  /** The array cell quoted like every other text. */
  function ArrayCell(xs: seq<string>): string {
    QuoteCell(Text.Join(xs, ", "))
  }

  /** The value a record's cell should read back as. */
  function CellValue(m: Monk, f: Field): CsvValue {
    if f == OcupacaoOficio then Text(Text.Join(m.ocupacao, ", "))
    else if f == Livros then Text(Text.Join(m.livros, ", "))
    else match Cell(m, f)
      case None => Blank
      case Some(s) => Text(s)
  }

  function RowValues(m: Monk): seq<CsvValue> {
    seq(|ExportFields|, i requires 0 <= i < |ExportFields| => CellValue(m, ExportFields[i]))
  }

  /** One record's line, with every text cell quoted. */
  function RowLine(m: Monk): string {
    EncodeLine(RowValues(m))
  }

  /** One record's line as written: list cells go through `ArrayCellAsWritten`. */
  function RowLineAsWritten(m: Monk): string {
    Text.Join(seq(|ExportFields|, i requires 0 <= i < |ExportFields| =>
      var f := ExportFields[i];
      if f == OcupacaoOficio then ArrayCellAsWritten(m.ocupacao)
      else if f == Livros then ArrayCellAsWritten(m.livros)
      else EncodeCell(CellValue(m, f))), [Separator])
  }

  function Names(fs: seq<Field>): seq<string> {
    seq(|fs|, i requires 0 <= i < |fs| => Name(fs[i]))
  }

  const Header: string := Text.Join(Names(ExportFields), [Separator])

  const Bom: string := "\U{FEFF}"
  const SeparatorHint: string := "sep=;\n"

  /** What comes before the records: the byte order mark, the separator hint for
      spreadsheet programs, and the header line. */
  const Preamble: string := Bom + SeparatorHint + Header + "\n"

  /** The cells of every record, in order. */
  function Rows(ms: seq<Monk>): seq<seq<CsvValue>> {
    seq(|ms|, i requires 0 <= i < |ms| => RowValues(ms[i]))
  }

  /** The file contents, or `None` for "Nada para exportar." when there is nothing. */
  function Export(ms: seq<Monk>): (r: Option<string>)
    ensures r.None? <==> |ms| == 0
  {
    if |ms| == 0 then None
    else Some(Preamble + EncodeDocument(Rows(ms)))
  }

  /** The file contents as written, with the list cells of `ArrayCellAsWritten`. */
  function ExportAsWritten(ms: seq<Monk>): (r: Option<string>)
    ensures r.None? <==> |ms| == 0
  {
    if |ms| == 0 then None
    else Some(Preamble + Text.Join(seq(|ms|, i requires 0 <= i < |ms| => RowLineAsWritten(ms[i])), [Newline]))
  }

  /** Every record's line reads back, field by field, as the record's values: the
      text of every non-null column and the `, `-joined lists, a blank for null. */
  lemma RowRoundTrip(m: Monk)
    ensures ParseLine(RowLine(m)) == Some(RowValues(m))
    ensures |RowValues(m)| == 23
    ensures forall i :: 0 <= i < 23 ==> RowValues(m)[i] == CellValue(m, ExportFields[i])
  {
    LineRoundTrip(RowValues(m));
  }

  /** A text without quotes is left alone by the doubling. */
  lemma {:induction false} NoQuoteNoDoubling(s: string)
    requires Quote !in s
    ensures DoubleQuotes(s) == s
    decreases |s|
  {
    if |s| > 0 {
      assert Quote !in s[1..] by {
        assert forall c :: c in s[1..] ==> c in s;
      }
      NoQuoteNoDoubling(s[1..]);
      assert [s[0]] + s[1..] == s;
    }
  }

  /** An as-written list cell that a reader takes back for one field of a whole
      line: a book title holding a double quote ends the field early. */
  lemma QuoteInListBreaksLine()
    ensures ArrayCellAsWritten(["a\"b"]) == "\"a\"b\""
    ensures ParseLine(ArrayCellAsWritten(["a\"b"])) == None
    ensures ParseLine(ArrayCell(["a\"b"])) == Some([Text("a\"b")])
  {
    var s := "\"a\"b\"";
    assert Text.Join(["a\"b"], ", ") == "a\"b";
    assert ArrayCellAsWritten(["a\"b"]) == s;
    assert s[1..] == "a\"b\"";
    assert s[1..][1..] == "\"b\"";
    assert ParseQuotedTail("\"b\"") == Some(("", "b\""));
    assert "a\"b\""[1..] == "\"b\"";
    assert ['a'] + "" == "a";
    assert ParseQuotedTail("a\"b\"") == Some(("a", "b\""));
    assert ParseField(s) == Some((Text("a"), "b\""));
    LineRoundTrip([Text("a\"b")]);
    assert EncodeCells([Text("a\"b")]) == [QuoteCell("a\"b")];
  }

  lemma {:induction false} JoinKeepsOut(xs: seq<string>, sep: string, c: char)
    requires c !in sep
    requires forall i :: 0 <= i < |xs| ==> c !in xs[i]
    ensures c !in Text.Join(xs, sep)
    decreases |xs|
  {
    if |xs| > 1 {
      JoinKeepsOut(xs[1..], sep, c);
    }
  }

  /** Where no list element contains a double quote, the as-written line is the
      corrected one. */
  lemma AsWrittenAgreesWithoutQuotes(m: Monk)
    requires forall i :: 0 <= i < |m.ocupacao| ==> Quote !in m.ocupacao[i]
    requires forall i :: 0 <= i < |m.livros| ==> Quote !in m.livros[i]
    ensures RowLineAsWritten(m) == RowLine(m)
  {
    ArrayCellAgrees(m.ocupacao);
    ArrayCellAgrees(m.livros);
    var written := seq(|ExportFields|, i requires 0 <= i < |ExportFields| =>
      var f := ExportFields[i];
      if f == OcupacaoOficio then ArrayCellAsWritten(m.ocupacao)
      else if f == Livros then ArrayCellAsWritten(m.livros)
      else EncodeCell(CellValue(m, f)));
    var cells := EncodeCells(RowValues(m));
    assert |written| == |cells|;
    forall i | 0 <= i < |cells| ensures written[i] == cells[i] {
      assert cells[i] == EncodeCell(CellValue(m, ExportFields[i]));
    }
    assert written == cells;
  }

  /** Without a double quote in any element, both array cells are the same text. */
  lemma ArrayCellAgrees(xs: seq<string>)
    requires forall i :: 0 <= i < |xs| ==> Quote !in xs[i]
    ensures ArrayCellAsWritten(xs) == EncodeCell(Text(Text.Join(xs, ", ")))
  {
    JoinKeepsOut(xs, ", ", Quote);
    NoQuoteNoDoubling(Text.Join(xs, ", "));
  }

  /** The file starts with the byte order mark, the separator hint and the header
      naming the 23 exported columns, and the rest reads back as one line per
      record, in order, each holding that record's cells; nothing is exported for
      an empty list. */
  lemma ExportSpec(ms: seq<Monk>)
    ensures Export(ms).None? <==> |ms| == 0
    ensures Export(ms).Some? ==> Text.StartsWith(Export(ms).value, Preamble)
    ensures Export(ms).Some? ==>
      var rows := ParseDocument(Export(ms).value[|Preamble|..]);
      && rows.Some? && |rows.value| == |ms|
      && forall i :: 0 <= i < |ms| ==> rows.value[i] == RowValues(ms[i])
    ensures |Names(ExportFields)| == 23
    ensures forall i :: 0 <= i < 23 ==> Names(ExportFields)[i] != "id" && Names(ExportFields)[i] != "created_at"
  {
    if |ms| > 0 {
      var doc := EncodeDocument(Rows(ms));
      assert Export(ms).value[..|Preamble|] == Preamble;
      assert Export(ms).value[|Preamble|..] == doc;
      forall i | 0 <= i < |ms| ensures |Rows(ms)[i]| > 0 {
        RowRoundTrip(ms[i]);
      }
      DocumentRoundTrip(Rows(ms));
    }
  }

  /** Where no list element of any record holds a double quote, the file as written
      is the corrected one. */
  lemma ExportAgreesWithoutQuotes(ms: seq<Monk>)
    requires forall i, k :: 0 <= i < |ms| && 0 <= k < |ms[i].ocupacao| ==> Quote !in ms[i].ocupacao[k]
    requires forall i, k :: 0 <= i < |ms| && 0 <= k < |ms[i].livros| ==> Quote !in ms[i].livros[k]
    ensures ExportAsWritten(ms) == Export(ms)
  {
    if |ms| > 0 {
      var written := seq(|ms|, i requires 0 <= i < |ms| => RowLineAsWritten(ms[i]));
      var lines := Lines(Rows(ms));
      forall i | 0 <= i < |ms| ensures written[i] == lines[i] {
        AsWrittenAgreesWithoutQuotes(ms[i]);
        assert Rows(ms)[i] == RowValues(ms[i]);
      }
      assert written == lines;
    }
  }
}
