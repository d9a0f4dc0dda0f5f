/**
 * `getDataFromHTML`: the lookup service's answer page becomes either an
 * error (the red banner, or no results table) or the table's rows, each
 * row an ordered map from column name to cell text.
 *
 * The HTML itself is not parsed here: a `Document` is what the page's CSS
 * selectors yield, taken as given.
 */
module ResultPage {
  import opened Wrappers
  import opened JsText
  import opened JsObject

  /** The parts of the page that `getDataFromHTML` selects, with their raw text. */
  datatype Document = Document(
    alertText: string,           // the text of every `.alert-danger` element, concatenated
    hasTable: bool,              // some element matches `table#example`
    headerTexts: seq<string>,    // the text of each `table#example thead tr th`
    bodyRows: seq<seq<string>>)  // the text of each `td` of each `table#example tbody tr`

  /** A row object: column name to cell text, in insertion order. */
  type Row = Props<string, string>

  /** The object `getDataFromHTML` returns (the two error objects and the success object). */
  datatype ParseResult =
    | Error(message: string)
    | Success(totalRegistros: nat, datos: seq<Row>, fechaConsulta: string)

  const TableMissing: string := "No se encontró la tabla de resultados"

  const FallbackPrefix: string := "columna"

  function DigitChar(d: nat): (c: char)
    requires d < 10
    ensures '0' <= c <= '9'
  {
    "0123456789"[d]
  }

  /** The decimal numeral of `n`, as a template literal prints it. */
  function NatToString(n: nat): (s: string)
    ensures |s| >= 1
    ensures n >= 10 ==> |s| >= 2
    ensures forall i :: 0 <= i < |s| ==> '0' <= s[i] <= '9'
  {
    if n < 10 then [DigitChar(n)] else NatToString(n / 10) + [DigitChar(n % 10)]
  }

  lemma {:induction false} NatToStringInjective(n: nat, m: nat)
    requires NatToString(n) == NatToString(m)
    ensures n == m
    decreases n
  {
    var s := NatToString(n);
    if n >= 10 && m >= 10 {
      assert NatToString(n / 10) == s[..|s| - 1] == NatToString(m / 10);
      NatToStringInjective(n / 10, m / 10);
      assert "0123456789"[n % 10] == s[|s| - 1] == "0123456789"[m % 10];
    } else if n < 10 && m < 10 {
      assert "0123456789"[n] == s[0] == "0123456789"[m];
    }
  }

  /** The key `columna{i}` used for cell `i` when its header is missing or empty. */
  function FallbackKey(i: nat): string
  {
    FallbackPrefix + NatToString(i)
  }

  /** Distinct positions have distinct fallback keys. */
  lemma FallbackKeyInjective(i: nat, j: nat)
    requires FallbackKey(i) == FallbackKey(j)
    ensures i == j
  {
    assert NatToString(i) == FallbackKey(i)[|FallbackPrefix|..];
    assert NatToString(j) == FallbackKey(j)[|FallbackPrefix|..];
    NatToStringInjective(i, j);
  }

  /** `headers[i] || \`columna${i}\``: an absent or empty header falls back. */
  function ColumnKey(headers: seq<string>, i: nat): (k: string)
    ensures k != ""
    ensures i < |headers| && headers[i] != "" ==> k == headers[i]
    ensures i >= |headers| || headers[i] == "" ==> k == FallbackKey(i)
  {
    if i < |headers| && headers[i] != "" then headers[i] else FallbackKey(i)
  }

  /** The keys cells `0 .. n-1` are stored under, one per cell. */
  function ColumnKeys(headers: seq<string>, n: nat): (ks: seq<string>)
    ensures |ks| == n && forall i :: 0 <= i < n ==> ks[i] == ColumnKey(headers, i)
  {
    seq(n, i requires 0 <= i < n => ColumnKey(headers, i))
  }

  /** The trimmed texts, one per element (`.map((i, el) => $(el).text().trim())`). */
  function TrimAll(texts: seq<string>): (r: seq<string>)
    ensures |r| == |texts|
  {
    seq(|texts|, i requires 0 <= i < |texts| => Trim(texts[i]))
  }

  /** The row object built from the trimmed cell texts `values`, each assigned under its column key, left to right. */
  function BuildRow(headers: seq<string>, values: seq<string>): Row
  {
    Assign(ColumnKeys(headers, |values|), values)
  }

  /** The result of `getDataFromHTML(html)` for the page `doc`, parsed at time `now`. */
  function Parse(doc: Document, now: string): (r: ParseResult)
    ensures r.Error? ==> r.message != ""
    ensures r.Success? ==> r.totalRegistros == |r.datos| && r.fechaConsulta == now
  {
    var banner := Trim(doc.alertText);
    if banner != "" then Error(banner)
    else if !doc.hasTable then Error(TableMissing)
    else
      var rows := TableRows(TrimAll(doc.headerTexts), CellTexts(doc.bodyRows));
      Success(|rows|, rows, now)
  }

  /** The trimmed cell texts of each body row. */
  function CellTexts(bodyRows: seq<seq<string>>): (r: seq<seq<string>>)
    ensures |r| == |bodyRows|
  {
    seq(|bodyRows|, j requires 0 <= j < |bodyRows| => TrimAll(bodyRows[j]))
  }

  /** One row object per body row, in page order. */
  function TableRows(headers: seq<string>, valueRows: seq<seq<string>>): (rows: seq<Row>)
  {
    if valueRows == [] then []
    else
      var n := |valueRows| - 1;
      TableRows(headers, valueRows[..n]) + [BuildRow(headers, valueRows[n])]
  }

  /** Row object `j` is built from body row `j`, and there is one per body row. */
  lemma {:induction false} TableRowsAt(headers: seq<string>, valueRows: seq<seq<string>>)
    ensures |TableRows(headers, valueRows)| == |valueRows|
    ensures forall j :: 0 <= j < |valueRows| ==>
      TableRows(headers, valueRows)[j] == BuildRow(headers, valueRows[j])
    decreases |valueRows|
  {
    if valueRows != [] {
      var n := |valueRows| - 1;
      TableRowsAt(headers, valueRows[..n]);
      var rows := TableRows(headers, valueRows);
      assert rows == TableRows(headers, valueRows[..n]) + [BuildRow(headers, valueRows[n])];
      forall j | 0 <= j < |valueRows| ensures rows[j] == BuildRow(headers, valueRows[j]) {
        if j < n {
          assert valueRows[..n][j] == valueRows[j];
        }
      }
    }
  }

  /** `getDataFromHTML`: the banner check, the table check, then the loop over body rows. */
  method GetDataFromHtml(doc: Document, now: string) returns (r: ParseResult)
    ensures r == Parse(doc, now)
  {
    var errorMessage := Trim(doc.alertText);
    if errorMessage != "" {
      return Error(errorMessage);
    }
    if !doc.hasTable {
      return Error(TableMissing);
    }
    var rows := BodyRows(TrimAll(doc.headerTexts), doc.bodyRows);
    return Success(|rows|, rows, now);
  }

  /** The outer `.each` over the body rows, pushing one row object per row. */
  method BodyRows(headers: seq<string>, bodyRows: seq<seq<string>>) returns (rows: seq<Row>)
    ensures rows == TableRows(headers, CellTexts(bodyRows))
  {
    ghost var valueRows := CellTexts(bodyRows);
    rows := [];
    var index := 0;
    while index < |bodyRows|
      invariant 0 <= index <= |bodyRows|
      invariant rows == TableRows(headers, valueRows[..index])
    {
      var rowData := RowData(headers, bodyRows[index]);
      assert valueRows[..index + 1][..index] == valueRows[..index];
      rows := rows + [rowData];
      index := index + 1;
    }
    assert valueRows[..index] == valueRows;
  }

  /** The inner `.each` over one body row's cells, assigning `rowData[header] = text` per cell. */
  method RowData(headers: seq<string>, cells: seq<string>) returns (rowData: Row)
    ensures rowData == BuildRow(headers, TrimAll(cells))
  {
    ghost var keys := ColumnKeys(headers, |cells|);
    ghost var values := TrimAll(cells);
    rowData := [];
    var i := 0;
    while i < |cells|
      invariant 0 <= i <= |cells|
      invariant rowData == Assign(keys[..i], values[..i])
    {
      assert keys[..i + 1][..i] == keys[..i];
      assert values[..i + 1][..i] == values[..i];
      rowData := Put(rowData, ColumnKey(headers, i), Trim(cells[i]));
      i := i + 1;
    }
    assert keys[..i] == keys;
    assert values[..i] == values;
  }

  // What the parse promises.

  /** A non-empty banner is the result, whether or not a table is present. */
  lemma BannerWins(doc: Document, now: string)
    requires Trim(doc.alertText) != ""
    ensures Parse(doc, now) == Error(Trim(doc.alertText))
  {
  }

  /** The outcome is decided by the banner first, the table second. */
  lemma ParseOutcome(doc: Document, now: string)
    ensures Parse(doc, now).Success? <==> Trim(doc.alertText) == "" && doc.hasTable
    ensures Trim(doc.alertText) == "" && !doc.hasTable ==> Parse(doc, now) == Error(TableMissing)
    ensures Parse(doc, now).Error? ==> Parse(doc, now).message != ""
  {
  }

  /** A success counts the body rows and lists one row object per body row, in page order. */
  lemma SuccessShape(doc: Document, now: string)
    requires Trim(doc.alertText) == "" && doc.hasTable
    ensures var r := Parse(doc, now);
      && r.Success? && r.totalRegistros == |doc.bodyRows| == |r.datos| && r.fechaConsulta == now
      && forall j :: 0 <= j < |doc.bodyRows| ==>
           r.datos[j] == BuildRow(TrimAll(doc.headerTexts), TrimAll(doc.bodyRows[j]))
  {
    TableRowsAt(TrimAll(doc.headerTexts), CellTexts(doc.bodyRows));
  }

  /** Parsing the same page twice gives the same result apart from the timestamp. */
  lemma ParseIgnoresClock(doc: Document, t1: string, t2: string)
    ensures Parse(doc, t1).Error? ==> Parse(doc, t2) == Parse(doc, t1)
    ensures Parse(doc, t1).Success? ==>
      Parse(doc, t2) == Parse(doc, t1).(fechaConsulta := t2)
  {
  }

  /** A row never holds a key twice, and lists its keys in order of first appearance: a repeated header keeps its place. */
  lemma RowKeys(headers: seq<string>, values: seq<string>)
    ensures DistinctKeys(BuildRow(headers, values))
    ensures Keys(BuildRow(headers, values)) == Dedup(ColumnKeys(headers, |values|))
  {
    AssignDistinct(ColumnKeys(headers, |values|), values);
    AssignKeys(ColumnKeys(headers, |values|), values);
  }

  /** A key is mapped to the value of the LAST cell stored under it. */
  lemma RowValue(headers: seq<string>, values: seq<string>, i: nat)
    requires i < |values|
    requires forall j :: i < j < |values| ==> ColumnKey(headers, j) != ColumnKey(headers, i)
    ensures Get(BuildRow(headers, values), ColumnKey(headers, i)) == Some(values[i])
  {
    AssignLast(ColumnKeys(headers, |values|), values, i);
  }

  /** A key no cell is stored under is absent from the row. */
  lemma RowAbsent(headers: seq<string>, values: seq<string>, key: string)
    requires forall j :: 0 <= j < |values| ==> ColumnKey(headers, j) != key
    ensures Get(BuildRow(headers, values), key) == None
  {
    var keys := ColumnKeys(headers, |values|);
    assert key !in keys by {
      forall j | 0 <= j < |keys| ensures keys[j] != key {
        assert keys[j] == ColumnKey(headers, j);
      }
    }
    AssignAbsent(keys, values, key);
  }

  /** Distinct non-empty headers: cell `i` is stored under `headers[i]`. */
  lemma HeaderedRow(headers: seq<string>, values: seq<string>)
    requires |values| <= |headers|
    requires forall i :: 0 <= i < |headers| ==> headers[i] != ""
    requires forall i, j :: 0 <= i < j < |headers| ==> headers[i] != headers[j]
    ensures BuildRow(headers, values)
      == seq(|values|, i requires 0 <= i < |values| => (headers[i], values[i]))
  {
    var keys := ColumnKeys(headers, |values|);
    assert forall i :: 0 <= i < |keys| ==> keys[i] == headers[i];
    AssignDistinctKeys(keys, values);
  }

  /** No headers at all: cell `i` is stored under `columna{i}`. */
  lemma HeaderlessRow(values: seq<string>)
    ensures BuildRow([], values)
      == seq(|values|, i requires 0 <= i < |values| => (FallbackKey(i), values[i]))
  {
    var keys := ColumnKeys([], |values|);
    forall i, j | 0 <= i < j < |keys| ensures keys[i] != keys[j] {
      assert keys[i] == FallbackKey(i) && keys[j] == FallbackKey(j);
      if FallbackKey(i) == FallbackKey(j) {
        FallbackKeyInjective(i, j);
      }
    }
    AssignDistinctKeys(keys, values);
  }
}
