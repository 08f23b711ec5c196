/** `processar_liquidacoes_pagas`: the table of paid liquidations read from
    the municipal CSV export, reduced to the columns the dashboard uses, with
    dates and amounts converted and the rows ordered from the latest
    liquidation date to the earliest. Any exception inside the function makes
    it return `None`; the model returns `None` on exactly the inputs that
    raise, except for the number spellings, column types and logging the
    model leaves out. */
module Pipeline {
  import opened Wrappers
  import opened Text
  import opened Redaction
  import opened Columns
  import opened Dates
  import opened Currency
  import opened Sorting

  /** One CSV line: a cell is `None` where pandas reads a missing value. */
  type Row = seq<Option<string>>

  datatype Table = Table(headers: seq<string>, rows: seq<Row>)

  /** The cell of column `i`; a line shorter than the header row is padded
      with missing values, as pandas does. */
  function Cell(row: Row, i: nat): Option<string> {
    if i < |row| then row[i] else None
  }

  function Cells(row: Row, columns: seq<nat>): (r: seq<Option<string>>)
    ensures |r| == |columns|
  {
    seq(|columns|, k requires 0 <= k < |columns| => Cell(row, columns[k]))
  }

  /** Position of the first header spelled exactly `name`. */
  function HeaderIndex(headers: seq<string>, name: string): (r: Option<nat>)
    ensures r.None? <==> name !in headers
    ensures r.Some? ==> r.value < |headers| && headers[r.value] == name
  {
    if headers == [] then None
    else if headers[0] == name then Some(0)
    else match HeaderIndex(headers[1..], name)
      case None => None
      case Some(k) => Some(k + 1)
  }

  /** `dropna(subset=['Fornecedor', 'Valor'])`: the lines with both cells
      present, in their original order. */
  function DropMissing(rows: seq<Row>, f: nat, v: nat): (r: seq<Row>)
    ensures |r| <= |rows|
    ensures forall i :: 0 <= i < |r| ==> Cell(r[i], f).Some? && Cell(r[i], v).Some?
  {
    if rows == [] then []
    else
      var rest := DropMissing(rows[1..], f, v);
      if Cell(rows[0], f).Some? && Cell(rows[0], v).Some? then [rows[0]] + rest else rest
  }

  /** A line survives `dropna` exactly when both cells are present. */
  lemma {:induction false} DropMissingIff(rows: seq<Row>, f: nat, v: nat, row: Row)
    ensures row in DropMissing(rows, f, v) <==> row in rows && Cell(row, f).Some? && Cell(row, v).Some?
  {
    if rows != [] {
      DropMissingIff(rows[1..], f, v, row);
      assert rows == [rows[0]] + rows[1..];
    }
  }

  /** `dropna` keeps every complete line as often as it occurs, identical
      lines included, and drops every other line. */
  lemma {:induction false} DropMissingCount(rows: seq<Row>, f: nat, v: nat, x: Row)
    ensures multiset(DropMissing(rows, f, v))[x] ==
      if Cell(x, f).Some? && Cell(x, v).Some? then multiset(rows)[x] else 0
  {
    if rows != [] {
      DropMissingCount(rows[1..], f, v, x);
      assert rows == [rows[0]] + rows[1..];
      assert multiset(rows)[x] == multiset([rows[0]])[x] + multiset(rows[1..])[x];
    }
  }

  /** `dropna` leaves a table without missing cells unchanged. */
  lemma {:induction false} DropMissingComplete(rows: seq<Row>, f: nat, v: nat)
    requires forall i :: 0 <= i < |rows| ==> Cell(rows[i], f).Some? && Cell(rows[i], v).Some?
    ensures DropMissing(rows, f, v) == rows
  {
    if rows != [] {
      DropMissingComplete(rows[1..], f, v);
      assert rows == [rows[0]] + rows[1..];
    }
  }

  /** Where each renamed column comes from: the date, supplier and value
      columns must be unique, the others may repeat. */
  datatype Layout = Layout(data: nat, fornecedor: nat, valor: nat, tipoLicitacao: seq<nat>, empenho: seq<nat>)

  /** The columns kept by the discovery loop, renamed. A role claimed by
      several columns gives a frame in place of a column, and the date,
      supplier and value steps then raise; a missing role raises `KeyError`. */
  function FindLayout(headers: seq<string>): (r: Option<Layout>)
    ensures r.Some? ==>
      && r.value.data < |headers| && Classify(headers[r.value.data]) == Some(Data)
      && r.value.fornecedor < |headers| && Classify(headers[r.value.fornecedor]) == Some(Fornecedor)
      && r.value.valor < |headers| && Classify(headers[r.value.valor]) == Some(Valor)
    ensures r.Some? ==> RoleColumns(headers, TipoLicitacao, r.value.tipoLicitacao)
    ensures r.Some? ==> RoleColumns(headers, Empenho, r.value.empenho)
  {
    WithRoleColumns(headers, TipoLicitacao);
    WithRoleColumns(headers, Empenho);
    var cols := Discover(headers);
    var d, f, v := WithRole(cols, Data), WithRole(cols, Fornecedor), WithRole(cols, Valor);
    if |d| == 1 && |f| == 1 && |v| == 1 then
      assert Column(d[0], Data) in cols && Column(f[0], Fornecedor) in cols && Column(v[0], Valor) in cols;
      Some(Layout(d[0], f[0], v[0], WithRole(cols, TipoLicitacao), WithRole(cols, Empenho)))
    else None
  }

  /** A layout is found exactly when the date, supplier and value roles are
      each claimed by one header. */
  lemma FindLayoutIff(headers: seq<string>)
    ensures FindLayout(headers).Some? <==>
      RoleCount(headers, Data) == 1 && RoleCount(headers, Fornecedor) == 1 && RoleCount(headers, Valor) == 1
  {
    WithRoleCount(headers, Data);
    WithRoleCount(headers, Fornecedor);
    WithRoleCount(headers, Valor);
  }

  /** Any header classified as the date, supplier or value column is the one
      the layout uses for that role. */
  lemma LayoutColumnsUnique(headers: seq<string>, layout: Layout, i: nat)
    requires FindLayout(headers) == Some(layout) && i < |headers|
    ensures Classify(headers[i]) == Some(Data) ==> i == layout.data
    ensures Classify(headers[i]) == Some(Fornecedor) ==> i == layout.fornecedor
    ensures Classify(headers[i]) == Some(Valor) ==> i == layout.valor
  {
    var cols := Discover(headers);
    var d, f, v := WithRole(cols, Data), WithRole(cols, Fornecedor), WithRole(cols, Valor);
    assert layout.data == d[0] && layout.fornecedor == f[0] && layout.valor == v[0];
    match Classify(headers[i])
    case None =>
    case Some(role) =>
      assert Column(i, role) in cols;
      if role == Data || role == Fornecedor || role == Valor {
        SingleClaimant(cols, role, i);
      }
  }

  /** A role claimed by one column is claimed by every column that has it. */
  lemma SingleClaimant(cols: seq<Column>, role: Role, i: nat)
    requires Column(i, role) in cols && |WithRole(cols, role)| == 1
    ensures WithRole(cols, role)[0] == i
  {
    assert i in WithRole(cols, role);
  }

  /** The exact `Fornecedor` and `Valor` headers that `dropna` names are the
      supplier and value columns of any layout found. */
  lemma ExactColumnsUsed(headers: seq<string>, layout: Layout, f: nat, v: nat)
    requires FindLayout(headers) == Some(layout)
    requires HeaderIndex(headers, "Fornecedor") == Some(f) && HeaderIndex(headers, "Valor") == Some(v)
    ensures layout.fornecedor == f && layout.valor == v
  {
    ExactFornecedorHeader(headers[f]);
    ExactValorHeader(headers[v]);
    LayoutColumnsUnique(headers, layout, f);
    LayoutColumnsUnique(headers, layout, v);
  }

  /** One output line. `fornecedor` is the raw supplier cell, kept as read. */
  datatype Record = Record(
    data: Option<Date>,
    fornecedor: Option<string>,
    fornecedorLimpo: string,
    valor: Decimal,
    tipoLicitacao: seq<Option<string>>,
    empenho: seq<Option<string>>)

  /** The value cell converted; a missing cell cannot reach this step. */
  function ValueOf(row: Row, layout: Layout): Option<Decimal> {
    match Cell(row, layout.valor)
    case None => None
    case Some(s) => ParseCurrency(s)
  }

  /** Lines 39 to 43 applied to one line whose amount converted to `valor`. */
  function ToRecord(row: Row, layout: Layout, valor: Decimal): (r: Record)
    ensures r.data == ParseDateCell(Cell(row, layout.data))
    ensures r.data.Some? ==> ValidDate(r.data.value)
    ensures r.fornecedor == Cell(row, layout.fornecedor)
    ensures r.fornecedorLimpo == CleanSupplier(r.fornecedor) && r.fornecedorLimpo != []
    ensures r.valor == valor
    ensures r.tipoLicitacao == Cells(row, layout.tipoLicitacao) && r.empenho == Cells(row, layout.empenho)
  {
    var f := Cell(row, layout.fornecedor);
    Record(ParseDateCell(Cell(row, layout.data)), f, CleanSupplier(f), valor,
           Cells(row, layout.tipoLicitacao), Cells(row, layout.empenho))
  }

  /** Every line converted. `astype(float)` converts the whole column or
      raises on an amount that does not convert, so one bad amount fails the
      whole table. */
  function ConvertAll(rows: seq<Row>, layout: Layout): (r: Option<seq<Record>>)
    ensures r.Some? <==> forall i :: 0 <= i < |rows| ==> ValueOf(rows[i], layout).Some?
    ensures r.Some? ==> |r.value| == |rows|
    ensures r.Some? ==> forall i :: 0 <= i < |rows| ==> Converted(rows[i], layout, r.value[i])
  {
    if forall i :: 0 <= i < |rows| ==> ValueOf(rows[i], layout).Some? then
      AllConverted(rows, layout);
      Some(seq(|rows|, i requires 0 <= i < |rows| => ToRecord(rows[i], layout, ValueOf(rows[i], layout).value)))
    else None
  }

  /** Each line whose amount converts gives the record `Converted` describes. */
  lemma AllConverted(rows: seq<Row>, layout: Layout)
    requires forall i :: 0 <= i < |rows| ==> ValueOf(rows[i], layout).Some?
    ensures forall i :: 0 <= i < |rows| ==> Converted(rows[i], layout, ToRecord(rows[i], layout, ValueOf(rows[i], layout).value))
  {
    forall i | 0 <= i < |rows|
      ensures Converted(rows[i], layout, ToRecord(rows[i], layout, ValueOf(rows[i], layout).value))
    {
      ToRecordConverted(rows[i], layout, ValueOf(rows[i], layout).value);
    }
  }

  lemma ToRecordConverted(row: Row, layout: Layout, v: Decimal)
    requires ValueOf(row, layout) == Some(v)
    ensures Converted(row, layout, ToRecord(row, layout, v))
  {
  }

  /** `rec` is what `row` gives under `layout`: the amount read from the value
      cell, the supplier cell as it is, the date read from the date cell, and
      the type and commitment cells as they are. */
  predicate Converted(row: Row, layout: Layout, rec: Record) {
    && Cell(row, layout.valor).Some?
    && ParseCurrency(Cell(row, layout.valor).value) == Some(rec.valor)
    && rec.fornecedor == Cell(row, layout.fornecedor)
    && rec.fornecedorLimpo == CleanSupplier(rec.fornecedor)
    && rec.data == ParseDateCell(Cell(row, layout.data))
    && rec.tipoLicitacao == Cells(row, layout.tipoLicitacao)
    && rec.empenho == Cells(row, layout.empenho)
  }

  /** Conversion fails exactly when some line's amount does not convert. */
  lemma ConvertNoneIff(rows: seq<Row>, layout: Layout)
    ensures ConvertAll(rows, layout).None? <==> exists row :: row in rows && ValueOf(row, layout).None?
  {
    if ConvertAll(rows, layout).None? {
      var i :| 0 <= i < |rows| && ValueOf(rows[i], layout).None?;
      assert rows[i] in rows;
    }
  }

  /** The order of `sort_values('data', ascending=False)`: a missing date
      sorts last. */
  function RecordKey(r: Record): real {
    DateKey(r.data) as real
  }

  /** The lines `dropna` keeps, for a table that has both exact headers. */
  function Kept(t: Table): seq<Row>
    requires "Fornecedor" in t.headers && "Valor" in t.headers
  {
    DropMissing(t.rows, HeaderIndex(t.headers, "Fornecedor").value, HeaderIndex(t.headers, "Valor").value)
  }

  /** `processar_liquidacoes_pagas` from the parsed CSV to the sorted frame. */
  function Process(t: Table): (r: Option<seq<Record>>)
    ensures r.Some? ==> "Fornecedor" in t.headers && "Valor" in t.headers && FindLayout(t.headers).Some?
    ensures r.Some? ==> |r.value| == |Kept(t)| && SortedDesc(r.value, RecordKey)
  {
    if "Fornecedor" !in t.headers || "Valor" !in t.headers then None
    else match FindLayout(t.headers)
      case None => None
      case Some(layout) =>
        match ConvertAll(Kept(t), layout)
        case None => None
        case Some(recs) => Some(SortDesc(recs, RecordKey))
  }

  /** A value cell that is present and converts to a number. */
  predicate AmountConverts(cell: Option<string>) {
    cell.Some? && ParseCurrency(cell.value).Some?
  }

  /** The function returns `None` exactly when a header `dropna` names is
      missing, when the date, supplier or value role is not claimed by exactly
      one header, or when some kept amount does not convert. */
  lemma ProcessFailsIff(t: Table)
    ensures Process(t).None? <==>
      || "Fornecedor" !in t.headers
      || "Valor" !in t.headers
      || RoleCount(t.headers, Data) != 1
      || RoleCount(t.headers, Fornecedor) != 1
      || RoleCount(t.headers, Valor) != 1
      || exists row :: row in Kept(t) && !AmountConverts(Cell(row, HeaderIndex(t.headers, "Valor").value))
  {
    FindLayoutIff(t.headers);
    if "Fornecedor" in t.headers && "Valor" in t.headers && FindLayout(t.headers).Some? {
      var layout := FindLayout(t.headers).value;
      ConvertFailsIff(t, layout);
      ProcessWithLayout(t, layout);
    }
  }

  /** Once both exact headers and a layout are there, the result is the
      sorted conversion, or `None` when the conversion fails. */
  lemma ProcessWithLayout(t: Table, layout: Layout)
    requires "Fornecedor" in t.headers && "Valor" in t.headers && FindLayout(t.headers) == Some(layout)
    ensures Process(t).None? <==> ConvertAll(Kept(t), layout).None?
  {
    match ConvertAll(Kept(t), layout)
    case None =>
    case Some(recs) =>
  }

  /** With a layout found, conversion fails exactly when some kept line's
      exact "Valor" cell does not convert. */
  lemma ConvertFailsIff(t: Table, layout: Layout)
    requires "Fornecedor" in t.headers && "Valor" in t.headers && FindLayout(t.headers) == Some(layout)
    ensures ConvertAll(Kept(t), layout).None? <==>
      exists row :: row in Kept(t) && !AmountConverts(Cell(row, HeaderIndex(t.headers, "Valor").value))
  {
    KeptValues(t, layout);
    ConvertNoneIff(Kept(t), layout);
  }

  /** On a kept line the amount the layout converts is the cell `dropna`
      checked, and it is present. */
  lemma KeptValues(t: Table, layout: Layout)
    requires "Fornecedor" in t.headers && "Valor" in t.headers && FindLayout(t.headers) == Some(layout)
    ensures forall row :: row in Kept(t) ==>
      ValueOf(row, layout).Some? == AmountConverts(Cell(row, HeaderIndex(t.headers, "Valor").value))
    ensures forall row :: row in Kept(t) ==> Cell(row, layout.fornecedor).Some?
  {
    var f, v := HeaderIndex(t.headers, "Fornecedor").value, HeaderIndex(t.headers, "Valor").value;
    ExactColumnsUsed(t.headers, layout, f, v);
    forall row | row in Kept(t)
      ensures Cell(row, v).Some? && Cell(row, f).Some?
    {
      DropMissingIff(t.rows, f, v, row);
    }
  }

  /** On success every kept line appears once, converted; the lines run from
      the latest date to the earliest, no undated line before a dated one;
      the supplier cell is always present and its cleaned name never empty. */
  lemma ProcessSucceeds(t: Table, out: seq<Record>)
    requires Process(t) == Some(out)
    ensures "Fornecedor" in t.headers && "Valor" in t.headers && FindLayout(t.headers).Some?
    ensures ConvertAll(Kept(t), FindLayout(t.headers).value).Some?
    ensures multiset(out) == multiset(ConvertAll(Kept(t), FindLayout(t.headers).value).value)
    ensures |out| == |Kept(t)|
    ensures forall r :: r in out ==> r.fornecedor.Some? && r.fornecedorLimpo == CleanSupplier(r.fornecedor) && r.fornecedorLimpo != []
    ensures forall r :: r in out ==> exists row :: row in Kept(t) && FromLine(t.headers, r, row)
    ensures forall i, j :: 0 <= i < j < |out| && out[j].data.Some? ==> out[i].data.Some?
    ensures forall i, j :: 0 <= i < j < |out| && out[i].data.Some? && out[j].data.Some? ==> !After(out[j].data.value, out[i].data.value)
  {
    var layout := FindLayout(t.headers).value;
    var recs := ConvertAll(Kept(t), layout).value;
    assert out == SortDesc(recs, RecordKey);
    RecordsFromKept(t, layout, recs);
    forall r | r in out
      ensures r in recs
    {
      assert r in multiset(recs);
    }
    DateOrder(out);
  }

  /** `r` is what line `row` converts to: its supplier is the line's exact
      "Fornecedor" cell, its amount the conversion of the exact "Valor" cell,
      its date the conversion of the date column's cell, and its type and
      commitment the cells of those columns. */
  ghost predicate FromLine(headers: seq<string>, r: Record, row: Row) {
    && "Fornecedor" in headers && "Valor" in headers && FindLayout(headers).Some?
    && r.fornecedor == Cell(row, HeaderIndex(headers, "Fornecedor").value)
    && r.fornecedorLimpo == CleanSupplier(r.fornecedor)
    && Cell(row, HeaderIndex(headers, "Valor").value).Some?
    && ParseCurrency(Cell(row, HeaderIndex(headers, "Valor").value).value) == Some(r.valor)
    && r.data == ParseDateCell(Cell(row, FindLayout(headers).value.data))
    && r.tipoLicitacao == Cells(row, FindLayout(headers).value.tipoLicitacao)
    && r.empenho == Cells(row, FindLayout(headers).value.empenho)
  }

  /** Every converted record has its supplier cell, its cleaned name, and a
      real date when it has one, and comes from a kept line. */
  lemma RecordsFromKept(t: Table, layout: Layout, recs: seq<Record>)
    requires "Fornecedor" in t.headers && "Valor" in t.headers && FindLayout(t.headers) == Some(layout)
    requires ConvertAll(Kept(t), layout) == Some(recs)
    ensures forall r :: r in recs ==> r.fornecedor.Some? && r.fornecedorLimpo == CleanSupplier(r.fornecedor) && r.fornecedorLimpo != []
    ensures forall r :: r in recs && r.data.Some? ==> ValidDate(r.data.value)
    ensures forall r :: r in recs ==> exists row :: row in Kept(t) && FromLine(t.headers, r, row)
  {
    var f, v := HeaderIndex(t.headers, "Fornecedor").value, HeaderIndex(t.headers, "Valor").value;
    ExactColumnsUsed(t.headers, layout, f, v);
    KeptValues(t, layout);
    forall r | r in recs
      ensures r.fornecedor.Some? && r.fornecedorLimpo == CleanSupplier(r.fornecedor)
      ensures exists row :: row in Kept(t) && FromLine(t.headers, r, row)
    {
      var i :| 0 <= i < |recs| && recs[i] == r;
      var row := Kept(t)[i];
      assert row in Kept(t);
      assert Converted(row, layout, r);
      assert FromLine(t.headers, r, row);
    }
  }

  /** Records sorted by their date key run from the latest date to the
      earliest, with every undated record after every dated one. */
  lemma DateOrder(out: seq<Record>)
    requires SortedDesc(out, RecordKey)
    requires forall r :: r in out && r.data.Some? ==> ValidDate(r.data.value)
    ensures forall i, j :: 0 <= i < j < |out| && out[j].data.Some? ==> out[i].data.Some?
    ensures forall i, j :: 0 <= i < j < |out| && out[i].data.Some? && out[j].data.Some? ==> !After(out[j].data.value, out[i].data.value)
  {
    forall i, j | 0 <= i < j < |out| && out[j].data.Some?
      ensures out[i].data.Some?
    {
      assert out[j] in out;
      DateKeyOrder(out[j].data.value, out[j].data.value);
      assert RecordKey(out[i]) >= RecordKey(out[j]) > 0.0;
    }
    forall i, j | 0 <= i < j < |out| && out[i].data.Some? && out[j].data.Some?
      ensures !After(out[j].data.value, out[i].data.value)
    {
      assert out[i] in out && out[j] in out;
      DateKeyOrder(out[j].data.value, out[i].data.value);
    }
  }
}
