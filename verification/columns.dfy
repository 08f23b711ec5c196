/** Column discovery (the header loop of `processar_liquidacoes_pagas`):
    each header is matched against five rules in a fixed order, the first rule
    it satisfies gives it its canonical role, and headers no rule accepts are
    dropped. All tests are case-sensitive substring tests. */
module Columns {
  import opened Wrappers
  import opened Text

  /** The canonical column names: data, fornecedor, valor, tipo_licitacao, empenho. */
  datatype Role = Data | Fornecedor | Valor | TipoLicitacao | Empenho

  /** A rule accepts a header that contains every one of its needles. */
  datatype Rule = Rule(role: Role, needles: seq<string>)

  /** The rules in the order the loop tests them. */
  const Rules: seq<Rule> := [
    Rule(Data, ["Data", "Liquid"]),
    Rule(Fornecedor, ["Fornecedor"]),
    Rule(Valor, ["Valor"]),
    Rule(TipoLicitacao, ["Tipo", "Licit"]),
    Rule(Empenho, ["Empenho"])
  ]

  /** Position of a role's rule in `Rules`. */
  function Rank(role: Role): (k: nat)
    ensures k < |Rules| && Rules[k].role == role
  {
    match role
    case Data => 0
    case Fornecedor => 1
    case Valor => 2
    case TipoLicitacao => 3
    case Empenho => 4
  }

  predicate Satisfies(header: string, rule: Rule) {
    forall k :: 0 <= k < |rule.needles| ==> Contains(header, rule.needles[k])
  }

  /** Position of the first rule in `rules` that accepts `header`, or
      `|rules|` when none does. */
  function FirstMatch(header: string, rules: seq<Rule>): (k: nat)
    ensures k <= |rules|
    ensures forall j :: 0 <= j < k ==> !Satisfies(header, rules[j])
    ensures k < |rules| ==> Satisfies(header, rules[k])
  {
    if rules == [] || Satisfies(header, rules[0]) then 0
    else
      assert forall j :: 1 <= j < |rules| ==> rules[j] == rules[1..][j - 1];
      1 + FirstMatch(header, rules[1..])
  }

  /** The canonical role of one header, if any: the role of the first rule
      that accepts it. */
  function Classify(header: string): (r: Option<Role>)
    ensures r.Some? ==> Satisfies(header, Rules[Rank(r.value)])
    ensures r.Some? ==> forall k :: 0 <= k < Rank(r.value) ==> !Satisfies(header, Rules[k])
    ensures r.None? <==> forall k :: 0 <= k < |Rules| ==> !Satisfies(header, Rules[k])
  {
    var k := FirstMatch(header, Rules);
    if k < |Rules| then
      assert k == Rank(Rules[k].role);
      Some(Rules[k].role)
    else None
  }

  /** A header gets a role exactly when that role's rule accepts it and no
      rule tried before it does; it gets none exactly when no rule accepts it. */
  lemma ClassifyFirstMatchWins(header: string, role: Role)
    ensures Classify(header) == Some(role) <==>
              Satisfies(header, Rules[Rank(role)]) && forall k :: 0 <= k < Rank(role) ==> !Satisfies(header, Rules[k])
    ensures Classify(header).None? <==> forall k :: 0 <= k < |Rules| ==> !Satisfies(header, Rules[k])
  {
    var k := FirstMatch(header, Rules);
    if k < |Rules| {
      assert k == Rank(Rules[k].role);
    }
  }

  /** A kept column: its position among the headers, and its role. */
  datatype Column = Column(index: nat, role: Role)

  /** The discovery loop: every header that gets a role, in header order. */
  function Discover(headers: seq<string>): (cols: seq<Column>)
    ensures ColumnsSound(headers, cols) && ColumnsComplete(headers, cols) && ColumnsOrdered(cols)
  {
    if headers == [] then []
    else
      var n := |headers| - 1;
      var front := Discover(headers[..n]);
      var last := Classify(headers[n]);
      var cols := if last.None? then front else front + [Column(n, last.value)];
      DiscoverStep(headers, front, cols);
      cols
  }

  /** Every column names a header that the rules classify with its role. */
  ghost predicate ColumnsSound(headers: seq<string>, cols: seq<Column>) {
    forall j :: 0 <= j < |cols| ==> cols[j].index < |headers| && Classify(headers[cols[j].index]) == Some(cols[j].role)
  }

  /** Every classified header has its column. */
  ghost predicate ColumnsComplete(headers: seq<string>, cols: seq<Column>) {
    forall i :: 0 <= i < |headers| && Classify(headers[i]).Some? ==> Column(i, Classify(headers[i]).value) in cols
  }

  /** Columns appear in header order. */
  ghost predicate ColumnsOrdered(cols: seq<Column>) {
    forall a, b :: 0 <= a < b < |cols| ==> cols[a].index < cols[b].index
  }

  /** Extending the columns of all but the last header by the last header's
      column, if it has one, gives the columns of every header. */
  lemma DiscoverStep(headers: seq<string>, front: seq<Column>, cols: seq<Column>)
    requires headers != []
    requires ColumnsSound(headers[..|headers| - 1], front)
    requires ColumnsComplete(headers[..|headers| - 1], front)
    requires ColumnsOrdered(front)
    requires var last := Classify(headers[|headers| - 1]);
      cols == if last.None? then front else front + [Column(|headers| - 1, last.value)]
    ensures ColumnsSound(headers, cols) && ColumnsComplete(headers, cols) && ColumnsOrdered(cols)
  {
    var n := |headers| - 1;
    var init := headers[..n];
    assert forall i :: 0 <= i < n ==> init[i] == headers[i];
    ExtendSound(headers, init, front, cols);
    ExtendComplete(headers, init, front, cols);
    ExtendOrdered(front, cols, n);
  }

  lemma ExtendSound(headers: seq<string>, init: seq<string>, front: seq<Column>, cols: seq<Column>)
    requires headers != [] && init == headers[..|headers| - 1]
    requires ColumnsSound(init, front)
    requires var last := Classify(headers[|headers| - 1]);
      cols == if last.None? then front else front + [Column(|headers| - 1, last.value)]
    ensures ColumnsSound(headers, cols)
  {
    forall j | 0 <= j < |cols|
      ensures cols[j].index < |headers| && Classify(headers[cols[j].index]) == Some(cols[j].role)
    {
      if j < |front| {
        assert cols[j] == front[j];
        assert init[front[j].index] == headers[front[j].index];
      }
    }
  }

  lemma ExtendComplete(headers: seq<string>, init: seq<string>, front: seq<Column>, cols: seq<Column>)
    requires headers != [] && init == headers[..|headers| - 1]
    requires ColumnsComplete(init, front)
    requires var last := Classify(headers[|headers| - 1]);
      cols == if last.None? then front else front + [Column(|headers| - 1, last.value)]
    ensures ColumnsComplete(headers, cols)
  {
    var n := |headers| - 1;
    forall i | 0 <= i < |headers| && Classify(headers[i]).Some?
      ensures Column(i, Classify(headers[i]).value) in cols
    {
      if i < n {
        assert init[i] == headers[i];
        assert Column(i, Classify(init[i]).value) in front;
      } else {
        assert cols[|cols| - 1] == Column(n, Classify(headers[n]).value);
      }
    }
  }

  lemma ExtendOrdered(front: seq<Column>, cols: seq<Column>, n: nat)
    requires ColumnsOrdered(front)
    requires forall j :: 0 <= j < |front| ==> front[j].index < n
    requires cols == front || (|cols| == |front| + 1 && cols[..|front|] == front && cols[|front|].index == n)
    ensures ColumnsOrdered(cols)
  {
    if cols != front {
      forall a, b | 0 <= a < b < |cols|
        ensures cols[a].index < cols[b].index
      {
        assert cols[a] == front[a];
        if b < |front| {
          assert cols[b] == front[b];
        }
      }
    }
  }

  /** The kept columns that were given `role`, in column order. */
  function WithRole(cols: seq<Column>, role: Role): (r: seq<nat>)
    ensures forall i :: i in r <==> Column(i, role) in cols
    ensures |r| <= |cols|
  {
    if cols == [] then []
    else (if cols[0].role == role then [cols[0].index] else []) + WithRole(cols[1..], role)
  }

  /** Positions strictly increase, so none repeats. */
  predicate Increasing(r: seq<nat>) {
    forall a, b :: 0 <= a < b < |r| ==> r[a] < r[b]
  }

  /** Columns in header order give each role's positions in increasing order. */
  lemma {:induction false} WithRoleIncreasing(cols: seq<Column>, role: Role)
    requires ColumnsOrdered(cols)
    ensures Increasing(WithRole(cols, role))
  {
    if cols != [] {
      var rest := cols[1..];
      assert ColumnsOrdered(rest) by {
        assert forall a :: 0 <= a < |rest| ==> rest[a] == cols[a + 1];
      }
      WithRoleIncreasing(rest, role);
      var tail := WithRole(rest, role);
      forall x | x in tail
        ensures cols[0].index < x
      {
        var j :| 0 <= j < |rest| && rest[j] == Column(x, role);
        assert cols[j + 1] == rest[j];
      }
      if cols[0].role == role {
        ConsIncreasing(cols[0].index, tail);
      }
    }
  }

  lemma ConsIncreasing(x: nat, tail: seq<nat>)
    requires Increasing(tail) && forall y :: y in tail ==> x < y
    ensures Increasing([x] + tail)
  {
    var r := [x] + tail;
    forall a, b | 0 <= a < b < |r|
      ensures r[a] < r[b]
    {
      assert r[b] == tail[b - 1];
      assert tail[b - 1] in tail;
      if a > 0 {
        assert r[a] == tail[a - 1];
      }
    }
  }

  /** The positions of the headers the rules give `role`. */
  function Claimants(headers: seq<string>, role: Role): set<nat> {
    set i: nat | i < |headers| && Classify(headers[i]) == Some(role)
  }

  /** The number of headers the rules give `role`. */
  function RoleCount(headers: seq<string>, role: Role): nat {
    |Claimants(headers, role)|
  }

  /** The discovery loop keeps one column per header that claims `role`:
      the renamed columns of a role are as many as its claimants. */
  lemma WithRoleCount(headers: seq<string>, role: Role)
    ensures |WithRole(Discover(headers), role)| == RoleCount(headers, role)
  {
    var cols := Discover(headers);
    var r := WithRole(cols, role);
    WithRoleIncreasing(cols, role);
    assert Elements(r) == Claimants(headers, role) by {
      forall i | i in Elements(r)
        ensures i in Claimants(headers, role)
      {
        var j :| 0 <= j < |cols| && cols[j] == Column(i, role);
      }
      forall i | i in Claimants(headers, role)
        ensures i in Elements(r)
      {
        assert Column(i, Classify(headers[i]).value) in cols;
      }
    }
    IncreasingCard(r);
  }

  /** `r` lists, in increasing order, exactly the header positions the rules
      give `role`. */
  ghost predicate RoleColumns(headers: seq<string>, role: Role, r: seq<nat>) {
    && Increasing(r)
    && forall i: nat :: i in r <==> i < |headers| && Classify(headers[i]) == Some(role)
  }

  /** The columns renamed to a role are every header with that role, in
      header order. */
  lemma WithRoleColumns(headers: seq<string>, role: Role)
    ensures RoleColumns(headers, role, WithRole(Discover(headers), role))
  {
    var cols := Discover(headers);
    var r := WithRole(cols, role);
    WithRoleIncreasing(cols, role);
    forall i: nat
      ensures i in r <==> i < |headers| && Classify(headers[i]) == Some(role)
    {
      if i in r {
        var j :| 0 <= j < |cols| && cols[j] == Column(i, role);
      }
      if i < |headers| && Classify(headers[i]) == Some(role) {
        assert Column(i, Classify(headers[i]).value) in cols;
      }
    }
  }

  function Elements(r: seq<nat>): set<nat> {
    set x | x in r
  }

  /** A sequence without repeats has as many elements as positions. */
  lemma {:induction false} IncreasingCard(r: seq<nat>)
    requires Increasing(r)
    ensures |Elements(r)| == |r|
  {
    if r != [] {
      IncreasingTail(r);
      IncreasingCard(r[1..]);
      ElementsCons(r);
    }
  }

  /** The rest of an increasing sequence is increasing and misses its head. */
  lemma IncreasingTail(r: seq<nat>)
    requires Increasing(r) && r != []
    ensures Increasing(r[1..]) && r[0] !in Elements(r[1..])
  {
    var rest := r[1..];
    assert forall a :: 0 <= a < |rest| ==> rest[a] == r[a + 1];
  }

  lemma ElementsCons(r: seq<nat>)
    requires r != []
    ensures Elements(r) == {r[0]} + Elements(r[1..])
  {
    assert r == [r[0]] + r[1..];
  }

  /** Worked example: a "Data da Liquidação" header is the date column. */
  lemma LiquidationDateIsData(h: string)
    requires h == "Data da Liquidação"
    ensures Classify(h) == Some(Data)
  {
    assert IsPrefix("Data", h[0..]);
    assert IsPrefix("Liquid", h[8..]);
    assert Satisfies(h, Rules[0]);
  }

  /** Worked example: a "Data de Pagamento" header has no "Liquid" and no
      other rule's needle, so it is dropped. */
  lemma PaymentDateIsDropped(h: string)
    requires h == "Data de Pagamento"
    ensures Classify(h) == None
  {
    NotContains(h, "Liquid");
    NotContains(h, "Fornecedor");
    NotContains(h, "Valor");
    NotContains(h, "Tipo");
    NotContains(h, "Empenho");
    assert Rules[0].needles[1] == "Liquid" && Rules[1].needles[0] == "Fornecedor" && Rules[2].needles[0] == "Valor";
    assert Rules[3].needles[0] == "Tipo" && Rules[4].needles[0] == "Empenho";
    assert !Satisfies(h, Rules[0]) && !Satisfies(h, Rules[1]) && !Satisfies(h, Rules[2]);
    assert !Satisfies(h, Rules[3]) && !Satisfies(h, Rules[4]);
  }

  /** The exact header "Fornecedor" is a fornecedor column: it lacks "Liquid". */
  lemma ExactFornecedorHeader(f: string)
    requires f == "Fornecedor"
    ensures Classify(f) == Some(Fornecedor)
  {
    assert IsPrefix("Fornecedor", f[0..]);
    NotContains(f, "Liquid");
    assert Rules[0].needles[1] == "Liquid";
    assert !Satisfies(f, Rules[0]);
    assert Satisfies(f, Rules[1]);
    assert FirstMatch(f, Rules) == 1;
  }

  /** The exact header "Valor" is a valor column: it lacks "Liquid" and
      "Fornecedor". */
  lemma ExactValorHeader(v: string)
    requires v == "Valor"
    ensures Classify(v) == Some(Valor)
  {
    assert IsPrefix("Valor", v[0..]);
    NotContains(v, "Liquid");
    NotContains(v, "Fornecedor");
    assert Rules[0].needles[1] == "Liquid";
    assert !Satisfies(v, Rules[0]);
    assert Rules[1].needles[0] == "Fornecedor";
    assert !Satisfies(v, Rules[1]);
    assert Satisfies(v, Rules[2]);
    assert FirstMatch(v, Rules) == 2;
  }

  /** Precedence: a header naming both a supplier and a value goes to the
      earlier rule, fornecedor. */
  lemma SupplierBeatsValue(h: string)
    requires h == "Valor por Fornecedor"
    ensures Classify(h) == Some(Fornecedor)
  {
    assert IsPrefix("Fornecedor", h[10..]);
    NotContains(h, "Liquid");
    assert Rules[0].needles[1] == "Liquid";
    assert !Satisfies(h, Rules[0]);
    assert Satisfies(h, Rules[1]);
    assert FirstMatch(h, Rules) == 1;
  }

  lemma NotContains(s: string, needle: string)
    requires |needle| > 0 && needle[0] !in s
    ensures !Contains(s, needle)
  {
    if Contains(s, needle) {
      ContainsFirstChar(s, needle);
    }
  }
}
