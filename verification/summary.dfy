/** The "top 10 suppliers by value" table of the summary report: amounts
    summed per cleaned supplier name, the sums ordered from largest to
    smallest and the first ten kept. Sums are exact here, where pandas adds
    binary doubles. */
module Summary {
  import opened Currency
  import opened Sorting
  import opened Pipeline

  /** One line of the report: a cleaned supplier name and its summed amount. */
  datatype Entry = Entry(supplier: string, total: real)

  /** How many suppliers the report lists. */
  const TopCount: nat := 10

  function Amount(r: Record): real {
    Value(r.valor)
  }

  /** Reference definition: the sum of the amounts of the records whose
      cleaned supplier name is `name`. */
  function Total(name: string, recs: seq<Record>): real {
    if recs == [] then 0.0
    else
      var last := recs[|recs| - 1];
      Total(name, recs[..|recs| - 1]) + (if last.fornecedorLimpo == name then Amount(last) else 0.0)
  }

  /** Every cleaned supplier name that occurs in the records. */
  function Names(recs: seq<Record>): set<string> {
    set r | r in recs :: r.fornecedorLimpo
  }

  function Suppliers(groups: seq<Entry>): set<string> {
    set e | e in groups :: e.supplier
  }

  /** No supplier is listed twice. */
  predicate Distinct(groups: seq<Entry>) {
    forall i, j :: 0 <= i < j < |groups| ==> groups[i].supplier != groups[j].supplier
  }

  /** The total listed for `name`, or zero when it is not listed. */
  function Lookup(groups: seq<Entry>, name: string): real {
    if groups == [] then 0.0
    else if groups[0].supplier == name then groups[0].total
    else Lookup(groups[1..], name)
  }

  /** One amount added to the running group of its supplier, which is opened
      when the supplier is new. */
  function AddTo(groups: seq<Entry>, name: string, amount: real): (r: seq<Entry>)
    ensures |r| == |groups| || |r| == |groups| + 1
  {
    if groups == [] then [Entry(name, amount)]
    else if groups[0].supplier == name then [Entry(name, groups[0].total + amount)] + groups[1..]
    else [groups[0]] + AddTo(groups[1..], name, amount)
  }

  /** Adding an amount changes only its supplier's total, by that amount,
      adds the supplier when new, and keeps suppliers unique. */
  lemma {:induction false} AddToSpec(groups: seq<Entry>, name: string, amount: real)
    requires Distinct(groups)
    ensures Distinct(AddTo(groups, name, amount))
    ensures Suppliers(AddTo(groups, name, amount)) == Suppliers(groups) + {name}
    ensures forall n :: Lookup(AddTo(groups, name, amount), n) == Lookup(groups, n) + (if n == name then amount else 0.0)
  {
    if groups != [] {
      var g, rest := groups[0], groups[1..];
      assert groups == [g] + rest;
      assert Distinct(rest);
      NotInRest(groups);
      if g.supplier == name {
        AddToFound(groups, name, amount);
      } else {
        AddToSpec(rest, name, amount);
        AddToPassed(groups, name, amount);
      }
    }
  }

  /** The supplier's group is the first one: its total grows. */
  lemma AddToFound(groups: seq<Entry>, name: string, amount: real)
    requires Distinct(groups) && groups != [] && groups[0].supplier == name
    requires name !in Suppliers(groups[1..])
    ensures Distinct(AddTo(groups, name, amount))
    ensures Suppliers(AddTo(groups, name, amount)) == Suppliers(groups) + {name}
    ensures forall n :: Lookup(AddTo(groups, name, amount), n) == Lookup(groups, n) + (if n == name then amount else 0.0)
  {
    var rest := groups[1..];
    var r := AddTo(groups, name, amount);
    assert r == [Entry(name, groups[0].total + amount)] + rest;
    assert r[1..] == rest;
    assert groups == [groups[0]] + rest;
    LookupAbsent(rest, name);
    assert Suppliers(r) == {name} + Suppliers(rest);
    assert Suppliers(groups) == {name} + Suppliers(rest);
    forall i, j | 0 <= i < j < |r|
      ensures r[i].supplier != r[j].supplier
    {
      assert r[j] == groups[j];
      if i > 0 {
        assert r[i] == groups[i];
      }
    }
  }

  /** The supplier's group, if any, comes later: the first group is kept. */
  lemma AddToPassed(groups: seq<Entry>, name: string, amount: real)
    requires Distinct(groups) && groups != [] && groups[0].supplier != name
    requires groups[0].supplier !in Suppliers(groups[1..])
    requires Distinct(AddTo(groups[1..], name, amount))
    requires Suppliers(AddTo(groups[1..], name, amount)) == Suppliers(groups[1..]) + {name}
    requires forall n :: Lookup(AddTo(groups[1..], name, amount), n) == Lookup(groups[1..], n) + (if n == name then amount else 0.0)
    ensures Distinct(AddTo(groups, name, amount))
    ensures Suppliers(AddTo(groups, name, amount)) == Suppliers(groups) + {name}
    ensures forall n :: Lookup(AddTo(groups, name, amount), n) == Lookup(groups, n) + (if n == name then amount else 0.0)
  {
    var g, rest := groups[0], groups[1..];
    var tail := AddTo(rest, name, amount);
    assert AddTo(groups, name, amount) == [g] + tail;
    assert groups == [g] + rest;
    KeepFirst(g, rest, tail, name, amount);
  }

  /** A group kept in front of a list that gained `amount` for `name`. */
  lemma KeepFirst(g: Entry, rest: seq<Entry>, tail: seq<Entry>, name: string, amount: real)
    requires g.supplier != name && g.supplier !in Suppliers(rest)
    requires Distinct(tail) && Suppliers(tail) == Suppliers(rest) + {name}
    requires forall n :: Lookup(tail, n) == Lookup(rest, n) + (if n == name then amount else 0.0)
    ensures Distinct([g] + tail)
    ensures Suppliers([g] + tail) == Suppliers([g] + rest) + {name}
    ensures forall n :: Lookup([g] + tail, n) == Lookup([g] + rest, n) + (if n == name then amount else 0.0)
  {
    ConsSuppliers(g, tail);
    ConsSuppliers(g, rest);
    ConsDistinct(g, tail);
    forall n
      ensures Lookup([g] + tail, n) == Lookup([g] + rest, n) + (if n == name then amount else 0.0)
    {
      ConsLookup(g, tail, n);
      ConsLookup(g, rest, n);
    }
  }

  lemma ConsSuppliers(g: Entry, rest: seq<Entry>)
    ensures Suppliers([g] + rest) == {g.supplier} + Suppliers(rest)
  {
    var s := [g] + rest;
    assert forall e :: e in s <==> e == g || e in rest;
  }

  /** A new first supplier keeps a list without repeats. */
  lemma ConsDistinct(g: Entry, rest: seq<Entry>)
    requires Distinct(rest) && g.supplier !in Suppliers(rest)
    ensures Distinct([g] + rest)
  {
    var s := [g] + rest;
    forall i, j | 0 <= i < j < |s|
      ensures s[i].supplier != s[j].supplier
    {
      assert s[j] == rest[j - 1];
      assert s[j] in rest;
      if i > 0 {
        assert s[i] == rest[i - 1];
      }
    }
  }

  lemma ConsLookup(g: Entry, rest: seq<Entry>, n: string)
    ensures Lookup([g] + rest, n) == if g.supplier == n then g.total else Lookup(rest, n)
  {
    assert ([g] + rest)[1..] == rest;
  }

  /** The first supplier of a list without repeats is not listed again. */
  lemma NotInRest(groups: seq<Entry>)
    requires Distinct(groups) && groups != []
    ensures groups[0].supplier !in Suppliers(groups[1..])
  {
    forall k | 0 <= k < |groups| - 1
      ensures groups[1..][k].supplier != groups[0].supplier
    {
      assert groups[1..][k] == groups[k + 1];
    }
  }

  /** The last supplier of a list without repeats is not listed before. */
  lemma NotInFront(groups: seq<Entry>)
    requires Distinct(groups) && groups != []
    ensures groups[|groups| - 1].supplier !in Suppliers(groups[..|groups| - 1])
  {
    var n := |groups| - 1;
    forall k | 0 <= k < n
      ensures groups[..n][k].supplier != groups[n].supplier
    {
      assert groups[..n][k] == groups[k];
    }
  }

  /** A supplier that is not listed looks up as zero. */
  lemma {:induction false} LookupAbsent(groups: seq<Entry>, name: string)
    requires name !in Suppliers(groups)
    ensures Lookup(groups, name) == 0.0
  {
    if groups != [] {
      assert groups[0] in groups;
      assert Suppliers(groups[1..]) <= Suppliers(groups) by {
        forall e | e in groups[1..] ensures e in groups { }
      }
      LookupAbsent(groups[1..], name);
    }
  }

  /** The listed total of a supplier is the one in its entry. */
  lemma {:induction false} LookupEntry(groups: seq<Entry>, k: nat)
    requires Distinct(groups) && k < |groups|
    ensures Lookup(groups, groups[k].supplier) == groups[k].total
  {
    if k > 0 {
      assert groups[0].supplier != groups[k].supplier;
      assert groups[1..][k - 1] == groups[k];
      LookupEntry(groups[1..], k - 1);
    }
  }

  /** `groupby('fornecedor_limpo')['valor'].sum()`, records taken in order:
      one entry per cleaned name occurring in the records, none twice. */
  function Group(recs: seq<Record>): (r: seq<Entry>)
    ensures Distinct(r)
    ensures Suppliers(r) == Names(recs)
  {
    if recs == [] then []
    else
      var n := |recs| - 1;
      var front, last := recs[..n], recs[n];
      assert recs == front + [last];
      NamesSnoc(front, last);
      AddToSpec(Group(front), last.fornecedorLimpo, Amount(last));
      AddTo(Group(front), last.fornecedorLimpo, Amount(last))
  }

  /** Grouping lists each supplier name of the records exactly once, with the
      sum of that supplier's amounts. */
  lemma {:induction false} GroupSpec(recs: seq<Record>)
    ensures Distinct(Group(recs))
    ensures Suppliers(Group(recs)) == Names(recs)
    ensures forall n :: Lookup(Group(recs), n) == Total(n, recs)
  {
    if recs != [] {
      var n := |recs| - 1;
      var front, last := recs[..n], recs[n];
      assert recs == front + [last];
      NamesSnoc(front, last);
      GroupSpec(front);
      AddToSpec(Group(front), last.fornecedorLimpo, Amount(last));
    }
  }

  /** One more record adds its supplier's name. */
  lemma NamesSnoc(front: seq<Record>, last: Record)
    ensures Names(front + [last]) == Names(front) + {last.fornecedorLimpo}
  {
    var s := front + [last];
    assert forall r :: r in s <==> r in front || r == last;
  }

  /** Each entry of the grouping carries the reference total of its name. */
  lemma GroupTotals(recs: seq<Record>)
    ensures forall e :: e in Group(recs) ==> e.total == Total(e.supplier, recs) && e.supplier in Names(recs)
    ensures |Group(recs)| == |Names(recs)|
  {
    var g := Group(recs);
    GroupSpec(recs);
    forall e | e in g
      ensures e.total == Total(e.supplier, recs)
    {
      var k :| 0 <= k < |g| && g[k] == e;
      LookupEntry(g, k);
    }
    DistinctCard(g);
  }

  /** A list without repeated suppliers has one supplier per entry. */
  lemma {:induction false} DistinctCard(groups: seq<Entry>)
    requires Distinct(groups)
    ensures |Suppliers(groups)| == |groups|
  {
    if groups != [] {
      var n := |groups| - 1;
      var front := groups[..n];
      assert Distinct(front);
      DistinctCard(front);
      assert groups == front + [groups[n]];
      assert Suppliers(groups) == Suppliers(front) + {groups[n].supplier};
      NotInFront(groups);
    }
  }

  function EntryTotal(e: Entry): real {
    e.total
  }

  /** `sort_values(ascending=False).head(10)` on the grouped sums: at most
      ten entries, largest total first. */
  function TopSuppliers(recs: seq<Record>): (r: seq<Entry>)
    ensures |r| <= TopCount
    ensures SortedDesc(r, EntryTotal)
  {
    var sorted := SortDesc(Group(recs), EntryTotal);
    if |sorted| <= TopCount then sorted else sorted[..TopCount]
  }

  /** The report lists ten suppliers, or all of them when there are fewer;
      each with its true total and none twice, from the largest total down,
      and no supplier left out has a larger total than one listed. */
  lemma TopSuppliersSpec(recs: seq<Record>)
    ensures |TopSuppliers(recs)| == if |Names(recs)| < TopCount then |Names(recs)| else TopCount
    ensures forall e :: e in TopSuppliers(recs) ==> e.supplier in Names(recs) && e.total == Total(e.supplier, recs)
    ensures Distinct(TopSuppliers(recs))
    ensures SortedDesc(TopSuppliers(recs), EntryTotal)
    ensures forall name, e :: name in Names(recs) && name !in Suppliers(TopSuppliers(recs)) && e in TopSuppliers(recs) ==>
      Total(name, recs) <= e.total
  {
    var g := Group(recs);
    var sorted := SortDesc(g, EntryTotal);
    var top := TopSuppliers(recs);
    GroupSpec(recs);
    GroupTotals(recs);
    PermutationDistinct(g, sorted);
    HeadOfSorted(g, sorted, top);
    forall name, e | name in Names(recs) && name !in Suppliers(top) && e in top
      ensures Total(name, recs) <= e.total
    {
      var x :| x in g && x.supplier == name;
    }
  }

  /** The head of a sorted rearrangement holds entries of the original, and
      every entry it leaves out has a total no larger than any it holds. */
  lemma HeadOfSorted(g: seq<Entry>, sorted: seq<Entry>, top: seq<Entry>)
    requires multiset(sorted) == multiset(g) && SortedDesc(sorted, EntryTotal)
    requires |top| <= |sorted| && top == sorted[..|top|]
    ensures Distinct(sorted) ==> Distinct(top)
    ensures forall e :: e in top ==> e in g
    ensures forall x, e :: x in g && x.supplier !in Suppliers(top) && e in top ==> x.total <= e.total
  {
    forall e | e in top
      ensures e in g
    {
      assert e in multiset(sorted);
    }
    forall x, e | x in g && x.supplier !in Suppliers(top) && e in top
      ensures x.total <= e.total
    {
      assert x in multiset(sorted);
      TopBeatsRest(sorted, top, x, e);
    }
  }

  /** A supplier left out of a sorted list's head totals no more than any
      entry kept in it. */
  lemma TopBeatsRest(sorted: seq<Entry>, top: seq<Entry>, x: Entry, e: Entry)
    requires SortedDesc(sorted, EntryTotal) && |top| <= |sorted| && top == sorted[..|top|]
    requires x in sorted && x.supplier !in Suppliers(top) && e in top
    ensures x.total <= e.total
  {
    var k :| 0 <= k < |sorted| && sorted[k] == x;
    var i :| 0 <= i < |top| && top[i] == e;
    assert sorted[i] == e;
    assert EntryTotal(sorted[i]) >= EntryTotal(sorted[k]);
  }

  /** Rearranging a list without repeated suppliers repeats none. */
  lemma PermutationDistinct(a: seq<Entry>, b: seq<Entry>)
    requires Distinct(a) && multiset(a) == multiset(b)
    ensures Distinct(b)
  {
    forall i, j | 0 <= i < j < |b|
      ensures b[i].supplier != b[j].supplier
    {
      DistinctOnce(a, b[i]);
      CountedOnce(b, i, j);
      assert b[i] in multiset(a) && b[j] in multiset(a);
      var p :| 0 <= p < |a| && a[p] == b[i];
      var q :| 0 <= q < |a| && a[q] == b[j];
      assert p != q;
    }
  }

  /** An element counted once occurs at one position only. */
  lemma CountedOnce(s: seq<Entry>, i: nat, j: nat)
    requires i < j < |s| && multiset(s)[s[i]] <= 1
    ensures s[i] != s[j]
  {
    var x := s[i];
    assert s == s[..j] + [s[j]] + s[j + 1..];
    assert x in s[..j];
    assert multiset(s)[x] == multiset(s[..j])[x] + multiset([s[j]])[x] + multiset(s[j + 1..])[x];
  }

  /** In a list without repeated suppliers every entry occurs at most once. */
  lemma {:induction false} DistinctOnce(a: seq<Entry>, e: Entry)
    requires Distinct(a)
    ensures multiset(a)[e] <= 1
  {
    if a != [] {
      var rest := a[1..];
      assert a == [a[0]] + rest;
      assert Distinct(rest);
      DistinctOnce(rest, e);
      NotInRest(a);
      assert a[0] !in rest;
    }
  }
}
