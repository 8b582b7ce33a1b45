/** The process table's client-side logic: the search filter, the column sort with its
    comparator and direction toggle, and the ports cell. The process list itself comes
    from the backend; `cpu_usage` is a float there and an integer here (only its order
    matters to the sort). */
module ProcessViewer {

  import opened Options
  import opened Text
  import opened Sorting
  import opened Numerals

  /** A row of the table, restricted to the fields the filter, the sort and the ports
      cell read. A missing parent arrives as JSON `null`. */
  datatype Process = Process(
    pid: nat,
    ppid: Option<nat>,
    name: string,
    cpu: int,
    memory: nat,
    ports: seq<nat>)

  // ---------------------------------------------------------------------------
  // the filter

  /** A row is kept when its lower-cased name contains the lower-cased search text or
      its decimal pid contains the search text as typed. */
  predicate Matches(p: Process, filter: string) {
    Contains(Lower(p.name), Lower(filter)) || Contains(Decimal(p.pid), filter)
  }

  /** `Array.prototype.filter`: the matching rows, in their order. */
  function Filter(procs: seq<Process>, filter: string): (r: seq<Process>)
    ensures |r| <= |procs|
    ensures forall k :: 0 <= k < |r| ==> Matches(r[k], filter)
    ensures forall p :: multiset(r)[p] == if Matches(p, filter) then multiset(procs)[p] else 0
    decreases |procs|
  {
    if |procs| == 0 then []
    else
      var rest := Filter(procs[1..], filter);
      assert procs == [procs[0]] + procs[1..];
      if Matches(procs[0], filter) then [procs[0]] + rest else rest
  }

  /** An empty search keeps every row. */
  lemma {:induction false} FilterEmpty(procs: seq<Process>)
    ensures Filter(procs, "") == procs
    decreases |procs|
  {
    if |procs| > 0 {
      var p, rest := procs[0], procs[1..];
      assert procs == [p] + rest;
      MatchesEmpty(p);
      FilterEmpty(rest);
      FilterCons(p, rest, "");
    }
  }

  /** A matching row in front is kept in front. */
  lemma FilterCons(p: Process, rest: seq<Process>, filter: string)
    requires Matches(p, filter)
    ensures Filter([p] + rest, filter) == [p] + Filter(rest, filter)
  {
    assert ([p] + rest)[1..] == rest;
  }

  /** Every row matches the empty search. */
  lemma MatchesEmpty(p: Process)
    ensures Matches(p, "")
  {
    assert Lower("") == "";
    ContainsEmpty(Lower(p.name));
  }

  /** The filter keeps the rows' relative order: filtering a concatenation filters
      each part. */
  lemma {:induction false} FilterAppend(a: seq<Process>, b: seq<Process>, filter: string)
    ensures Filter(a + b, filter) == Filter(a, filter) + Filter(b, filter)
    decreases |a|
  {
    if |a| == 0 {
      assert a + b == b;
    } else {
      assert (a + b)[0] == a[0];
      assert (a + b)[1..] == a[1..] + b;
      FilterAppend(a[1..], b, filter);
    }
  }

  // ---------------------------------------------------------------------------
  // the sort

  /** The sortable columns. */
  datatype Column = Pid | Ppid | Name | Cpu | Memory

  /** A cell value as the comparator sees it. */
  datatype Key = Num(n: int) | Str(s: string)

  /** The value the comparator reads. `null < x` compares `null` as 0, so a missing
      parent sorts as parent 0; the comparator's `undefined` test never fires. */
  function KeyOf(p: Process, col: Column): Key {
    match col
    case Pid => Num(p.pid)
    case Ppid => Num(p.ppid.GetOr(0))
    case Name => Str(p.name)
    case Cpu => Num(p.cpu)
    case Memory => Num(p.memory)
  }

  /** JavaScript's `<` on two values of one column. */
  predicate KeyLess(a: Key, b: Key) {
    match (a, b)
    case (Num(x), Num(y)) => x < y
    case (Str(x), Str(y)) => StrLe(x, y) && x != y
    case _ => false
  }

  /** The non-strict order `KeyLess` comes from. */
  predicate KeyLe(a: Key, b: Key) {
    match (a, b)
    case (Num(x), Num(y)) => x <= y
    case (Str(x), Str(y)) => StrLe(x, y)
    case _ => a == b
  }

  /** The comparator: -1 when `a` goes first, 1 when `b` does, 0 for a tie. */
  function Compare(a: Process, b: Process, col: Column, desc: bool): (r: int)
    ensures r in {-1, 0, 1}
    ensures r == 0 <==> KeyOf(a, col) == KeyOf(b, col)
  {
    var ka := KeyOf(a, col);
    var kb := KeyOf(b, col);
    StrictOrders(ka, kb);
    if KeyLess(ka, kb) then (if desc then 1 else -1)
    else if KeyLess(kb, ka) then (if desc then -1 else 1)
    else 0
  }

  lemma StrictOrders(a: Key, b: Key)
    requires a.Num? == b.Num?
    ensures !(KeyLess(a, b) && KeyLess(b, a))
    ensures a != b ==> KeyLess(a, b) || KeyLess(b, a)
  {
    if a.Str? {
      StrLeTotal(a.s, b.s);
      if StrLe(a.s, b.s) && StrLe(b.s, a.s) { StrLeAntisymmetric(a.s, b.s); }
    }
  }

  /** `a` may stand before `b` in the sorted table. */
  predicate Before(a: Process, b: Process, col: Column, desc: bool) {
    Compare(a, b, col, desc) <= 0
  }

  /** The comparator orders by the column's value, ascending or descending. */
  lemma BeforeMeans(a: Process, b: Process, col: Column, desc: bool)
    ensures Before(a, b, col, desc) <==>
      if desc then KeyLe(KeyOf(b, col), KeyOf(a, col)) else KeyLe(KeyOf(a, col), KeyOf(b, col))
  {
    var ka := KeyOf(a, col);
    var kb := KeyOf(b, col);
    if ka.Str? {
      StrLeTotal(ka.s, kb.s);
      if StrLe(ka.s, kb.s) && StrLe(kb.s, ka.s) { StrLeAntisymmetric(ka.s, kb.s); }
    }
  }

  /** The comparator is consistent: a total preorder on any set of rows. */
  lemma BeforeTotalPreorder(col: Column, desc: bool, dom: set<Process>)
    ensures TotalPreorderOn((a, b) => Before(a, b, col, desc), dom)
  {
    var le := (a, b) => Before(a, b, col, desc);
    forall a, b | a in dom && b in dom ensures le(a, b) || le(b, a) {
      BeforeMeans(a, b, col, desc);
      BeforeMeans(b, a, col, desc);
      if col == Name { StrLeTotal(a.name, b.name); }
    }
    forall a, b, c | a in dom && b in dom && c in dom && le(a, b) && le(b, c) ensures le(a, c) {
      BeforeMeans(a, b, col, desc);
      BeforeMeans(b, c, col, desc);
      BeforeMeans(a, c, col, desc);
      if col == Name {
        if desc { StrLeTransitive(c.name, b.name, a.name); }
        else { StrLeTransitive(a.name, b.name, c.name); }
      }
    }
  }

  /** The rows the table shows, in the order it shows them. */
  function Displayed(procs: seq<Process>, filter: string, col: Column, desc: bool): seq<Process> {
    Sort(Filter(procs, filter), (a, b) => Before(a, b, col, desc))
  }

  /** The table shows each matching row as often as the list holds it, no other row,
      and orders the rows by the column: non-increasing when descending, non-decreasing
      when ascending. */
  lemma DisplayedSpec(procs: seq<Process>, filter: string, col: Column, desc: bool)
    ensures var d := Displayed(procs, filter, col, desc);
      && (forall p :: multiset(d)[p] == if Matches(p, filter) then multiset(procs)[p] else 0)
      && (forall i, j :: 0 <= i < j < |d| ==>
            if desc then KeyLe(KeyOf(d[j], col), KeyOf(d[i], col))
            else KeyLe(KeyOf(d[i], col), KeyOf(d[j], col)))
  {
    var f := Filter(procs, filter);
    var le := (a, b) => Before(a, b, col, desc);
    var dom := Elements(f);
    BeforeTotalPreorder(col, desc, dom);
    SortSorted(f, le, dom);
    var d := Displayed(procs, filter, col, desc);
    forall i, j | 0 <= i < j < |d|
      ensures if desc then KeyLe(KeyOf(d[j], col), KeyOf(d[i], col))
              else KeyLe(KeyOf(d[i], col), KeyOf(d[j], col))
    {
      assert le(d[i], d[j]);
      BeforeMeans(d[i], d[j], col, desc);
    }
  }

  // ---------------------------------------------------------------------------
  // the header clicks

  /** The sort the table is in: a column and a direction. */
  datatype SortState = SortState(column: Column, desc: bool)

  /** The table opens sorted by CPU, highest first. */
  const InitialSort: SortState := SortState(Cpu, true)

  /** `handleSort`: clicking the current column flips the direction; clicking another
      column sorts by it, descending. */
  function HandleSort(s: SortState, col: Column): (r: SortState)
    ensures r.column == col
  {
    if s.column == col then SortState(col, !s.desc) else SortState(col, true)
  }

  /** Two clicks on the current column restore the sort; a click on another column
      always starts descending, and from there a second click gives ascending. */
  lemma HandleSortToggles(s: SortState, col: Column)
    ensures HandleSort(HandleSort(s, s.column), s.column) == s
    ensures col != s.column ==> HandleSort(s, col) == SortState(col, true)
    ensures HandleSort(HandleSort(s, col), col).desc == (s.column == col && s.desc)
  {
  }

  // ---------------------------------------------------------------------------
  // the ports cell

  function DecimalList(ports: seq<nat>): (r: seq<string>)
    ensures |r| == |ports|
    ensures forall k :: 0 <= k < |r| ==> r[k] == Decimal(ports[k])
  {
    seq(|ports|, k requires 0 <= k < |ports| => Decimal(ports[k]))
  }

  /** The ports cell: up to three ports joined by ", ", then "..." if there are more;
      "-" when there are none. */
  function PortsCell(ports: seq<nat>): string {
    if |ports| > 0 then
      Join(DecimalList(if |ports| > 3 then ports[..3] else ports), ", ")
        + (if |ports| > 3 then "..." else "")
    else "-"
  }

  lemma DecimalEdges(n: nat)
    ensures |Decimal(n)| >= 1
    ensures '0' <= Decimal(n)[0] <= '9' && '0' <= Decimal(n)[|Decimal(n)| - 1] <= '9'
  {
    RenderRoundTrip(n, 10);
    assert IsDigitIn(Decimal(n)[0], 10);
    assert IsDigitIn(Decimal(n)[|Decimal(n)| - 1], 10);
  }

  /** A join of non-empty parts starts with the first part's first character and ends
      with the last part's last character. */
  lemma {:induction false} JoinEdges(parts: seq<string>, sep: string)
    requires |parts| >= 1
    requires forall k :: 0 <= k < |parts| ==> |parts[k]| >= 1
    ensures |Join(parts, sep)| >= 1
    ensures Join(parts, sep)[0] == parts[0][0]
    ensures Join(parts, sep)[|Join(parts, sep)| - 1] == parts[|parts| - 1][|parts[|parts| - 1]| - 1]
    decreases |parts|
  {
    if |parts| > 1 {
      JoinEdges(parts[1..], sep);
      assert Join(parts, sep) == parts[0] + (sep + Join(parts[1..], sep));
    }
  }

  /** `s` is the decimal numeral of `n`: digits only, no superfluous leading zero, and
      worth `n`. */
  predicate NumeralOf(s: string, n: nat) {
    && |s| >= 1
    && AllDigitsIn(s, 10)
    && Value(s, 10) == n
    && (s[0] == '0' <==> n == 0)
  }

  /** A non-empty cell lists the first three ports (or all, if fewer), each as its
      decimal numeral, joined by ", ", followed by "..." exactly when ports were left
      out; a port in the `u16` range reads back from its numeral. */
  lemma PortsCellContents(ports: seq<nat>)
    requires |ports| > 0
    ensures exists parts: seq<string> ::
      && |parts| == (if |ports| > 3 then 3 else |ports|)
      && PortsCell(ports) == Join(parts, ", ") + (if |ports| > 3 then "..." else "")
      && forall k :: 0 <= k < |parts| ==>
           && NumeralOf(parts[k], ports[k])
           && (ports[k] < U16Limit ==> ParseUnsigned(parts[k], U16Limit) == Some(ports[k]))
  {
    var shown := if |ports| > 3 then ports[..3] else ports;
    var parts := DecimalList(shown);
    forall k | 0 <= k < |parts|
      ensures NumeralOf(parts[k], ports[k])
      ensures ports[k] < U16Limit ==> ParseUnsigned(parts[k], U16Limit) == Some(ports[k])
    {
      assert shown[k] == ports[k];
      RenderRoundTrip(ports[k], 10);
      if ports[k] < U16Limit { ParseDecimalRoundTrip(ports[k], U16Limit); }
    }
    assert PortsCell(ports) == Join(parts, ", ") + (if |ports| > 3 then "..." else "");
  }

  /** The cell reads "-" exactly for a process without ports, starts with the first
      port's leading digit otherwise, and ends in "..." exactly when ports were left
      out. */
  lemma PortsCellSpec(ports: seq<nat>)
    ensures PortsCell(ports) == "-" <==> |ports| == 0
    ensures |ports| > 0 ==> StartsWith(PortsCell(ports), Decimal(ports[0])[..1])
    ensures EndsWith(PortsCell(ports), "...") <==> |ports| > 3
  {
    var cell := PortsCell(ports);
    if |ports| > 0 {
      var shown := if |ports| > 3 then ports[..3] else ports;
      var parts := DecimalList(shown);
      forall k | 0 <= k < |parts| ensures |parts[k]| >= 1 { DecimalEdges(shown[k]); }
      JoinEdges(parts, ", ");
      var j := Join(parts, ", ");
      DecimalEdges(shown[0]);
      DecimalEdges(shown[|shown| - 1]);
      assert cell[0] == j[0];
      if |ports| > 3 {
        assert cell == j + "...";
        assert cell[|cell| - 3..] == "...";
      } else {
        assert cell == j;
        assert cell[|cell| - 1] != '.';
        assert cell != "-";
      }
    }
  }
}
