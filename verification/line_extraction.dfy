/**
 Per-voltage circuit length of a country's power lines. Each way gets a
 length (the sum of its segment distances), a circuit count (a missing
 count reads as one) and a voltage text. Rows whose voltage tag lists
 several `;`-separated values are split into one row per value. Each row
 then contributes `length * circuits` to the total of its voltage.
 */
module LineExtraction {
  import opened Wrappers
  import opened Strings
  import opened PyValues

  /**
   A vertex of a way as the geometry stores it: `x` is the longitude and
   `y` the latitude.
   */
  datatype Coord = Coord(x: real, y: real)

  /** A power line as read from the extract. Untagged cells are `None`. */
  datatype RawLine = RawLine(coords: seq<Coord>, circuits: Option<string>, voltage: Option<string>)

  /** A line once its length is computed and its circuits are parsed. The voltage is still text. */
  datatype Line = Line(length: real, circuits: int, voltage: string)

  /** A line whose voltage has been converted to an integer. */
  datatype Segment = Segment(length: real, circuits: int, voltage: int)

  // ---------------------------------------------------------------------
  // Way length

  /**
   Sum of `dist` over consecutive vertex pairs. The great-circle distance
   of the original is the parameter `dist`.
   */
  function LengthWay(coords: seq<Coord>, dist: (Coord, Coord) -> real): real
  {
    if |coords| <= 1 then 0.0
    else LengthWay(coords[..|coords| - 1], dist) + dist(coords[|coords| - 2], coords[|coords| - 1])
  }

  /** The accumulating loop over `range(len(coords) - 1)`. */
  method ComputeLengthWay(coords: seq<Coord>, dist: (Coord, Coord) -> real) returns (total: real)
    ensures total == LengthWay(coords, dist)
    ensures |coords| <= 1 ==> total == 0.0
  {
    total := 0.0;
    if |coords| == 0 {
      return;
    }
    var i := 0;
    while i < |coords| - 1
      invariant 0 <= i <= |coords| - 1
      invariant total == LengthWay(coords[..i + 1], dist)
    {
      assert coords[..i + 2][..i + 1] == coords[..i + 1];
      total := total + dist(coords[i], coords[i + 1]);
      i := i + 1;
    }
    assert coords[..i + 1] == coords;
  }

  /** Joining two ways at a shared vertex adds their lengths. */
  lemma {:induction false} LengthWayConcat(a: seq<Coord>, b: seq<Coord>, dist: (Coord, Coord) -> real)
    requires |a| >= 1 && |b| >= 1 && a[|a| - 1] == b[0]
    ensures LengthWay(a + b[1..], dist) == LengthWay(a, dist) + LengthWay(b, dist)
    decreases |b|
  {
    if |b| == 1 {
      assert a + b[1..] == a;
    } else {
      var front := b[..|b| - 1];
      var joined := a + b[1..];
      assert joined[..|joined| - 1] == a + front[1..];
      assert joined[|joined| - 2] == b[|b| - 2];
      assert b[..|b| - 1] == front;
      LengthWayConcat(a, front, dist);
    }
  }

  /** With a non-negative distance, lengths are non-negative. */
  lemma {:induction false} LengthWayNonNegative(coords: seq<Coord>, dist: (Coord, Coord) -> real)
    requires forall p, q :: dist(p, q) >= 0.0
    ensures LengthWay(coords, dist) >= 0.0
    decreases |coords|
  {
    if |coords| > 1 {
      LengthWayNonNegative(coords[..|coords| - 1], dist);
    }
  }

  /** With a non-negative distance, extending a way never shortens it. */
  lemma {:induction false} LengthWayPrefixMonotone(coords: seq<Coord>, k: nat, dist: (Coord, Coord) -> real)
    requires forall p, q :: dist(p, q) >= 0.0
    requires k <= |coords|
    ensures LengthWay(coords[..k], dist) <= LengthWay(coords, dist)
    decreases |coords|
  {
    if k < |coords| {
      assert coords[..|coords| - 1][..k] == coords[..k];
      LengthWayPrefixMonotone(coords[..|coords| - 1], k, dist);
    } else {
      assert coords[..k] == coords;
    }
  }

  // ---------------------------------------------------------------------
  // Column normalisation

  /** Number of voltages a tag lists: `count(";") + 1`, except 0 for an empty tag. */
  function NbVoltage(v: string): (n: nat)
    ensures v == "" ==> n == 0
    ensures v != "" ==> n == |Split(v, ';')|
  {
    SplitCount(v, ';');
    if v == "" then 0 else Count(v, ';') + 1
  }

  /** A missing circuit count reads as `"1"`; the text is then parsed as an integer. */
  function ParseCircuits(c: Option<string>): (r: Result<int, PyError>)
    ensures r.Failure? ==> r.error == ValueError && c.Some? && ParseInt(c.value).None?
  {
    var text := if c.None? then "1" else c.value;
    match ParseInt(text)
    case Some(n) => Success(n)
    case None => Failure(ValueError)
  }

  /** An untagged line has one circuit, and a printed count reads back as itself. */
  lemma ParseCircuitsValues(n: int)
    ensures ParseCircuits(None) == Success(1)
    ensures ParseCircuits(Some(IntToString(n))) == Success(n)
  {
    ParseUnsigned(1);
    assert IntToString(1) == "1";
    ParseIntToString(n);
  }

  /** One row after its length, circuits and voltage columns are computed. */
  function PrepareLine(raw: RawLine, dist: (Coord, Coord) -> real): (r: Result<Line, PyError>)
    ensures r.Success? <==> ParseCircuits(raw.circuits).Success?
    ensures r.Success? ==>
      && r.value.length == LengthWay(raw.coords, dist)
      && r.value.circuits == ParseCircuits(raw.circuits).value
      && r.value.voltage == (if raw.voltage.None? then "" else raw.voltage.value)
    ensures r.Failure? ==> r.error == ValueError
  {
    match ParseCircuits(raw.circuits)
    case Failure(e) => Failure(e)
    case Success(c) => Success(Line(LengthWay(raw.coords, dist), c, if raw.voltage.None? then "" else raw.voltage.value))
  }

  /**
   A whole-column conversion: it succeeds when every cell converts, and
   raises the error of a failing cell otherwise.
   */
  function Collect<A, B>(xs: seq<A>, f: A -> Result<B, PyError>): (r: Result<seq<B>, PyError>)
    ensures r.Success? <==> forall i :: 0 <= i < |xs| ==> f(xs[i]).Success?
    ensures r.Success? ==> |r.value| == |xs| && forall i :: 0 <= i < |xs| ==> r.value[i] == f(xs[i]).value
    ensures r.Failure? ==> exists i :: 0 <= i < |xs| && f(xs[i]) == Failure(r.error)
  {
    if |xs| == 0 then Success([])
    else
      match f(xs[0])
      case Failure(e) => Failure(e)
      case Success(b) =>
        match Collect(xs[1..], f)
        case Failure(e) =>
          assert exists i :: 0 <= i < |xs[1..]| && f(xs[1..][i]) == Failure(e);
          var i :| 0 <= i < |xs[1..]| && f(xs[1..][i]) == Failure(e);
          assert f(xs[i + 1]) == Failure(e);
          Failure(e)
        case Success(bs) =>
          assert forall i :: 1 <= i < |xs| ==> f(xs[i]) == f(xs[1..][i - 1]);
          Success([b] + bs)
  }

  // ---------------------------------------------------------------------
  // Splitting multi-voltage rows

  /** The `k`-th `;`-separated component of a line's voltage tag. */
  function Component(l: Line, k: nat): string
    requires k < |Split(l.voltage, ';')|
  {
    Split(l.voltage, ';')[k]
  }

  /**
   The copies made of one row for `i` in `[from, maxCircuits)`: the copy
   for `i` exists when the row lists at least `i` voltages and carries the
   `i`-th of them (component `i - 1`).
   */
  function CopiesFrom(l: Line, from: int, maxCircuits: int): (copies: seq<Line>)
    requires from >= 2
    ensures |copies| <= if maxCircuits > from then maxCircuits - from else 0
    ensures forall k :: 0 <= k < |copies| ==> copies[k].(voltage := l.voltage) == l
    decreases maxCircuits - from
  {
    if from >= maxCircuits then []
    else
      (if NbVoltage(l.voltage) >= from then [l.(voltage := Component(l, from - 1))] else [])
      + CopiesFrom(l, from + 1, maxCircuits)
  }

  /**
   The copies of a row carry its components `from - 1`, `from`, ... in
   order, up to the last one it has and the last one `maxCircuits` allows.
   */
  lemma {:induction false} CopiesFromComponents(l: Line, from: int, maxCircuits: int)
    requires from >= 2
    ensures var c := CopiesFrom(l, from, maxCircuits);
      var last := if maxCircuits - 1 < NbVoltage(l.voltage) then maxCircuits - 1 else NbVoltage(l.voltage);
      && |c| == (if last >= from then last - from + 1 else 0)
      && forall k :: 0 <= k < |c| ==> from - 1 + k < NbVoltage(l.voltage) && c[k] == l.(voltage := Component(l, from - 1 + k))
    decreases maxCircuits - from
  {
    if from < maxCircuits {
      CopiesFromComponents(l, from + 1, maxCircuits);
    }
  }

  /** A row is copied once for each voltage after its first, up to component `maxCircuits - 2`. */
  lemma CopiesOfRow(l: Line, maxCircuits: int)
    ensures var c := CopiesFrom(l, 2, maxCircuits);
      var last := if maxCircuits - 1 < NbVoltage(l.voltage) then maxCircuits - 1 else NbVoltage(l.voltage);
      && |c| == (if last >= 2 then last - 1 else 0)
      && forall k :: 0 <= k < |c| ==> c[k] == l.(voltage := Component(l, k + 1))
  {
    CopiesFromComponents(l, 2, maxCircuits);
  }

  /** The rows appended by the splitting loop, row after row. */
  function Appended(lines: seq<Line>, maxCircuits: int): (copies: seq<Line>)
    ensures maxCircuits <= 2 ==> copies == []
    ensures forall k :: 0 <= k < |copies| ==>
      exists j :: 0 <= j < |lines| && copies[k].(voltage := lines[j].voltage) == lines[j]
  {
    if |lines| == 0 then []
    else Appended(lines[..|lines| - 1], maxCircuits) + CopiesFrom(lines[|lines| - 1], 2, maxCircuits)
  }

  /** The largest circuit count of the table. */
  function MaxCircuits(lines: seq<Line>): (m: int)
    requires |lines| > 0
    ensures forall i :: 0 <= i < |lines| ==> lines[i].circuits <= m
    ensures exists i :: 0 <= i < |lines| && lines[i].circuits == m
  {
    if |lines| == 1 then lines[0].circuits
    else
      var rest := MaxCircuits(lines[1..]);
      assert forall i :: 1 <= i < |lines| ==> lines[i] == lines[1..][i - 1];
      if lines[0].circuits >= rest then lines[0].circuits else rest
  }

  /** An original row listing exactly two voltages keeps only the first. */
  function KeepFirst(l: Line): (r: Line)
    ensures r.length == l.length && r.circuits == l.circuits
    ensures NbVoltage(l.voltage) == 2 ==> r.voltage == Split(l.voltage, ';')[0] && ';' !in r.voltage
    ensures NbVoltage(l.voltage) != 2 ==> r == l
  {
    if NbVoltage(l.voltage) == 2 then l.(voltage := Component(l, 0)) else l
  }

  /**
   The table after splitting: the original rows (two-voltage rows cut to
   their first voltage) followed by the appended copies. The loop bound
   `max(circuits)` is only evaluated for a non-empty table.
   */
  function SplitVoltages(lines: seq<Line>): (r: seq<Line>)
    ensures |r| >= |lines|
    ensures forall i :: 0 <= i < |lines| ==> r[i] == KeepFirst(lines[i])
  {
    var originals := seq(|lines|, i requires 0 <= i < |lines| => KeepFirst(lines[i]));
    if |lines| == 0 then originals else originals + Appended(lines, MaxCircuits(lines))
  }

  /** With at most two circuits anywhere, no copies are made. */
  lemma {:induction false} NoCopiesWhenMaxAtMostTwo(lines: seq<Line>, maxCircuits: int)
    requires maxCircuits <= 2
    ensures Appended(lines, maxCircuits) == []
  {
    if |lines| > 0 {
      NoCopiesWhenMaxAtMostTwo(lines[..|lines| - 1], maxCircuits);
    }
  }

  /**
   A table whose circuit counts are all at most two keeps one row per
   line: the second voltage of a two-voltage line is dropped.
   */
  lemma SplitKeepsRowCountForFewCircuits(lines: seq<Line>)
    requires forall i :: 0 <= i < |lines| ==> lines[i].circuits <= 2
    ensures |SplitVoltages(lines)| == |lines|
  {
    if |lines| > 0 {
      NoCopiesWhenMaxAtMostTwo(lines, MaxCircuits(lines));
    }
  }

  /** Every copy made of row `j` is in the appended rows. */
  lemma {:induction false} AppendedContainsCopies(lines: seq<Line>, j: nat, maxCircuits: int)
    requires j < |lines|
    ensures forall x :: x in CopiesFrom(lines[j], 2, maxCircuits) ==> x in Appended(lines, maxCircuits)
  {
    var n := |lines|;
    if j < n - 1 {
      AppendedContainsCopies(lines[..n - 1], j, maxCircuits);
    }
  }

  /**
   When some line has three or more circuits, a line tagged with two
   voltages is counted under both: the original row carries the first and
   one copy carries the second.
   */
  lemma TwoVoltageLineSplits(lines: seq<Line>, j: nat)
    requires j < |lines| && NbVoltage(lines[j].voltage) == 2
    requires exists i :: 0 <= i < |lines| && lines[i].circuits >= 3
    ensures lines[j].(voltage := Component(lines[j], 0)) in SplitVoltages(lines)
    ensures lines[j].(voltage := Component(lines[j], 1)) in SplitVoltages(lines)
  {
    var maxCircuits := MaxCircuits(lines);
    var r := SplitVoltages(lines);
    assert r[j] == KeepFirst(lines[j]);
    CopiesOfRow(lines[j], maxCircuits);
    var copies := CopiesFrom(lines[j], 2, maxCircuits);
    assert copies[0] == lines[j].(voltage := Component(lines[j], 1));
    AppendedContainsCopies(lines, j, maxCircuits);
    assert r == seq(|lines|, i requires 0 <= i < |lines| => KeepFirst(lines[i])) + Appended(lines, maxCircuits);
  }

  // ---------------------------------------------------------------------
  // Voltage conversion and per-voltage totals

  /** An empty voltage becomes 0; any other text must read as an integer. */
  function VoltageValue(v: string): (r: Result<int, PyError>)
    ensures r.Failure? ==> r.error == ValueError && v != ""
    ensures ';' in v ==> r.Failure?
  {
    if v == "" then Success(0)
    else
      ParseIntRejectsSeparator(v);
      match ParseInt(v)
      case Some(n) => Success(n)
      case None => Failure(ValueError)
  }

  /** A text holding `;` is never an integer. */
  lemma ParseIntRejectsSeparator(s: string)
    ensures ';' in s ==> ParseInt(s).None?
  {
    if ';' in s {
      var k :| 0 <= k < |s| && s[k] == ';';
      assert !IsDigit(s[k]);
      if |s| >= 2 && k >= 1 {
        assert s[1..][k - 1] == ';';
      }
    }
  }

  function ToSegment(l: Line): (r: Result<Segment, PyError>)
    ensures r.Success? ==> r.value.length == l.length && r.value.circuits == l.circuits
    ensures r.Success? <==> VoltageValue(l.voltage).Success?
  {
    match VoltageValue(l.voltage)
    case Failure(e) => Failure(e)
    case Success(v) => Success(Segment(l.length, l.circuits, v))
  }

  /** Length times the number of circuits carried. */
  function CircuitLength(s: Segment): real
  {
    s.length * s.circuits as real
  }

  /** Sum of circuit lengths of the segments at voltage `v`. */
  function TotalAt(segs: seq<Segment>, v: int): (t: real)
    ensures (forall i :: 0 <= i < |segs| ==> segs[i].voltage != v) ==> t == 0.0
    ensures (forall i :: 0 <= i < |segs| ==> CircuitLength(segs[i]) >= 0.0) ==> t >= 0.0
  {
    if |segs| == 0 then 0.0
    else TotalAt(segs[..|segs| - 1], v) + (if segs[|segs| - 1].voltage == v then CircuitLength(segs[|segs| - 1]) else 0.0)
  }

  /** Sum of circuit lengths of all segments. */
  function TotalLength(segs: seq<Segment>): real
  {
    if |segs| == 0 then 0.0 else TotalLength(segs[..|segs| - 1]) + CircuitLength(segs[|segs| - 1])
  }

  predicate StrictlyIncreasing(vs: seq<int>)
  {
    forall i, j :: 0 <= i < j < |vs| ==> vs[i] < vs[j]
  }

  /** `v` placed in a strictly increasing list, unless already there. */
  function InsertSorted(vs: seq<int>, v: int): (r: seq<int>)
    requires StrictlyIncreasing(vs)
    ensures StrictlyIncreasing(r)
    ensures forall x :: x in r <==> x in vs || x == v
  {
    if |vs| == 0 then [v]
    else if v == vs[0] then vs
    else if v < vs[0] then [v] + vs
    else
      var rest := InsertSorted(vs[1..], v);
      assert forall x :: x in rest ==> vs[0] < x;
      PrependIncreasing(vs[0], rest);
      [vs[0]] + rest
  }

  lemma PrependIncreasing(x: int, rest: seq<int>)
    requires StrictlyIncreasing(rest)
    requires forall y :: y in rest ==> x < y
    ensures StrictlyIncreasing([x] + rest)
  {
    var r := [x] + rest;
    forall i, j | 0 <= i < j < |r|
      ensures r[i] < r[j]
    {
      assert r[j] == rest[j - 1];
      if i == 0 {
        assert rest[j - 1] in rest;
      } else {
        assert r[i] == rest[i - 1];
      }
    }
  }

  /** The distinct voltages of the table, sorted: `unique()` then `sort()`. */
  function SortedVoltages(segs: seq<Segment>): (vs: seq<int>)
    ensures StrictlyIncreasing(vs)
    ensures forall v :: v in vs <==> exists i :: 0 <= i < |segs| && segs[i].voltage == v
  {
    if |segs| == 0 then []
    else
      var front := segs[..|segs| - 1];
      var vs := InsertSorted(SortedVoltages(front), segs[|segs| - 1].voltage);
      assert forall i :: 0 <= i < |front| ==> front[i] == segs[i];
      vs
  }

  /** The dictionary of totals, keyed by voltage in increasing order. */
  function Totals(vs: seq<int>, segs: seq<Segment>): (t: seq<(int, real)>)
    ensures |t| == |vs|
    ensures forall i :: 0 <= i < |vs| ==> t[i].0 == vs[i] && t[i].1 == TotalAt(segs, vs[i])
  {
    if |vs| == 0 then [] else [(vs[0], TotalAt(segs, vs[0]))] + Totals(vs[1..], segs)
  }

  /**
   The per-voltage report: one entry per voltage present, in increasing
   order of voltage, each holding the circuit length at that voltage.
   */
  function PerVoltage(segs: seq<Segment>): (t: seq<(int, real)>)
    ensures forall i, j :: 0 <= i < j < |t| ==> t[i].0 < t[j].0
    ensures Keys(t) == Voltages(segs)
    ensures forall k :: 0 <= k < |t| ==> t[k].1 == TotalAt(segs, t[k].0)
  {
    var vs := SortedVoltages(segs);
    var t := Totals(vs, segs);
    forall v | v in Voltages(segs)
      ensures v in Keys(t)
    {
      assert v in vs;
      var k :| 0 <= k < |vs| && vs[k] == v;
      assert t[k].0 == v;
    }
    forall v | v in Keys(t)
      ensures v in Voltages(segs)
    {
      var k :| 0 <= k < |t| && t[k].0 == v;
      assert vs[k] in vs;
      var i :| 0 <= i < |segs| && segs[i].voltage == v;
    }
    t
  }

  /** The voltages keyed in a report. */
  function Keys(t: seq<(int, real)>): set<int>
  {
    set k | 0 <= k < |t| :: t[k].0
  }

  /** The voltages present in a table. */
  function Voltages(segs: seq<Segment>): set<int>
  {
    set i | 0 <= i < |segs| :: segs[i].voltage
  }

  /** Sum of the totals of a report. */
  function SumTotals(t: seq<(int, real)>): real
  {
    if |t| == 0 then 0.0 else t[0].1 + SumTotals(t[1..])
  }

  lemma {:induction false} TotalsOfEmpty(vs: seq<int>)
    ensures SumTotals(Totals(vs, [])) == 0.0
  {
    if |vs| > 0 {
      TotalsOfEmpty(vs[1..]);
      assert Totals(vs, [])[1..] == Totals(vs[1..], []);
    }
  }

  /** Adding one segment adds its circuit length to exactly one total, if its voltage is listed. */
  lemma {:induction false} TotalsStep(vs: seq<int>, segs: seq<Segment>, s: Segment)
    requires StrictlyIncreasing(vs)
    ensures SumTotals(Totals(vs, segs + [s])) == SumTotals(Totals(vs, segs)) + (if s.voltage in vs then CircuitLength(s) else 0.0)
  {
    if |vs| > 0 {
      TotalsStep(vs[1..], segs, s);
      assert (segs + [s])[..|segs|] == segs;
      assert Totals(vs, segs + [s])[1..] == Totals(vs[1..], segs + [s]);
      assert Totals(vs, segs)[1..] == Totals(vs[1..], segs);
      assert s.voltage == vs[0] ==> s.voltage !in vs[1..];
      assert s.voltage in vs <==> s.voltage == vs[0] || s.voltage in vs[1..];
    }
  }

  /**
   When every segment's voltage is listed once, the totals add up to the
   whole circuit length: no segment is lost or counted twice.
   */
  lemma {:induction false} TotalsConserveLength(vs: seq<int>, segs: seq<Segment>)
    requires StrictlyIncreasing(vs)
    requires forall i :: 0 <= i < |segs| ==> segs[i].voltage in vs
    ensures SumTotals(Totals(vs, segs)) == TotalLength(segs)
  {
    if |segs| == 0 {
      TotalsOfEmpty(vs);
    } else {
      var front := segs[..|segs| - 1];
      assert front + [segs[|segs| - 1]] == segs;
      TotalsConserveLength(vs, front);
      TotalsStep(vs, front, segs[|segs| - 1]);
    }
  }

  /** The per-voltage report accounts for the whole circuit length of the table. */
  lemma PerVoltageConservesLength(segs: seq<Segment>)
    ensures SumTotals(PerVoltage(segs)) == TotalLength(segs)
  {
    var vs := SortedVoltages(segs);
    forall i | 0 <= i < |segs|
      ensures segs[i].voltage in vs
    {
    }
    TotalsConserveLength(vs, segs);
  }

  // ---------------------------------------------------------------------
  // The whole run

  /**
   The per-voltage circuit length of a table of power lines. It raises
   `ValueError` when a circuit count or a voltage does not read as an
   integer.
   */
  function Extract(raws: seq<RawLine>, dist: (Coord, Coord) -> real): (r: Result<seq<(int, real)>, PyError>)
    ensures r.Failure? ==> r.error == ValueError
  {
    match Collect(raws, (raw: RawLine) => PrepareLine(raw, dist))
    case Failure(e) => Failure(e)
    case Success(lines) =>
      match Collect(SplitVoltages(lines), ToSegment)
      case Failure(e) => Failure(e)
      case Success(segs) => Success(PerVoltage(segs))
  }

  /** A circuit count that is not an integer stops the run. */
  lemma BadCircuitsFail(raws: seq<RawLine>, dist: (Coord, Coord) -> real, j: nat)
    requires j < |raws| && raws[j].circuits.Some? && ParseInt(raws[j].circuits.value).None?
    ensures Extract(raws, dist) == Failure(ValueError)
  {
    assert PrepareLine(raws[j], dist).Failure?;
  }

  /**
   A line tagged with three or more voltages stops the run: its original
   row keeps the whole `;`-separated tag, which does not read as an integer.
   */
  lemma ThreeVoltagesFail(raws: seq<RawLine>, dist: (Coord, Coord) -> real, j: nat)
    requires j < |raws| && raws[j].voltage.Some? && Count(raws[j].voltage.value, ';') >= 2
    ensures Extract(raws, dist).Failure?
  {
    var prepared := Collect(raws, (raw: RawLine) => PrepareLine(raw, dist));
    if prepared.Success? {
      var lines := prepared.value;
      var v := raws[j].voltage.value;
      assert lines[j] == PrepareLine(raws[j], dist).value;
      assert lines[j].voltage == v;
      ThreeVoltageRowFails(lines, j);
    }
  }

  /** A row with three or more voltages keeps its whole text after splitting, which does not convert. */
  lemma ThreeVoltageRowFails(lines: seq<Line>, j: nat)
    requires j < |lines| && Count(lines[j].voltage, ';') >= 2
    ensures ToSegment(SplitVoltages(lines)[j]).Failure?
  {
    var v := lines[j].voltage;
    CountPositiveHasChar(v, ';');
    SplitCount(v, ';');
    assert SplitVoltages(lines)[j] == lines[j];
  }

  lemma {:induction false} CountPositiveHasChar(s: string, c: char)
    ensures Count(s, c) > 0 ==> c in s
  {
    if |s| > 0 {
      CountPositiveHasChar(s[1..], c);
    }
  }
}
