// The checker driver around the multiply unit: the loops that produce the
// golden records (mode, a, b, expected result) and the loop that compares
// the expected results line by line with the results of a hardware run.
// Files are modelled as sequences of values or lines; writing, reading and
// running the simulator are not part of the model.

module MfuChecker {
  import opened Powers
  import opened Outcomes
  import opened FixedWidth
  import opened MultiplyUnit

  /** One test case: a mode and two operands, as given to the driver. */
  datatype Case = Case(mode: int, a: int, b: int)

  /** One golden record: the operands and the result, each read as signed. */
  datatype Record = Record(mode: int, a: int, b: int, out: int)

  /** Why producing a record stops the driver: an operand the 8-bit
      constructor rejects, or a mode for which the unit returns nothing
      (whose signed reading then fails). */
  datatype RunError = IntError(cause: Error) | NoOutput

  // ---------------------------------------------------------------------
  // Golden records
  // ---------------------------------------------------------------------

  /** The record the driver writes for one case: build both 8-bit operands,
      run the unit, read everything back as signed. */
  function GoldenRecord(c: Case): (r: Result<Record, RunError>)
    ensures r.Success? ==> r.value.mode == c.mode
  {
    var aa :- Make(c.a, 8).MapFailure(e => IntError(e));
    var bb :- Make(c.b, 8).MapFailure(e => IntError(e));
    if 0 <= c.mode <= 2 then
      MfuDefined(aa, bb, c.mode);
      Success(Record(c.mode, Signed(aa), Signed(bb), Signed(MFU(aa, bb, c.mode).value.value)))
    else
      Failure(NoOutput)
  }

  /** A record is produced exactly for modes 0..2 and operands in the 8-bit
      constructor's range [-2^7, 2^8). An operand out of range fails first;
      otherwise a mode outside 0..2 leaves nothing to read. */
  lemma GoldenRecordSpec(c: Case)
    ensures GoldenRecord(c).Success? <==> 0 <= c.mode <= 2 && -128 <= c.a < 256 && -128 <= c.b < 256
    ensures !(-128 <= c.a < 256 && -128 <= c.b < 256) ==> GoldenRecord(c) == Failure(IntError(OutOfRange))
    ensures -128 <= c.a < 256 && -128 <= c.b < 256 && !(0 <= c.mode <= 2) ==> GoldenRecord(c) == Failure(NoOutput)
  {
    assert Pow2(7) == 128 && Pow2(8) == 256;
  }

  /** A record holds the operands read as signed 8-bit values and the lane
      dot product of the mode. */
  lemma GoldenRecordValue(c: Case)
    requires 0 <= c.mode <= 2 && -128 <= c.a < 256 && -128 <= c.b < 256
    ensures GoldenRecord(c) == Success(Record(c.mode,
      if c.a < 128 then c.a else c.a - 256,
      if c.b < 128 then c.b else c.b - 256,
      LaneDot(Byte(c.a), Byte(c.b), LaneWidth(c.mode), 8 / LaneWidth(c.mode))))
  {
    var aa, bb := Byte(c.a), Byte(c.b);
    MfuDefined(aa, bb, c.mode);
    assert GoldenRecord(c) == Success(Record(c.mode, Signed(aa), Signed(bb), Signed(MFU(aa, bb, c.mode).value.value)));
    ByteSigned(c.a);
    ByteSigned(c.b);
    MfuIsLaneDot(aa, bb, c.mode);
  }

  /** An operand at or above 2^7 reads back as itself minus 2^8. */
  lemma ByteSigned(v: int)
    requires -128 <= v < 256
    ensures Signed(Byte(v)) == if v < 128 then v else v - 256
  {
    assert Pow2(7) == 128 && Pow2(8) == 256;
    if v < 128 {
      SignedOfMake(v, 8);
    } else {
      SignedOfMakeUpper(v, 8);
    }
  }

  /** The 8-bit value the constructor builds from an operand in its range. */
  function Byte(v: int): (x: Int)
    requires -128 <= v < 256
    ensures Make(v, 8) == Success(x)
  {
    assert Pow2(7) == 128 && Pow2(8) == 256;
    Make(v, 8).value
  }

  /** The outcomes of running a step on each case in order; the first
      case that fails stops the run with its error. */
  function RunAll<C, R, E>(step: C -> Result<R, E>, cases: seq<C>): (r: Result<seq<R>, E>)
    ensures r.Success? ==> |r.value| == |cases|
  {
    if |cases| == 0 then Success([])
    else
      var init :- RunAll(step, cases[..|cases| - 1]);
      var last :- step(cases[|cases| - 1]);
      Success(init + [last])
  }

  /** The run succeeds exactly when every case does; then result k is the
      step's result on case k; otherwise the error is that of the first
      failing case. */
  lemma {:induction false} RunAllCases<C, R, E>(step: C -> Result<R, E>, cases: seq<C>)
    ensures RunAll(step, cases).Success? <==> forall k :: 0 <= k < |cases| ==> step(cases[k]).Success?
    ensures RunAll(step, cases).Success? ==>
      forall k :: 0 <= k < |cases| ==> RunAll(step, cases).value[k] == step(cases[k]).value
    ensures RunAll(step, cases).Failure? ==>
      exists k :: 0 <= k < |cases| && step(cases[k]) == Failure(RunAll(step, cases).error)
        && forall j :: 0 <= j < k ==> step(cases[j]).Success?
  {
    if |cases| > 0 {
      var init := cases[..|cases| - 1];
      RunAllCases(step, init);
      assert forall k :: 0 <= k < |init| ==> init[k] == cases[k];
      if RunAll(step, init).Failure? {
        var k :| 0 <= k < |init| && step(init[k]) == Failure(RunAll(step, init).error)
          && forall j :: 0 <= j < k ==> step(init[j]).Success?;
        assert step(cases[k]) == Failure(RunAll(step, cases).error);
      } else if step(cases[|cases| - 1]).Failure? {
        assert step(cases[|init|]) == Failure(RunAll(step, cases).error);
      }
    }
  }

  /** A run whose first j cases already fail ends with that failure
      whatever follows. */
  lemma {:induction false} RunAllFailedTake<C, R, E>(step: C -> Result<R, E>, cases: seq<C>, j: nat)
    requires j <= |cases| && RunAll(step, cases[..j]).Failure?
    ensures RunAll(step, cases) == RunAll(step, cases[..j])
    decreases |cases|
  {
    if j == |cases| {
      assert cases[..j] == cases;
    } else {
      var init := cases[..|cases| - 1];
      assert init[..j] == cases[..j];
      RunAllFailedTake(step, init, j);
    }
  }

  /** Case i of a run whose first i cases succeeded extends the results
      when it succeeds ... */
  lemma RunAllNext<C, R, E>(step: C -> Result<R, E>, cases: seq<C>, i: nat)
    requires i < |cases| && RunAll(step, cases[..i]).Success? && step(cases[i]).Success?
    ensures RunAll(step, cases[..i + 1]) == Success(RunAll(step, cases[..i]).value + [step(cases[i]).value])
  {
    assert cases[..i + 1][..i] == cases[..i];
  }

  /** ... and ends the whole run with its error when it fails. */
  lemma RunAllStop<C, R, E>(step: C -> Result<R, E>, cases: seq<C>, i: nat)
    requires i < |cases| && RunAll(step, cases[..i]).Success? && step(cases[i]).Failure?
    ensures RunAll(step, cases) == Failure(step(cases[i]).error)
  {
    assert cases[..i + 1][..i] == cases[..i];
    RunAllFailedTake(step, cases, i + 1);
  }

  /** The records written for a list of cases. */
  function RecordsFor(cases: seq<Case>): Result<seq<Record>, RunError>
  {
    RunAll(GoldenRecord, cases)
  }

  /** The loop over an explicit list of cases: apply the step to each case
      in turn, collecting the results, and stop at the first failure. */
  method RunSteps<C, R, E>(step: C -> Result<R, E>, cases: seq<C>) returns (r: Result<seq<R>, E>)
    ensures r == RunAll(step, cases)
  {
    var results: seq<R> := [];
    var i := 0;
    while i < |cases|
      invariant 0 <= i <= |cases|
      invariant RunAll(step, cases[..i]) == Success(results)
    {
      var out := step(cases[i]);
      if out.Failure? {
        RunAllStop(step, cases, i);
        return Failure(out.error);
      }
      RunAllNext(step, cases, i);
      results := results + [out.value];
      i := i + 1;
    }
    assert cases[..i] == cases;
    return Success(results);
  }

  /** The driver for a list of cases: one golden record per case, in order,
      stopping at the first case that fails. */
  method GoldenRecords(cases: seq<Case>) returns (r: Result<seq<Record>, RunError>)
    ensures r == RecordsFor(cases)
  {
    r := RunSteps(GoldenRecord, cases);
  }

  // ---------------------------------------------------------------------
  // The exhaustive case list
  // ---------------------------------------------------------------------

  /** The cases (m, a, 0), ..., (m, a, n - 1). */
  function Row(m: int, a: int, n: nat): (r: seq<Case>)
    ensures |r| == n
  {
    seq(n, b => Case(m, a, b))
  }

  /** The rows for a = 0, ..., count - 1 of mode m. */
  function Rows(m: int, n: nat, count: nat): seq<Case>
  {
    if count == 0 then [] else Rows(m, n, count - 1) + Row(m, count - 1, n)
  }

  /** The blocks for modes 0, ..., count - 1. */
  function Modes(n: nat, count: nat): seq<Case>
  {
    if count == 0 then [] else Modes(n, count - 1) + Rows(count - 1, n, n)
  }

  /** Every mode, then every a, then every b below the limit; a negative
      limit gives empty ranges. */
  function Exhaustive(lim: int): seq<Case>
  {
    Modes(if lim < 0 then 0 else lim, 3)
  }

  lemma {:induction false} RowsContents(m: int, n: nat, count: nat, c: Case)
    ensures c in Rows(m, n, count) <==> c.mode == m && 0 <= c.a < count && 0 <= c.b < n
  {
    if count > 0 {
      var prev, row := Rows(m, n, count - 1), Row(m, count - 1, n);
      RowsContents(m, n, count - 1, c);
      assert Rows(m, n, count) == prev + row;
      InAppend(c, prev, row);
      if c.mode == m && c.a == count - 1 && 0 <= c.b < n {
        assert row[c.b] == c;
      }
    }
  }

  lemma {:induction false} RowsSize(m: int, n: nat, count: nat)
    ensures |Rows(m, n, count)| == count * n
  {
    if count > 0 {
      RowsSize(m, n, count - 1);
      assert count * n == (count - 1) * n + n;
    }
  }

  lemma {:induction false} ModesSound(n: nat, count: nat, c: Case)
    ensures c in Modes(n, count) ==> 0 <= c.mode < count && 0 <= c.a < n && 0 <= c.b < n
  {
    if count > 0 {
      var prev, block := Modes(n, count - 1), Rows(count - 1, n, n);
      assert Modes(n, count) == prev + block;
      InAppend(c, prev, block);
      if c in prev {
        ModesSound(n, count - 1, c);
      } else if c in block {
        RowsContents(count - 1, n, n, c);
      }
    } else {
      assert Modes(n, count) == [];
    }
  }

  lemma {:induction false} ModesComplete(n: nat, count: nat, c: Case)
    ensures 0 <= c.mode < count && 0 <= c.a < n && 0 <= c.b < n ==> c in Modes(n, count)
  {
    if 0 <= c.mode < count && 0 <= c.a < n && 0 <= c.b < n {
      var prev, block := Modes(n, count - 1), Rows(count - 1, n, n);
      assert Modes(n, count) == prev + block;
      InAppend(c, prev, block);
      if c.mode < count - 1 {
        ModesComplete(n, count - 1, c);
      } else {
        RowsContents(count - 1, n, n, c);
      }
    }
  }

  lemma InAppend<T>(x: T, xs: seq<T>, ys: seq<T>)
    ensures x in xs + ys <==> x in xs || x in ys
  {
  }

  lemma {:induction false} ModesSize(n: nat, count: nat)
    ensures |Modes(n, count)| == count * (n * n)
  {
    if count > 0 {
      ModesSize(n, count - 1);
      RowsSize(count - 1, n, n);
      assert count * (n * n) == (count - 1) * (n * n) + n * n;
    }
  }

  /** The exhaustive list holds exactly the cases with mode in 0..2 and
      both operands in [0, lim), 3 * lim * lim of them. */
  lemma ExhaustiveContents(lim: int, c: Case)
    ensures c in Exhaustive(lim) <==> 0 <= c.mode <= 2 && 0 <= c.a < lim && 0 <= c.b < lim
    ensures |Exhaustive(lim)| == if lim < 0 then 0 else 3 * (lim * lim)
  {
    ModesSound(if lim < 0 then 0 else lim, 3, c);
    ModesComplete(if lim < 0 then 0 else lim, 3, c);
    ModesSize(if lim < 0 then 0 else lim, 3);
  }

  /** The three nested loops of the exhaustive driver over mode, a and b,
      listing the cases in the order the driver visits them. */
  method ExhaustiveCases(lim: int) returns (cases: seq<Case>)
    ensures cases == Exhaustive(lim)
  {
    var n: nat := if lim < 0 then 0 else lim;
    cases := [];
    var m := 0;
    while m < 3
      invariant 0 <= m <= 3
      invariant cases == Modes(n, m)
    {
      var a := 0;
      while a < n
        invariant 0 <= a <= n
        invariant cases == Modes(n, m) + Rows(m, n, a)
      {
        var b := 0;
        while b < n
          invariant 0 <= b <= n
          invariant cases == Modes(n, m) + Rows(m, n, a) + Row(m, a, b)
        {
          cases := cases + [Case(m, a, b)];
          b := b + 1;
        }
        assert Rows(m, n, a + 1) == Rows(m, n, a) + Row(m, a, n);
        a := a + 1;
      }
      m := m + 1;
    }
  }

  /** The exhaustive driver: one golden record per case, in loop order,
      stopping at the first case that fails. */
  method RunExhaustive(lim: int) returns (r: Result<seq<Record>, RunError>)
    ensures r == RecordsFor(Exhaustive(lim))
  {
    var cases := ExhaustiveCases(lim);
    r := GoldenRecords(cases);
  }

  /** With the default limit 2^8 (or any smaller one) every case succeeds
      and record k is the golden record of case k; any larger limit stops at
      an operand the 8-bit constructor rejects. */
  lemma ExhaustiveRun(lim: int)
    ensures lim <= 256 ==> RecordsFor(Exhaustive(lim)).Success?
    ensures lim > 256 ==> RecordsFor(Exhaustive(lim)) == Failure(IntError(OutOfRange))
  {
    var cases := Exhaustive(lim);
    RunAllCases(GoldenRecord, cases);
    if lim <= 256 {
      forall k | 0 <= k < |cases|
        ensures GoldenRecord(cases[k]).Success?
      {
        ExhaustiveContents(lim, cases[k]);
        GoldenRecordSpec(cases[k]);
      }
    } else {
      var c := Case(0, 0, 256);
      ExhaustiveContents(lim, c);
      GoldenRecordSpec(c);
      var i :| 0 <= i < |cases| && cases[i] == c;
      assert !GoldenRecord(cases[i]).Success?;
      var k :| 0 <= k < |cases| && GoldenRecord(cases[k]) == Failure(RecordsFor(cases).error)
        && forall j :: 0 <= j < k ==> GoldenRecord(cases[j]).Success?;
      ExhaustiveContents(lim, cases[k]);
      GoldenRecordSpec(cases[k]);
    }
  }

  // ---------------------------------------------------------------------
  // Splitting an input line
  // ---------------------------------------------------------------------

  /** Python's str.split with an explicit one-character separator. */
  function Split(s: string, sep: char): (parts: seq<string>)
    ensures |parts| >= 1
    decreases |s|
  {
    if |s| == 0 then [""]
    else
      var rest := Split(s[1..], sep);
      if s[0] == sep then [""] + rest
      else [[s[0]] + rest[0]] + rest[1..]
  }

  /** The parts glued back together with the separator. */
  function Join(parts: seq<string>, sep: char): string
    requires |parts| >= 1
  {
    if |parts| == 1 then parts[0] else parts[0] + [sep] + Join(parts[1..], sep)
  }

  /** No part of a split holds the separator. */
  lemma {:induction false} SplitPartsClean(s: string, sep: char)
    ensures forall k :: 0 <= k < |Split(s, sep)| ==> sep !in Split(s, sep)[k]
    decreases |s|
  {
    if |s| > 0 {
      SplitPartsClean(s[1..], sep);
      var rest := Split(s[1..], sep);
      if s[0] != sep {
        assert sep !in rest[0];
        assert forall k :: 1 <= k < |rest| ==> sep !in rest[k];
      }
    }
  }

  /** Splitting loses nothing. */
  lemma {:induction false} JoinSplit(s: string, sep: char)
    ensures Join(Split(s, sep), sep) == s
    decreases |s|
  {
    if |s| > 0 {
      var rest := Split(s[1..], sep);
      JoinSplit(s[1..], sep);
      if s[0] == sep {
        assert ([""] + rest)[1..] == rest;
      } else if |rest| > 1 {
        var parts := [[s[0]] + rest[0]] + rest[1..];
        assert parts[1..] == rest[1..];
        assert Join(rest, sep) == rest[0] + [sep] + Join(rest[1..], sep);
      }
    }
  }

  /** Separator-free parts come back from splitting their join. */
  lemma {:induction false} SplitJoin(parts: seq<string>, sep: char)
    requires |parts| >= 1
    requires forall k :: 0 <= k < |parts| ==> sep !in parts[k]
    ensures Split(Join(parts, sep), sep) == parts
  {
    if |parts| == 1 {
      SplitPrefix(parts[0], "", sep);
      assert parts[0] + "" == parts[0];
    } else {
      var tail := Join(parts[1..], sep);
      SplitJoin(parts[1..], sep);
      SplitPrefix(parts[0], [sep] + tail, sep);
      assert ([sep] + tail)[1..] == tail;
      assert Split([sep] + tail, sep) == [""] + parts[1..];
      assert parts[0] + [sep] + tail == parts[0] + ([sep] + tail);
      assert parts[0] + "" == parts[0];
    }
  }

  /** A separator-free prefix joins the first part of what follows it. */
  lemma {:induction false} SplitPrefix(x: string, t: string, sep: char)
    requires sep !in x
    ensures Split(x + t, sep) == [x + Split(t, sep)[0]] + Split(t, sep)[1..]
    decreases |x|
  {
    if |x| == 0 {
      assert x + t == t;
      assert x + Split(t, sep)[0] == Split(t, sep)[0];
    } else {
      var u := Split(t, sep);
      SplitPrefix(x[1..], t, sep);
      var rest := Split(x[1..] + t, sep);
      assert Split(x + t, sep) == [[x[0]] + rest[0]] + rest[1..] by {
        assert (x + t)[1..] == x[1..] + t;
        assert (x + t)[0] == x[0] != sep;
      }
      assert [x[0]] + rest[0] == x + u[0] by {
        assert rest[0] == x[1..] + u[0];
        assert [x[0]] + (x[1..] + u[0]) == x + u[0];
      }
      assert rest[1..] == u[1..];
    }
  }

  /** An input line "m,a,b" with comma-free fields splits into three. */
  lemma InputLineSplits(m: string, a: string, b: string)
    requires ',' !in m && ',' !in a && ',' !in b
    ensures Split(m + [','] + a + [','] + b, ',') == [m, a, b]
  {
    var parts := [m, a, b];
    assert parts[1..] == [a, b] && parts[1..][1..] == [b];
    assert Join([a, b], ',') == a + [','] + b;
    assert Join(parts, ',') == m + [','] + (a + [','] + b);
    assert m + [','] + a + [','] + b == m + [','] + (a + [','] + b);
    SplitJoin(parts, ',');
  }

  // ---------------------------------------------------------------------
  // Comparing expected and actual results
  // ---------------------------------------------------------------------

  /** A reported mismatch: the 0-based line, the input line's three fields,
      and the expected and actual results. */
  datatype Report = Report(line: nat, mode: string, a: string, b: string, expected: string, got: string)

  /** The comparison stops with an error when a mismatching input line does
      not split into exactly three comma-separated fields. */
  datatype CompareError = MalformedInput(line: nat)

  /** Python's s[:-1]: the string without its last character, "" for "". */
  function Chop(s: string): (r: string)
    ensures |r| == if |s| == 0 then 0 else |s| - 1
  {
    if |s| == 0 then s else s[..|s| - 1]
  }

  /** Line k of a stream as readline()[:-1] reads it: "" past the end. */
  function Field(lines: seq<string>, k: nat): (r: string)
    ensures |r| > 0 ==> k < |lines|
  {
    if k < |lines| then Chop(lines[k]) else ""
  }

  /** All three streams yield a non-empty line at k. */
  predicate Live(ins: seq<string>, exps: seq<string>, acts: seq<string>, k: nat)
  {
    |Field(ins, k)| > 0 && |Field(exps, k)| > 0 && |Field(acts, k)| > 0
  }

  predicate Mismatch(exps: seq<string>, acts: seq<string>, k: nat)
  {
    Field(exps, k) != Field(acts, k)
  }

  predicate WellFormed(ins: seq<string>, k: nat)
  {
    |Split(Field(ins, k), ',')| == 3
  }

  /** The report for line k: the input line's three fields, then the
      expected and the actual result. */
  function ReportAt(ins: seq<string>, exps: seq<string>, acts: seq<string>, k: nat): (r: Report)
    requires WellFormed(ins, k)
    ensures r.line == k && r.expected == Field(exps, k) && r.got == Field(acts, k)
  {
    var parts := Split(Field(ins, k), ',');
    Report(k, parts[0], parts[1], parts[2], Field(exps, k), Field(acts, k))
  }

  /** A report's three fields, rejoined with commas, give back its input
      line, and none of them holds a comma. */
  lemma ReportFields(ins: seq<string>, exps: seq<string>, acts: seq<string>, k: nat)
    requires WellFormed(ins, k)
    ensures var r := ReportAt(ins, exps, acts, k);
      Join([r.mode, r.a, r.b], ',') == Field(ins, k) && ',' !in r.mode && ',' !in r.a && ',' !in r.b
  {
    var parts := Split(Field(ins, k), ',');
    JoinSplit(Field(ins, k), ',');
    SplitPartsClean(Field(ins, k), ',');
    assert parts == [parts[0], parts[1], parts[2]];
  }

  /** The mismatching lines among the first n, in increasing order. */
  function MismatchLines(exps: seq<string>, acts: seq<string>, n: nat): seq<nat>
  {
    if n == 0 then []
    else MismatchLines(exps, acts, n - 1) + (if Mismatch(exps, acts, n - 1) then [n - 1] else [])
  }

  /** Every listed line is below n and mismatches. */
  lemma {:induction false} MismatchLinesSound(exps: seq<string>, acts: seq<string>, n: nat)
    ensures forall i :: 0 <= i < |MismatchLines(exps, acts, n)| ==>
      MismatchLines(exps, acts, n)[i] < n && Mismatch(exps, acts, MismatchLines(exps, acts, n)[i])
  {
    if n > 0 {
      MismatchLinesSound(exps, acts, n - 1);
    }
  }

  /** Every mismatching line below n is listed, and the list is strictly
      increasing, so each line is reported once and in file order. */
  lemma {:induction false} MismatchLinesComplete(exps: seq<string>, acts: seq<string>, n: nat)
    ensures forall k :: 0 <= k < n && Mismatch(exps, acts, k) ==> k in MismatchLines(exps, acts, n)
    ensures forall i, j :: 0 <= i < j < |MismatchLines(exps, acts, n)| ==>
      MismatchLines(exps, acts, n)[i] < MismatchLines(exps, acts, n)[j]
  {
    if n > 0 {
      MismatchLinesComplete(exps, acts, n - 1);
      MismatchLinesSound(exps, acts, n - 1);
    }
  }

  /** The reports for a list of lines, one per line, in the same order. */
  function ReportsFor(ins: seq<string>, exps: seq<string>, acts: seq<string>, lines: seq<nat>): (r: seq<Report>)
    requires forall i :: 0 <= i < |lines| ==> WellFormed(ins, lines[i])
    ensures |r| == |lines|
  {
    if |lines| == 0 then []
    else ReportsFor(ins, exps, acts, lines[..|lines| - 1]) + [ReportAt(ins, exps, acts, lines[|lines| - 1])]
  }

  /** Report i is the report of line i of the list. */
  lemma {:induction false} ReportsForLines(ins: seq<string>, exps: seq<string>, acts: seq<string>, lines: seq<nat>)
    requires forall i :: 0 <= i < |lines| ==> WellFormed(ins, lines[i])
    ensures forall i :: 0 <= i < |lines| ==> ReportsFor(ins, exps, acts, lines)[i] == ReportAt(ins, exps, acts, lines[i])
  {
    if |lines| > 0 {
      var init := lines[..|lines| - 1];
      ReportsForLines(ins, exps, acts, init);
      assert forall i :: 0 <= i < |init| ==> init[i] == lines[i];
    }
  }

  /** The reports for the mismatching lines among the first n. */
  function MismatchReports(ins: seq<string>, exps: seq<string>, acts: seq<string>, n: nat): seq<Report>
    requires forall k :: 0 <= k < n && Mismatch(exps, acts, k) ==> WellFormed(ins, k)
  {
    MismatchLinesSound(exps, acts, n);
    ReportsFor(ins, exps, acts, MismatchLines(exps, acts, n))
  }

  /** One more line adds its report exactly when it mismatches. */
  lemma MismatchReportsStep(ins: seq<string>, exps: seq<string>, acts: seq<string>, n: nat)
    requires forall k :: 0 <= k <= n && Mismatch(exps, acts, k) ==> WellFormed(ins, k)
    ensures MismatchReports(ins, exps, acts, n + 1) ==
      MismatchReports(ins, exps, acts, n) + (if Mismatch(exps, acts, n) then [ReportAt(ins, exps, acts, n)] else [])
  {
    var lines := MismatchLines(exps, acts, n);
    MismatchLinesSound(exps, acts, n);
    if Mismatch(exps, acts, n) {
      var more := lines + [n];
      assert MismatchLines(exps, acts, n + 1) == more;
      assert more[..|lines|] == lines;
      assert ReportsFor(ins, exps, acts, more) == ReportsFor(ins, exps, acts, lines) + [ReportAt(ins, exps, acts, n)];
    } else {
      assert MismatchLines(exps, acts, n + 1) == lines;
    }
  }

  /** What one more line that all three streams yield, and that is well
      formed if it mismatches, adds to the comparison loop's invariants. */
  lemma CompareStep(ins: seq<string>, exps: seq<string>, acts: seq<string>, n: nat)
    requires forall k :: 0 <= k < n ==> Live(ins, exps, acts, k)
    requires forall k :: 0 <= k < n && Mismatch(exps, acts, k) ==> WellFormed(ins, k)
    requires Live(ins, exps, acts, n) && (Mismatch(exps, acts, n) ==> WellFormed(ins, n))
    ensures forall k :: 0 <= k < n + 1 ==> Live(ins, exps, acts, k)
    ensures forall k :: 0 <= k < n + 1 && Mismatch(exps, acts, k) ==> WellFormed(ins, k)
    ensures MismatchReports(ins, exps, acts, n + 1) ==
      MismatchReports(ins, exps, acts, n) + (if Mismatch(exps, acts, n) then [ReportAt(ins, exps, acts, n)] else [])
  {
    MismatchReportsStep(ins, exps, acts, n);
  }

  /** The comparison loop: read one line from each stream, stop when any of
      them is empty, report a mismatch with the input line's fields. */
  method CompareOutputs(ins: seq<string>, exps: seq<string>, acts: seq<string>)
    returns (reports: seq<Report>, checked: nat, failure: Option<CompareError>)
    ensures checked <= |ins| && checked <= |exps| && checked <= |acts|
    ensures forall k :: 0 <= k < checked ==> Live(ins, exps, acts, k)
    ensures forall k :: 0 <= k < checked && Mismatch(exps, acts, k) ==> WellFormed(ins, k)
    ensures failure.None? ==> !Live(ins, exps, acts, checked)
    ensures failure.Some? ==>
      failure == Some(MalformedInput(checked)) && Live(ins, exps, acts, checked)
      && Mismatch(exps, acts, checked) && !WellFormed(ins, checked)
    ensures reports == MismatchReports(ins, exps, acts, checked)
  {
    reports := [];
    checked := 0;
    while true
      invariant checked <= |ins| && checked <= |exps| && checked <= |acts|
      invariant forall k :: 0 <= k < checked ==> Live(ins, exps, acts, k)
      invariant forall k :: 0 <= k < checked && Mismatch(exps, acts, k) ==> WellFormed(ins, k)
      invariant reports == MismatchReports(ins, exps, acts, checked)
      decreases |ins| - checked
    {
      var i := Field(ins, checked);
      var o := Field(exps, checked);
      var t := Field(acts, checked);
      if |i| == 0 || |o| == 0 || |t| == 0 {
        return reports, checked, None;
      }
      if o != t && |Split(i, ',')| != 3 {
        return reports, checked, Some(MalformedInput(checked));
      }
      CompareStep(ins, exps, acts, checked);
      if o != t {
        reports := reports + [ReportAt(ins, exps, acts, checked)];
      }
      checked := checked + 1;
    }
  }
}
