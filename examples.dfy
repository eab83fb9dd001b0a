/**
 The outputs listed in the docstring and in the self-test table of
 superzip.py, derived from the general properties. The iterables are
 `range(10)`, `reversed(range(10))` or `reversed(range(5))`, and `'abcdef'`.
 */
module ZiplusExamples {
  import opened Values
  import opened ZiplusSpec
  import opened ZiplusProperties

  /** `range(n)` */
  function Range(n: nat): seq<Value> { seq(n, i => IntValue(i)) }

  /** `reversed(range(n))` */
  function Reversed(n: nat): seq<Value> { seq(n, i => IntValue(n - 1 - i)) }

  /** Row `j` of the `'abcdef'` column, or `after` once it has run dry. */
  function Letter(j: nat, after: Value): Value
  {
    if j < 6 then StrValue(["abcdef"[j]]) else after
  }

  /** The three iterables of every example; `b` is the length of the reversed range. */
  function Args(b: nat): seq<Arg>
  {
    [Many(Range(10)), Many(Reversed(b)), Many(Chars("abcdef"))]
  }

  lemma ArgsColumns(b: nat)
    ensures Columns(Args(b)) == [Range(10), Reversed(b), Chars("abcdef")]
    ensures |Columns(Args(b))[0]| == 10 && |Columns(Args(b))[1]| == b && |Columns(Args(b))[2]| == 6
  {
    assert Columns(Args(b)) == [Range(10), Reversed(b), Chars("abcdef")];
  }

  /** The longest column is `range(10)`; the last elements of the other two are 0 and `'f'`. */
  lemma ArgsEnds(b: nat)
    requires 0 < b <= 10
    ensures LastOr(Columns(Args(b))[1]) == IntValue(0)
    ensures LastOr(Columns(Args(b))[2]) == StrValue("f")
  {
    ArgsColumns(b);
  }

  /** Entry `i` of row `j`: the column's own element while it lasts, then what its fill rule supplies. */
  lemma Entry(cols: seq<seq<Value>>, fills: seq<Fill>, j: nat, i: nat)
    requires |fills| == |cols| && j < |Generate(cols, fills).rows| && i < |cols|
    requires j < |cols[i]| || fills[i] == Previous || fills[i].Constant?
    ensures |Generate(cols, fills).rows[j]| == |cols|
    ensures Generate(cols, fills).rows[j][i] ==
              if j < |cols[i]| then cols[i][j]
              else if fills[i] == Previous then LastOr(cols[i])
              else fills[i].v
  {
    if j < |cols[i]| {
      RowCell(cols, fills, j, i);
    } else if fills[i] == Previous {
      PreviousRepeatsLast(cols, fills, i, j);
    } else {
      ConstantFillsExhausted(cols, fills, i, j);
    }
  }

  /** A row of three entries is the row of those entries. */
  lemma Triple(row: seq<Value>, a: Value, b: Value, c: Value)
    requires |row| == 3 && row[0] == a && row[1] == b && row[2] == c
    ensures row == [a, b, c]
  {
  }

  /**
   Docstring example at lines 39-53: `(Previous, StopIteration, Previous)`;
   the `StopIteration` column ends the iteration after its tenth row, the
   string column repeats `'f'`.
   */
  lemma PreviousStopPrevious()
    ensures var r := Ziplus(Args(10), Given([Previous, Stop, Previous]));
            && r.outcome == Done && |r.rows| == 10
            && forall j :: 0 <= j < 10 ==>
                 r.rows[j] == [IntValue(j), IntValue(9 - j), Letter(j, StrValue("f"))]
  {
    var fills := [Previous, Stop, Previous];
    ArgsColumns(10);
    var cols := Columns(Args(10));
    StopFiresFirst(cols, fills, 1);
    forall j | 0 <= j < 10
      ensures Generate(cols, fills).rows[j] == [IntValue(j), IntValue(9 - j), Letter(j, StrValue("f"))]
    {
      Entry(cols, fills, j, 0);
      Entry(cols, fills, j, 1);
      Entry(cols, fills, j, 2);
      Triple(Generate(cols, fills).rows[j], IntValue(j), IntValue(9 - j), Letter(j, StrValue("f")));
    }
  }

  /**
   Docstring example at lines 54-68 and self-test at lines 201-212:
   `(Previous, StopIteration, None)`; ten rows, `None` once the string runs dry.
   */
  lemma PreviousStopNone()
    ensures var r := Ziplus(Args(10), Given([Previous, Stop, Constant(NoneValue)]));
            && r.outcome == Done && |r.rows| == 10
            && forall j :: 0 <= j < 10 ==>
                 r.rows[j] == [IntValue(j), IntValue(9 - j), Letter(j, NoneValue)]
  {
    var fills := [Previous, Stop, Constant(NoneValue)];
    ArgsColumns(10);
    var cols := Columns(Args(10));
    StopFiresFirst(cols, fills, 1);
    forall j | 0 <= j < 10
      ensures Generate(cols, fills).rows[j] == [IntValue(j), IntValue(9 - j), Letter(j, NoneValue)]
    {
      Entry(cols, fills, j, 0);
      Entry(cols, fills, j, 1);
      Entry(cols, fills, j, 2);
      Triple(Generate(cols, fills).rows[j], IntValue(j), IntValue(9 - j), Letter(j, NoneValue));
    }
  }

  /** Column `b` of the examples over `reversed(range(5))`: 4 down to 0, then 0 repeated. */
  function Countdown(j: nat): Value
  {
    if j < 5 then IntValue(4 - j) else IntValue(0)
  }

  /**
   Docstring example at lines 69-79: `(Previous, Previous, StopIteration)`
   over `reversed(range(5))`; the string column stops the iteration after six
   rows, the shorter reversed range repeats its last element 0.
   */
  lemma ShortPreviousStop()
    ensures var r := Ziplus(Args(5), Given([Previous, Previous, Stop]));
            && r.outcome == Done && |r.rows| == 6
            && forall j :: 0 <= j < 6 ==>
                 r.rows[j] == [IntValue(j), Countdown(j), Letter(j, NoneValue)]
  {
    var fills := [Previous, Previous, Stop];
    ArgsColumns(5);
    ArgsEnds(5);
    var cols := Columns(Args(5));
    StopFiresFirst(cols, fills, 2);
    forall j | 0 <= j < 6
      ensures Generate(cols, fills).rows[j] == [IntValue(j), Countdown(j), Letter(j, NoneValue)]
    {
      Entry(cols, fills, j, 0);
      Entry(cols, fills, j, 1);
      Entry(cols, fills, j, 2);
      Triple(Generate(cols, fills).rows[j], IntValue(j), Countdown(j), Letter(j, NoneValue));
    }
  }

  /** `IndexError("Oh no!")` */
  const OhNo := Exception("IndexError", "Oh no!")

  /**
   Docstring example at lines 80-95: `(Previous, Previous, IndexError("Oh no!"))`
   over `reversed(range(5))`; six rows, then the exception is raised.
   */
  lemma ShortPreviousRaise()
    ensures var r := Ziplus(Args(5), Given([Previous, Previous, Raise(OhNo)]));
            && r.outcome == Raised(OhNo) && |r.rows| == 6
            && forall j :: 0 <= j < 6 ==>
                 r.rows[j] == [IntValue(j), Countdown(j), Letter(j, NoneValue)]
  {
    var fills := [Previous, Previous, Raise(OhNo)];
    ArgsColumns(5);
    ArgsEnds(5);
    var cols := Columns(Args(5));
    RaiseFiresFirst(cols, fills, 2);
    forall j | 0 <= j < 6
      ensures Generate(cols, fills).rows[j] == [IntValue(j), Countdown(j), Letter(j, NoneValue)]
    {
      Entry(cols, fills, j, 0);
      Entry(cols, fills, j, 1);
      Entry(cols, fills, j, 2);
      Triple(Generate(cols, fills).rows[j], IntValue(j), Countdown(j), Letter(j, NoneValue));
    }
  }

  /** Self-test at lines 173-180: `defaults` omitted; plain `zip`, six rows. */
  lemma DefaultsOmitted()
    ensures var r := Ziplus(Args(10), Omitted);
            && r.outcome == Done && |r.rows| == 6
            && forall j :: 0 <= j < 6 ==>
                 r.rows[j] == [IntValue(j), IntValue(9 - j), Letter(j, NoneValue)]
  {
    var fills := seq(3, _ => Stop);
    ArgsColumns(10);
    var cols := Columns(Args(10));
    assert Ziplus(Args(10), Omitted) == Generate(cols, fills);
    StopFiresFirst(cols, fills, 2);
    forall j | 0 <= j < 6
      ensures Generate(cols, fills).rows[j] == [IntValue(j), IntValue(9 - j), Letter(j, NoneValue)]
    {
      Entry(cols, fills, j, 0);
      Entry(cols, fills, j, 1);
      Entry(cols, fills, j, 2);
      Triple(Generate(cols, fills).rows[j], IntValue(j), IntValue(9 - j), Letter(j, NoneValue));
    }
  }

  /** Self-test at lines 181-192: `Previous` for every column; ten rows. */
  lemma AllPrevious()
    ensures var r := Ziplus(Args(10), Given([Previous, Previous, Previous]));
            && r.outcome == Done && |r.rows| == 10
            && forall j :: 0 <= j < 10 ==>
                 r.rows[j] == [IntValue(j), IntValue(9 - j), Letter(j, StrValue("f"))]
  {
    var fills := [Previous, Previous, Previous];
    ArgsColumns(10);
    var cols := Columns(Args(10));
    NoHaltingRules(cols, fills);
    assert MaxLen(cols) == 10;
    forall j | 0 <= j < 10
      ensures Generate(cols, fills).rows[j] == [IntValue(j), IntValue(9 - j), Letter(j, StrValue("f"))]
    {
      Entry(cols, fills, j, 0);
      Entry(cols, fills, j, 1);
      Entry(cols, fills, j, 2);
      Triple(Generate(cols, fills).rows[j], IntValue(j), IntValue(9 - j), Letter(j, StrValue("f")));
    }
  }

  /** Self-test at lines 193-200: `(Previous, None, StopIteration)`; six rows. */
  lemma PreviousNoneStop()
    ensures var r := Ziplus(Args(10), Given([Previous, Constant(NoneValue), Stop]));
            && r.outcome == Done && |r.rows| == 6
            && forall j :: 0 <= j < 6 ==>
                 r.rows[j] == [IntValue(j), IntValue(9 - j), Letter(j, NoneValue)]
  {
    var fills := [Previous, Constant(NoneValue), Stop];
    ArgsColumns(10);
    var cols := Columns(Args(10));
    StopFiresFirst(cols, fills, 2);
    forall j | 0 <= j < 6
      ensures Generate(cols, fills).rows[j] == [IntValue(j), IntValue(9 - j), Letter(j, NoneValue)]
    {
      Entry(cols, fills, j, 0);
      Entry(cols, fills, j, 1);
      Entry(cols, fills, j, 2);
      Triple(Generate(cols, fills).rows[j], IntValue(j), IntValue(9 - j), Letter(j, NoneValue));
    }
  }

  /**
   Self-test at lines 213-221: `(Previous, StopIteration, IndexError("Oh no!"))`;
   six rows, then the exception, since the string column runs dry before the
   `StopIteration` column does.
   */
  lemma PreviousStopRaise()
    ensures var r := Ziplus(Args(10), Given([Previous, Stop, Raise(OhNo)]));
            && r.outcome == Raised(OhNo) && |r.rows| == 6
            && forall j :: 0 <= j < 6 ==>
                 r.rows[j] == [IntValue(j), IntValue(9 - j), Letter(j, NoneValue)]
  {
    var fills := [Previous, Stop, Raise(OhNo)];
    ArgsColumns(10);
    var cols := Columns(Args(10));
    RaiseFiresFirst(cols, fills, 2);
    forall j | 0 <= j < 6
      ensures Generate(cols, fills).rows[j] == [IntValue(j), IntValue(9 - j), Letter(j, NoneValue)]
    {
      Entry(cols, fills, j, 0);
      Entry(cols, fills, j, 1);
      Entry(cols, fills, j, 2);
      Triple(Generate(cols, fills).rows[j], IntValue(j), IntValue(9 - j), Letter(j, NoneValue));
    }
  }

  /** `ziplus('ab', defaults=(Previous,))`: a string argument is iterated, one character per row. */
  lemma StringArgument()
    ensures Ziplus([Scalar(StrValue("ab"))], Given([Previous])) == Result([[StrValue("a")], [StrValue("b")]], Done)
  {
    var cols := [Chars("ab")];
    var fills := [Previous];
    assert Columns([Scalar(StrValue("ab"))]) == cols;
    NoHaltingRules(cols, fills);
    assert MaxLen(cols) == 2;
    var rows := Generate(cols, fills).rows;
    Entry(cols, fills, 0, 0);
    Entry(cols, fills, 1, 0);
    assert rows[0] == [StrValue("a")];
    assert rows[1] == [StrValue("b")];
    assert rows == [[StrValue("a")], [StrValue("b")]];
  }
}
