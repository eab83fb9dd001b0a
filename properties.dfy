/**
 What `ziplus` promises, proved about the reference functions of ZiplusSpec:
 the shape of every row, where each value comes from, how many rows there
 are and how the iteration ends.
 */
module ZiplusProperties {
  import opened Values
  import opened ZiplusSpec

  /** A step yields a row exactly when every column resolves to a value; the row holds those values in column order. */
  lemma {:induction false} SettleRow(cells: seq<Cell>)
    ensures Settle(cells).Row? <==> forall j :: 0 <= j < |cells| ==> cells[j].Got?
    ensures Settle(cells).Row? ==>
              |Settle(cells).values| == |cells| &&
              forall j :: 0 <= j < |cells| ==> Settle(cells).values[j] == cells[j].v
  {
    if cells != [] {
      var n := |cells| - 1;
      SettleRow(cells[..n]);
      assert forall j :: 0 <= j < n ==> cells[..n][j] == cells[j];
    }
  }

  /** The leftmost column that does not resolve to a value decides the step. */
  lemma {:induction false} SettleFirst(cells: seq<Cell>, i: nat)
    requires i < |cells| && !cells[i].Got?
    requires forall j :: 0 <= j < i ==> cells[j].Got?
    ensures Settle(cells) == if cells[i].Halt? then Halted else Failed(cells[i].e)
  {
    var n := |cells| - 1;
    if i < n {
      SettleFirst(cells[..n], i);
    } else {
      SettleRow(cells[..n]);
    }
  }

  /** Row `j` of a run from step `k` is what step `k + j` resolves to, given row `j - 1` as the previous row. */
  lemma {:induction false} RunRowsFrom(cols: seq<seq<Value>>, fills: seq<Fill>, k: nat, prev: Option<seq<Value>>, j: nat)
    requires |fills| == |cols|
    requires j < |Run(cols, fills, k, prev).rows|
    ensures var rows := Run(cols, fills, k, prev).rows;
            StepAt(cols, fills, k + j, if j == 0 then prev else Some(rows[j - 1])) == Row(rows[j])
    ensures !AllExhausted(cols, k + j)
    decreases j
  {
    var s := StepAt(cols, fills, k, prev);
    assert s.Row? && !AllExhausted(cols, k);
    if j > 0 {
      RunRowsFrom(cols, fills, k + 1, Some(s.values), j - 1);
    }
  }

  /** A run never ends with a `ValueError`: those are raised before the first step. */
  lemma {:induction false} RunOutcomeKind(cols: seq<seq<Value>>, fills: seq<Fill>, k: nat, prev: Option<seq<Value>>)
    requires |fills| == |cols|
    ensures Run(cols, fills, k, prev).outcome.Done? || Run(cols, fills, k, prev).outcome.Raised?
    decreases MaxLen(cols) - k
  {
    var s := StepAt(cols, fills, k, prev);
    if s.Row? && !AllExhausted(cols, k) {
      RunOutcomeKind(cols, fills, k + 1, Some(s.values));
    }
  }

  /**
   Row `j`, column `i` of the output is what column `i` resolves to in step `j`,
   with `None` as the previous value in step 0 and row `j - 1` after that.
   */
  lemma RowCell(cols: seq<seq<Value>>, fills: seq<Fill>, j: nat, i: nat)
    requires |fills| == |cols|
    requires j < |Generate(cols, fills).rows| && i < |cols|
    ensures var rows := Generate(cols, fills).rows;
            && |rows[j]| == |cols|
            && CellAt(cols[i], fills[i], j, PrevValue(if j == 0 then None else Some(rows[j - 1]), i)) == Got(rows[j][i])
  {
    var rows := Generate(cols, fills).rows;
    RunRowsFrom(cols, fills, 0, None, j);
    SettleRow(Cells(cols, fills, j, if j == 0 then None else Some(rows[j - 1])));
  }

  /**
   Every row has one entry per iterable, and a column that is not yet
   exhausted contributes its own next element, in order.
   */
  lemma RowsZipColumns(cols: seq<seq<Value>>, fills: seq<Fill>)
    requires |fills| == |cols|
    ensures var rows := Generate(cols, fills).rows;
            forall j, i :: 0 <= j < |rows| && 0 <= i < |cols| ==>
              |rows[j]| == |cols| && (j < |cols[i]| ==> rows[j][i] == cols[i][j])
  {
    var rows := Generate(cols, fills).rows;
    forall j, i | 0 <= j < |rows| && 0 <= i < |cols|
      ensures |rows[j]| == |cols| && (j < |cols[i]| ==> rows[j][i] == cols[i][j])
    {
      RowCell(cols, fills, j, i);
    }
  }

  /** No row is yielded once every column is exhausted: each row has a live column. */
  lemma EveryRowHasLiveColumn(cols: seq<seq<Value>>, fills: seq<Fill>, j: nat)
    requires |fills| == |cols|
    requires j < |Generate(cols, fills).rows|
    ensures exists i :: 0 <= i < |cols| && j < |cols[i]|
  {
    RunRowsFrom(cols, fills, 0, None, j);
  }

  /** A `Stop` or exception column never contributes a filled value: in every row it is still live. */
  lemma HaltingColumnsNeverFilled(cols: seq<seq<Value>>, fills: seq<Fill>, j: nat, i: nat)
    requires |fills| == |cols|
    requires j < |Generate(cols, fills).rows| && i < |cols| && Halts(fills[i])
    ensures j < |cols[i]|
  {
    RowCell(cols, fills, j, i);
  }

  /** The last element of a column, or `None` for an empty column. */
  function LastOr(col: seq<Value>): Value
  {
    if col == [] then NoneValue else col[|col| - 1]
  }

  /**
   A `Previous` column repeats its last real element in every row after it is
   exhausted, and yields `None` when it was exhausted in the first step.
   */
  lemma {:induction false} PreviousRepeatsLast(cols: seq<seq<Value>>, fills: seq<Fill>, i: nat, j: nat)
    requires |fills| == |cols| && i < |cols| && fills[i] == Previous
    requires |cols[i]| <= j < |Generate(cols, fills).rows|
    ensures |Generate(cols, fills).rows[j]| == |cols| && Generate(cols, fills).rows[j][i] == LastOr(cols[i])
    decreases j
  {
    RowCell(cols, fills, j, i);
    if j > |cols[i]| {
      PreviousRepeatsLast(cols, fills, i, j - 1);
      RowCell(cols, fills, j - 1, i);
    } else if j > 0 {
      RowCell(cols, fills, j - 1, i);
    }
  }

  /** A column with a constant default, `None` included, yields exactly that value once exhausted. */
  lemma ConstantFillsExhausted(cols: seq<seq<Value>>, fills: seq<Fill>, i: nat, j: nat)
    requires |fills| == |cols| && i < |cols| && fills[i].Constant?
    requires |cols[i]| <= j < |Generate(cols, fills).rows|
    ensures |Generate(cols, fills).rows[j]| == |cols| && Generate(cols, fills).rows[j][i] == fills[i].v
  {
    RowCell(cols, fills, j, i);
  }

  /** The leftmost column whose rule ends the iteration in step `k`, or `|cols|` when none does. */
  function FirstFiring(cols: seq<seq<Value>>, fills: seq<Fill>, k: nat): (i: nat)
    requires |fills| == |cols|
    ensures i <= |cols|
    ensures forall j :: 0 <= j < i ==> !(Halts(fills[j]) && |cols[j]| <= k)
    ensures i < |cols| ==> Halts(fills[i]) && |cols[i]| <= k
  {
    if cols == [] then 0
    else
      var n := |cols| - 1;
      var i := FirstFiring(cols[..n], fills[..n], k);
      if i < n then i
      else if Halts(fills[n]) && |cols[n]| <= k then n
      else |cols|
  }

  /** A column whose rule fires in step `k`, with no firing column to its left, is the first firing one. */
  lemma FirstFiringIs(cols: seq<seq<Value>>, fills: seq<Fill>, k: nat, i: nat)
    requires |fills| == |cols| && i < |cols| && Halts(fills[i]) && |cols[i]| <= k
    requires forall j :: 0 <= j < i && Halts(fills[j]) ==> k < |cols[j]|
    ensures FirstFiring(cols, fills, k) == i
  {
  }

  /** A step in which every column resolves to a value yields the row of those values. */
  lemma StepAtRow(cols: seq<seq<Value>>, fills: seq<Fill>, k: nat, prev: Option<seq<Value>>, vals: seq<Value>)
    requires |fills| == |cols| == |vals|
    requires forall j :: 0 <= j < |cols| ==> CellAt(cols[j], fills[j], k, PrevValue(prev, j)) == Got(vals[j])
    ensures StepAt(cols, fills, k, prev) == Row(vals)
  {
    SettleRow(Cells(cols, fills, k, prev));
  }

  /**
   A step in which column `i` is the first not to resolve to a value ends as
   that column's rule says, and column `i` is the first firing column.
   */
  lemma StepAtFires(cols: seq<seq<Value>>, fills: seq<Fill>, k: nat, prev: Option<seq<Value>>, i: nat)
    requires |fills| == |cols| && i < |cols|
    requires forall j :: 0 <= j < i ==> CellAt(cols[j], fills[j], k, PrevValue(prev, j)).Got?
    requires !CellAt(cols[i], fills[i], k, PrevValue(prev, i)).Got?
    ensures FirstFiring(cols, fills, k) == i
    ensures StepAt(cols, fills, k, prev) == if fills[i].Stop? then Halted else Failed(fills[i].e)
  {
    var cells := Cells(cols, fills, k, prev);
    SettleFirst(cells, i);
    FirstFiringIs(cols, fills, k, i);
  }

  /** A step in which no `Stop` or exception column is exhausted yields a row. */
  lemma QuietStep(cols: seq<seq<Value>>, fills: seq<Fill>, k: nat, prev: Option<seq<Value>>)
    requires |fills| == |cols|
    requires forall i :: 0 <= i < |cols| && Halts(fills[i]) ==> k < |cols[i]|
    ensures StepAt(cols, fills, k, prev).Row?
  {
    SettleRow(Cells(cols, fills, k, prev));
  }

  lemma {:induction false} RunShapeFrom(cols: seq<seq<Value>>, fills: seq<Fill>, k: nat, prev: Option<seq<Value>>)
    requires |fills| == |cols|
    requires k <= Min(Horizon(cols, fills), MaxLen(cols))
    ensures var r := Run(cols, fills, k, prev);
            var h, m := Horizon(cols, fills), MaxLen(cols);
            && |r.rows| == Min(h, m) - k
            && (h <= m ==>
                  FirstFiring(cols, fills, h) < |cols| &&
                  r.outcome == HaltOutcome(fills[FirstFiring(cols, fills, h)]))
            && (h > m ==> r.outcome == Done)
    decreases Min(Horizon(cols, fills), MaxLen(cols)) - k
  {
    var h, m := Horizon(cols, fills), MaxLen(cols);
    if k < Min(h, m) || h > m {
      // no Stop or exception column is exhausted in step k
      QuietStep(cols, fills, k, prev);
      if k < Min(h, m) {
        assert !AllExhausted(cols, k);
        var vs := StepAt(cols, fills, k, prev).values;
        var rest := Run(cols, fills, k + 1, Some(vs));
        assert Run(cols, fills, k, prev) == Result([vs] + rest.rows, rest.outcome);
        RunShapeFrom(cols, fills, k + 1, Some(vs));
      } else {
        assert AllExhausted(cols, k);
        assert Run(cols, fills, k, prev) == Result([], Done);
      }
    } else {
      // step k == h is the first in which a Stop or exception column is exhausted
      var i := FirstFiring(cols, fills, h);
      assert i < |cols|;
      StepAtFires(cols, fills, k, prev, i);
      assert Run(cols, fills, k, prev) == Result([], HaltOutcome(fills[i]));
    }
  }

  /**
   The number of rows is the step at which the first `Stop` or exception
   column runs dry, capped by the longest column; the leftmost such column in
   that step decides how the iteration ends, and it ends cleanly when every
   column runs dry first.
   */
  lemma RunShape(cols: seq<seq<Value>>, fills: seq<Fill>)
    requires |fills| == |cols|
    ensures var r := Generate(cols, fills);
            var h, m := Horizon(cols, fills), MaxLen(cols);
            && |r.rows| == Min(h, m)
            && (h <= m ==>
                  FirstFiring(cols, fills, h) < |cols| &&
                  r.outcome == HaltOutcome(fills[FirstFiring(cols, fills, h)]))
            && (h > m ==> r.outcome == Done)
  {
    RunShapeFrom(cols, fills, 0, None);
  }

  /**
   With only `Previous` and constant rules the iteration runs for exactly as
   many rows as the longest column and ends cleanly; zero iterables give zero rows.
   */
  lemma NoHaltingRules(cols: seq<seq<Value>>, fills: seq<Fill>)
    requires |fills| == |cols|
    requires forall i :: 0 <= i < |fills| ==> !Halts(fills[i])
    ensures |Generate(cols, fills).rows| == MaxLen(cols)
    ensures Generate(cols, fills).outcome == Done
  {
    RunShape(cols, fills);
  }

  /**
   When a `Stop` column is the first column whose rule fires, in step `k`, exactly
   `k` rows are yielded and the iteration ends cleanly.
   */
  lemma StopFiresFirst(cols: seq<seq<Value>>, fills: seq<Fill>, s: nat)
    requires |fills| == |cols| && s < |cols| && fills[s] == Stop
    requires forall i :: 0 <= i < |cols| && Halts(fills[i]) ==> |cols[s]| <= |cols[i]|
    requires forall i :: 0 <= i < s && Halts(fills[i]) ==> |cols[s]| < |cols[i]|
    ensures |Generate(cols, fills).rows| == |cols[s]|
    ensures Generate(cols, fills).outcome == Done
  {
    RunShape(cols, fills);
  }

  /**
   When an exception column is the first column whose rule fires, in step `k`,
   exactly `k` rows are yielded and then that exception is raised.
   */
  lemma RaiseFiresFirst(cols: seq<seq<Value>>, fills: seq<Fill>, s: nat)
    requires |fills| == |cols| && s < |cols| && fills[s].Raise?
    requires forall i :: 0 <= i < |cols| && Halts(fills[i]) ==> |cols[s]| <= |cols[i]|
    requires forall i :: 0 <= i < s && Halts(fills[i]) ==> |cols[s]| < |cols[i]|
    ensures |Generate(cols, fills).rows| == |cols[s]|
    ensures Generate(cols, fills).outcome == Raised(fills[s].e)
  {
    RunShape(cols, fills);
  }

  lemma {:induction false} TruncatesFrom(cols: seq<seq<Value>>, fills: seq<Fill>, r: nat, f: Fill,
                                         k: nat, prev: Option<seq<Value>>)
    requires |fills| == |cols| && r < |cols| && Halts(fills[r])
    ensures Run(cols, fills, k, prev).rows <= Run(cols, fills[r := f], k, prev).rows
    decreases MaxLen(cols) - k
  {
    var cells := Cells(cols, fills, k, prev);
    SettleRow(cells);
    if Settle(cells).Row? {
      assert cells[r].Got?;
      assert Cells(cols, fills[r := f], k, prev) == cells;
      if !AllExhausted(cols, k) {
        TruncatesFrom(cols, fills, r, f, k + 1, Some(Settle(cells).values));
      }
    }
  }

  /**
   A `Stop` or exception rule only cuts the output short: the rows yielded
   before it fires are those the same columns yield under any other rule for
   that column.
   */
  lemma HaltingRuleOnlyTruncates(cols: seq<seq<Value>>, fills: seq<Fill>, r: nat, f: Fill)
    requires |fills| == |cols| && r < |cols| && Halts(fills[r])
    ensures Generate(cols, fills).rows <= Generate(cols, fills[r := f]).rows
  {
    TruncatesFrom(cols, fills, r, f, 0, None);
  }

  /**
   A `ValueError` is raised, before any row, exactly when `defaults` is not a
   sequence or does not hold one rule per iterable.
   */
  lemma ConfigValidation(args: seq<Arg>, defaults: Defaults)
    ensures defaults.NonSequence? ==> Ziplus(args, defaults) == Result([], ValueError(NotASequence))
    ensures defaults.Given? && |defaults.fills| != |args| ==> Ziplus(args, defaults) == Result([], ValueError(BadLength))
    ensures defaults.Omitted? || (defaults.Given? && |defaults.fills| == |args|) ==>
              !Ziplus(args, defaults).outcome.ValueError?
  {
    match Policies(|args|, defaults)
    case Invalid(_) =>
    case Valid(fills) => RunOutcomeKind(Columns(args), fills, 0, None);
  }

  /** A non-iterable argument behaves exactly as a one-element column holding it. */
  lemma ScalarAsSingleton(args: seq<Arg>, i: nat, defaults: Defaults)
    requires i < |args| && args[i].Scalar? && !args[i].v.StrValue?
    ensures Ziplus(args, defaults) == Ziplus(args[i := Many([args[i].v])], defaults)
  {
    assert Columns(args) == Columns(args[i := Many([args[i].v])]);
  }

  /** A string argument is iterable: it is never wrapped, and behaves as the column of its characters. */
  lemma StringIterated(args: seq<Arg>, i: nat, defaults: Defaults)
    requires i < |args| && args[i].Scalar? && args[i].v.StrValue?
    ensures Ziplus(args, defaults) == Ziplus(args[i := Many(Chars(args[i].v.s))], defaults)
  {
    assert Columns(args) == Columns(args[i := Many(Chars(args[i].v.s))]);
  }

  /** When every column has the `Stop` rule, the iteration stops at the shortest column. */
  lemma AllStopHorizon(cols: seq<seq<Value>>)
    requires |cols| > 0
    ensures Horizon(cols, seq(|cols|, _ => Stop)) == MinLen(cols)
  {
  }

  /**
   With `defaults` omitted every column stops the iteration, as plain `zip`
   does: exactly as many rows as the shortest column, row `j` holding the
   `j`-th element of every column.
   */
  lemma PlainZip(args: seq<Arg>)
    ensures var r, cols := Ziplus(args, Omitted), Columns(args);
            && r.outcome == Done
            && |r.rows| == MinLen(cols)
            && forall j :: 0 <= j < |r.rows| ==> r.rows[j] == seq(|cols|, c requires 0 <= c < |cols| => cols[c][j])
  {
    var cols := Columns(args);
    var fills := seq(|args|, _ => Stop);
    assert Ziplus(args, Omitted) == Generate(cols, fills);
    RunShape(cols, fills);
    if |cols| > 0 {
      AllStopHorizon(cols);
    }
    var rows := Generate(cols, fills).rows;
    forall j | 0 <= j < |rows|
      ensures rows[j] == seq(|cols|, c requires 0 <= c < |cols| => cols[c][j])
    {
      forall i | 0 <= i < |cols| ensures j < |cols[i]| && |rows[j]| == |cols| && rows[j][i] == cols[i][j] {
        RowCell(cols, fills, j, i);
      }
    }
  }
}
