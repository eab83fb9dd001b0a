/**
 The reference meaning of `ziplus`: the rows it yields and how it ends, as
 pure functions of the columns' contents and their fill rules. Step `k`
 (counting from 0) is the `k`-th pass over the columns: the first-row block
 for `k == 0`, the body of the `while` loop after that.
 */
module ZiplusSpec {
  import opened Values

  function Min(a: int, b: int): int { if a <= b then a else b }

  /** A string iterated as one-character strings. */
  function Chars(s: string): seq<Value> { seq(|s|, i requires 0 <= i < |s| => StrValue([s[i]])) }

  /**
   The column an argument is iterated as: a string is iterable and yields its
   characters; any other non-iterable becomes a one-element column.
   */
  function Column(a: Arg): seq<Value>
  {
    match a
    case Scalar(StrValue(s)) => Chars(s)
    case Scalar(v) => [v]
    case Many(s) => s
  }

  function Columns(args: seq<Arg>): seq<seq<Value>>
  {
    seq(|args|, i requires 0 <= i < |args| => Column(args[i]))
  }

  /** Length of the longest column (0 for no columns). */
  function MaxLen(cols: seq<seq<Value>>): (m: nat)
    ensures forall i :: 0 <= i < |cols| ==> |cols[i]| <= m
    ensures |cols| == 0 ==> m == 0
    ensures |cols| > 0 ==> exists i :: 0 <= i < |cols| && |cols[i]| == m
  {
    if cols == [] then 0
    else
      var m := MaxLen(cols[..|cols| - 1]);
      if m < |cols[|cols| - 1]| then |cols[|cols| - 1]| else m
  }

  /** Length of the shortest column (0 for no columns). */
  function MinLen(cols: seq<seq<Value>>): (m: nat)
    ensures forall i :: 0 <= i < |cols| ==> m <= |cols[i]|
    ensures |cols| == 0 ==> m == 0
    ensures |cols| > 0 ==> exists i :: 0 <= i < |cols| && |cols[i]| == m
  {
    if |cols| <= 1 then (if cols == [] then 0 else |cols[0]|)
    else
      var m := MinLen(cols[..|cols| - 1]);
      if |cols[|cols| - 1]| < m then |cols[|cols| - 1]| else m
  }

  /**
   Validation of `defaults`: omitted means `StopIteration` for every column;
   anything but a sequence of exactly one rule per iterable is refused.
   */
  function Policies(n: nat, defaults: Defaults): (r: Checked)
    ensures r.Invalid? <==> defaults.NonSequence? || (defaults.Given? && |defaults.fills| != n)
    ensures r.Invalid? ==> r.reason == if defaults.NonSequence? then NotASequence else BadLength
    ensures r.Valid? ==> |r.fills| == n && (defaults.Given? ==> r.fills == defaults.fills)
    ensures r.Valid? && defaults.Omitted? ==> forall i :: 0 <= i < n ==> r.fills[i] == Stop
  {
    match defaults
    case Omitted => Valid(seq(n, _ => Stop))
    case NonSequence => Invalid(NotASequence)
    case Given(fills) => if |fills| != n then Invalid(BadLength) else Valid(fills)
  }

  /** The value a `Previous` column borrows: `None` in the first step, else the previous row's. */
  function PrevValue(prev: Option<seq<Value>>, i: nat): Value
  {
    match prev
    case None => NoneValue
    case Some(p) => if i < |p| then p[i] else NoneValue
  }

  /**
   What a column resolves to in step `k`: its `k`-th element while it has one,
   otherwise what its fill rule says.
   */
  function CellAt(col: seq<Value>, fill: Fill, k: nat, prev: Value): Cell
  {
    if k < |col| then Got(col[k])
    else
      match fill
      case Stop => Halt
      case Raise(e) => Fail(e)
      case Previous => Got(prev)
      case Constant(v) => Got(v)
  }

  function Cells(cols: seq<seq<Value>>, fills: seq<Fill>, k: nat, prev: Option<seq<Value>>): seq<Cell>
    requires |fills| == |cols|
  {
    seq(|cols|, i requires 0 <= i < |cols| => CellAt(cols[i], fills[i], k, PrevValue(prev, i)))
  }

  /**
   Resolves a step's cells left to right: the first column that halts or fails
   decides the step, otherwise the step is the row of all resolved values.
   */
  function Settle(cells: seq<Cell>): Step
  {
    if cells == [] then Row([])
    else
      match Settle(cells[..|cells| - 1])
      case Row(vs) =>
        (match cells[|cells| - 1]
         case Got(v) => Row(vs + [v])
         case Halt => Halted
         case Fail(e) => Failed(e))
      case Halted => Halted
      case Failed(e) => Failed(e)
  }

  function StepAt(cols: seq<seq<Value>>, fills: seq<Fill>, k: nat, prev: Option<seq<Value>>): Step
    requires |fills| == |cols|
  {
    Settle(Cells(cols, fills, k, prev))
  }

  /** Every column has run dry by step `k` (the `while` condition fails). */
  predicate AllExhausted(cols: seq<seq<Value>>, k: nat)
  {
    forall i :: 0 <= i < |cols| ==> |cols[i]| <= k
  }

  /**
   The rows yielded from step `k` on, and how the iteration ends: a complete
   row is yielded only while some column is still live.
   */
  function Run(cols: seq<seq<Value>>, fills: seq<Fill>, k: nat, prev: Option<seq<Value>>): Result
    requires |fills| == |cols|
    decreases MaxLen(cols) - k
  {
    match StepAt(cols, fills, k, prev)
    case Halted => Result([], Done)
    case Failed(e) => Result([], Raised(e))
    case Row(vs) =>
      if AllExhausted(cols, k) then Result([], Done)
      else
        var rest := Run(cols, fills, k + 1, Some(vs));
        Result([vs] + rest.rows, rest.outcome)
  }

  /** The generator once its arguments are validated and wrapped. */
  function Generate(cols: seq<seq<Value>>, fills: seq<Fill>): Result
    requires |fills| == |cols|
  {
    Run(cols, fills, 0, None)
  }

  /** `list(ziplus(*args, defaults=defaults))`, with the exception that ends it. */
  function Ziplus(args: seq<Arg>, defaults: Defaults): Result
  {
    match Policies(|args|, defaults)
    case Invalid(reason) => Result([], ValueError(reason))
    case Valid(fills) => Generate(Columns(args), fills)
  }

  /** The rules that end the iteration when their column runs dry. */
  predicate Halts(f: Fill) { f.Stop? || f.Raise? }

  /** How the iteration ends when a column with rule `f` ends it. */
  function HaltOutcome(f: Fill): Outcome
    requires Halts(f)
  {
    if f.Stop? then Done else Raised(f.e)
  }

  function FirstHalt(cols: seq<seq<Value>>, fills: seq<Fill>, cap: nat): (h: nat)
    requires |fills| == |cols|
    ensures h <= cap
    ensures forall i :: 0 <= i < |cols| && Halts(fills[i]) ==> h <= |cols[i]|
    ensures h == cap || exists i :: 0 <= i < |cols| && Halts(fills[i]) && |cols[i]| == h
  {
    if cols == [] then cap
    else
      var n := |cols| - 1;
      var h := FirstHalt(cols[..n], fills[..n], cap);
      if Halts(fills[n]) && |cols[n]| < h then |cols[n]| else h
  }

  /**
   The first step in which a `Stop` or exception column is exhausted, or
   `MaxLen(cols) + 1` when there is no such column.
   */
  function Horizon(cols: seq<seq<Value>>, fills: seq<Fill>): nat
    requires |fills| == |cols|
  {
    FirstHalt(cols, fills, MaxLen(cols) + 1)
  }
}
