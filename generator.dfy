/**
 The `ziplus` generator as the source runs it: a frame that keeps one cursor
 per iterator, the `stopped` flags, the `n_stopped` counter, the row counter
 and the last row, and that advances by one row per `next()`.
 */
module Generator {
  import opened Values
  import opened ZiplusSpec
  import ZiplusProperties

  /** What one `next()` gives: a row, `StopIteration`, or a raised exception. */
  datatype Emit = Yield(row: seq<Value>) | Exhausted | Throw(e: Exception)

  /** How many flags are set: what `n_stopped` counts. */
  function CountTrue(s: seq<bool>): (c: nat)
    ensures c <= |s|
    ensures c == |s| <==> forall i :: 0 <= i < |s| ==> s[i]
  {
    if s == [] then 0 else CountTrue(s[..|s| - 1]) + (if s[|s| - 1] then 1 else 0)
  }

  /** Setting one clear flag raises the count by one. */
  lemma {:induction false} CountTrueSet(s: seq<bool>, i: nat)
    requires i < |s| && !s[i]
    ensures CountTrue(s[i := true]) == CountTrue(s) + 1
  {
    var n := |s| - 1;
    if i < n {
      CountTrueSet(s[..n], i);
      assert s[i := true][..n] == s[..n][i := true];
    } else {
      assert s[i := true][..n] == s[..n];
    }
  }

  lemma {:induction false} CountTrueNone(s: seq<bool>)
    requires forall i :: 0 <= i < |s| ==> !s[i]
    ensures CountTrue(s) == 0
  {
    if s != [] {
      CountTrueNone(s[..|s| - 1]);
    }
  }

  class ZiplusGen {
    const columns: seq<seq<Value>>  // what each iterator of `items` yields, in order
    const defaults: seq<Fill>
    const nItems: nat
    const cursor: array<nat>        // how many elements each iterator has yielded
    const stopped: array<bool>
    var nStopped: nat
    var row: nat                    // `i_rows`: the step of the row last computed
    var values: seq<Value>          // the row last computed
    var started: bool               // the first-row block has run
    var finished: bool              // the generator has returned or raised

    /** The step the next `next()` computes. */
    ghost function NextStep(): nat
      reads this
    {
      if started then row + 1 else 0
    }

    /** The row a `Previous` column borrows from in that step; none before the first row. */
    ghost function PrevRow(): Option<seq<Value>>
      reads this
    {
      if started then Some(values) else None
    }

    /** The iterators, `stopped` and `n_stopped` stand as they do just before step `k`. */
    ghost predicate Poised(k: nat)
      reads this, cursor, stopped
      requires |columns| == |defaults| == nItems == cursor.Length == stopped.Length
    {
      && nStopped == CountTrue(stopped[..])
      && forall i :: 0 <= i < nItems ==>
           && cursor[i] == Min(k, |columns[i]|)
           && (stopped[i] <==> |columns[i]| < k)
           && (defaults[i].Stop? ==> !stopped[i])
    }

    ghost predicate Valid()
      reads this, cursor, stopped
    {
      && |columns| == |defaults| == nItems == cursor.Length == stopped.Length
      && (!started ==> row == 0)
      && (!finished ==>
            && NextStep() <= MaxLen(columns)
            && (started ==> |values| == nItems)
            && Poised(NextStep()))
    }

    /** Everything the generator has still to yield, and how it will end. */
    ghost function Pending(): Result
      reads this
      requires |columns| == |defaults|
    {
      if finished then Result([], Done) else Run(columns, defaults, NextStep(), PrevRow())
    }

    ghost function Measure(): nat
      reads this, cursor, stopped
      requires Valid()
    {
      if finished then 0 else MaxLen(columns) + 1 - NextStep()
    }

    /** The generator after argument validation and wrapping, before its first `next()`. */
    constructor (columns: seq<seq<Value>>, defaults: seq<Fill>)
      requires |defaults| == |columns|
      ensures Valid() && fresh(cursor) && fresh(stopped)
      ensures this.columns == columns && this.defaults == defaults
      ensures !finished && Pending() == Generate(columns, defaults)
    {
      this.columns := columns;
      this.defaults := defaults;
      nItems := |columns|;
      cursor := new nat[|columns|](_ => 0);
      stopped := new bool[|columns|](_ => false);
      nStopped := 0;
      row := 0;
      values := [];
      started := false;
      finished := false;
      new;
      CountTrueNone(stopped[..]);
    }

    /**
     Column `i` in step `k`: pulls its next element while it is live; once it
     runs dry, marks it stopped and resolves it by its fill rule.
     */
    method Resolve(i: nat, k: nat, previous: Option<seq<Value>>) returns (c: Cell)
      requires |columns| == |defaults| == nItems == cursor.Length == stopped.Length
      requires i < nItems && nStopped == CountTrue(stopped[..])
      requires cursor[i] == Min(k, |columns[i]|) && (stopped[i] <==> |columns[i]| < k)
      requires defaults[i].Stop? ==> !stopped[i]
      requires previous.Some? ==> |previous.value| == nItems
      modifies cursor, stopped, this`nStopped
      ensures c == CellAt(columns[i], defaults[i], k, PrevValue(previous, i))
      ensures nStopped == CountTrue(stopped[..])
      ensures cursor[i] == Min(k + 1, |columns[i]|) && (stopped[i] <==> |columns[i]| <= k)
      ensures forall j :: 0 <= j < nItems && j != i ==> cursor[j] == old(cursor[j]) && stopped[j] == old(stopped[j])
    {
      if !stopped[i] {
        if cursor[i] < |columns[i]| {
          c := Got(columns[i][cursor[i]]);
          cursor[i] := cursor[i] + 1;
          return;
        }
        CountTrueSet(stopped[..], i);
        stopped[i] := true;
        nStopped := nStopped + 1;
        if defaults[i].Stop? {
          return Halt;
        }
      }
      var fill := defaults[i];
      if fill.Raise? {
        return Fail(fill.e);
      }
      var v := if fill.Constant? then fill.v
               else match previous
                    case None => NoneValue
                    case Some(p) => p[i];
      c := Got(v);
    }

    /**
     Step `k`: one pass over the columns, left to right, building the row; the
     first-row block when `k == 0` and `previous` is absent, the `while` body after.
     The first column that stops or raises ends the pass.
     */
    method Advance(k: nat, previous: Option<seq<Value>>) returns (s: Step)
      requires |columns| == |defaults| == nItems == cursor.Length == stopped.Length
      requires Poised(k)
      requires previous.Some? ==> |previous.value| == nItems
      modifies cursor, stopped, this`nStopped
      ensures s == StepAt(columns, defaults, k, previous)
      ensures s.Row? ==> |s.values| == nItems && Poised(k + 1)
      ensures forall i :: 0 <= i < nItems && old(stopped[i]) ==> stopped[i] && cursor[i] == old(cursor[i])
      ensures !s.Row? ==>
                var f := ZiplusProperties.FirstFiring(columns, defaults, k);
                f < nItems &&
                forall i :: f < i < nItems ==> cursor[i] == old(cursor[i]) && stopped[i] == old(stopped[i])
    {
      var vals: seq<Value> := [];
      for i := 0 to nItems
        invariant |vals| == i
        invariant forall j :: 0 <= j < i ==> CellAt(columns[j], defaults[j], k, PrevValue(previous, j)) == Got(vals[j])
        invariant nStopped == CountTrue(stopped[..])
        invariant forall j :: 0 <= j < i ==>
                    && cursor[j] == Min(k + 1, |columns[j]|)
                    && (stopped[j] <==> |columns[j]| <= k)
                    && (Halts(defaults[j]) ==> k < |columns[j]|)
        invariant forall j :: i <= j < nItems ==> cursor[j] == old(cursor[j]) && stopped[j] == old(stopped[j])
      {
        var c := Resolve(i, k, previous);
        if !c.Got? {
          ZiplusProperties.StepAtFires(columns, defaults, k, previous, i);
          return if c.Halt? then Halted else Failed(c.e);
        }
        vals := vals + [c.v];
      }
      ZiplusProperties.StepAtRow(columns, defaults, k, previous, vals);
      return Row(vals);
    }

    /**
     The work between two `yield`s: the first-row block on the first call,
     otherwise `i_rows += 1`, `previous = values` and the `for` loop.
     */
    method Compute() returns (s: Step)
      requires Valid() && !finished
      modifies this`row, this`started, cursor, stopped, this`nStopped
      ensures s == StepAt(columns, defaults, old(NextStep()), old(PrevRow()))
      ensures started && row == old(NextStep())
      ensures s.Row? ==> |s.values| == nItems && Poised(row + 1)
      ensures forall i :: 0 <= i < nItems && old(stopped[i]) ==> stopped[i] && cursor[i] == old(cursor[i])
    {
      if !started {
        s := Advance(0, None);
        started := true;
      } else {
        row := row + 1;
        s := Advance(row, Some(values));
      }
    }

    /**
     `next()`: computes the next row; yields it while some column is still
     live, otherwise returns; a `Stop` column ends it, an exception column raises.
     */
    method Next() returns (r: Emit)
      requires Valid()
      modifies this, cursor, stopped
      ensures Valid()
      ensures old(Pending()) == match r
                                case Yield(vs) => Result([vs] + Pending().rows, Pending().outcome)
                                case Exhausted => Result([], Done)
                                case Throw(e) => Result([], Raised(e))
      ensures r.Yield? ==> !finished && |r.row| == nItems && Measure() < old(Measure())
      ensures !r.Yield? ==> finished
      ensures old(finished) ==> r == Exhausted
      ensures forall i :: 0 <= i < nItems && old(stopped[i]) ==> stopped[i] && cursor[i] == old(cursor[i])
    {
      if finished {
        return Exhausted;
      }
      ghost var k, pending := NextStep(), Pending();
      var s := Compute();
      match s {
        case Halted =>
          finished := true;
          r := Exhausted;
        case Failed(e) =>
          finished := true;
          r := Throw(e);
        case Row(vs) =>
          values := vs;
          assert nStopped == nItems <==> AllExhausted(columns, k) by {
            assert forall i :: 0 <= i < nItems ==> stopped[..][i] == stopped[i];
          }
          if nStopped < nItems {
            r := Yield(vs);
          } else {
            finished := true;
            r := Exhausted;
          }
      }
    }
  }

  /** Drains a generator: every row it still has to yield, and how it ends. */
  method Drain(gen: ZiplusGen) returns (rows: seq<seq<Value>>, outcome: Outcome)
    requires gen.Valid() && !gen.finished
    modifies gen, gen.cursor, gen.stopped
    ensures Result(rows, outcome) == old(gen.Pending())
  {
    ghost var all := gen.Pending();
    rows, outcome := [], Done;
    while true
      invariant gen.Valid() && !gen.finished
      invariant Result(rows + gen.Pending().rows, gen.Pending().outcome) == all
      decreases gen.Measure()
    {
      var r := gen.Next();
      match r {
        case Yield(vs) =>
          rows := rows + [vs];
        case Exhausted =>
          return;
        case Throw(e) =>
          outcome := Raised(e);
          return;
      }
    }
  }

  /**
   `list(ziplus(*args, defaults=defaults))`: validates `defaults`, wraps the
   arguments and drains the generator, keeping the exception that ends it.
   */
  method Collect(args: seq<Arg>, defaults: Defaults) returns (rows: seq<seq<Value>>, outcome: Outcome)
    ensures Result(rows, outcome) == Ziplus(args, defaults)
  {
    var nItems := |args|;
    var fills: seq<Fill>;
    match defaults {
      case Omitted =>
        fills := seq(nItems, _ => Stop);
      case NonSequence =>
        return [], ValueError(NotASequence);
      case Given(f) =>
        if |f| != nItems {
          return [], ValueError(BadLength);
        }
        fills := f;
    }
    var gen := new ZiplusGen(Columns(args), fills);
    rows, outcome := Drain(gen);
  }
}
