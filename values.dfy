/**
 The values `ziplus` works with: the data that flows through the columns, the
 fill rule of each column, the arguments it is called with and what a call
 produces.
 */
module Values {

  datatype Option<+T> = None | Some(value: T)

  /** A Python value as it can appear in a yielded row; `NoneValue` is `None`. */
  datatype Value = NoneValue | IntValue(i: int) | StrValue(s: string)

  /** An exception instance given as a default, such as `IndexError("Oh no!")`. */
  datatype Exception = Exception(kind: string, message: string)

  /**
   The fill rule of one column, chosen from its entry in `defaults`: what the
   column contributes once its iterable is exhausted.
   */
  datatype Fill =
    | Stop                // the `StopIteration` class: end the whole iteration
    | Previous            // the `Previous` sentinel: repeat the column's last value
    | Constant(v: Value)  // any other value, `None` included: use it as is
    | Raise(e: Exception) // an exception instance: raise it

  /** A positional argument: an iterable, or a non-iterable wrapped as a one-element tuple. */
  datatype Arg = Scalar(v: Value) | Many(s: seq<Value>)

  /** The `defaults` keyword argument: left out (`None`), not a `Sequence`, or a sequence of rules. */
  datatype Defaults = Omitted | NonSequence | Given(fills: seq<Fill>)

  /** Why `defaults` was refused with a `ValueError`. */
  datatype ConfigError = NotASequence | BadLength

  /** The validated rules, one per iterable, or the reason they were refused. */
  datatype Checked = Valid(fills: seq<Fill>) | Invalid(reason: ConfigError)

  /** How the iteration ended once its last row was yielded. */
  datatype Outcome = Done | Raised(e: Exception) | ValueError(reason: ConfigError)

  /** Everything a consumer observes: the rows, in order, and how the iteration ended. */
  datatype Result = Result(rows: seq<seq<Value>>, outcome: Outcome)

  /** What one column resolves to in one step. */
  datatype Cell = Got(v: Value) | Halt | Fail(e: Exception)

  /** What one step resolves to: a complete row, a clean stop, or a raised exception. */
  datatype Step = Row(values: seq<Value>) | Halted | Failed(e: Exception)
}
