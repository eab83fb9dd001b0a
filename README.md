# ziplus, modelled in Dafny

`ziplus(*iterables, defaults=None)` from `superzip.py` is a `zip` that goes on
producing rows after some of its iterables run dry. Each column has a fill rule,
taken from its entry in `defaults`:

- `StopIteration` ends the whole iteration;
- the `Previous` sentinel repeats the column's last value;
- an exception instance is raised;
- any other value, `None` included, is used as a constant.

Before any row is produced, `defaults` is validated. It must be a sequence with
exactly one rule per iterable; otherwise `ValueError` is raised. A
non-iterable argument is iterated as a one-element tuple; a string is iterable
and yields its characters as one-character strings.

The project has five modules:

- `Values` (values.dfy) holds the data. A Python value is `NoneValue`,
  `IntValue` or `StrValue`. A fill rule is `Stop | Previous | Constant(v) | Raise(e)`.
  An argument is `Scalar(v) | Many(s)`. The `defaults` argument is
  `Omitted | NonSequence | Given(fills)`. The observable `Result` of a call is
  the yielded rows plus how the iteration ended: `Done`, `Raised(e)` or
  `ValueError(reason)`.
- `ZiplusSpec` (spec.dfy) is the reference meaning as pure functions. Step `k`
  resolves every column to a `Cell`: its `k`-th element, or what its rule
  says (`CellAt`). The leftmost column that halts or raises decides the step
  (`Settle`). `Run` chains the steps, and a row is yielded only while some
  column is still live. `Ziplus` adds the validation.
- `ZiplusProperties` (properties.dfy) proves what `ziplus` promises about
  those functions: the content of every row, the number of rows and how the
  iteration ends.
- `Generator` (generator.dfy) is the generator as the source runs it. The
  class `ZiplusGen` holds the per-column cursors and the `stopped` flags in
  arrays, plus `n_stopped`, the row counter and the last row. `Next` is one
  `next()` call. `Advance` is the `for i in i_items` pass, proved against
  `StepAt`. `Collect` validates, builds the generator and drains it, and it
  is proved equal to `ZiplusSpec.Ziplus`.
- `ZiplusExamples` (examples.dfy) derives the docstring examples and the
  self-test table from the general lemmas.

Three behaviours of the code that its documentation leaves open or gets wrong; the model follows the code:

- A `Previous` column that is empty from the start yields `None`. The first
  row has no previous row, so it takes `None`, and every later row repeats it.
- An exception column is consulted while its step's row is being built. So it
  raises even in the step that exhausts the last live column, in which no row
  would have been yielded.
- The docstring example at superzip.py:69-79 prints column `b` as 9 down to 4.
  Its iterable is `reversed(range(5))`, which the code yields as 4, 3, 2, 1, 0.
  The code then repeats 0, and that is what `ShortPreviousStop` states.

## Model

| member | source | states |
|---|---|---|
| ZiplusSpec.Policies | superzip.py:97-104 | `defaults` is refused exactly when it is not a sequence (`NotASequence`) or its length differs from the number of iterables (`BadLength`). An omitted `defaults` becomes `Stop` for every column. A valid sequence is used as given, one rule per iterable. |
| ZiplusProperties.SettleRow | superzip.py:112-116 | a step yields a row exactly when every column resolves to a value; the row has one entry per column, in column order |
| ZiplusProperties.SettleFirst | superzip.py:124-130 | the leftmost column that does not resolve to a value decides the step: a clean stop for `Stop`, its exception for a raise |
| ZiplusProperties.RunRowsFrom | superzip.py:132-160 | row `j` is the row that step `k + j` builds from row `j - 1`, and some column is still live in that step |
| ZiplusProperties.RunOutcomeKind | superzip.py:124-130 | once validation has passed, the iteration ends cleanly or with a raised exception, never with `ValueError` |
| ZiplusProperties.RowCell | superzip.py:112-131 | entry `i` of row `j` is what column `i` resolves to in step `j`; `Previous` reads `None` in step 0 and row `j - 1` after it |
| ZiplusProperties.RowsZipColumns | superzip.py:112-116 | every row has one entry per iterable, and a column that is not yet exhausted contributes its own elements in order |
| ZiplusProperties.EveryRowHasLiveColumn | superzip.py:132 | no row is yielded once every column is exhausted: each yielded row has a live column |
| ZiplusProperties.HaltingColumnsNeverFilled | superzip.py:124-130 | a `Stop` or exception column is still live in every yielded row, so it never supplies a filled value |
| ZiplusProperties.PreviousRepeatsLast | superzip.py:112-160 | a `Previous` column repeats its last element in every row after it runs dry, and yields `None` if it ran dry in step 0 |
| ZiplusProperties.ConstantFillsExhausted | superzip.py:159-160 | a column with a constant rule, `None` included, yields exactly that constant in every row after it runs dry |
| ZiplusProperties.FirstFiring | superzip.py:140-158 | the leftmost column whose `Stop` or exception rule fires in a step; no column to its left fires |
| ZiplusProperties.StepAtRow | superzip.py:140-160 | a step in which every column resolves to a value yields exactly those values as its row |
| ZiplusProperties.StepAtFires | superzip.py:152-158 | when column `i` is the first that does not resolve, it is the first firing column, and the step stops cleanly or raises its exception |
| ZiplusProperties.QuietStep | superzip.py:140-160 | a step in which no `Stop` or exception column is exhausted yields a row |
| ZiplusProperties.RunShapeFrom | superzip.py:132-160 | from any step up to the horizon, the rows still to come number the horizon (capped by the longest column) minus that step, and the iteration ends as the first firing column's rule says |
| ZiplusProperties.RunShape | superzip.py:112-160 | the number of rows is the step at which the first `Stop` or exception column runs dry, capped by the longest column. The leftmost column firing in that step decides the outcome. The iteration ends cleanly when every column runs dry first. |
| ZiplusProperties.NoHaltingRules | superzip.py:132 | with only `Previous` and constant rules there are exactly as many rows as the longest column has elements, ending cleanly; zero iterables give zero rows |
| ZiplusProperties.StopFiresFirst | superzip.py:124-128 | when a `Stop` column is the first to fire, in step `k`, exactly `k` rows are yielded and the iteration ends cleanly |
| ZiplusProperties.RaiseFiresFirst | superzip.py:129-130 | when an exception column is the first to fire, in step `k`, exactly `k` rows are yielded and then that very exception is raised |
| ZiplusProperties.TruncatesFrom | superzip.py:140-158 | from any step on, the rows under a `Stop` or exception rule are a prefix of the rows under any other rule for that column |
| ZiplusProperties.HaltingRuleOnlyTruncates | superzip.py:124-130 | a `Stop` or exception rule only cuts the output short: the rows yielded before it fires are unchanged |
| ZiplusProperties.ConfigValidation | superzip.py:100-104 | `ValueError` with no rows exactly when `defaults` is not a sequence or has the wrong length; otherwise never `ValueError` |
| ZiplusProperties.ScalarAsSingleton | superzip.py:105-106 | a non-iterable argument behaves exactly as a one-element column holding it |
| ZiplusProperties.StringIterated | superzip.py:105-106 | a string argument is iterable, so it is not wrapped: it behaves exactly as the column of its one-character strings |
| ZiplusProperties.PlainZip | superzip.py:98-99 | with `defaults` omitted the output is plain `zip`: as many rows as the shortest column, row `j` holding the `j`-th element of every column, ending cleanly |
| Generator.CountTrue | superzip.py:108-109 | the number of set `stopped` flags; it equals the number of columns exactly when every flag is set |
| Generator.ZiplusGen.constructor | superzip.py:105-111 | a fresh generator: cursors at 0, no column stopped, `n_stopped` 0; what it will yield is `Generate` of its columns and rules |
| Generator.ZiplusGen.Resolve | superzip.py:113-160 | one column in step `k` resolves as `CellAt` says. A live column with elements left advances its cursor. A column that runs dry is marked stopped and `n_stopped` counts it. Every other column is untouched. |
| Generator.ZiplusGen.Advance | superzip.py:112-160 | the pass over the columns resolves to `StepAt` of that step. A row leaves the generator poised for the next step. A stopped column is never advanced again. After a stop or raise, the columns right of the firing one are not advanced. |
| Generator.ZiplusGen.Compute | superzip.py:137-160 | the work between two `yield`s resolves to the step after the last row, with that row as the previous one; stopped columns stay put |
| Generator.ZiplusGen.Next | superzip.py:132-160 | one `next()`: what remains to be yielded before the call is the yielded row followed by what remains after it, or the clean end, or the raise. Every yield lowers the measure. A finished generator stays finished. |
| Generator.Drain | superzip.py:132-160 | draining a generator collects exactly the rows it still had to yield and the way it ends |
| Generator.Collect | superzip.py:97-160 | validating, wrapping and draining give exactly `ZiplusSpec.Ziplus` of the arguments |
| ZiplusExamples.PreviousStopPrevious | superzip.py:39-53 | `(Previous, StopIteration, Previous)` over `range(10)`, `reversed(range(10))`, `'abcdef'`: ten rows `j, 9 - j`, then the letters, then `'f'` repeated; ends cleanly |
| ZiplusExamples.PreviousStopNone | superzip.py:54-68 | `(Previous, StopIteration, None)`: ten rows, with `None` once the string runs dry; ends cleanly (also the self-test at superzip.py:201-212) |
| ZiplusExamples.ShortPreviousStop | superzip.py:69-79 | `(Previous, Previous, StopIteration)` over `reversed(range(5))`: six rows, column `b` 4 down to 0 then 0; ends cleanly |
| ZiplusExamples.ShortPreviousRaise | superzip.py:80-95 | `(Previous, Previous, IndexError("Oh no!"))` over `reversed(range(5))`: the same six rows, then `IndexError("Oh no!")` |
| ZiplusExamples.DefaultsOmitted | superzip.py:173-180 | `defaults` omitted: the six rows of plain `zip`; ends cleanly |
| ZiplusExamples.AllPrevious | superzip.py:181-192 | `Previous` for every column: ten rows, with `'f'` repeated; ends cleanly |
| ZiplusExamples.PreviousNoneStop | superzip.py:193-200 | `(Previous, None, StopIteration)`: six rows; ends cleanly |
| ZiplusExamples.PreviousStopRaise | superzip.py:213-221 | `(Previous, StopIteration, IndexError("Oh no!"))`: six rows, then `IndexError("Oh no!")`, since the string column runs dry first |
| ZiplusExamples.StringArgument | superzip.py:105-106 | `ziplus('ab', defaults=(Previous,))` yields `['a']`, then `['b']`, and ends cleanly |

## Left out

- The `debug` printing (superzip.py:120-127, 133-135, 148-155, 161-162) is left out. It is console output with no effect on the rows.
- `test_ziplus` and the `__main__` block are left out. Their expected tables are stated as the `ZiplusExamples` lemmas.
- Python generator mechanics are not modelled as such. Suspension at `yield` is modelled by `Ziplus.Next`. Validation runs before the generator is built, whereas in Python its `ValueError` surfaces on the first `next()`. Nothing is yielded before it either way.
- Iterables are finite sequences. Infinite iterables and iterables with side effects are not modelled. Nor is an iterator that yields again after raising `StopIteration`.
- The `isinstance` tests are left out: `Iterable` at superzip.py:105, `Sequence` at superzip.py:100 and `Exception` at superzip.py:129 and 157. They become the `Arg`, `Defaults` and `Fill` datatypes.
- Rules that these datatypes cannot express are left out. One is a `StopIteration` instance given as a default, which Python turns into a `RuntimeError` under `generator_stop`. Another is an exception class given as a default, which is used as a constant.
- Values are limited to `None`, integers and strings, which is what the examples use.
- Aliasing of the yielded list with `previous` (superzip.py:138) is left out. A consumer that mutates a yielded row would change what a `Previous` column repeats; the model's rows are values.
- The `setattr` calls at superzip.py:165-166 are left out. They only make `Previous` and `StopIteration` reachable as attributes of `ziplus`.
