# Fee-cap check resolution (lotus `cli/sending_ui.go`)

This Dafny project models the part of the lotus command line that deals with
failed pre-flight checks on an outgoing message. It covers four things:

- **Fee derivation.** It decides whether the failed checks are a fee-cap problem
  of the message being sent. That is a failed check about the message's own CID
  whose code is one of the three base-fee codes in `interactiveSolves`. It also
  reads the base fee the check service hinted at.
- **The fee editor.** This is the redraw closure that `ui` builds. It keeps the
  editable price and handles `s`/`S`, `+`, `-`, Enter, redraw ticks and
  text-field edits. Each frame re-parses the price and classifies it as invalid,
  SAFE, low or too low.
- **Applying an edit.** `runFeeCapAdjustmentUI` seeds the editor with
  `GasFeeCap * GasLimit`. On a commit it writes back only `GasFeeCap`, as
  `maxFee / GasLimit`.
- **The resolution protocol.** `resolveChecks` prints the failures and fails when
  the session is not interactive. Otherwise it offers the editor, re-runs the checks
  and asks for confirmation to send.

Modules, one per component:

- `Checks` (`checks.dfy`): check codes, hint values, check outcomes and their
  grouping, the draft message as a class, and the failure listing of `printChecks`.
- `Decimal` (`decimal.dfy`): base-10 big-integer text. This is the parse that
  `big.FromString` applies to a `baseFee` hint, and the rendering it inverts.
- `FeeDerivation` (`fee_derivation.dfy`): `baseFeeFromHints`, specified by its
  missing, non-string and unparsable cases and by the decimal round trip; and
  `isFeeCapProblem` as a method with the source's nested loops. Its flag is
  proved equal to "some outcome qualifies", and its base fee to a first-non-zero
  reference function.
- `FeeEditor` (`fee_editor.dfy`): the closure and its captured state as the class
  `Editor`. `Step` is one run of the closure and `Run` is the terminal's event loop.
  Both are specified by the pure functions `Next` and `Deliver`. The classification
  and the key arithmetic are functions with lemmas.
- `Resolution` (`resolution.dfy`): `runFeeCapAdjustmentUI`, the answer rule of
  `askUser`, and `resolveChecks`.
- `Arith` and `Wrappers`: facts about division, and `Option`.

Token amounts are unbounded integers. Dafny's `/` is Euclidean. For the
non-negative amounts the editor works with, this is the same as truncation.
Properties about rounding are stated for non-negative operands.

Three behaviours of the code are easy to misread; the model keeps them as written:

- When the operator declines the fee adjustment, the checks are still run again
  (`cli/sending_ui.go:63-68` is outside the `if` at line 56). If that re-run
  fails, its error is returned.
- When the editor ends without a commit, `runFeeCapAdjustmentUI` returns its own
  `"aborted by user"` error (line 143). That is a new error value, not the
  `ErrAbortedByUser` sentinel, and `resolveChecks` passes it on unchanged. The
  model keeps it as the distinct error `EditorAborted`.
- Enter commits without parsing the price again. The committed maximum fee is the
  value the last frame parsed. For a price that does not parse, that value is zero,
  so the fee cap written is zero. This is modelled as written, and
  `FeeEditor.CommitOfInvalidIsZero` states it.

## Model

| member | source | states |
|---|---|---|
| `Decimal.ParseInt` | cli/sending_ui.go:36-39 | the hint parse succeeds exactly on an optional sign followed by at least one decimal digit |
| `Decimal.ParseFormatInt` | cli/sending_ui.go:36-40 | every integer, rendered in decimal, parses back to itself |
| `FeeDerivation.BaseFeeFromHints` | cli/sending_ui.go:25-41 | zero when the `baseFee` key is missing, holds a non-string, or does not parse; otherwise the parsed value; a non-zero result implies a well-formed string hint; never fails |
| `FeeDerivation.BaseFeeFromRenderedHint` | cli/sending_ui.go:25-41 | a `baseFee` hint holding a rendered amount yields that amount |
| `FeeDerivation.AnySolvableSnoc` | cli/sending_ui.go:115-117 | one more outcome sets the fee-cap flag exactly when that outcome is a failed check about the message with a solvable code |
| `FeeDerivation.CapturedBaseFeeSnoc` | cli/sending_ui.go:116-120 | scanning one more outcome keeps a captured non-zero fee; otherwise a solvable outcome's hint replaces the zero |
| `FeeDerivation.CapturedBaseFeeIsFirstNonZero` | cli/sending_ui.go:108-125 | the captured fee is zero exactly when every solvable outcome's hint is zero; otherwise it is the hint of a solvable outcome before which every solvable outcome hinted zero |
| `FeeDerivation.NoSolvableNoBaseFee` | cli/sending_ui.go:108-125 | when nothing qualifies, the base fee is zero |
| `FeeDerivation.UnsolvableIsIgnored` | cli/sending_ui.go:112-116 | a passed outcome, one about another CID, or one with another code changes neither result, wherever it is inserted |
| `FeeDerivation.IsFeeCapProblem` | cli/sending_ui.go:107-126 | true exactly when some failed outcome, in any group, is about the message and has a code in `interactiveSolves`; the base fee is the first non-zero hint of such outcomes in group-then-check order; false implies zero |
| `Checks.Flatten` | cli/sending_ui.go:110-111 | an outcome is in the flattened sequence exactly when it is in one of the groups |
| `Checks.ReportOf` | cli/sending_ui.go:86-91 | a failure line carries the check's error text and is labelled current exactly when the check's CID is the message's |
| `Checks.Failures` | cli/sending_ui.go:83-85 | the failed outcomes are exactly those not OK |
| `Checks.PrintChecks` | cli/sending_ui.go:80-94 | prints at most one line per outcome |
| `Checks.FailuresAppend` | cli/sending_ui.go:81-85 | the failures of two listings in sequence are the failures of the first followed by those of the second |
| `Checks.PrintChecksFailuresOnly` | cli/sending_ui.go:80-94 | one line per failed outcome: the i-th line reports the i-th failed outcome in listing order; passed outcomes are never printed and an all-OK listing is empty |
| `FeeEditor.Classify` | cli/sending_ui.go:210-223 | an invalid label exactly for an unparsable price; the low branch divides only by a positive required fee, and its multiple lies in [1.00, 10.00) |
| `FeeEditor.ClassifyBoundaries` | cli/sending_ui.go:212-223 | the safe fee is SAFE; the required fee is low at 1.00 times; one unit below it is too low |
| `FeeEditor.ZeroRequiredIsSafe` | cli/sending_ui.go:214-218 | with a zero required fee (so a zero safe fee) every non-negative amount is SAFE, so the division at line 218 is never reached |
| `FeeEditor.ClassifyMonotone` | cli/sending_ui.go:212-223 | a larger amount never classifies lower, and within low its multiple never drops |
| `FeeEditor.ClassifyAgainstFeeCap` | cli/sending_ui.go:212-229 | SAFE exactly when the resulting fee cap is at least ten base fees; for a non-negative base fee, too low exactly when the fee cap is below the base fee |
| `FeeEditor.ScenarioMillionGas` | cli/sending_ui.go:153-154 | gas limit 10^6 and base fee 100 give required 10^8 and safe 10^9; 5*10^7 is too low, 10^8 is low at 1.00 times, 10^9 is SAFE |
| `FeeEditor.RaiseAddsATenth` | cli/sending_ui.go:165-169 | for a non-negative amount, `+` adds a tenth rounded down, never decreases it, and changes it exactly from ten up |
| `FeeEditor.LowerNeverIncreases` | cli/sending_ui.go:171-175 | for a non-negative amount, `-` never increases it, strictly decreases a positive one, and stays non-negative |
| `FeeEditor.RaiseThenLower` | cli/sending_ui.go:165-175 | `+` then `-` gives back a non-negative multiple of ten and one unit less for any other non-negative amount |
| `FeeEditor.KeyEffects` | cli/sending_ui.go:160-178 | `s`/`S` set the safe fee whatever the parse state; `+`/`-` leave an unparsable price alone and move a non-negative one up/down without going negative |
| `FeeEditor.Editor.constructor` | cli/sending_ui.go:151-156 | required is base fee times gas limit, safe is ten times that, and the price renders the seeded maximum fee |
| `FeeEditor.Editor.Step` | cli/sending_ui.go:158-233 | the new state is `Next` of the old one (key handling, then commit-and-exit on Enter without parsing, else parse into the maximum fee); the frame drawn shows the classification and the resulting fee cap; the stored fee stays the parse of the price |
| `FeeEditor.Editor.Run` | cli/sending_ui.go:136-138 | the loop leaves the editor in `Deliver` of its start state over the events |
| `FeeEditor.DeliverStaysConsistent` | cli/sending_ui.go:210-211 | after any events, the stored maximum fee is the parse of the price and the commit flag equals the exit flag |
| `FeeEditor.CommitsIffEnter` | cli/sending_ui.go:181-184 | a session commits exactly when the confirm key is among its events |
| `FeeEditor.CommitAtFirstEnter` | cli/sending_ui.go:181-184 | the first Enter ends the session; the committed state is the one the events before it left, with no further parse |
| `FeeEditor.CommitOfInvalidIsZero` | cli/sending_ui.go:210-211 | committing a price that does not parse commits a zero maximum fee |
| `Resolution.RunFeeCapAdjustment` | cli/sending_ui.go:128-149 | a terminal error, a loop error, or an end without commit returns that error and leaves the message unchanged; a commit sets only `gasFeeCap`, to the committed maximum fee divided by the gas limit, and returns the same message |
| `Resolution.AdjustmentCommitsIffEnter` | cli/sending_ui.go:138-148 | the fee cap is written exactly when the terminal works and the confirm key is delivered |
| `Resolution.IdlesKeepState` | cli/sending_ui.go:158-159 | redraw ticks without a key leave the editor state unchanged |
| `Resolution.ConfirmWithoutEditKeepsFeeCap` | cli/sending_ui.go:134-146 | committing after nothing but redraws writes back the fee cap the message had (seed then apply is the identity) |
| `Resolution.CommittedFeeCapMatchesClassification` | cli/sending_ui.go:146 | for a non-negative base fee, the written fee cap is zero for an unparsable price, below the base fee when too low, at least the base fee when low or SAFE, and at least ten base fees when SAFE |
| `Resolution.ToLower` | cli/sending_ui.go:100 | the lowercased reply has the same length and no upper-case letter left, every other character is kept, and a character becomes `y` exactly when it was `y` or `Y` |
| `Resolution.AskUser` | cli/sending_ui.go:96-105 | an empty reply gives the default; any other reply is yes exactly when its first character is `y` or `Y` |
| `Resolution.ResolveChecks` | cli/sending_ui.go:43-76 | always prints the failures first; not interactive gives `CheckFailed`; without a fee-cap problem it asks to send (default no: `AbortedByUser`); with one it offers the editor (default yes), passes on editor errors, re-runs the checks even when the offer was declined, passes on service errors, then asks to send; only `gasFeeCap` can change; a positive gas limit is needed only when the operator accepts the editor |

## Left out

- Terminal rendering is left out: labels, rows, styles, and the `imtui`/`tcell` calls. The terminal is a foreign library, so a session is given as its events, whether `NewTui` fails, and what `t.Run` returns.
- Text-field editing by `EditFieldFiltered` with `FilterDecimal` is left out. A key the field consumes is a `FieldEdit` event that replaces the price text. The filter is taken to reject `s`, `S`, `+` and `-`.
- FIL formatting and parsing (`types.FIL`, `types.ParseFIL`) are not part of this model. A price is the result of its parse (`Parsed(amount)` or `Unparsable`). Rendering then parsing is taken to give the amount back, and a failed parse stores a zero amount.
- The `over` multiple stays in integer hundredths. The floating-point rendering and the `Int64()` conversion at line 220 are left out.
- Standard input and output are not modelled. Operator replies are inputs, one per question. Printed text becomes `Output` values and `Report` lines.
- `proto.Cid()` is modelled as the message content itself, so distinct messages have distinct CIDs.
- `RunChecksForPrototype` is a network service. Its answer is a parameter, and `context.Context` is dropped.
- Negative amounts: the rounding of `big.Div` for negative operands is not part of this model. Dafny's Euclidean `/` is used, and rounding facts are stated for non-negative amounts.
- Gas limit: the `int64` width is not modelled.
- `Resolution.RunFeeCapAdjustment`: requires a positive gas limit. A zero gas limit makes the divisions at lines 146 and 229 panic in Go, and negative limits are not modelled.
- `FeeEditor.ClassifyAgainstFeeCap`: the too-low equivalence is stated only for a non-negative base fee. A negative hint makes the safe fee fall below the required fee.
- `Resolution.ToLower`: lowercases ASCII letters only. Unicode case mapping is left out; no non-ASCII character lowercases to `y`.
- `types.Message` is not part of this model. It is represented by the fields listed in `Checks.MessageFields`.
- `ErrCheckFailed` is defined in another file and is modelled as the error `CheckFailed`.
- The caller that runs the first checks and calls `resolveChecks` only when some check failed is not part of this model.
