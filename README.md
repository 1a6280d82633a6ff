# work-time-counter, modelled in Dafny

The work-time counter turns a list of clock-in and clock-out checkpoints into the total time spent at work. The checkpoints are command-line tokens such as `8:00 15:00 16:00 17:00`. Its library runs in three stages:

1. `validate_input` accepts the argument list only when it has at least two entries and an even number of them.
2. `parse_args_to_time` appends `":00"` to every token and parses it as a time of day (`chrono::NaiveTime`). The result is either every parsed time, in input order, or nothing at all.
3. `count_work_time` walks the times with a toggling `is_pair` flag. It collects `end - start` for each consecutive pair into a vector, then adds the vector up from zero.

The model has three modules:

- `Wrappers` (`wrappers.dfy`): Rust's `Option`.
- `Chrono` (`chrono.dfy`): the parts of the `chrono` crate that the library uses. A time of day is `NaiveTime(hour, minute, second)` with a `Valid()` range predicate. `end - start` is a signed number of seconds, with no wrap-around at midnight. `NaiveTime::from_str` is replaced by a concrete recogniser, `ParseTime`. It is stated as an assumption about the crate: it accepts `H:M:S`, where each field has one or two decimal digits, read greedily. The ranges are hour 0-23, minute 0-59 and second 0-59. Any other text is rejected, including text with spaces around or inside the fields, which `chrono` may skip (see "## Left out").
- `WorkTime` (`work_time.dfy`): the library, `src/lib.rs`. `ValidateInput` is a function. `ParseArgsToTime` and `CountWorkTime` are methods with the source's loops, proved against the specification functions `ParseToken` and `TotalWorkTime`. A `Duration` is an unbounded `int` of seconds.

## Model

| member | source | states |
|---|---|---|
| `WorkTime.ValidateInput` | src/lib.rs:16-20 | `len >= 2 && len % 2 == 0`, stated in pair terms: the arguments form at least one (start, end) pair, and the pairs use up every argument; further properties are in the three `ValidateInput*` lemmas below |
| `WorkTime.ValidateInputExamples` | src/lib.rs:16-20 | `[]`, one and three arguments are rejected; two arguments are accepted |
| `WorkTime.ValidateInputIgnoresContents` | src/lib.rs:16-20 | two argument lists of the same length get the same verdict, so the tokens themselves are never inspected |
| `WorkTime.ValidateInputIffFullyPaired` | src/lib.rs:16-20 | the validator accepts exactly those lists whose checkpoints split into at least one (start, end) pair with none left over for the accumulator |
| `Chrono.ParseTime` | src/lib.rs:28 | anything the time parser accepts is a valid time of day (hour < 24, minute < 60, second < 60) |
| `Chrono.ParseFormatRoundTrip` | src/lib.rs:28 | every valid time written `HH:MM:SS` is accepted and parsed back to itself |
| `Chrono.SecondsFromMidnight` | src/lib.rs:44 | a valid time lies in `[0, 86400)` seconds after midnight |
| `Chrono.SignedDurationSince` | src/lib.rs:52 | `end - start` lies strictly between -86400 and 86400 seconds; it is zero exactly when the times are equal; it is negative exactly when `end` comes before `start` on the clock face, so there is no midnight correction |
| `WorkTime.ParseToken` | src/lib.rs:28 | a token that parses after `":00"` is appended yields a valid time whose seconds are zero |
| `WorkTime.ParsedSecondsAreZero` | src/lib.rs:28 | whatever the token is, the appended `":00"` is what the seconds field reads, so a successful parse has second = 0 |
| `WorkTime.ParseTokenRoundTrip` | src/lib.rs:28 | every valid whole-minute time written as an `hh:mm` token is accepted and read back unchanged |
| `WorkTime.ParseTokenExamples` | src/lib.rs:28 | `8:00` parses to 08:00:00 and `16:00` to 16:00:00; `8:60` and `24:00` are rejected; `8` is rejected under the assumed grammar, in which seconds are required (see "## Left out") |
| `WorkTime.ParseArgsToTime` | src/lib.rs:24-38 | the result is `None` exactly when some token fails to parse, so it is never a partial list; on success the list has one entry per token, entry i is the parse of token i plus `":00"`, and every entry is a valid time with zero seconds; an empty input gives `Some([])` |
| `WorkTime.PairDiffs` | src/lib.rs:48-56 | the collected diffs number exactly half the checkpoints (rounded down), and diff k is `ts[2k+1] - ts[2k]` |
| `WorkTime.CountWorkTime` | src/lib.rs:41-63 | the result of the toggle loop and the summation loop is the sum of the pair diffs, starting from zero (`TotalWorkTime`) |
| `WorkTime.SumAppend` | src/lib.rs:58-60 | adding up a concatenation gives the sum of the two parts' totals |
| `WorkTime.PairDiffsAppendPair` | src/lib.rs:49-53 | completing one more pair after an even prefix appends exactly that pair's `end - start` |
| `WorkTime.PairDiffsDropTrailing` | src/lib.rs:49-50 | an element that starts a pair that never completes adds no diff |
| `WorkTime.PairDiffsPrefixStep` | src/lib.rs:48-56 | at an even position a checkpoint only opens a pair; at an odd position it closes the pair and appends `ts[i] - ts[i-1]`, as the `is_pair` toggle does |
| `WorkTime.SumPrefixStep` | src/lib.rs:58-60 | each step of the summation loop adds the next diff to the running total |
| `WorkTime.WorkTimeEmpty` | src/lib.rs:42 | no checkpoints give a zero duration |
| `WorkTime.WorkTimeIgnoresTrailing` | src/lib.rs:48-56 | with an odd number of checkpoints, the total equals the total without the last one |
| `WorkTime.WorkTimeConcat` | src/lib.rs:48-60 | splitting the checkpoints after a complete pair splits the total into the sum of the two parts |
| `WorkTime.WorkTimeBounds` | src/lib.rs:52 | for valid times, the total lies strictly within plus or minus 86400 seconds times the number of pairs |
| `WorkTime.WorkTimeWithinSpan` | src/lib.rs:48-60 | for checkpoints in clock order, the total is non-negative and at most the span from the first checkpoint to the last |
| `WorkTime.OvernightPairIsNegative` | src/lib.rs:52 | a pair from 22:00 to 06:00 counts -16 hours: an overnight shift is not corrected |
| `WorkTime.DocumentedExamples` | src/lib.rs:1-6 | the documented runs `8:00 16:00` and `8:00 15:00 16:00 17:00` pass validation, each token parses to a whole hour, and both give 8 hours of work |
| `WorkTime.WorkTimeExamples` | src/lib.rs:69-91 | `[07:00, 15:00]` gives 8 hours, and `[07:00, 08:00, 08:15, 15:15]` gives 8 hours |

## Left out

- `src/main.rs` is not part of this model. It reads the process arguments, prints the two error messages and the `Time at work: H:MM` line, and always exits successfully. The hours/minutes split it prints is output formatting only.
- `Chrono.ParseTime`: `chrono::NaiveTime::from_str` is foreign code whose grammar is not visible. The recogniser is an assumption about it, and it differs from the crate as follows.
  - Whitespace: the crate skips spaces around the fields and colons, but the recogniser does not. Tokens such as `" 8:00"`, `"8: 00"` or `"8:00 "` are therefore accepted by the program and rejected by the model, so `ParseArgsToTime` yields `None` for argument lists where `parse_args_to_time` yields a list.
  - Grammar version: the recogniser follows a `from_str` grammar in which the seconds field is required (`H:M:S`). The crate version is not pinned in the files modelled here, and later 0.4 releases of `chrono` document seconds as optional. Under such a release, a bare-hour token such as `"8"` becomes `"8:00"` and parses as 08:00:00, with the appended `":00"` read as the minute. The `"8"` case of `WorkTime.ParseTokenExamples` and the statement that the suffix is always the seconds field hold only for the required-seconds grammar. `WorkTime.ParsedSecondsAreZero` still holds under either grammar, because the seconds are zero either way.
  - Fractional seconds and leap seconds (second 60) are not modelled. Under the assumed grammar neither can appear, because every parsed string ends in the `":00"` the library appends, and that suffix is the seconds field.
- Durations are unbounded integers of whole seconds. Neither `chrono::Duration`'s range limits and overflow nor its nanosecond part are modelled, since a time ending in `":00"` never has sub-second parts.
- `WorkTime.ParseArgsToTime`: the contract says that the result is `None` when some token fails. It does not say that the loop stops at the first failure. The early return is in the method body, but the result cannot observe it.
- Ownership and copying (`to_owned`, `clone`, moving `Vec`s) have no effect on the values and are not modelled.
