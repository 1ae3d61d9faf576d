# fancontrol in Dafny

A model of `fancontrol.py`, a script that keeps a Raspberry Pi's cooling fan
between two temperatures. The script:

- reads the core temperature by running `vcgencmd measure_temp` and parsing
  its reply, `temp=42.8'C`;
- drives the fan's GPIO line with hysteresis: on above `ON_THRESHOLD` (55 °C),
  off below `OFF_THRESHOLD` (45 °C), untouched in between;
- mirrors the fan state in a status file as `"1"` or `"0"`.

The project has six modules:

| module | file | what it holds |
|---|---|---|
| `Wrappers` | `wrappers.dfy` | `Option` and `Result` |
| `Text` | `text.dfy` | Python's `str.split` with a one-character separator, its inverse `sep.join`, and `TakeUntil`, the longest prefix free of a set of characters |
| `Decimal` | `decimal.dfy` | Python's `float(text)` on plain decimal literals, and the one-decimal formatting `vcgencmd` uses |
| `Temperature` | `temperature.dfy` | the parse in `get_temp`: `float(temp_str.split('=')[1].split('\'')[0])`, with `IndexError` and `ValueError` both becoming the single `ParseError` |
| `Hysteresis` | `hysteresis.dfy` | one loop iteration as pure functions of the thresholds, the fan state, the status file and the temperature read; runs of iterations as left folds; the effects of each iteration in order |
| `FanControl` | `fancontrol.dfy` | the `__main__` block (see below) |

The `__main__` block is modelled as follows:

- `Launch` does the threshold check and startup.
- The class `Controller` has the GPIO level (`fanOn`) and the status file (`status`) as fields.
- A ghost `trace` records every status write and fan switch in the order they happen.
- `Step` is one iteration. `Run` iterates over a finite sequence of temperatures.
- `Monitor` is the loop as written: it stops at the first reading that failed to parse.

The thresholds are a parameter. `Configured` holds the script's 55/45.

Two details of the parse are easy to miss:

- **A reply without the closing quote is accepted.** `temp=42.8` splits on `'`
  into one piece, which is the whole number. See `Temperature.NoQuoteStillParses`.
- **The field also ends at a second `=`.** Because of `split('=')[1]`, the text
  read runs from the first `=` to the next `=` or `'`, whichever comes first.
  See `Temperature.ValueField` and `Temperature.TempTextIsValueField`.

## Model

| member | source | states |
|---|---|---|
| Text.Split | fancontrol.py:31 | `str.split` always yields at least one piece, and no piece contains the separator |
| Text.JoinSplit | fancontrol.py:31 | joining the pieces of a split with the separator gives back the string |
| Text.SplitJoin | fancontrol.py:31 | splitting a join of separator-free pieces gives back the pieces |
| Text.SplitCount | fancontrol.py:31 | a split has one more piece than the string has separators, so `[1]` fails exactly when there is no separator |
| Text.SplitFirstPiece | fancontrol.py:31 | the first piece of a split is the text before the first separator, which is why `split('\'')[0]` never fails |
| Text.SplitAtFirst | fancontrol.py:31 | when the separator occurs, the pieces are the text before its first occurrence followed by the pieces of the rest |
| Text.SplitAfterPiece | fancontrol.py:31 | a separator-free prefix followed by a separator contributes exactly one piece |
| Text.SplitWithoutSeparator | fancontrol.py:31 | a string without the separator splits into itself alone |
| Text.TakeUntil | fancontrol.py:31 | the result is a prefix free of the stop characters, ended by a stop character or by the end of the string |
| Text.TakeUntilUnique | fancontrol.py:31 | those three properties determine the result |
| Text.TakeUntilTwice | fancontrol.py:31 | cutting at one set of characters and then at another is cutting at their union |
| Decimal.ParseFloat | fancontrol.py:31 | definition of `float(text)` on decimal literals; `ParseFormatTenths` proves the round trip against the formatter, `ParseFloatNeedsDigit` and `SeparatorNotStripped` the rejections |
| Decimal.StripLeading | fancontrol.py:31 | `float` drops leading whitespace, meaning space and tab through carriage return: a suffix of the input, only whitespace removed, not starting with whitespace |
| Decimal.StripTrailing | fancontrol.py:31 | `float` drops trailing whitespace, meaning space and tab through carriage return: a prefix of the input, only whitespace removed, not ending with whitespace |
| Decimal.SeparatorNotStripped | fancontrol.py:31 | `float` does not strip the information separator U+001C, so `\x1c42.8` is no number |
| Decimal.StripUnchanged | fancontrol.py:31 | text that neither starts nor ends with whitespace is left alone |
| Decimal.ParseFloatNegative | fancontrol.py:31 | a minus sign before an unsigned literal negates its value |
| Decimal.ParseFloatPlain | fancontrol.py:31 | a literal starting with a digit is read as the unsigned literal |
| Decimal.ParseOneDecimal | fancontrol.py:31 | digits, a point and one digit are read as the value they spell |
| Decimal.ParseUnsignedTenths | fancontrol.py:31 | a non-negative count of tenths, written with one decimal, is read back as that count over ten |
| Decimal.ParseFormatTenths | fancontrol.py:31 | round trip: `float` of a temperature written with one decimal, either sign, is that temperature |
| Decimal.ParseFloatNeedsDigit | fancontrol.py:31-33 | in the modelled literal grammar, text without a digit is rejected (Python's `inf` and `nan` are outside that grammar, see Left out) |
| Decimal.NatDigits | fancontrol.py:28 | the encoding half of the round trip, the way the temperature command prints numbers: the decimal digits of a natural number denote that number and have no leading zero |
| Temperature.TempText | fancontrol.py:31 | definition of the split-and-index chain, `None` for the `IndexError`; `TempTextIsValueField` proves it equal to the independent `ValueField` |
| Temperature.GetTemp | fancontrol.py:30-33 | definition of the parse in `get_temp`, both exceptions mapped to `CouldNotParse`; `GetTempFailure` characterises its failures both ways, `GetTempOfMeasureOutput` proves the round trip |
| Temperature.TempTextIsValueField | fancontrol.py:31 | the split-and-index chain reads exactly the text after the first `=` up to the next `=` or `'`, and raises `IndexError` exactly when there is no `=` |
| Temperature.GetTempFailure | fancontrol.py:30-33 | `get_temp` raises its `RuntimeError` exactly when there is no `=` or the value field is not a number |
| Temperature.GetTempNeedsEquals | fancontrol.py:31-33 | a reply without `=` is rejected |
| Temperature.GetTempOfReply | fancontrol.py:28-31 | `temp=<number>` is read as the number, whether what follows starts with `'` or is empty |
| Temperature.GetTempOfMeasureOutput | fancontrol.py:28-31 | round trip: the reply `temp=<t>'C\n` of the temperature command is read as `t` |
| Temperature.SampleOutput | fancontrol.py:31 | `temp=42.8'C\n` is read as 42.8 |
| Temperature.GarbageRejected | fancontrol.py:31-33 | `garbage` is rejected |
| Temperature.NoQuoteStillParses | fancontrol.py:31 | `temp=42.8`, with no closing quote, is read as 42.8 |
| Temperature.SeparatorRejected | fancontrol.py:30-33 | `temp=\x1c42.8'C` makes `get_temp` raise its `RuntimeError` |
| Hysteresis.Decide | fancontrol.py:51-61 | the branch taken: turning on exactly when the fan is off and the temperature is above the on threshold, turning off exactly when the fan is on and the temperature is below the off threshold |
| Hysteresis.StepState | fancontrol.py:51-61 | definition of the fan and status file after one iteration; `StepCases`, `HoldIff`, `ThresholdsAreStrict`, `Envelope` and `StepMirrors` state its properties |
| Hysteresis.StepEffects | fancontrol.py:51-61 | definition of the writes and switches of one iteration, in order; `HoldIff` and `AtMostOneTransition` state their properties |
| Hysteresis.RunState | fancontrol.py:46-61 | definition of iterations in turn as a left fold of `StepState`; `RunMirrors`, `RunDeadBand`, `RunAlternates` and `RunSnoc` state its properties |
| Hysteresis.RunEffects | fancontrol.py:46-61 | definition of the effects of those iterations, in order; `RunAlternates` and `RunSnoc` state their properties |
| Hysteresis.ConfiguredAccepted | fancontrol.py:10-11 | the configured 55/45 pass the startup check `OFF_THRESHOLD < ON_THRESHOLD` |
| Hysteresis.StepCases | fancontrol.py:51-61 | an iteration either leaves fan and status file alone or flips the fan and writes the matching status; afterwards the fan runs exactly when it ran and the temperature is not below the off threshold, or it was off and the temperature is above the on threshold |
| Hysteresis.HoldIff | fancontrol.py:51-61 | an iteration changes nothing and has no effect if and only if the fan is on and the temperature is not below the off threshold, or the fan is off and the temperature is not above the on threshold |
| Hysteresis.ThresholdsAreStrict | fancontrol.py:51-58 | a temperature exactly at a threshold triggers no transition (strict `>` and `<`) |
| Hysteresis.DeadBand | fancontrol.py:51-61 | a temperature between the thresholds changes neither the fan nor the status file |
| Hysteresis.Envelope | fancontrol.py:51-61 | after an iteration the fan runs above the on threshold and is stopped below the off threshold |
| Hysteresis.AtMostOneTransition | fancontrol.py:51-61 | an iteration makes at most one transition; it writes the new status before switching the fan, and writes nothing when the fan stays as it is |
| Hysteresis.StepMirrors | fancontrol.py:51-61 | an iteration keeps the status file reporting the fan state |
| Hysteresis.RunMirrors | fancontrol.py:46-61 | so does any number of iterations |
| Hysteresis.RunDeadBand | fancontrol.py:46-61 | iterations whose temperatures all lie between the thresholds change nothing and have no effect |
| Hysteresis.RunAlternates | fancontrol.py:46-61 | over a run, transitions alternate on/off, each preceded by its status write; the fan ends as it started exactly when the number of transitions is even |
| Hysteresis.RunSnoc | fancontrol.py:46-61 | one more iteration after a run continues its state and appends its effects |
| Hysteresis.RunPrefix | fancontrol.py:46-61 | the state and effects after `k + 1` iterations are one more iteration applied to the state and effects after `k` |
| Hysteresis.ScenarioStatuses | fancontrol.py:46-61 | with 55/45 and readings 30, 50, 56, 58, 50, 44, 46, 40 the status file reads 0, 0, 1, 1, 1, 0, 0, 0 after each iteration |
| Hysteresis.ScenarioEffects | fancontrol.py:46-61 | in that run the only effects are switching on at 56 and off at 44, each preceded by its status write, and the fan ends off |
| FanControl.Readings | fancontrol.py:47 | one `get_temp` result per command output (`ReadingsAt` gives each element) |
| FanControl.FirstFailure | fancontrol.py:46-47 | the position where the loop dies with the parse error is a failed reading (`FirstFailureIsFirst` and `FirstFailureAt` prove it is the first) |
| FanControl.Monitored | fancontrol.py:46-61 | definition of the fan and status file after the loop, stopping at the first failed reading; `MonitoredIsRun`, `MonitoredStopsAtFailure` and `MonitoredUpTo` relate it to `RunState` |
| FanControl.MonitoredEffects | fancontrol.py:46-61 | definition of the loop's effects up to the first failed reading; related to `RunEffects` by the same lemmas |
| FanControl.FirstFailureIsFirst | fancontrol.py:46-47 | the position where the loop dies is a failed reading, and every reading before it succeeded; with no such position every reading succeeded |
| FanControl.FirstFailureAt | fancontrol.py:46-47 | conversely, a failed reading after only successes is where the loop dies |
| FanControl.MonitoredIsRun | fancontrol.py:46-61 | when every reading succeeds, the loop does what a run over the temperatures does |
| FanControl.MonitoredStopsAtFailure | fancontrol.py:46-47 | nothing after the first failed reading is looked at |
| FanControl.MonitoredUpTo | fancontrol.py:46-61 | the loop's outcome is the run over the temperatures read before it stopped |
| FanControl.ReadingsAt | fancontrol.py:47 | each iteration's reading is `get_temp` of that iteration's command output |
| FanControl.FirstUnparsable | fancontrol.py:30-33 | over command outputs, the loop dies at the first output `get_temp` cannot parse, after every earlier one parsed |
| FanControl.Controller.constructor | fancontrol.py:41 | claiming the GPIO line: the fan starts off and the status file keeps what an earlier run left |
| FanControl.Controller.Persist | fancontrol.py:52-53 | writing the status file changes only the status, and is recorded |
| FanControl.Controller.SwitchOn | fancontrol.py:54 | `fan.on()` changes only the fan, and is recorded |
| FanControl.Controller.SwitchOff | fancontrol.py:61 | `fan.off()` changes only the fan, and is recorded |
| FanControl.Controller.Step | fancontrol.py:51-61 | one iteration moves the fan and the status file as `StepState` says, records `StepEffects`, and keeps the status file reporting the fan |
| FanControl.Controller.Run | fancontrol.py:46-63 | iterations over a sequence of temperatures end in `RunState` and record `RunEffects` |
| FanControl.Controller.Monitor | fancontrol.py:46-61 | the loop returns the position of the first failed reading and ends in `Monitored`, having recorded `MonitoredEffects` |
| FanControl.Launch | fancontrol.py:38-44 | startup fails with the threshold error exactly when `OFF_THRESHOLD >= ON_THRESHOLD`; otherwise the fan is off, the status file reads `"0"`, and that write is the only effect |

## Left out

- Running `vcgencmd measure_temp` and decoding its output as UTF-8 are left out. The model starts from the decoded text. The `UnicodeDecodeError` that `.decode()` could raise is not part of this model. Neither is a failure to start the command.
- gpiozero is not part of this model. `OutputDevice(GPIO_PIN)` is taken to start with the line low, and `fan.value` is read as the field `fanOn`. The pin number `GPIO_PIN` plays no part.
- `Path(...).mkdir(...)` runs at import time, before the threshold check. It is left out, and so are the errors that opening or writing the status file can raise. Each write replaces the whole file, so the file is a single string field.
- `time.sleep(SLEEP_INTERVAL)` is left out. The unbounded `while True` loop is modelled over a finite sequence of readings.
- FanControl.Controller.Monitor: takes the result of `get_temp` for each iteration, not the command outputs, and does not call `get_temp` itself. `FanControl.Readings` maps outputs to those results. `FanControl.ReadingsAt` and `FanControl.FirstUnparsable` state what the loop then does with the outputs.
- Decimal.ParseFloat: reads only plain decimal literals: optional whitespace (space, tab, line feed, vertical tab, form feed, carriage return), an optional sign, and digits with at most one point. Python's `float` also accepts exponents, `inf` and `nan`, underscores between digits, and non-ASCII digits and whitespace. The model rejects all of these.
- Decimal.ParseFloatNeedsDigit: holds for the modelled grammar only. Python's `float` also accepts the digit-free `inf`, `infinity` and `nan`, in any case and with an optional sign. For those replies the script returns a temperature, where `GetTemp` reports `CouldNotParse`.
- Temperatures are exact reals. The rounding of IEEE doubles in `float()` and in the threshold comparisons is not modelled.
