# QR viewer: countdown, label, window placement and artifact lifecycle

The QR viewer reads a device ID from the Windows registry and renders it as a QR
code into the file `output_qr_code.png`. It shows that image in a borderless,
always-on-top 400 x 400 window centred on the primary screen. Under the image, a
label counts down `Time remaining: MM:SS` for 30 seconds. Then the window closes
and the image file is deleted again.

This project models the four pieces of sequential logic in `main.go` and proves
their properties:

- `timer_label.dfy` (module `TimerLabel`): the label text computed from a
  remaining duration. Durations are integer nanoseconds, as Go's
  `time.Duration` counts them. The module also has a parser that reads the
  minutes and seconds back out of a label.
- `countdown.dfy` (module `Countdown`): the countdown loop. It is a method
  with a `while` loop that produces the window events in order: one label
  update per pass, a final `00:00` label and one close. It is proved against
  the recursive specification `Ticks`, and the shape of that sequence is proved
  in lemmas.
- `window_geometry.dfy` (module `WindowGeometry`): the arithmetic that centres
  the window rectangle on the screen.
- `lifecycle.dfy` (module `Lifecycle`): one run of the program as a class
  `Application`. The class holds whether the artifact file is on disk, the
  debug log, and the actions the run takes on the outside world. Its methods
  follow `runApplication`, `deleteQRCodeFile` and `cleanup` step by step. They
  are proved against the specification function `Run`, and the lemmas about
  `Run` state the ordering, abort and cleanup guarantees. The registry read,
  the encoder, the operating system's file removal and the Qt event loop are
  external. Their answers for one run are a parameter of type `Environment`.
  The registry read, the encoder and each removal may succeed or fail. For the
  event loop, the answer is only whether `Exec` returns or the process is ended
  from outside while it runs. The value `Exec` returns is ignored
  (main.go:122), so a returning event loop always leads to cleanup.

## Model

| member | source | states |
|---|---|---|
| `TimerLabel.WholeSeconds` | main.go:180 | the seconds shown are the remaining duration truncated to whole seconds: `s * 1e9 <= d < (s + 1) * 1e9` |
| `TimerLabel.Decimal` | main.go:181 | the `%d` spelling of a number is non-empty and all digits; it has one digit exactly below 10 and at most two exactly below 100; from 10 on it has no leading zero |
| `TimerLabel.Pad2` | main.go:181 | a `%02d` field is all digits and at least two wide, and exactly two wide exactly when the value is below 100; from 10 on it has no leading zero, so only values below 10 are padded |
| `TimerLabel.FieldValueDecimal` | main.go:181 | reading back the `%d` spelling of n gives n |
| `TimerLabel.FieldValuePad2` | main.go:181 | reading back a `%02d` field gives its value: the zero padding adds nothing |
| `TimerLabel.TimerText` | main.go:180-181 | the label is at least the prefix plus `MM:SS` long; its shape is stated by `TimerTextFields`, its meaning by `TimerTextRoundTrip` and `TimerTextSameExactlyWhenSameSecond` |
| `TimerLabel.TimerTextFields` | main.go:180-181 | the label is `Time remaining: `, then a minutes field of at least two digits, then `:`, then a seconds field of exactly two digits; the fields are `pad2(s/60)` and `pad2(s%60)` of the truncated seconds |
| `TimerLabel.TimerTextRoundTrip` | main.go:179-183 | parsing a label always succeeds; the seconds read back are in 0..59, and `minutes*60 + seconds` equals the truncated whole seconds |
| `TimerLabel.TimerTextSameExactlyWhenSameSecond` | main.go:180-181 | two durations show the same label if and only if they have the same whole seconds |
| `TimerLabel.TimerTextExamples` | main.go:180-181 | 30 s shows `Time remaining: 00:30`; 0.5 s and 0 s show `Time remaining: 00:00`; 6000 s shows `Time remaining: 100:00` (`%02d` is a minimum width) |
| `Countdown.Ticks` | main.go:168 | the values for which the loop body runs: none exactly when the duration is not positive, and otherwise the first is the duration; `TicksBounded`, `TicksAt`, `TicksCount` and `TicksDecreasing` describe them fully |
| `Countdown.Emitted` | main.go:168-173 | the values passed to the label setter end with 0 and start with the duration (or 0 when it is not positive); `EmittedShape` gives the rest |
| `Countdown.Labels` | main.go:170 | one `SetText` event per remaining duration, in order, each carrying that duration's label |
| `Countdown.StartCountdownTimer` | main.go:167-177 | the loop emits the label of every tick, then the label of 0, then closes the window: its events are `Labels(Emitted(duration, interval)) + [CloseWindow]`; that the close is last and comes once, right after `00:00`, is `CloseComesLast` |
| `Countdown.CloseComesLast` | main.go:173-176 | in the countdown's event sequence the window is closed exactly once, last, right after the `00:00` label |
| `Countdown.TicksBounded` | main.go:168 | every value for which the loop body runs lies in (0, duration] |
| `Countdown.TicksAt` | main.go:168 | the k-th pass of the loop sees `duration - k*interval` |
| `Countdown.TicksCount` | main.go:168 | the number of passes n satisfies `(n-1)*interval < duration <= n*interval`, so it is the ceiling of duration over interval; there is no pass when the duration is not positive |
| `Countdown.TicksDecreasing` | main.go:168 | consecutive ticks differ by exactly one interval; the ticks strictly decrease; the last tick is at most one interval |
| `Countdown.EmittedShape` | main.go:168-173 | the emitted values start at the duration (or 0 when it is not positive); all but the last are positive; they strictly decrease; the last is 0 and is the only 0 |
| `Countdown.ThirtySecondCountdown` | main.go:167-177 | with the constants `sleepDuration` = 30 s and `updateInterval` = 1 s, 31 values are emitted, 30, 29, ..., 1, 0 seconds; the first label is `Time remaining: 00:30` and the last is `Time remaining: 00:00` |
| `WindowGeometry.CenteredRect` | main.go:85-94 | the window rectangle is 400 x 400 and its midpoint is exactly the screen centre |
| `WindowGeometry.CenteredRectUnique` | main.go:85-94 | the window rectangle is the only 400 x 400 rectangle whose midpoint is the screen centre, and it contains the centre |
| `Lifecycle.Application.DeleteQRCodeFile` | main.go:133-141 | the removal succeeds exactly when the file is there and the operating system allows it; only then does the file go away and `QR code file deleted.` get logged |
| `Lifecycle.Application.Cleanup` | main.go:143-146 | a best-effort removal: a failure is ignored, and `Application cleanup complete.` is always logged, last |
| `Lifecycle.Application.GenerateQRCode` | main.go:163-165 | the encoder is called with the device ID; on success the artifact is on disk; on failure the call reports it and only a partly written file can appear |
| `Lifecycle.LogText` | main.go:45-146 | the text of each log line (lines 50, 60, 66, 69, 139 and 145), without the logger's date-time prefix: a fatal line ends in `:` because `log.Fatal` appends the error next, every other line ends in `.` |
| `Lifecycle.LogTextDistinct` | main.go:45-146 | two log entries print the same text exactly when they are the same entry, so the log file tells every step apart |
| `Lifecycle.ExitCode` | main.go:29-126 | `log.Fatal` exits with status 1 and a return from `main` with 0; a process ended inside the event loop has no status of its own |
| `Lifecycle.ShowAndRun` | main.go:116-125 | the rest of a run once the artifact is written never dies through `log.Fatal`, and it completes exactly when it logs the cleanup line |
| `Lifecycle.Application.ShowAndRunEventLoop` | main.go:116-125 | shows the window, starts the countdown and enters the event loop; cleans up only if the event loop returns; the new state is that of `ShowAndRun` |
| `Lifecycle.Application.RunApplication` | main.go:45-126 | the run's outcome, the actions and log lines it adds, and the final file state are those of the specification `Run` |
| `Lifecycle.Run` | main.go:45-125 | the reference definition of one run, including a process ended inside the event loop; every run takes at least one action and logs at least one line, and a run completes exactly when its last log line is the cleanup line; `FatalCauses`, `AbortsBeforeWindow`, `WindowShownOnce`, `LeftoverDecidesFirstAction`, `StartupOrdering`, `CleanupAfterEventLoop` and `ArtifactAtExit` describe it |
| `Lifecycle.LeftoverDecidesFirstAction` | main.go:128-131 | the `fileExists` test, made at line 47, decides the first action: it is a removal exactly when an artifact was left over, and with no file the run starts with the registry read |
| `Lifecycle.FatalCauses` | main.go:47-67 | each fatal outcome has exactly one cause (leftover not removable, registry error, encoder error); once none of them occurs, the run completes exactly when the event loop returns and otherwise ends inside it |
| `Lifecycle.AbortsBeforeWindow` | main.go:47-116 | a run is fatal exactly when no window is shown; a fatal run exits with 1, never enters the event loop and never logs the cleanup line; a completed run exits with 0; a process ended inside the event loop has no status of its own and never logs the cleanup line |
| `Lifecycle.WindowShownOnce` | main.go:85-122 | the window is shown at most once, centred on the screen; right after it the 30-second countdown starts, and right after that the event loop runs |
| `Lifecycle.StartupOrdering` | main.go:47-67 | the encoder only gets the ID the registry returned, right after the registry read; a leftover artifact has been removed, as the first action, before any encoding; a failed registry read means the encoder is never invoked |
| `Lifecycle.CleanupAfterEventLoop` | main.go:122-125 | a run completes exactly when its last log line is `Application cleanup complete.`; on a completed run the cleanup removal is the last action and comes right after the event loop returns, `QR code file deleted.` precedes the completion line exactly when that removal succeeded, and the last line reads `Application cleanup complete.` (after the date-time prefix); a run that enters the event loop completes exactly when the loop returns, and otherwise the event loop is its last action and `QR code generated.` its last line |
| `Lifecycle.ArtifactAtExit` | main.go:45-126 | after a completed run the artifact is left exactly when the cleanup removal failed; a leftover that could not be removed stays; a registry failure leaves no file; an encoder failure leaves a file exactly when it wrote one partly; a process ended inside the event loop leaves the artifact on disk |
| `Lifecycle.RunProcess` | main.go:29-43 | a fresh process makes one run; it exits with 1 exactly when no window was shown, and with 0 exactly when its last log line is the completion line |

## Behaviour of the code worth knowing

- Removing a leftover artifact is fatal when it fails (main.go:47-52), and so it is in `Run`.
- The comment at main.go:38 says the signal setup is for cleanup on program exit. `signal.Notify` (main.go:39) routes SIGINT and SIGTERM into `exitChan`, but nothing ever receives from `exitChan`, so no cleanup follows either signal. The program builds only for Windows, because it imports the Windows registry package (main.go:15). There, Ctrl+C and Ctrl+Break (reported as SIGINT) are swallowed, because Notify turns off their default exit. The console-close, log-off and shutdown events (reported as SIGTERM) still terminate the process after Notify, so they end it without cleanup. No signal path and no interrupt cleanup is modelled.
- `startCountdownTimer` never checks whether the window was closed early (main.go:167-177). The model claims no cancellation.
- A fatal error ends the process through `log.Fatal`, which skips `cleanup`. So a leftover that could not be removed, or a file the encoder wrote partly, is still on disk at exit (`Lifecycle.ArtifactAtExit`).

## Left out

- Qt window construction: window flags, layout, pixmap loading and aspect-ratio scaling (main.go:72-116) are foreign toolkit calls. Only the centring arithmetic is modelled. `Show` and `Exec` are single opaque actions.
- `WindowGeometry.CenteredRect`: the midpoint is the geometric one, `x + width/2`. Qt's own `QRect::center()` counts the right edge as `x + width - 1` and computes `(x1 + x2) / 2` with truncating integer division, and that convention is not part of this model. Overflow of Qt's 32-bit coordinates is not modelled either.
- The registry read (`GetDeviceIDFromRegistry`, main.go:148-161) is a Windows-only foreign call. It becomes the `RegistryRead` answer in `Environment`.
- QR encoding (`GenerateQRCode`, main.go:163-165) calls a library that is not part of this model. It becomes the `EncodeResult` answer. There is no symbol generation and no decode round trip.
- The countdown goroutine and the event loop run concurrently in the source. The model shows the countdown as a sequential producer of events, leaves out `time.Sleep`, and does not interleave it with the event loop. The run records the countdown's start as one `StartCountdown` action; the events it then produces are those of `Countdown.StartCountdownTimer`. Nothing connects the countdown's close to the return of `RunEventLoop`, and a window closed early by the user is not modelled.
- `TimerLabel.WholeSeconds`: the source converts to a float64 number of seconds (`Seconds()`) and then truncates. The model divides the integer nanoseconds by 10^9. These differ only above 2^53 nanoseconds (about 104 days), far beyond the 30-second countdown.
- `TimerLabel.TimerText`: the duration is a `nat`. The label setter is only ever given positive values and 0 (main.go:168-173), so the output of `%02d` for negative values is not modelled.
- Durations are unbounded integers rather than Go's int64. The loop cannot overflow in the source: it subtracts a positive interval only from a positive value.
- `Countdown.StartCountdownTimer`: the interval is a parameter with `interval > 0`. The source always uses the constant `updateInterval` of one second.
- The log file's creation, `log.SetOutput`, `defer logFile.Close()` (main.go:30-36) and the `fmt.Printf` to standard output (main.go:68) are I/O plumbing. The log is an abstract sequence of entries. Each line's date-time prefix, which the standard logger writes first, is left out, and a fatal entry omits the error text that `log.Fatal` appends.
- `Lifecycle.Application.FileExists` reads only presence: `os.Stat` may also fail on a file that exists, for example when access is denied.
- How a process ended inside the event loop is ended, and the status it then reports, are not modelled. The model records only that nothing after `Exec` runs, so cleanup is skipped and the artifact stays on disk. Closing the console, logging off and shutting down Windows end the process this way: main.go:39 does not stop them, and the channel they are routed into is never read. Ctrl+C and Ctrl+Break cannot end it, because Notify swallows them.
- Changes to the artifact file by other processes while the window is shown are not modelled.
