# Waifu-Clock: alpha binarisation and alarm bookkeeping in Dafny

This project models two pieces of the Waifu-Clock desktop widget and proves properties of them.

* **binarize.py** is a script that loads an image with its alpha channel and splits it into its B, G, R and A planes. It thresholds the alpha plane with OpenCV's `THRESH_BINARY` rule: 255 where the value is strictly above the threshold, 0 elsewhere. It then merges the three untouched colour planes with the new alpha and writes the result. The threshold is 254 unless a third command-line argument gives one. The function's own default is 128.
* **app.py** is the clock widget. It has three parts this project models:
  * `EditAlarmDialog.validate_time` checks the `HH:MM` format.
  * `AlarmManager` keeps a map from alarm id to scheduled job.
  * `SettingsWindow` keeps the list of alarms and passes the list index to the manager as the alarm id.

Files:

* `wrappers.dfy` holds `Option` and `Result`.
* `pytext.dfy` holds the Python builtins both scripts use, over ASCII: `str.split` and `int`, with the whitespace `int` skips around the number. `Join` undoes `Split`, and `Split` undoes `Join` on separator-free pieces. `int` is characterised in both directions: it accepts exactly the spellings made of whitespace, an optional sign, digits and whitespace, and returns the value they denote. `str(n)` is modelled only to state the round trip: the model's `int` inverts it for every integer, without Python's digit limit (see "## Left out").
* `binarize.dfy` models the image pipeline. A decoded image is a `Mat`: a channel count and rows of pixels, each pixel one byte per channel. This means the case where the four-way unpack fails is an error result, not a precondition.
* `alarm_time.dfy` models `validate_time`. It follows the code's own route: the regular expression, then `split(':')`, then `int`. It is proved equal to a digit-level reference. Python's `$` also matches before one final newline, so `"23:59\n"` is accepted, and the model states this.
* `alarm_app.dfy` holds the three classes and pure lemmas about how the job map relates to the list.

Behaviours of the code that the model states outright:

* `AlarmManager.Valid` says every live scheduler job is recorded under exactly one id. `update_alarm` and `delete_alarm` preserve this.
* `delete_alarm` on the window shifts later list entries down. The manager's job keys are not renumbered, though. `DeleteKeepsNoOrphansIff` and `DeleteKeepsInSyncIff` say exactly when jobs stay attached to their alarms after a deletion. `DeleteFirstOfTwoLeavesStaleKey` gives an example where a job is left under a position the list no longer has. As written, the late-bound button lambda (see "## Findings") always hands `delete_alarm` the last index, and the `i == count - 1` case of `DeleteKeepsNoOrphansIff` shows that leaves no stale key. The stale key becomes reachable only once the buttons pass their own index.
* The dialog's `alarm_data` is the same dict object as `alarms[index]`. `save` writes the entered fields into it before validating. So a rejected time still changes the in-memory list, but nothing is saved and no job is touched (`EditAlarmDialog.Save`).
* `add_alarm` neither saves nor schedules the new entry. The field `saved` stands for what alarms.json holds.

binarize.py adds no alpha channel. The four-way unpack at binarize.py:12 fails for any channel count other than 4, and the model returns `NotFourChannels`.

## Model

| member | source | states |
|---|---|---|
| `PyText.LeadingSpaces` | app.py:100 | counts the whitespace (space, \t \n \v \f \r) `int` skips at the start: every counted character is whitespace and the next one is not |
| `PyText.TrailingSpaces` | app.py:100 | counts the whitespace `int` skips at the end: every counted character is whitespace and the one before them is not |
| `PyText.TrimLeft` | app.py:100 | the result is a suffix, starts with a non-space, and only whitespace (space, \t \n \v \f \r) was dropped: the leading whitespace `int` skips |
| `PyText.TrimRight` | app.py:100 | the result is a prefix, ends with a non-space, and only whitespace (space, \t \n \v \f \r) was dropped: the trailing whitespace `int` skips |
| `PyText.Split` | app.py:100 | `str.split(sep)` returns at least one piece, no piece contains the separator, and joining the pieces with the separator gives back the input |
| `PyText.SplitAtSingleSeparator` | app.py:100 | a string with exactly one separator splits into the text before it and the text after it |
| `PyText.SplitAfterPiece` | app.py:100 | the text before the first separator becomes the first piece, and the rest splits on its own |
| `PyText.SplitJoin` | app.py:100 | splitting the join of separator-free pieces gives back exactly those pieces |
| `PyText.SplitInTwo` | app.py:100 | `split` gives two pieces if and only if the string holds exactly one separator, and then the pieces are the text before and after it |
| `PyText.SplitWithoutSeparator` | app.py:100 | a string without the separator splits into itself alone |
| `PyText.ParseInt` | app.py:100 | a string `int` accepts holds only whitespace, digits and signs, holds at least one digit, and gives a negative number only when it holds '-' |
| `PyText.ParseIntAccepts` | app.py:100 | `int` accepts every spelling of whitespace, an optional '+' or '-', at least one digit, and whitespace, and returns the value the sign and digits denote |
| `PyText.ParseIntOnlyAccepts` | app.py:100 | every string `int` accepts is such a spelling, and the result is the value that spelling denotes |
| `PyText.PaddedPlusExample` | binarize.py:32 | `int(" +7 ") == 7` |
| `PyText.LeadingZerosExample` | binarize.py:32 | `int("-007") == -7` |
| `PyText.InnerSpaceExample` | binarize.py:32 | `int("5 5")` raises, since whitespace is skipped only around the number |
| `PyText.SeparatorIsNotSkipped` | binarize.py:32 | `int` rejects a digit preceded by \x1c, which `str.isspace` counts as whitespace but `int` does not skip |
| `PyText.FormatNatValue` | binarize.py:32 | the decimal spelling of n denotes n |
| `PyText.ParseFormatRoundTrip` | binarize.py:32 | the model's `int` reads back the model's `str(n)` as n for every integer n, negative ones included (Python's digit limit is left out) |
| `PyText.ParseDigits` | app.py:100 | a string of ASCII digits parses as the number it spells |
| `PyText.ParseDigitsWithTrailingSpace` | app.py:100 | `int` ignores trailing whitespace (space, \t \n \v \f \r) after the digits, so "59\n" parses as 59 |
| `PyText.TrimRightDropsPad` | app.py:100 | stripping removes exactly the trailing whitespace after a body that ends in a non-space |
| `PyText.TwoDigitsValue` | app.py:100 | a two-digit string denotes ten times its first digit plus its second |
| `Binarize.SplitChannels` | binarize.py:12 | definition: `cv2.split` gives one plane per channel, each of the image's height and width, and plane c at (i, j) is channel c of pixel (i, j) |
| `Binarize.ThresholdBinary` | binarize.py:15 | definition: THRESH_BINARY keeps the plane's shape and maps a value to maxval when strictly above the threshold, else to 0 |
| `Binarize.MergeChannels` | binarize.py:18 | definition: `cv2.merge` builds a well-formed image with one channel per plane, in order, whose channel c at (i, j) is plane c at (i, j) |
| `Binarize.BinarizeAlphaChannel` | binarize.py:4-20 | no decoded image gives ImageNotLoaded; a channel count other than 4 gives NotFourChannels; otherwise the output has the input's shape, and each pixel keeps B, G, R and has alpha 255 if the input alpha is above the threshold, else 0 |
| `Binarize.OutputPixel` | binarize.py:12-18 | per pixel: colour channels equal the input's, alpha is 255 iff input alpha > threshold, and alpha is 0 iff input alpha <= threshold |
| `Binarize.PixelwiseLocality` | binarize.py:12-18 | an output pixel depends only on the input pixel at its position: equal input pixels, anywhere in any images, give equal output pixels |
| `Binarize.Idempotent` | binarize.py:15 | binarising the output again with the same threshold returns it unchanged, for every integer threshold |
| `Binarize.MonotoneInThreshold` | binarize.py:15 | raising the threshold never raises an output alpha, so a 0 never becomes 255 |
| `Binarize.StrictlyGreaterExample` | binarize.py:15 | alphas 0, 64, 128, 200, 255 at threshold 128 become 0, 0, 0, 255, 255 |
| `Binarize.ThresholdArgument` | binarize.py:30-32 | the threshold is 254 when there is no third argument; otherwise it is `int(argv[3])`, and an unparsable argument is InvalidThreshold |
| `Binarize.ThresholdArgumentRoundTrip` | binarize.py:30-32 | a third argument that spells an integer n sets the threshold to exactly n |
| `Binarize.RunScript` | binarize.py:26-36 | fewer than two path arguments is MissingArgument; output is written exactly when the arguments, the threshold and the 4-channel decode all succeed; it goes to argv[2] and holds the binarised image; an image that fails to load produces no output |
| `AlarmTime.MatchesTimePattern` | app.py:98 | the regular expression `^\d{2}:\d{2}$` as concatenation: two digits, ':', two digits, then the end of the string or one final newline |
| `AlarmTime.ParseTime` | app.py:100 | when the string's only colon is at i, `map(int, s.split(':'))` succeeds if and only if `int` accepts both sides, and gives those two integers |
| `AlarmTime.ParsedTimeHasOneColon` | app.py:100 | a time parses only when it holds exactly one colon |
| `AlarmTime.PatternParses` | app.py:98-100 | on a string matching `^\d{2}:\d{2}$`, `map(int, s.split(':'))` gives exactly the two digit fields |
| `AlarmTime.ValidateTime` | app.py:96-101 | accepts exactly the strings of two digits, ':', two digits (optionally followed by one final newline) whose hour is below 24 and minute below 60 |
| `AlarmTime.ValidatedTimeIsSchedulable` | app.py:108-112 | every time `validate_time` accepts parses into the hour and minute `update_alarm` schedules, both inside the cron ranges |
| `AlarmTime.AcceptedExamples` | app.py:96-101 | "00:00", "23:59", "07:00" and "23:59\n" are accepted |
| `AlarmTime.RejectedExamples` | app.py:96-101 | "24:00", "12:60", "7:00", "07:0", "07-00", "07:00\n\n", " 07:00" and "" are rejected |
| `AlarmApp.JobFor` | app.py:24-26 | the new job rings at the alarm's parsed hour and minute and plays its music |
| `AlarmApp.AlarmManager.constructor` | app.py:15-18 | a new manager has no jobs and nothing scheduled |
| `AlarmApp.AlarmManager.UpdateAlarm` | app.py:20-27 | afterwards the id maps to a newly created job for the alarm; every other key is unchanged; the old job under the id, if any, is no longer scheduled; the tracking invariant is kept |
| `AlarmApp.AlarmManager.DeleteAlarm` | app.py:29-32 | removes the id and cancels its job when present, and changes nothing otherwise; other keys are unchanged; the tracking invariant is kept |
| `AlarmApp.RecordedAfterStore` | app.py:21-27 | storing a fresh job under an id replaces only the job previously stored there among the recorded jobs |
| `AlarmApp.RecordedAfterRemove` | app.py:30-32 | removing an id forgets only the job stored under it |
| `AlarmApp.RemoveAt` | app.py:162 | `del s[i]` shortens the list by one, keeps entries before i, and moves later entries down by one |
| `AlarmApp.SettingsWindow.constructor` | app.py:176-182 | the list is the stored one, or empty when alarms.json does not exist; the window starts valid when its manager is |
| `AlarmApp.SettingsWindow.AddAlarm` | app.py:146-148 | appends exactly `{'time': '07:00', 'music': 'audios/default.mp3', 'name': ''}` and leaves earlier entries, the saved file and the jobs unchanged |
| `AlarmApp.SettingsWindow.EditAlarm` | app.py:151-153 | opens a dialog on the entry at the index |
| `AlarmApp.SettingsWindow.UpdateAlarm` | app.py:155-159 | replaces only the entry at the index, saves the list, and reschedules under the same index |
| `AlarmApp.SettingsWindow.DeleteAlarm` | app.py:161-165 | removes the entry, shifting later ones down; saves the list; removes only key index from the jobs, without renumbering |
| `AlarmApp.EditAlarmDialog.constructor` | app.py:43-55 | the dialog edits the given window's entry at the given index |
| `AlarmApp.EditAlarmDialog.Save` | app.py:103-113 | the entered fields always land in the shared entry; the update callback runs exactly when `validate_time` accepts the time; on rejection nothing is saved and no job changes |
| `AlarmApp.EditAlarmDialog.Delete` | app.py:115-117 | deletes the dialog's entry through the window |
| `AlarmApp.AppendKeepsAttached` | app.py:146-148 | for any relation between jobs and alarms, appending an alarm keeps every job attached to an alarm it serves |
| `AlarmApp.StoreKeepsAttached` | app.py:155-159 | for any relation, replacing an entry and its job with a pair that is related keeps every job attached |
| `AlarmApp.DeleteKeepsAttachedIff` | app.py:161-165 | for any relation, after a deletion without renumbering, jobs stay attached if and only if every job under a later key serves the alarm that moves into its position |
| `AlarmApp.AddKeepsInSync` | app.py:146-148 | appending an alarm keeps every job attached to the alarm it rings for |
| `AlarmApp.UpdateKeepsInSync` | app.py:155-159 | replacing an entry and its job together keeps every job attached to its alarm |
| `AlarmApp.DeleteKeepsNoOrphansIff` | app.py:161-165 | after a deletion, no job sits under a missing position if and only if the last entry was deleted or the last position had no job |
| `AlarmApp.DeleteKeepsInSyncIff` | app.py:161-165 | after a deletion, jobs stay attached to their alarms if and only if every job under a later key already ran the alarm that moves into its position |
| `AlarmApp.DeleteFirstOfTwoLeavesStaleKey` | app.py:161-165 | for any two jobs under positions 0 and 1, deleting the first entry leaves the second job under key 1, which the one-entry list no longer has |
| `AlarmApp.DisplayAsWritten` | app.py:173-174 | definition: one button per alarm, captioned with its time and name, and every button's command opens the last index |
| `AlarmApp.OnlyLastAlarmEditable` | app.py:173-174 | as written, no button opens any alarm but the last |
| `AlarmApp.Display` | app.py:173-174 | definition: as intended, the button for entry k is captioned with it and opens entry k |
| `AlarmApp.EveryAlarmEditable` | app.py:173-174 | as intended, every entry is opened by exactly one button, the one captioned with it |

## Left out

- Image decoding and encoding (`cv2.imread`, `cv2.imwrite`, binarize.py:6, 23) are foreign library I/O. The decoded image is a parameter, and the write is a `Written` value.
- Binarize.RunScript: a `Written` result stands for the call to `cv2.imwrite`, not for a successful write. `imwrite` raises `cv2.error` when argv[2]'s extension has no encoder (for example `out`), and returns False, which the script ignores, on other write failures. Neither is modelled. Thresholds outside the C `int` range carry the gap stated for `ThresholdBinary`.
- Binarize.ThresholdBinary: the threshold is an unbounded integer compared exactly. For 8-bit images OpenCV converts it to a double and then floors it to a C `int`, so the model agrees only for thresholds in -2^31..2^31-1. Outside that range the conversion is undefined in C (on x86-64 it gives -2^31, so every alpha becomes 255), and beyond the range of a double the binding raises. Neither is modelled.
- Images with 16-bit or floating-point channels are left out. Only 8-bit images are modelled.
- The second value `cv2.threshold` returns is discarded by the script and is not modelled.
- PyText.ParseInt: there is no digit limit. From CPython 3.11, and in the 3.10.7, 3.9.14, 3.8.14 and 3.7.14 security releases, `int` raises ValueError by default on a string of more than 4300 digits, and `str(n)` raises for such an n. So `Binarize.ThresholdArgument` gives `InvalidThreshold` on such a Python where the model returns the value. `ParseDigits`, `ParseIntAccepts` and `ParseFormatRoundTrip` hold there only up to that length.
- `int` covers ASCII only. The model leaves out Unicode digits and Unicode whitespace, which `int` also skips, and underscores between digits (`int("1_0")`). Likewise, `\d` in `validate_time` is restricted to '0'..'9'.
- AlarmApp.AlarmManager.UpdateAlarm: it requires a time that parses into cron-range fields. When the time does not, the code raises after it has already cancelled the old job, and the model does not capture that partial effect. The only caller passes times that `validate_time` accepted, and `ValidatedTimeIsSchedulable` proves those meet the requirement.
- AlarmApp.SettingsWindow.UpdateAlarm: indices are naturals below the list length. Python's negative indices and the IndexError for other indices are not modelled, since the window only passes indices from its own list.
- AlarmApp.SettingsWindow.DeleteAlarm: indices are naturals below the list length, for the same reason.
- AlarmApp.EditAlarmDialog.Save: the dialog is assumed to edit the list's own entry. The code uses a fresh dict when the entry is an empty dict, and the model does not cover that case.
- JSON persistence (app.py:176-186) is reduced to the `saved` field. File contents, JSON errors and entries with missing keys are not modelled.
- The scheduler's firing of jobs, `CronTrigger`, `playsound` and `shutdown` are foreign scheduling and audio calls running on another thread. A job is a value carrying its hour, minute, music and a serial for each creation.
- Tk widgets are not modelled, and neither are dragging, canvas buttons, the music file dialog (`browse_music`), the tray icon and its thread, or the clock display. These are UI, OS integration and wall-clock time. The one exception is the button-to-index mapping of `display_alarms`, modelled for the finding below.
- The flood-fill background cutout and the bounding-box crop scripts are not part of this model.

## Findings

| source | as written | input that shows it | evidently intended | confidence | as-written member | corrected member |
|---|---|---|---|---|---|---|
| app.py:173-174 | each button's command is `lambda: self.edit_alarm(i)`; the lambda reads the loop variable `i` when clicked, and by then the loop has left it at the last index | two alarms: the first button opens alarm 1, so alarm 0 can never be edited or deleted | the button for entry k opens entry k (`lambda i=i: ...`) | high, not executed | `AlarmApp.OnlyLastAlarmEditable` | `AlarmApp.EveryAlarmEditable` |
