# System Maintenance panel: power-profile buttons, battery labels and maintenance grid

A Dafny model of the decision logic in `app.py`, the GTK 4 panel of the
System Maintenance tool. That logic is small. The panel shows a battery
percentage label and a health label, which a five-second timer refreshes. It
has three power-profile buttons (`balanced`, `power-saver`, `performance`).
The active profile's button carries a `" ✅"` mark. Clicking a button runs
`powerprofilesctl set <profile>`, and if that command succeeds, the labels are
rewritten in place. There is also a two-column grid of six maintenance
buttons, which have no handlers.

Modules:

- `Options`: the `Option` datatype, standing for Python's `None` or a present value.
- `PyStr`: the Python string operations the panel calls, over `seq<char>`.
  They are `startswith`, `capitalize`, `replace(pat, "")` and `strip()`. Each
  comes with the lemmas the panel's properties need. `EndsWith`, `Contains`
  and `Lower` are helpers used to state and build them; `Lower` is the ASCII
  lower-casing step inside `capitalize`.
- `PowerProfile`: the three profiles and the start-up labels. It also holds the
  relabelling done after a successful `set`. The class `ProfileButtons` stands
  for the `buttons` list that the click handlers share. Its `labels` field is
  built by the start-up loop and rewritten by `ChangePowerProfile`.
- `Battery`: the text of the two battery labels, computed from an optional
  battery reading.
- `MaintenanceGrid`: which grid cell each maintenance button is attached to.

External effects are inputs. Whether `powerprofilesctl set` succeeded is a
`bool`. The output of `powerprofilesctl get` is an `Option<string>`, with
`None` when the command exits non-zero. The battery query is an
`Option<Reading>`.

## Model

| member | source | states |
|---|---|---|
| `PyStr.Lower` | app.py:26 | the lower-casing step of `capitalize`: the lower-cased rest of the name has its length and no upper-case letter left, and each character equals the original up to case |
| `PyStr.LowerOfLowerCase` | app.py:26 | lower-casing a string that has no upper-case letters leaves it unchanged |
| `PyStr.Capitalize` | app.py:26 | `capitalize()` keeps the length of the name; its first character is not a lower-case letter and no later one is an upper-case letter; every character equals the original up to case |
| `PyStr.CapitalizeIdempotent` | app.py:26-27 | capitalizing an already capitalized name gives the same name |
| `PyStr.CapitalizeIgnoresCase` | app.py:26 | names that differ only in letter case capitalize to the same label prefix |
| `PyStr.RemoveAll` | app.py:29 | `replace(" ✅", "")` never makes a label longer; it shortens the label exactly when the label contains the mark; otherwise it returns the label unchanged |
| `PyStr.RemoveAllAppended` | app.py:27-29 | removing the mark from a mark-free name followed by one mark gives back the name |
| `PyStr.NoFirstCharNoOccurrence` | app.py:29 | a label without a space cannot contain the mark |
| `PyStr.StripLeading` | app.py:36 | the result is a suffix of the input; everything dropped is white space; the result does not start with white space |
| `PyStr.StripTrailing` | app.py:36 | the result is a prefix of the input; everything dropped is white space; the result does not end with white space |
| `PyStr.Strip` | app.py:36 | `strip()` returns a slice of its input with only white space outside it, leaves no white space at either end, and returns empty only for an all-white-space input |
| `PyStr.StripSlice` | app.py:36 | stripping the leading and then the trailing white space leaves a slice of the input with only white space around it |
| `PyStr.StripLeadingSpaces` | app.py:36 | leading white space in front of a word is removed exactly |
| `PyStr.StripTrailingSpaces` | app.py:36 | trailing white space after a word is removed exactly |
| `PyStr.StripPadded` | app.py:36 | stripping white space around a trimmed word gives back that word |
| `PyStr.StripIdempotent` | app.py:36 | stripping twice is the same as stripping once |
| `PowerProfile.ActiveProfile` | app.py:33-39 | the query yields a profile exactly when the command succeeded (`None` on a non-zero exit); that profile is the command's output with the surrounding white space removed: a slice of the output with only white space outside it, and itself already stripped |
| `PowerProfile.ActiveProfileOfOutput` | app.py:35-36 | the answer `"<profile>\n"` of `powerprofilesctl get` is read as exactly `<profile>` |
| `PowerProfile.CapitalizeLowerWord` | app.py:26 | `capitalize()` of a lower-case word upper-cases its first letter and keeps the rest |
| `PowerProfile.CapitalizedBalanced` | app.py:105-112 | `"balanced".capitalize()` is `Balanced` |
| `PowerProfile.CapitalizedPowerSaver` | app.py:105-112 | `"power-saver".capitalize()` is `Power-saver` |
| `PowerProfile.CapitalizedPerformance` | app.py:105-112 | `"performance".capitalize()` is `Performance` |
| `PowerProfile.CapitalizedProfiles` | app.py:105-112 | the three button names are `Balanced`, `Power-saver` and `Performance` |
| `PowerProfile.ProfileNamesPrefixFree` | app.py:105-112 | no button name, with or without the mark, starts with another profile's name |
| `PowerProfile.UnmarkedName` | app.py:112 | a button name without a space neither contains nor ends with the mark |
| `PowerProfile.ProfileNameUnmarked` | app.py:105-112 | an unmarked button name neither contains nor ends with the mark |
| `PowerProfile.InitialMarks` | app.py:110-112 | at start-up (`InitialLabel` is the rule of line 112, `InitialLabels` applies it to the three profiles in order) a button is marked exactly when its profile equals the active profile; when the query failed, none is marked |
| `PowerProfile.InitialAtMostOneMarked` | app.py:110-112 | at start-up at most one button is marked |
| `PowerProfile.InitialLabelsWellFormed` | app.py:105-112 | button `i` starts out showing profile `i`'s capitalized name, with or without the mark |
| `PowerProfile.RelabelProfileLabels` | app.py:25-29 | `Relabel` is the rule of lines 26-29 for one button and `RelabelAll` applies it to every button in order; after a successful change to one of the three profiles, the labels are exactly the start-up labels for that profile being active |
| `PowerProfile.ChangeMarksExactlyOne` | app.py:25-29 | after such a change exactly one button is marked, and it is the chosen profile's |
| `PowerProfile.RelabelIdempotent` | app.py:25-29 | setting the same profile twice leaves the same labels as setting it once |
| `PowerProfile.ProfileButtons.constructor` | app.py:109-120 | one button per profile, in order, button `i` labelled `InitialLabel(Profiles[i], active)`, the rule of line 112; the labels have the start-up shape |
| `PowerProfile.ProfileButtons.ChangePowerProfile` | app.py:21-31 | on failure no label changes; on success the labels are `RelabelAll(profile, old labels)`: every button whose label starts with `Cap(profile)` (`StartsWith`, Python's `str.startswith`) reads `Cap(profile) + " ✅"`, other labels lose every `" ✅"`, and the number and order of buttons are kept; for one of the three profiles the start-up shape is preserved and only the chosen button is marked |
| `Battery.PercentageLabel` | app.py:11-16 | the label is the percentage (`PercentText`, line 11: the reading's percentage, or `None`) followed by `"% "`; it ends in the bolt exactly when a battery reports being plugged in (`IsCharging`, line 13: an unknown plug state counts as not plugged in); with no battery it is `"None% "` |
| `Battery.UpdateBatteryStatus` | app.py:9-19 | the health label is always `Health: Good`, the percentage label is as above, and the timer callback always returns True |
| `Battery.PercentageLabelRoundTrip` | app.py:15-16 | the percentage and the charging state can both be read back from the percentage label |
| `Battery.PercentageLabelDetermines` | app.py:15-16 | readings that show the same label agree on percentage and on charging |
| `MaintenanceGrid.CellOf` | app.py:155 | button `i` goes to column `i % 2`, row `i // 2`; the column is below 2 and `row * 2 + column == i` |
| `MaintenanceGrid.CellOfIndexOf` | app.py:153-155 | every cell in the two columns receives exactly one button position |
| `MaintenanceGrid.CellOfInjective` | app.py:155 | no two buttons are attached to the same cell |
| `MaintenanceGrid.Layout` | app.py:152-155 | each button's text lands in its own cell, and the occupied cells are exactly those of the first `n` positions |
| `MaintenanceGrid.MaintenanceGridIsFull` | app.py:152-155 | the six maintenance buttons fill exactly the 2 × 3 grid |

The start-up battery labels built in `on_activate` (app.py:42-45 and 73-75)
use the same formatting as `update_battery_status`. `Battery.PercentageLabel`
models both.

## Left out

- GTK window, boxes, separators, labels, icon lookup and styling (app.py:47-166): presentation only, and foreign library calls.
- Launching `powerprofilesctl` (app.py:23, 35): process spawning is I/O. The model takes the command's result as an input.
- `ProfileButtons.ChangePowerProfile`: only success and non-zero exit are modelled. If `powerprofilesctl` is missing, Python raises `FileNotFoundError`. The source does not catch it, so it escapes the click handler. The model has no such outcome.
- `PowerProfile.ActiveProfile`: a missing `powerprofilesctl` raises `FileNotFoundError` out of `on_activate`. This is not modelled, for the same reason.
- `psutil.sensors_battery()` (app.py:10, 42): a hardware query. It is an input. The percentage is the text Python prints for it, because float formatting is not modelled.
- `PyStr.Capitalize`: handles ASCII letters only. Python's `capitalize` also title-cases and lower-cases non-ASCII letters. All the names the panel capitalizes are ASCII.
- `PyStr.RemoveAll`: requires a non-empty pattern, so the empty-pattern case of Python's `replace` is not modelled. The source only ever removes the non-empty `" ✅"`.
- `ProfileButtons`: the buttons are modelled as one label per list entry. Two entries of the list cannot be the same button object, which holds in the source, where every entry is a fresh button.
- `GLib.timeout_add_seconds` and the `Gtk.Application` main loop (app.py:169-173): event-loop plumbing. The callback's return value, which asks for the next tick, is modelled.
- The `print` diagnostics throughout.
- The maintenance actions the six grid buttons are named after (cache, orphan files, swap, processes, sessions, system update): `app.py` connects no handler to them, so only their placement is modelled.
- After a successful `set`, `app.py` relabels the buttons locally and does not query the active profile again; the model does the same.
