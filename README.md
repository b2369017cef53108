# Contraction tracker model

A Dafny model of the logic of a labour-contraction timer web app. The user starts and stops a timer for each contraction. The app keeps a history of contractions, newest first, and derives statistics and chart data from it. The model covers:

- the tracker hook (`useContractions`): the persisted history, the optional in-progress contraction, the `isTracking` flag, the operations start, stop, delete and clear-all, and the summary (count, mean duration, mean interval, most recent completed entry);
- the timer's arithmetic: elapsed seconds and the `mm:ss` formatter;
- the chart data preparation: the latest 20 completed contractions, oldest first, and the intervals between their starts;
- the validation in the add and edit dialogs, the add dialog's form reset, and the edit dialog's field loading.

Instants are integer milliseconds (`Date.getTime()`). Ids, the current instant, date parsing (`new Date(text)`) and date formatting are parameters. A contraction with a non-null duration is "completed", and a duration of 0 counts.

Modules, one per source file: `Types` (src/types/contraction.ts, plus the "completed" filter shared by the hook and the chart), `UseContractions`, `ContractionTimer`, `ContractionChart`, `AddContractionDialog`, `EditContractionDialog`.

Behaviour of the code that a reader might not expect, all modelled as written:

- `startContraction` has no guard. Calling it while tracking replaces the in-progress contraction with a new one; it is not a no-op.
- `stopContraction` does not clamp the duration at zero. A stop more than half a second before the start gives a negative duration, `Math.round` of the negative seconds (halves rounded up).
- `deleteContraction` removes every entry with the given id. With unique ids, and when an entry carries the id, that is exactly one entry (`RemoveUniqueId`).
- The summary's mean interval is not forced to be non-negative. It is non-negative when the history is sorted newest first (`AverageIntervalNonNegative`).
- `formatTime` on a negative count uses floored minutes and a truncated remainder, so the two fields then add up to one minute too few, unless the count is a whole number of minutes (`NegativeFieldsMissAMinute`). The text of a negative count starts with a minus sign (`FormatTime`).
- The hook returns no `editContraction` or `addManualContraction`, although src/pages/Index.tsx destructures both names. So the dialogs' `onAdd` and `onSave` callbacks have no implementation in this code. The model records the callbacks in a `calls` log and does not model an edit or a manual add of the history.

## Model

| member | source | states |
|---|---|---|
| `Types.Completed` | src/hooks/useContractions.ts:49 | The completed entries are exactly the history entries with a non-null duration, and there are no more of them than entries. |
| `Types.CompletedDistributes` | src/hooks/useContractions.ts:49 | Filtering a concatenation is the concatenation of the filtered parts, so the filter keeps the history's order and repeated entries. |
| `Types.CompletedKeepsNewestFirst` | src/hooks/useContractions.ts:49 | Filtering a history sorted by descending start keeps it sorted by descending start. |
| `Types.FirstCompletedPosition` | src/hooks/useContractions.ts:79 | The first completed entry sits at a history position with only open entries before it. |
| `Types.AllOpenHasNoCompleted` | src/hooks/useContractions.ts:49-51 | A history with no completed entry filters to the empty sequence. |
| `Types.AllCompletedIsItself` | src/hooks/useContractions.ts:49 | A history of completed entries filters to itself. |
| `UseContractions.RoundToSeconds` | src/hooks/useContractions.ts:24 | `Math.round(ms/1000)` gives the whole second r with 1000r - 500 <= ms < 1000r + 500 (halves round up). |
| `UseContractions.RemoveId` | src/hooks/useContractions.ts:39 | The kept entries are exactly those whose id differs from the deleted id. |
| `UseContractions.RemoveIdDistributes` | src/hooks/useContractions.ts:39 | Deleting from a concatenation deletes from each part, so the kept entries keep their order. |
| `UseContractions.RemoveUnknownId` | src/hooks/useContractions.ts:39 | Deleting an id that no entry carries leaves the history identical. |
| `UseContractions.RemoveUniqueId` | src/hooks/useContractions.ts:39 | When exactly one entry carries the id, the result is the history without that one entry, all else unchanged. |
| `UseContractions.SumDurations` | src/hooks/useContractions.ts:60 | The total of the durations, a null one read as 0, is 0 when no entry has a duration, and not negative when no recorded duration is. |
| `UseContractions.Gap` | src/hooks/useContractions.ts:69 | The gap in seconds between two starts is non-negative exactly when the newer entry did not start first, and 0 exactly for equal starts. |
| `UseContractions.Intervals` | src/hooks/useContractions.ts:65-71 | There is one gap fewer than there are entries (none below two), and gap k is (start k - start k+1)/1000 seconds. |
| `UseContractions.IntervalsTelescope` | src/hooks/useContractions.ts:65-72 | The adjacent gaps, added up by `Sum` as the `reduce` at :72 does, sum to the gap between the first and the last entry. |
| `UseContractions.IntervalsSumNonNegative` | src/hooks/useContractions.ts:65-72 | Over a sequence sorted by descending start, the gaps sum to a non-negative number. |
| `UseContractions.Summarize` | src/hooks/useContractions.ts:48-81 | The count is the number of completed entries (at most the history's length); the last contraction is a completed history entry and is absent exactly when the count is 0; with nothing to average the averages are 0. |
| `UseContractions.LastContractionIsFirstCompleted` | src/hooks/useContractions.ts:49-79 | The summary's last contraction is absent exactly when no entry is completed, and otherwise it is the earliest completed history entry. |
| `UseContractions.SummaryWithoutCompleted` | src/hooks/useContractions.ts:49-58 | With no completed entry the summary is count 0, both averages 0 and no last contraction. |
| `UseContractions.AverageIntervalSpansFirstToLast` | src/hooks/useContractions.ts:63-73 | The mean interval is 0 below two completed entries, else (first start - last start)/1000/(count - 1). |
| `UseContractions.AverageIntervalNonNegative` | src/hooks/useContractions.ts:63-73 | A history sorted by descending start never has a negative mean interval. |
| `UseContractions.AverageDurationNonNegative` | src/hooks/useContractions.ts:60-61 | When no recorded duration is negative, the average duration is not negative. |
| `UseContractions.SingleCompletedSummary` | src/hooks/useContractions.ts:60-79 | A single completed entry gives count 1, its own duration as the average, interval 0, and itself as the last contraction. |
| `UseContractions.SummaryAfterPrepend` | src/hooks/useContractions.ts:32 | Prepending a completed entry, as stop does, adds one to the count and makes that entry the last contraction. |
| `UseContractions.ThreeStartsAverageInterval` | src/hooks/useContractions.ts:63-73 | Starts at T0+12 min, T0+5 min and T0 give a mean interval of 360 seconds. |
| `UseContractions.ContractionTracker.constructor` | src/hooks/useContractions.ts:6-8 | The hook starts from the stored history, with nothing in progress and the flag off. |
| `UseContractions.ContractionTracker.StartContraction` | src/hooks/useContractions.ts:10-19 | The history is unchanged; the in-progress entry becomes {id, now, no end, no duration}, replacing any earlier one; the flag goes on. |
| `UseContractions.ContractionTracker.StopContraction` | src/hooks/useContractions.ts:21-36 | With nothing in progress nothing changes. Otherwise exactly one entry (same id and start, end now, duration rounded seconds) is prepended to the unchanged history, and the slot and flag are cleared. Flag/slot agreement is kept. |
| `UseContractions.ContractionTracker.DeleteContraction` | src/hooks/useContractions.ts:38-40 | The history becomes RemoveId of the old history; the in-progress entry and the flag are untouched. |
| `UseContractions.ContractionTracker.ClearAllContractions` | src/hooks/useContractions.ts:42-46 | Whatever the prior state: empty history, nothing in progress, flag off. |
| `UseContractions.ContractionTracker.GetSummary` | src/hooks/useContractions.ts:48-81 | The summary the loop over adjacent completed entries computes equals `Summarize` of the history, which the lemmas above characterise. |
| `ContractionTimer.ElapsedSeconds` | src/components/ContractionTimer.tsx:22 | The elapsed value is the whole seconds e with 1000e <= now - start < 1000e + 1000, and is non-negative once now >= start. |
| `ContractionTimer.DisplayedElapsed` | src/components/ContractionTimer.tsx:19-27 | While tracking with a start time the value is the floored elapsed seconds; otherwise it is reset to 0. |
| `ContractionTimer.NatToString` | src/components/ContractionTimer.tsx:37 | `toString` of a non-negative integer is a non-empty string of digits, one digit long exactly below 10. |
| `ContractionTimer.IntToString` | src/components/ContractionTimer.tsx:37 | `toString` of an integer is its digits, denoting the integer, for a non-negative one; for a negative one a '-' followed by digits denoting its magnitude. |
| `ContractionTimer.PadStart2` | src/components/ContractionTimer.tsx:37 | `padStart(2, '0')` keeps the text as its suffix, puts only '0's before it and yields at least two characters. |
| `ContractionTimer.MinutesField` | src/components/ContractionTimer.tsx:35 | `Math.floor(s/60)` is the m with 60m <= s < 60m + 60. |
| `ContractionTimer.SecondsField` | src/components/ContractionTimer.tsx:36 | JavaScript's `s % 60` takes the sign of s, lies strictly between -60 and 60, and differs from s by a multiple of 60. |
| `ContractionTimer.FieldsRecompose` | src/components/ContractionTimer.tsx:35-36 | For s >= 0: mins*60 + secs = s, with 0 <= secs <= 59. |
| `ContractionTimer.NegativeFieldsMissAMinute` | src/components/ContractionTimer.tsx:35-36 | For negative s not a whole number of minutes, mins*60 + secs = s - 60. |
| `ContractionTimer.FormatTime` | src/components/ContractionTimer.tsx:34-38 | The text is at least five characters. For s >= 0 it is at least two digits, a ':' three from the end and two digits; for s < 0 it starts with '-'. |
| `ContractionTimer.FormatTimeShape` | src/components/ContractionTimer.tsx:37 | For 0 <= s < 6000 the text has five characters, ':' at index 2 and digits elsewhere. |
| `ContractionTimer.FormatTimeRoundTrip` | src/components/ContractionTimer.tsx:34-38 | For s >= 0, the digits before the colon times 60 plus the digits after it give back s. |
| `ContractionChart.Reverse` | src/components/ContractionChart.tsx:34 | The reversal has the same length and element k is element length-1-k of the input. |
| `ContractionChart.ChartPoints` | src/components/ContractionChart.tsx:31-34 | At most 20 points, no more than there are completed entries and all of them when there are at most 20; every point is a completed entry of the history. |
| `ContractionChart.ChartData` | src/components/ContractionChart.tsx:36-41 | One bar per point, numbered from 1 in order and carrying the point's start; over completed points every bar has a duration. |
| `ContractionChart.IntervalData` | src/components/ContractionChart.tsx:44-52 | One interval fewer than points (none for no point), numbered from 2, each carrying the later point's start; over points whose starts never decrease no interval is negative. |
| `ContractionChart.Chart` | src/components/ContractionChart.tsx:11-52 | The empty state exactly for an empty history; otherwise at most 20 bars and one interval fewer than bars. |
| `ContractionChart.ChartPointsAreLatestCompleted` | src/components/ContractionChart.tsx:31-34 | The points are the first min(20, #completed) completed entries of the history in reverse order, all completed. |
| `ContractionChart.OpenOnlyHistoryDrawsEmptyCharts` | src/components/ContractionChart.tsx:11-52 | A non-empty history with no completed entry gets no empty-state card but two empty charts. |
| `ContractionChart.DurationBarsFollowHistory` | src/components/ContractionChart.tsx:36-41 | There are at most 20 bars; bar k has index k + 1 and the non-null duration of the matching completed history entry. |
| `ContractionChart.IntervalsFollowHistory` | src/components/ContractionChart.tsx:44-52 | There are max(#points - 1, 0) intervals; interval k has index k + 2 and is the summary's gap number #points - 2 - k over the completed entries, in minutes, carrying the start of its newer entry. |
| `ContractionChart.IntervalChartNeedsTwoCompleted` | src/components/ContractionChart.tsx:97 | The interval chart appears (`ShowsIntervalChart`: the chart view with a non-empty `intervalData`) exactly when at least two entries are completed. |
| `ContractionChart.IntervalsNonNegative` | src/components/ContractionChart.tsx:44-48 | Over a history sorted by descending start, every charted interval is non-negative. |
| `AddContractionDialog.DecideAdd` | src/components/AddContractionDialog.tsx:20-54 | A save is accepted exactly when the start field is filled and, with "include end time" set, the end field is filled and the end is strictly after the start. The first failing check picks the error. An accepted end exists exactly when the box is ticked. |
| `AddContractionDialog.AddDialog.constructor` | src/components/AddContractionDialog.tsx:16-18 | The form starts as ('', '', end time included), with no callback made. |
| `AddContractionDialog.AddDialog.HandleClose` | src/components/AddContractionDialog.tsx:62-67 | The fields are reset to ('', '', true) and `onClose` is called once. |
| `AddContractionDialog.AddDialog.HandleSave` | src/components/AddContractionDialog.tsx:20-60 | A rejected save changes no field and makes no call. An accepted one calls `onAdd(start, end-or-null)` once, then resets the form and calls `onClose`. |
| `EditContractionDialog.DecideEdit` | src/components/EditContractionDialog.tsx:40-59 | It returns silently without a contraction or a start text. An empty end field means no end. A present end not strictly after the start rejects. Otherwise it saves under the contraction's own id. |
| `EditContractionDialog.EndFieldFor` | src/components/EditContractionDialog.tsx:36 | The end field is loaded empty exactly when the contraction has no end time, and otherwise with the formatted end. |
| `EditContractionDialog.EditDialog.constructor` | src/components/EditContractionDialog.tsx:29-30 | Both fields start empty, with no callback made. |
| `EditContractionDialog.EditDialog.LoadContraction` | src/components/EditContractionDialog.tsx:33-38 | A selected contraction loads the formatted start and the end field; none leaves the fields alone. |
| `EditContractionDialog.EditDialog.HandleSave` | src/components/EditContractionDialog.tsx:40-67 | Only an accepted save calls back, with `onSave(id, start, end)` then `onClose`. The fields are never changed. |

## Left out

- Rendering: JSX, cards, dialogs, tables, recharts and the toasts. A rejected add returns which toast it would show (`AddError`).
- The `onChange` handlers of the form inputs. They are JSX glue, and the model's fields are assigned directly.
- ContractionTable, ContractionSummary, CompactStats and Index: they only display and wire; their duration text comes from date-fns.
- The `setInterval`/`clearInterval` tick of the timer: scheduling and cleanup. Only the value displayed after a tick is modelled. Between a start and the first tick the display keeps its earlier value.
- `useLocalStorage` and the (de)serialisation of dates: its source is not part of this model. The constructor takes the stored history.
- `crypto.randomUUID()` and `new Date()` are foreign calls. Ids and the current instant are parameters.
- `new Date(text)` is the parameter `parse`, which always yields an instant. An Invalid Date (NaN) is not modelled; it compares false, so the source would accept it.
- The date-fns calls `format(…, "yyyy-MM-dd'T'HH:mm:ss")` and `format(…, 'HH:mm')`. The first is the parameter `format`; the second is a label and is left out.
- EndFieldFor and LoadContraction require the formatted end instant to be non-empty. That is an assumption about date-fns `format`, whose source is not part of this model, not a check made by the dialog.
- Floating point: the averages are exact reals rather than doubles. Chart intervals are exact minutes, without the rounding to a tenth at src/components/ContractionChart.tsx:49. Instants as doubles are exact below 2^53 ms, so unbounded integers are used.
- Manual add with re-sort, and in-place edit of the history: the hook does not implement them.
- React's batching and stale closures: each operation sees the state left by the previous one.
