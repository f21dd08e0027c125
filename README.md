# monitor_badminton: slot merging and reminder suppression

The core of `docker-image/scripts/monitor_appointment.py` is modelled here: the part of the badminton-court monitor that turns a scraped availability report into reminders. One monitoring cycle goes like this:

- check that the Beijing hour falls inside the operating window;
- cut the report into stripped slot lines, dropping the morning (上午) lines unless they are wanted;
- when `LEAST_TIME_LENGTH` is two hours or more, merge the one-hour slots of each day into continuous periods (`build_continuous_periods`);
- drop what was already sent often enough today (`filter_messages_by_memory`, backed by a JSON memory file);
- send the rest as one message.

The model covers `build_continuous_periods` and its nested `normalize_date_key`, `filter_messages_by_memory`, the fail-open behaviour of `load_memory`/`save_memory`, `get_check_days_count`, `check_time_availability`, `process_report_data` and the filter/merge/suppress branch of `main`.

Modules, one per concern:

- `Text` (text.dfy): Python's whitespace set, `str.strip()`, ASCII digits, `str(n)` and `f"{n:02d}"`, and the 上午 test.
- `SlotLine` (slot_line.dfy): the slot-line regular expression written out by hand (lazy `left` up to the first `|`, greedy `.*` choosing the last parenthesised range before the first newline, `\d{1,2}` trying two digits then one), and `normalize_date_key` (leftmost date match with the three alternatives tried in order, else the first token).
- `HourRuns` (hour_runs.dfy): `sorted(starts)` and the specification of the scan, namely the unique partition of the sorted starts into maximal +60 chains.
- `PeriodMerger` (period_merger.dfy): `build_continuous_periods` as two imperative loops, the pooling loop and the print loop with its `cur_start`/`cur_prev`/`cur_len` scan. Both are proved against the closed form `Periods`. A reader `ReadPeriod` parses a printed line back.
- `NotificationMemory` (notification_memory.dfy): the memory dict, `load_memory`/`save_memory` over an abstract store, and `filter_messages_by_memory` as a counting loop plus a purge loop, proved against the closed form `FilterSpec`. A call either raises (`Raised`) or returns the messages to send and the memory to save.
- `Schedule` (schedule.dfy): the two clock gates.
- `Monitor` (monitor.dfy): `str.split`/`join`, `splitlines`, `process_report_data`, and one cycle of `main` (`RunCycle`, proved against `Cycle`).

Environment settings, the Beijing hour, today's date, the availability check's answer and the memory file's state are parameters.

## Model

| member | source | states |
|---|---|---|
| Schedule.CheckDaysCount | docker-image/scripts/monitor_appointment.py:59-68 | 3 days exactly when the hour is before 18, 4 days exactly when it is 18 or later |
| Schedule.CheckDaysMonotone | docker-image/scripts/monitor_appointment.py:59-68 | a later hour never scans fewer days, and at most one more |
| Schedule.InOperatingWindow | docker-image/scripts/monitor_appointment.py:989-1001 | open exactly when `begin <= hour < end`; an open window has `begin < end` |
| Schedule.DefaultWindow | docker-image/scripts/monitor_appointment.py:994-998 | with the defaults 8 and 21 the monitor runs exactly in hours 8 to 20 |
| Schedule.EmptyWindow | docker-image/scripts/monitor_appointment.py:998-1001 | a window whose end is not after its begin never opens |
| Text.Strip | docker-image/scripts/monitor_appointment.py:221-223 | `strip()`: an infix of the text that neither starts nor ends with whitespace, empty exactly when the text is all whitespace |
| Text.StripTrims | docker-image/scripts/monitor_appointment.py:221-223 | `strip()` removes only whitespace, and only from the two ends: the text is whitespace, then the result, then whitespace |
| Text.StripStripped | docker-image/scripts/monitor_appointment.py:1029 | a stripped line is its own `strip()` |
| Text.NonBlank | docker-image/scripts/monitor_appointment.py:1029 | every kept line is non-empty and stripped |
| Text.NonBlankSpec | docker-image/scripts/monitor_appointment.py:1029 | exactly the non-blank pieces survive, stripped |
| Text.NonBlankConcat | docker-image/scripts/monitor_appointment.py:1029 | the lines kept from two runs of pieces are those kept from each, in order |
| Text.NonBlankOne | docker-image/scripts/monitor_appointment.py:1029 | one piece contributes its stripped text unless that is empty |
| Text.NatStrValue | docker-image/scripts/monitor_appointment.py:322 | `str(n)` reads back as `n` |
| Text.Pad2Value | docker-image/scripts/monitor_appointment.py:317-322 | `{n:02d}` reads back as `n` |
| Text.NoMorningInInfix | docker-image/scripts/monitor_appointment.py:288 | a piece of a line without 上午 has none |
| SlotLine.SearchDate | docker-image/scripts/monitor_appointment.py:275-280 | `re.search`: the leftmost position where a date alternative matches, no match before it, none at all when it fails |
| SlotLine.TokenEnd | docker-image/scripts/monitor_appointment.py:282 | `split()[0]`: the first token holds no whitespace and stops at whitespace or the end |
| SlotLine.NormalizeDateKey | docker-image/scripts/monitor_appointment.py:270-283 | the key is an infix of the label, holds no whitespace, and is empty exactly when the label is blank |
| SlotLine.NormalizeDateKeyDate | docker-image/scripts/monitor_appointment.py:271-281 | when the stripped label holds a date-like piece, the key is the one matched at the leftmost position where any of the three date alternatives matches |
| SlotLine.NormalizeDateKeyToken | docker-image/scripts/monitor_appointment.py:271-283 | when the stripped label is non-empty and holds no date-like piece, the key is its first whitespace-delimited token: a non-empty prefix ending at whitespace or at the end |
| SlotLine.MonthDayKey | docker-image/scripts/monitor_appointment.py:270-283 | the label `"12-02 周二 "` is keyed `"12-02"` |
| SlotLine.LastRange | docker-image/scripts/monitor_appointment.py:266 | greedy `.*\(`: the last position in the searched span where the time range matches, with no match after it; none when there is none |
| SlotLine.ParseSlotLine | docker-image/scripts/monitor_appointment.py:265-300 | a parsed slot's start is at most 99:99 in minutes; its key is an infix of the line, the line holds a pipe character and the key holds none |
| SlotLine.ParseSlotLineSpec | docker-image/scripts/monitor_appointment.py:265-300 | a slot is read exactly when the first pipe character comes before the first newline and a range starts between them; its key is the normalised text left of that pipe character, an infix of it, and its start is the start of the last range before the newline |
| SlotLine.RangeColonEquiv | docker-image/scripts/monitor_appointment.py:266 | the range pattern accepts `:` and `：` alike and reads the same start |
| SlotLine.ParseColonInsensitive | docker-image/scripts/monitor_appointment.py:290-300 | a line with full-width `：` parses exactly as with `:` |
| SlotLine.VenueIrrelevant | docker-image/scripts/monitor_appointment.py:290-301 | any venue text is ignored: the slot is the normalised label with the range's start |
| SlotLine.LastRangeAt | docker-image/scripts/monitor_appointment.py:266 | the greedy search ends at the last position where the range matches |
| HourRuns.ChainLength | docker-image/scripts/monitor_appointment.py:311-315 | the longest +60 chain at the front: every step is +60 and the next start does not continue it |
| HourRuns.RunsFlatten | docker-image/scripts/monitor_appointment.py:304-326 | the runs cover the sorted starts exactly, in order |
| HourRuns.RunsNonEmpty | docker-image/scripts/monitor_appointment.py:308-310 | every run has at least one hour |
| HourRuns.RunsBreak | docker-image/scripts/monitor_appointment.py:312-326 | a new run begins exactly where the next start is not the previous plus 60 |
| HourRuns.RunsPartition | docker-image/scripts/monitor_appointment.py:304-326 | the runs partition the starts into maximal +60 chains |
| HourRuns.RunPartitionUnique | docker-image/scripts/monitor_appointment.py:304-326 | any partition into maximal +60 chains is the runs |
| HourRuns.RunsAscending | docker-image/scripts/monitor_appointment.py:304-326 | on sorted distinct starts each run starts after the last start of the run before |
| HourRuns.RunCovered | docker-image/scripts/monitor_appointment.py:304-326 | every hour a run covers is a pooled start |
| HourRuns.SortedSeq | docker-image/scripts/monitor_appointment.py:305 | the pool's elements, strictly ascending |
| HourRuns.SortedUnique | docker-image/scripts/monitor_appointment.py:305 | the strictly ascending listing of a set is unique |
| HourRuns.SortStarts | docker-image/scripts/monitor_appointment.py:305 | `sorted(starts)` is that listing |
| PeriodMerger.ReadClockOf | docker-image/scripts/monitor_appointment.py:317-322 | a printed `HH:MM` reads back as its minutes |
| PeriodMerger.ReadTimesOf | docker-image/scripts/monitor_appointment.py:321-322 | the printed start, end and hour count read back |
| PeriodMerger.ReadPeriodOf | docker-image/scripts/monitor_appointment.py:321-323 | a printed line reads back as its date key, start, end and hours, for a key without a pipe character |
| PeriodMerger.EmitRun | docker-image/scripts/monitor_appointment.py:316-335 | a run is printed exactly when it lasts at least `least` hours, ending one hour after its last start |
| PeriodMerger.ScanRuns | docker-image/scripts/monitor_appointment.py:308-335 | the scan prints the lines of the runs of the sorted starts, in run order |
| PeriodMerger.CloseRunLines | docker-image/scripts/monitor_appointment.py:315-326 | closing a run prints its line, if long enough, before the lines of the rest |
| PeriodMerger.PooledStep | docker-image/scripts/monitor_appointment.py:301 | `setdefault(key, set()).add(start)` keeps the pools and their insertion order equal to the slots read |
| PeriodMerger.PoolSlots | docker-image/scripts/monitor_appointment.py:285-301 | the pooling loop leaves per date exactly the starts of its accepted lines, with keys in first-seen order |
| PeriodMerger.PrintPools | docker-image/scripts/monitor_appointment.py:303-335 | the print loop emits, date by date in first-seen order, the lines of that date's runs |
| PeriodMerger.BuildContinuousPeriods | docker-image/scripts/monitor_appointment.py:255-337 | the whole function returns `Periods(lines, include_morning, least)` |
| PeriodMerger.PoolMember | docker-image/scripts/monitor_appointment.py:301 | a start is pooled under a key exactly when some line yields that slot |
| PeriodMerger.KeyOrderMember | docker-image/scripts/monitor_appointment.py:301-304 | a date is reported exactly when something was pooled under it |
| PeriodMerger.KeyOrderDistinct | docker-image/scripts/monitor_appointment.py:301-304 | no date is reported twice |
| PeriodMerger.PeriodLinesSpec | docker-image/scripts/monitor_appointment.py:316-335 | a line is printed for a date exactly when it is the line of one of its runs of at least `least` hours |
| PeriodMerger.PeriodsOverMember | docker-image/scripts/monitor_appointment.py:304-335 | a line is printed exactly when it is printed for one of the dates |
| PeriodMerger.EmittedLine | docker-image/scripts/monitor_appointment.py:303-335 | every printed line is the line of a run of at least `least` and at least one hours of a pooled date |
| PeriodMerger.PooledKey | docker-image/scripts/monitor_appointment.py:293-301 | a pooled date key holds no pipe character |
| PeriodMerger.PrintedPeriod | docker-image/scripts/monitor_appointment.py:311-335 | every printed line reads back with N at least `least` and at least 1, end = start + 60·N, and every covered hour pooled under its date |
| PeriodMerger.AcceptedConcat | docker-image/scripts/monitor_appointment.py:285-292 | what a batch of lines contributes is what its parts contribute |
| PeriodMerger.SamePools | docker-image/scripts/monitor_appointment.py:301 | the pools depend only on which slots occur |
| PeriodMerger.ReorderedLines | docker-image/scripts/monitor_appointment.py:285-301 | reordering or repeating lines changes no date's pool, and the set of printed lines stays the same |
| PeriodMerger.DuplicateLine | docker-image/scripts/monitor_appointment.py:301 | repeating a line changes nothing, so no hour count is inflated |
| PeriodMerger.IgnoredLine | docker-image/scripts/monitor_appointment.py:285-292 | an empty line, a morning line when excluded, and a non-matching line leave the result as without them |
| PeriodMerger.DropNone | docker-image/scripts/monitor_appointment.py:285-292 | a line contributing nothing changes neither the pools nor the key order |
| PeriodMerger.PeriodsOverPools | docker-image/scripts/monitor_appointment.py:303-335 | the printed lines depend on the slots only through the pools |
| NotificationMemory.LoadMemory | docker-image/scripts/monitor_appointment.py:177-191 | the stored dict when the file holds a JSON object, otherwise an empty dict |
| NotificationMemory.SaveThenLoad | docker-image/scripts/monitor_appointment.py:177-202 | after a successful save, loading gives the saved dict; after any save it gives the saved dict, the old one or an empty one |
| NotificationMemory.Signatures | docker-image/scripts/monitor_appointment.py:220-223 | every signature is non-empty |
| NotificationMemory.SignaturesNonBlank | docker-image/scripts/monitor_appointment.py:220-223 | the signatures are exactly the non-blank messages stripped, in order and with repeats |
| NotificationMemory.SignatureOrigin | docker-image/scripts/monitor_appointment.py:220-223 | every signature is a message of the batch, stripped |
| NotificationMemory.CountAgrees | docker-image/scripts/monitor_appointment.py:225-229 | the count computed from the found entry is the stored count plus one when dated today (0 when missing), else 1, and the lookup raises exactly at the first sighting of a truthy non-dict or an unconvertible count |
| NotificationMemory.OverlayStep | docker-image/scripts/monitor_appointment.py:232 | a sighting overwrites its entry with its new count and today's date |
| NotificationMemory.NotifiedStep | docker-image/scripts/monitor_appointment.py:234-236 | a sighting is sent exactly when its new count is within the threshold |
| NotificationMemory.CountSightings | docker-image/scripts/monitor_appointment.py:217-236 | the count loop either raises, as the closed form says, or leaves the overlaid memory and the messages to send |
| NotificationMemory.PurgeStale | docker-image/scripts/monitor_appointment.py:238-244 | the purge raises exactly when an entry is not a dict; otherwise it keeps exactly the entries dated today |
| NotificationMemory.FilterByMemory | docker-image/scripts/monitor_appointment.py:205-252 | the function returns `FilterSpec(messages, mem, today, threshold)` |
| NotificationMemory.FirstSightingRaises | docker-image/scripts/monitor_appointment.py:225-227 | a troubled first sighting makes the call raise |
| NotificationMemory.PurgeRaises | docker-image/scripts/monitor_appointment.py:239-244 | a non-dict entry left for the purge makes the call raise |
| NotificationMemory.PurgeSucceeds | docker-image/scripts/monitor_appointment.py:239-244 | with no troubled signature and no non-dict entry left, the call does not raise |
| NotificationMemory.UpdatedShape | docker-image/scripts/monitor_appointment.py:217-244 | after the call every entry is a dict dated today, each signature holds its carried count plus its sightings, today's unmentioned entries are unchanged, and nothing else remains |
| NotificationMemory.CarryAfter | docker-image/scripts/monitor_appointment.py:225-232 | the next call today starts from the counts this call saved |
| NotificationMemory.NotifiedCount | docker-image/scripts/monitor_appointment.py:220-236 | each signature is sent once per sighting while its count stays within the threshold, and not after |
| NotificationMemory.NotifiedAmongSignatures | docker-image/scripts/monitor_appointment.py:236 | only signatures of the batch are sent |
| NotificationMemory.RepeatedSightings | docker-image/scripts/monitor_appointment.py:225-236 | a signature seen n times is sent for exactly the sightings whose count is within the threshold |
| NotificationMemory.ThirdSightingSuppressed | docker-image/scripts/monitor_appointment.py:205-252 | with threshold 2 and no memory, a message seen three times in one batch is sent twice and saved with count 3 |
| NotificationMemory.NextSighting | docker-image/scripts/monitor_appointment.py:225-236 | after c sightings today one more is sent exactly when c + 1 is within the threshold, and saves count c + 1 |
| NotificationMemory.FirstSighting | docker-image/scripts/monitor_appointment.py:225-236 | with no memory, the first sighting is sent when the threshold allows one |
| NotificationMemory.ThirdCycleSuppressed | docker-image/scripts/monitor_appointment.py:205-252 | with threshold 2, a message seen on three cycles of one day is sent on the first two and suppressed on the third |
| NotificationMemory.SignaturesConcat | docker-image/scripts/monitor_appointment.py:220-223 | the signatures of two batches are those of each, in order |
| NotificationMemory.NotifiedConcat | docker-image/scripts/monitor_appointment.py:220-236 | a second batch, on the memory the first saved, sends what one joined batch would send after the first |
| NotificationMemory.RaisesConcat | docker-image/scripts/monitor_appointment.py:225-244 | the second batch raises exactly when the joined batch would |
| NotificationMemory.UpdatedConcat | docker-image/scripts/monitor_appointment.py:217-244 | saving after two batches equals saving after the joined batch |
| NotificationMemory.SplitBatches | docker-image/scripts/monitor_appointment.py:205-252 | two calls on the same day behave as one call over both batches |
| NotificationMemory.StaleMemory | docker-image/scripts/monitor_appointment.py:225-244 | a memory holding only other days' dicts acts like an empty one |
| NotificationMemory.NewDayForgets | docker-image/scripts/monitor_appointment.py:225-244 | what was saved on an earlier day is forgotten |
| Monitor.SplitOn | docker-image/scripts/monitor_appointment.py:84 | `split("\n")`: at least one piece, none holding the separator |
| Monitor.SplitThenJoin | docker-image/scripts/monitor_appointment.py:84-86 | joining the pieces of a split gives the text back |
| Monitor.JoinThenSplit | docker-image/scripts/monitor_appointment.py:84-86 | splitting a join of separator-free pieces gives the pieces back |
| Monitor.JoinNoMorning | docker-image/scripts/monitor_appointment.py:86 | joining lines without 上午 by a newline gives a text without 上午 |
| Monitor.DropMorning | docker-image/scripts/monitor_appointment.py:83-85 | a line is kept exactly when it is one of the given lines and has no 上午; never more lines than given |
| Monitor.DropMorningConcat | docker-image/scripts/monitor_appointment.py:83-85 | the lines kept from two runs of lines are those kept from each, in order |
| Monitor.DropMorningOne | docker-image/scripts/monitor_appointment.py:84 | one line is kept exactly when it has no 上午 |
| Monitor.DropMorningTwice | docker-image/scripts/monitor_appointment.py:83-85 | dropping morning lines twice changes nothing |
| Monitor.ProcessReportData | docker-image/scripts/monitor_appointment.py:76-89 | a text report gives content, any other type the report itself; without mornings the content mentions no 上午 |
| Monitor.ProcessedLines | docker-image/scripts/monitor_appointment.py:76-89 | with mornings the message unchanged; without, exactly its other lines in order, or empty |
| Monitor.ProcessTwice | docker-image/scripts/monitor_appointment.py:76-89 | processing the processed content again changes nothing |
| Monitor.CandidateLines | docker-image/scripts/monitor_appointment.py:1029-1033 | slot lines are non-empty and stripped; without mornings none mentions 上午 |
| Monitor.ReportLines | docker-image/scripts/monitor_appointment.py:1029-1033 | a report of clean newline-joined lines yields those lines, morning ones dropped unless wanted |
| Monitor.PeriodLineNoMorning | docker-image/scripts/monitor_appointment.py:321-323 | a merged line mentions 上午 only when its date key does |
| Monitor.MorningFreeKey | docker-image/scripts/monitor_appointment.py:288-294 | without mornings no pooled date key mentions 上午 |
| Monitor.PeriodNoMorning | docker-image/scripts/monitor_appointment.py:1033-1039 | merging without mornings prints no line mentioning 上午 |
| Monitor.RunCycle | docker-image/scripts/monitor_appointment.py:1004-1056 | one cycle returns what `Cycle` says it sends and leaves the memory file as `Cycle` says |
| Monitor.QuietCycles | docker-image/scripts/monitor_appointment.py:1005-1008 | outside the window, or with nothing available, nothing is sent and the file is untouched |
| Monitor.DeliverEffects | docker-image/scripts/monitor_appointment.py:1043-1056 | something is sent unless the filter suppressed every line; the file changes only by saving a non-raising filter's memory |
| Monitor.FailOpen | docker-image/scripts/monitor_appointment.py:1047-1051 | when the filter raises, every merged line is sent and the file is untouched |
| Monitor.MergedNoMorning | docker-image/scripts/monitor_appointment.py:1029-1041 | without mornings no line handed to the filter mentions 上午 |
| Monitor.FilteredNoMorning | docker-image/scripts/monitor_appointment.py:220-236 | given lines none of which has 上午, the memory filter passes on none that has it |
| Monitor.DeliverNoMorning | docker-image/scripts/monitor_appointment.py:1053-1056 | the sent message mentions 上午 only if a line it joins does |
| Monitor.NoMorningNotified | docker-image/scripts/monitor_appointment.py:1027-1056 | without mornings no message sent mentions 上午 |

## Left out

- Browser automation (`load_cookies`, `save_cookies`, `handle_login_process`, `navigate_to_venue`, `check_availability`, `check_dates_availability`) is not modelled: it scrapes an external site. Its answer enters `RunCycle` as `available` and `message`.
- In `main`, when `check_availability` raises, `is_available` is unbound and the next line fails. The model only takes the answer as a parameter.
- Webhook delivery and configuration (`send_to_feishu`, `send_wework`, `get_webhooks`, `load_config`) are HTTP calls and YAML reads. `Notify` carries the message that would be sent; which webhooks receive it is not modelled.
- File input and output in `load_memory`/`save_memory` are not modelled: JSON parsing, encoding and `mkdir`. The file is a `Store` value and a write ends in one of three `WriteOutcome`s. The key order of the JSON file is not modelled (the memory is a `map`).
- The clock and time zone (`datetime.now`, `pytz`, `get_beijing_time`) are not modelled: the hour and the `today` string are parameters.
- Environment variables (`LEAST_TIME_LENGTH`, `MEMORY_THRESHOLD`, `BEGIN_HOUR`, `END_HOUR`, `INCLUDE_MORNING`) are the `Settings` fields. Their parsing (`int()` failures, `.lower() == "true"`) is not modelled.
- Logging and `print` are not modelled.
- `SlotLine.ParseSlotLine`: `\d` is modelled as ASCII digits only. Python's `\d` on `str` also matches other Unicode decimal digits.
- `Monitor.SplitLines`: `str.splitlines()` is modelled as splitting at every line-break character. It differs only in empty pieces (an empty text, a final break, `\r\n`), which the blank filter that follows drops.
- `NotificationMemory.Entry`: a stored value is seen only as `int(count)` (missing, an integer, or rejected) and `last_seen` (today's string or not), or as a truthy or falsy non-dict. Other JSON details are not modelled.
- `Monitor.ProcessReportData`: a `"message"` value that is not a string is not modelled.
- `FilterByMemory` does not write the memory file itself. `Monitor.Deliver` saves what it returns, which is where `filter_messages_by_memory` saves it too: after the purge and only when nothing raised.
- The sending part of `main` after `new_message` (:1056 onwards) is not modelled beyond the `Notify` message.
- The root `monitor_appointment.py` is not part of this model. It is browser and webhook glue, and its `get_check_days_count` duplicates the one modelled here.
