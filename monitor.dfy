/** The glue of one monitoring cycle in `main`: cut the availability report into stripped
    slot lines, drop the morning ones unless they are wanted, merge them into continuous
    periods when a minimum length of two hours or more is configured, suppress what was
    already sent often enough today, and send the rest as one message. Also
    `process_report_data`, which drops the morning lines of a text report. */
module Monitor {
  import opened Text
  import opened Wrappers
  import opened SlotLine
  import opened HourRuns
  import opened PeriodMerger
  import opened NotificationMemory
  import opened Schedule

  // ---------------------------------------------------------------------------
  // Lines of text.

  /** Python's `s.split(c)` for a single-character separator: the pieces between the
      separators, one more piece than there are separators. */
  function SplitOn(s: string, c: char): (parts: seq<string>)
    ensures |parts| >= 1
    ensures forall p :: p in parts ==> c !in p
    decreases |s|
  {
    var j := IndexOf(s, c);
    if j == |s| then [s] else [s[..j]] + SplitOn(s[j + 1..], c)
  }

  /** The first index holding `c`, or `|s|` when there is none. */
  function IndexOf(s: string, c: char): (j: nat)
    ensures j <= |s|
    ensures c !in s[..j]
    ensures j < |s| ==> s[j] == c
  {
    if s == [] then 0
    else if s[0] == c then 0
    else
      var j := 1 + IndexOf(s[1..], c);
      assert s[..j] == [s[0]] + s[1..][..j - 1];
      j
  }

  /** Python's `c.join(parts)`. */
  function JoinWith(parts: seq<string>, c: char): string
  {
    if |parts| == 0 then []
    else if |parts| == 1 then parts[0]
    else parts[0] + [c] + JoinWith(parts[1..], c)
  }

  /** Joining the pieces of a split gives the text back. */
  lemma {:induction false} SplitThenJoin(s: string, c: char)
    ensures JoinWith(SplitOn(s, c), c) == s
    decreases |s|
  {
    var j := IndexOf(s, c);
    if j < |s| {
      var rest := SplitOn(s[j + 1..], c);
      SplitThenJoin(s[j + 1..], c);
      var parts := [s[..j]] + rest;
      assert SplitOn(s, c) == parts;
      assert parts[0] == s[..j] && parts[1..] == rest;
      assert JoinWith(parts, c) == s[..j] + [c] + JoinWith(rest, c);
      assert s == s[..j] + [c] + s[j + 1..];
    }
  }

  /** Splitting a join of pieces free of the separator gives the pieces back. */
  lemma {:induction false} JoinThenSplit(parts: seq<string>, c: char)
    requires |parts| >= 1
    requires forall p :: p in parts ==> c !in p
    ensures SplitOn(JoinWith(parts, c), c) == parts
  {
    var s := JoinWith(parts, c);
    if |parts| == 1 {
      NoSeparator(parts[0], c);
    } else {
      var rest := JoinWith(parts[1..], c);
      assert s == parts[0] + [c] + rest;
      SeparatorAfter(parts[0], c, rest);
      assert s[..|parts[0]|] == parts[0] && s[|parts[0]| + 1..] == rest;
      JoinThenSplit(parts[1..], c);
    }
  }

  lemma NoSeparator(s: string, c: char)
    requires c !in s
    ensures IndexOf(s, c) == |s|
  {
  }

  lemma {:induction false} SeparatorAfter(a: string, c: char, b: string)
    requires c !in a
    ensures IndexOf(a + [c] + b, c) == |a|
  {
    if a != [] {
      assert (a + [c] + b)[1..] == a[1..] + [c] + b;
      SeparatorAfter(a[1..], c, b);
    }
  }

  /** Joining lines that do not mention the morning with a separator other than its two
      characters gives a text that does not mention it. */
  lemma {:induction false} JoinNoMorning(parts: seq<string>, c: char)
    requires c != '上' && c != '午'
    requires forall p :: p in parts ==> !HasMorning(p)
    ensures !HasMorning(JoinWith(parts, c))
  {
    if |parts| > 1 {
      JoinNoMorning(parts[1..], c);
      NoMorningAcross(parts[0], c, JoinWith(parts[1..], c));
    }
  }

  /** The lines that do not mention the morning, in order. */
  function DropMorning(lines: seq<string>): (kept: seq<string>)
    ensures forall l :: l in kept <==> l in lines && !HasMorning(l)
    ensures |kept| <= |lines|
  {
    if lines == [] then []
    else (if HasMorning(lines[0]) then [] else [lines[0]]) + DropMorning(lines[1..])
  }

  /** Dropping the morning lines a second time changes nothing. */
  lemma {:induction false} DropMorningTwice(lines: seq<string>)
    ensures DropMorning(DropMorning(lines)) == DropMorning(lines)
  {
    if lines != [] {
      DropMorningTwice(lines[1..]);
      var d := DropMorning(lines);
      if !HasMorning(lines[0]) {
        assert d == [lines[0]] + DropMorning(lines[1..]);
        assert d[0] == lines[0] && d[1..] == DropMorning(lines[1..]);
      } else {
        assert d == DropMorning(lines[1..]);
      }
    }
  }

  /** The filter works line by line: the lines kept from two runs of lines are those kept
      from each, in order. */
  lemma {:induction false} DropMorningConcat(a: seq<string>, b: seq<string>)
    ensures DropMorning(a + b) == DropMorning(a) + DropMorning(b)
  {
    if a == [] {
      assert a + b == b;
    } else {
      var head: seq<string> := if HasMorning(a[0]) then [] else [a[0]];
      assert (a + b)[1..] == a[1..] + b;
      assert (a + b)[0] == a[0];
      assert DropMorning(a + b) == head + DropMorning(a[1..] + b);
      assert DropMorning(a) == head + DropMorning(a[1..]);
      DropMorningConcat(a[1..], b);
      ConcatAssoc(head, DropMorning(a[1..]), DropMorning(b));
    }
  }

  /** One line is kept exactly when it does not mention the morning. */
  lemma DropMorningOne(l: string)
    ensures DropMorning([l]) == if HasMorning(l) then [] else [l]
  {
    assert [l][1..] == [];
  }

  // ---------------------------------------------------------------------------
  // `process_report_data`.

  /** The report dict as far as the function reads it: its `"message"` entry, if any. */
  datatype Report = Report(message: Option<string>)

  /** The text content of a text report, or the report itself for any other type. */
  datatype Processed = Content(text: string) | Passthrough(report: Report)

  /** `process_report_data(report_data, report_type)`, with `INCLUDE_MORNING` passed in. */
  function ProcessReportData(report: Report, reportType: string, includeMorning: bool): (r: Processed)
    ensures reportType == "text" <==> r.Content?
    ensures reportType != "text" ==> r == Passthrough(report)
    ensures r.Content? && !includeMorning ==> !HasMorning(r.text)
  {
    if reportType == "text" then
      var content := if report.message.Some? then report.message.value else "";
      if includeMorning then Content(content)
      else
        var kept := DropMorning(SplitOn(content, '\n'));
        JoinNoMorning(kept, '\n');
        Content(JoinWith(kept, '\n'))
    else Passthrough(report)
  }

  /** Without the morning lines, a text report keeps exactly its other lines, in order; when
      there are none it becomes empty. With them, it is the message as it was. */
  lemma ProcessedLines(report: Report, includeMorning: bool)
    ensures var content := if report.message.Some? then report.message.value else "";
            var kept := DropMorning(SplitOn(content, '\n'));
            var text := ProcessReportData(report, "text", includeMorning).text;
            && (includeMorning ==> text == content)
            && (!includeMorning && kept != [] ==> SplitOn(text, '\n') == kept)
            && (!includeMorning && kept == [] ==> text == [])
  {
    var content := if report.message.Some? then report.message.value else "";
    var kept := DropMorning(SplitOn(content, '\n'));
    if !includeMorning && kept != [] {
      JoinThenSplit(kept, '\n');
    }
  }

  /** Processing the content of a processed text report again changes nothing. */
  lemma ProcessTwice(report: Report, includeMorning: bool)
    ensures var once := ProcessReportData(report, "text", includeMorning).text;
            ProcessReportData(Report(Some(once)), "text", includeMorning).text == once
  {
    var content := if report.message.Some? then report.message.value else "";
    var kept := DropMorning(SplitOn(content, '\n'));
    if !includeMorning {
      if kept != [] {
        JoinThenSplit(kept, '\n');
        DropMorningTwice(SplitOn(content, '\n'));
      } else {
        assert SplitOn([], '\n') == [[]];
        assert !HasMorning([]);
      }
    }
  }

  // ---------------------------------------------------------------------------
  // The slot lines of an availability report.

  /** The characters `str.splitlines()` breaks at. */
  predicate IsLineBreak(c: char)
  {
    || c == '\n' || c == '\r' || c == '\U{000B}' || c == '\U{000C}'
    || ('\U{001C}' <= c <= '\U{001E}')
    || c == '\U{0085}' || c == '\U{2028}' || c == '\U{2029}'
  }

  /** Every line break turned into `'\n'`. */
  function NormalizeBreaks(s: string): (t: string)
    ensures |t| == |s|
    ensures forall i :: 0 <= i < |s| ==> t[i] == if IsLineBreak(s[i]) then '\n' else s[i]
  {
    seq(|s|, i requires 0 <= i < |s| => if IsLineBreak(s[i]) then '\n' else s[i])
  }

  /** `str.splitlines()` up to empty pieces (an empty text, a final break, and the empty
      piece between `'\r'` and `'\n'`), which the stripping below drops anyway. */
  function SplitLines(s: string): seq<string>
  {
    SplitOn(NormalizeBreaks(s), '\n')
  }

  /** The slot lines `main` works on: the report's lines stripped, blank ones dropped, and
      the morning ones dropped unless they are wanted. */
  function CandidateLines(message: string, includeMorning: bool): (lines: seq<string>)
    ensures forall l :: l in lines ==> l != [] && Strip(l) == l
    ensures !includeMorning ==> forall l :: l in lines ==> !HasMorning(l)
  {
    var lines := NonBlank(SplitLines(message));
    if includeMorning then lines else DropMorning(lines)
  }

  /** A stripped, non-empty line without line breaks reads back as itself. */
  predicate CleanLine(l: string)
  {
    l != [] && Strip(l) == l && forall i :: 0 <= i < |l| ==> !IsLineBreak(l[i])
  }

  /** Only newlines among the line breaks. */
  predicate NewlinesOnly(s: string)
  {
    forall i :: 0 <= i < |s| && IsLineBreak(s[i]) ==> s[i] == '\n'
  }

  lemma NormalFixed(s: string)
    requires NewlinesOnly(s)
    ensures NormalizeBreaks(s) == s
  {
  }

  lemma {:induction false} JoinNewlinesOnly(parts: seq<string>)
    requires forall p :: p in parts ==> CleanLine(p)
    ensures NewlinesOnly(JoinWith(parts, '\n'))
  {
    if |parts| == 1 {
      assert CleanLine(parts[0]);
    } else if |parts| > 1 {
      JoinNewlinesOnly(parts[1..]);
      assert CleanLine(parts[0]);
      var a, b := parts[0], JoinWith(parts[1..], '\n');
      var s := a + ['\n'] + b;
      forall i | 0 <= i < |s| && IsLineBreak(s[i]) ensures s[i] == '\n' {
        if i > |a| {
          assert s[i] == b[i - |a| - 1];
        }
      }
    }
  }

  lemma {:induction false} NonBlankClean(lines: seq<string>)
    requires forall l :: l in lines ==> CleanLine(l)
    ensures NonBlank(lines) == lines
  {
    if lines != [] {
      assert CleanLine(lines[0]);
      NonBlankClean(lines[1..]);
      assert NonBlank(lines) == [lines[0]] + NonBlank(lines[1..]);
    }
  }

  /** A report made of clean lines joined by newlines yields exactly those lines. */
  lemma ReportLines(lines: seq<string>, includeMorning: bool)
    requires forall l :: l in lines ==> CleanLine(l)
    ensures CandidateLines(JoinWith(lines, '\n'), includeMorning)
         == if includeMorning then lines else DropMorning(lines)
  {
    var s := JoinWith(lines, '\n');
    JoinNewlinesOnly(lines);
    NormalFixed(s);
    if lines == [] {
      assert SplitLines(s) == [[]];
      assert NonBlank([[]]) == [];
    } else {
      forall l | l in lines ensures '\n' !in l {
        assert CleanLine(l) && IsLineBreak('\n');
      }
      JoinThenSplit(lines, '\n');
      NonBlankClean(lines);
    }
  }

  // ---------------------------------------------------------------------------
  // Merged lines mention the morning only when their date does.

  /** Neither character of the morning marker occurs. */
  predicate Plain(s: string)
  {
    forall i :: 0 <= i < |s| ==> s[i] != '上' && s[i] != '午'
  }

  lemma NoMorningAppend(a: string, b: string)
    requires !HasMorning(a) && Plain(b)
    ensures !HasMorning(a + b)
  {
    var s := a + b;
    forall i | 0 <= i < |s| - 1 && s[i] == '上' ensures s[i + 1] != '午' {
      if i + 1 < |a| {
        assert s[i] == a[i] && s[i + 1] == a[i + 1];
      } else {
        assert s[i + 1] == b[i + 1 - |a|];
      }
    }
  }

  lemma PlainClock(minutes: nat)
    ensures Plain(Clock(minutes))
  {
    var h, m := Pad2(minutes / 60), Pad2(minutes % 60);
    var c := h + ":" + m;
    forall i | 0 <= i < |c| ensures c[i] != '上' && c[i] != '午' {
      if i < |h| {
        assert c[i] == h[i] && IsDigit(h[i]);
      } else if i > |h| {
        assert c[i] == m[i - |h| - 1] && IsDigit(m[i - |h| - 1]);
      }
    }
  }

  lemma PlainAppend(a: string, b: string)
    requires Plain(a) && Plain(b)
    ensures Plain(a + b)
  {
    var s := a + b;
    forall i | 0 <= i < |s| ensures s[i] != '上' && s[i] != '午' {
      if i < |a| {
        assert s[i] == a[i];
      } else {
        assert s[i] == b[i - |a|];
      }
    }
  }

  lemma PlainTimes(startMin: nat, endMin: nat, hours: nat)
    ensures Plain(PrintedTimes(startMin, endMin, hours))
  {
    var n := NatStr(hours);
    PlainClock(startMin);
    PlainClock(endMin);
    assert Plain(n) by {
      forall i | 0 <= i < |n| ensures n[i] != '上' && n[i] != '午' {
        assert IsDigit(n[i]);
      }
    }
    PlainAppend(n, "小时)");
    PlainAppend(" (", n + "小时)");
    PlainAppend(Clock(endMin), " (" + (n + "小时)"));
    PlainAppend("-", Clock(endMin) + (" (" + (n + "小时)")));
    PlainAppend(Clock(startMin), "-" + (Clock(endMin) + (" (" + (n + "小时)"))));
  }

  /** A merged line mentions the morning only when its date key does. */
  lemma PeriodLineNoMorning(key: string, r: Run)
    requires !HasMorning(key)
    ensures !HasMorning(PeriodLine(key, r))
  {
    var times := PrintedTimes(r.first, End(r), r.hours);
    Regroup(key, Marker, Clock(r.first), "-", Clock(End(r)), " (", NatStr(r.hours), "小时)");
    PlainTimes(r.first, End(r), r.hours);
    PlainAppend(Marker, times);
    NoMorningAppend(key, Marker + times);
  }

  /** Without the morning lines, every date key pooled came from a line that does not
      mention the morning, and so does not mention it either. */
  lemma MorningFreeKey(lines: seq<string>, key: string)
    requires key in KeyOrder(Accepted(lines, false))
    ensures !HasMorning(key)
  {
    var slots := Accepted(lines, false);
    KeyOrderMember(slots, key);
    var x :| x in Pool(slots, key);
    PoolMember(slots, key, x);
    var i :| 0 <= i < |slots| && slots[i] == Some(Slot(key, x));
    assert !HasMorning(lines[i]) && ParseSlotLine(lines[i]) == Some(Slot(key, x));
    NoMorningInInfix(key, lines[i]);
  }

  /** Merging without the morning lines prints no line that mentions the morning. */
  lemma PeriodNoMorning(lines: seq<string>, least: int, line: string)
    requires line in Periods(lines, false, least)
    ensures !HasMorning(line)
  {
    EmittedLine(lines, false, least, line);
    var key, r :| && key in KeyOrder(Accepted(lines, false))
                  && r in Runs(SortedSeq(Pool(Accepted(lines, false), key)))
                  && r.hours >= least && r.hours >= 1 && line == PeriodLine(key, r);
    MorningFreeKey(lines, key);
    PeriodLineNoMorning(key, r);
  }

  // ---------------------------------------------------------------------------
  // One cycle of `main`.

  /** The environment settings: `LEAST_TIME_LENGTH` (hours), `MEMORY_THRESHOLD`,
      `BEGIN_HOUR`, `END_HOUR` and `INCLUDE_MORNING`. */
  datatype Settings = Settings(leastHours: int, threshold: int, beginHour: int, endHour: int, includeMorning: bool)

  /** The settings when none of the variables is set. */
  const Defaults := Settings(1, 2, DefaultBeginHour, DefaultEndHour, false)

  /** How a cycle ends: outside the operating hours, no free court reported, nothing left
      after merging, everything suppressed by the memory, or one message sent. */
  datatype Outcome = OutsideHours | NotAvailable | NoPeriods | AllSuppressed | Notify(message: string)

  /** The lines handed to the memory filter: the merged periods when the minimum length is
      two hours or more, otherwise the slot lines themselves. */
  ghost function Merged(cfg: Settings, message: string): seq<string>
  {
    var lines := CandidateLines(message, cfg.includeMorning);
    if cfg.leastHours >= 2 then Periods(lines, cfg.includeMorning, cfg.leastHours) else lines
  }

  /** The lines to send, as one newline-joined message, unless there are none. */
  function Notice(lines: seq<string>): Outcome
  {
    if lines == [] then AllSuppressed else Notify(JoinWith(lines, '\n'))
  }

  /** What a cycle sends and what the memory file holds after it, at the hour `hour` of the
      day `today`, when the availability check reported `available` with `message`, the
      memory file held `store`, and a save would end with `write`. */
  ghost function Cycle(cfg: Settings, hour: int, available: bool, message: string, today: string,
                       store: Store, write: WriteOutcome): (Outcome, Store)
  {
    if !InOperatingWindow(hour, cfg.beginHour, cfg.endHour) then (OutsideHours, store)
    else if !available then (NotAvailable, store)
    else
      var merged := Merged(cfg, message);
      if merged == [] then (NoPeriods, store)
      else Deliver(merged, FilterSpec(merged, LoadMemory(store), today, cfg.threshold), store, write)
  }

  /** The end of a cycle once the filter has run: on an exception every merged line is sent
      and nothing is saved; otherwise what the filter passed on is sent and its memory saved. */
  function Deliver(merged: seq<string>, r: FilterResult, store: Store, write: WriteOutcome): (Outcome, Store)
  {
    match r
    case Raised => (Notice(merged), store)
    case Filtered(sent, updated) => (Notice(sent), SaveMemory(store, updated, write))
  }

  /** The filter/merge/suppress branch of `main`, after the availability check. */
  method RunCycle(cfg: Settings, hour: int, available: bool, message: string, today: string,
                  store: Store, write: WriteOutcome) returns (outcome: Outcome, after: Store)
    ensures (outcome, after) == Cycle(cfg, hour, available, message, today, store, write)
  {
    if !InOperatingWindow(hour, cfg.beginHour, cfg.endHour) {
      return OutsideHours, store;
    }
    if !available {
      return NotAvailable, store;
    }
    var lines := CandidateLines(message, cfg.includeMorning);
    var merged;
    if cfg.leastHours >= 2 {
      merged := BuildContinuousPeriods(lines, cfg.includeMorning, cfg.leastHours);
    } else {
      merged := lines;
    }
    if merged == [] {
      return NoPeriods, store;
    }
    var r := FilterByMemory(merged, LoadMemory(store), today, cfg.threshold);
    var (o, a) := Deliver(merged, r, store, write);
    outcome, after := o, a;
  }

  /** Outside the operating hours, and when no free court was reported, nothing is sent and
      the memory file is left alone. */
  lemma QuietCycles(cfg: Settings, hour: int, available: bool, message: string, today: string,
                    store: Store, write: WriteOutcome)
    requires !InOperatingWindow(hour, cfg.beginHour, cfg.endHour) || !available
    ensures Cycle(cfg, hour, available, message, today, store, write)
         == (if !InOperatingWindow(hour, cfg.beginHour, cfg.endHour) then OutsideHours else NotAvailable, store)
  {
  }

  /** Once the filter has run, something is sent unless the filter suppressed every line, and
      the memory file changes only by saving what a filter that did not raise returned. */
  lemma DeliverEffects(merged: seq<string>, r: FilterResult, store: Store, write: WriteOutcome)
    requires merged != []
    ensures var (outcome, after) := Deliver(merged, r, store, write);
            && (outcome == AllSuppressed <==> r.Filtered? && r.toNotify == [])
            && (r.Raised? ==> after == store)
            && (r.Filtered? && write == Written ==> LoadMemory(after) == r.updated)
            && (after != store ==> r.Filtered?)
  {
  }

  /** Fail-open: when the memory filter raises, every merged line is sent and the memory
      file is left as it was. */
  lemma FailOpen(cfg: Settings, hour: int, message: string, today: string, store: Store, write: WriteOutcome)
    requires InOperatingWindow(hour, cfg.beginHour, cfg.endHour)
    requires Merged(cfg, message) != []
    requires FilterSpec(Merged(cfg, message), LoadMemory(store), today, cfg.threshold).Raised?
    ensures Cycle(cfg, hour, true, message, today, store, write) == (Notify(JoinWith(Merged(cfg, message), '\n')), store)
  {
  }

  /** Without the morning lines, no message sent mentions the morning: not a slot line, not a
      merged period, not what the memory filter passes on. */
  lemma NoMorningNotified(cfg: Settings, hour: int, available: bool, message: string, today: string,
                          store: Store, write: WriteOutcome)
    requires !cfg.includeMorning
    ensures var outcome := Cycle(cfg, hour, available, message, today, store, write).0;
            outcome.Notify? ==> !HasMorning(outcome.message)
  {
    var merged := Merged(cfg, message);
    if InOperatingWindow(hour, cfg.beginHour, cfg.endHour) && available && merged != [] {
      MergedNoMorning(cfg, message);
      var r := FilterSpec(merged, LoadMemory(store), today, cfg.threshold);
      FilteredNoMorning(merged, LoadMemory(store), today, cfg.threshold);
      DeliverNoMorning(merged, r, store, write);
    }
  }

  /** Without the morning lines, no line handed to the filter mentions the morning. */
  lemma MergedNoMorning(cfg: Settings, message: string)
    requires !cfg.includeMorning
    ensures forall l :: l in Merged(cfg, message) ==> !HasMorning(l)
  {
    var lines := CandidateLines(message, false);
    forall l | l in Merged(cfg, message) ensures !HasMorning(l) {
      if cfg.leastHours >= 2 {
        PeriodNoMorning(lines, cfg.leastHours, l);
      }
    }
  }

  /** Given lines none of which mentions the morning, the memory filter passes on none that
      does: each line it passes on is one of them, stripped. */
  lemma FilteredNoMorning(messages: seq<string>, mem: map<string, Entry>, today: string, threshold: int)
    requires forall l :: l in messages ==> !HasMorning(l)
    ensures var r := FilterSpec(messages, mem, today, threshold);
            r.Filtered? ==> forall k :: k in r.toNotify ==> !HasMorning(k)
  {
    var sigs := Signatures(messages);
    forall k | k in Notified(mem, today, threshold, sigs) ensures !HasMorning(k) {
      NotifiedAmongSignatures(mem, today, threshold, sigs, k);
      SignatureOrigin(messages, k);
      var i :| 0 <= i < |messages| && k == Strip(messages[i]);
      NoMorningInInfix(k, messages[i]);
    }
  }

  lemma DeliverNoMorning(merged: seq<string>, r: FilterResult, store: Store, write: WriteOutcome)
    requires forall l :: l in merged ==> !HasMorning(l)
    requires r.Filtered? ==> forall k :: k in r.toNotify ==> !HasMorning(k)
    ensures var outcome := Deliver(merged, r, store, write).0;
            outcome.Notify? ==> !HasMorning(outcome.message)
  {
    if r.Raised? {
      JoinNoMorning(merged, '\n');
    } else {
      JoinNoMorning(r.toNotify, '\n');
    }
  }
}
