/** `build_continuous_periods`: pool the start minutes of the slot lines per date,
    sort each pool, cut it into maximal +60 runs and print the runs that last at
    least `least` hours as `"<date> | 连续空余 HH:MM-HH:MM (N小时)"`. */
module PeriodMerger {
  import opened Text
  import opened Wrappers
  import opened SlotLine
  import opened HourRuns

  // ---------------------------------------------------------------------------
  // Output format.

  /** `f"{h:02d}:{m:02d}"` for `h, m = divmod(minutes, 60)`. */
  function Clock(minutes: nat): string
  {
    Pad2(minutes / 60) + ":" + Pad2(minutes % 60)
  }

  /** One merged line, `"<date> | 连续空余 <start>-<end> (<hours>小时)"`. */
  function FormatPeriod(key: string, startMin: nat, endMin: nat, hours: nat): string
  {
    key + " | 连续空余 " + Clock(startMin) + "-" + Clock(endMin) + " (" + NatStr(hours) + "小时)"
  }

  /** The line printed for a run: the end is one hour after the run's last start. */
  function PeriodLine(key: string, r: Run): string
  {
    FormatPeriod(key, r.first, End(r), r.hours)
  }

  // ---------------------------------------------------------------------------
  // Reading a printed line back: the partner of the format above.

  /** A merged period as a printed line reports it. */
  datatype ContinuousPeriod = ContinuousPeriod(dateKey: string, startMin: nat, endMin: nat, hours: nat)

  /** Number of leading decimal digits of `s`. */
  function LeadingDigits(s: string): (n: nat)
    ensures n <= |s| && AllDigits(s[..n])
    ensures n < |s| ==> !IsDigit(s[n])
  {
    if s == [] || !IsDigit(s[0]) then 0
    else
      var m := LeadingDigits(s[1..]);
      assert s[..m + 1] == [s[0]] + s[1..][..m];
      1 + m
  }

  /** A decimal number at the front of `s`, and what follows it. */
  function ReadNat(s: string): Option<(nat, string)>
  {
    var n := LeadingDigits(s);
    if n == 0 then None else Some((DigitsValue(s[..n]), s[n..]))
  }

  /** `H:MM` at the front of `s`, as minutes after midnight, and what follows it. */
  function ReadClock(s: string): Option<(nat, string)>
  {
    match ReadNat(s)
    case None => None
    case Some((h, r)) =>
      if r == [] || r[0] != ':' then None
      else
        match ReadNat(r[1..])
        case None => None
        case Some((m, r2)) => Some((h * 60 + m, r2))
  }

  /** What separates the date key from the times in a printed line. */
  const Marker: string := " | 连续空余 "

  /** The period a printed line reports: the date key before the first `|`, then the start
      clock, `-`, the end clock and the hour count in `(N小时)`. */
  function ReadPeriod(line: string): Option<ContinuousPeriod>
  {
    var b := Find(line, '|', 0);
    if b == 0 || b == |line| then None
    else
      var rest := line[b - 1..];
      if |rest| < |Marker| || rest[..|Marker|] != Marker then None
      else
        match ReadTimes(rest[|Marker|..])
        case None => None
        case Some((st, en, h)) => Some(ContinuousPeriod(line[..b - 1], st, en, h))
  }

  /** `H:MM-H:MM (N小时)`: the start and end in minutes and the hour count. */
  function ReadTimes(s: string): Option<(nat, nat, nat)>
  {
    match ReadClock(s)
    case None => None
    case Some((st, r1)) =>
      if r1 == [] || r1[0] != '-' then None
      else
        match ReadClock(r1[1..])
        case None => None
        case Some((en, r2)) =>
          if |r2| < 2 || r2[..2] != " (" then None
          else
            match ReadNat(r2[2..])
            case None => None
            case Some((h, r3)) => if r3 == "小时)" then Some((st, en, h)) else None
  }

  lemma {:induction false} LeadingDigitsOf(d: string, rest: string)
    requires AllDigits(d) && (rest == [] || !IsDigit(rest[0]))
    ensures LeadingDigits(d + rest) == |d|
  {
    if d != [] {
      assert (d + rest)[1..] == d[1..] + rest;
      LeadingDigitsOf(d[1..], rest);
    }
  }

  lemma ReadNatOf(d: string, rest: string)
    requires AllDigits(d) && |d| >= 1 && (rest == [] || !IsDigit(rest[0]))
    ensures ReadNat(d + rest) == Some((DigitsValue(d), rest))
  {
    LeadingDigitsOf(d, rest);
    assert (d + rest)[..|d|] == d;
    assert (d + rest)[|d|..] == rest;
  }

  /** A printed clock reads back as the minutes it was printed from. */
  lemma ReadClockOf(minutes: nat, rest: string)
    requires rest == [] || !IsDigit(rest[0])
    ensures ReadClock(Clock(minutes) + rest) == Some((minutes, rest))
  {
    var h, m := Pad2(minutes / 60), Pad2(minutes % 60);
    assert Clock(minutes) + rest == h + ([':'] + (m + rest));
    ReadNatOf(h, [':'] + (m + rest));
    ReadNatOf(m, rest);
    assert ([':'] + (m + rest))[1..] == m + rest;
    Pad2Value(minutes / 60);
    Pad2Value(minutes % 60);
  }

  lemma Split(p: string, x: string)
    ensures (p + x)[..|p|] == p && (p + x)[|p|..] == x
  {
  }

  lemma Regroup(k: string, m: string, c1: string, d: string, c2: string, o: string, n: string, t: string)
    ensures k + m + c1 + d + c2 + o + n + t == k + (m + (c1 + (d + (c2 + (o + (n + t))))))
  {
  }

  /** A printed line reads back as the date key, start, end and hour count it was printed
      from, as long as the key holds no `|`. */
  lemma ReadPeriodOf(key: string, startMin: nat, endMin: nat, hours: nat)
    requires '|' !in key
    ensures ReadPeriod(FormatPeriod(key, startMin, endMin, hours)) == Some(ContinuousPeriod(key, startMin, endMin, hours))
  {
    Regroup(key, Marker, Clock(startMin), "-", Clock(endMin), " (", NatStr(hours), "小时)");
    ReadPeriodSplit(key, PrintedTimes(startMin, endMin, hours));
    ReadTimesOf(startMin, endMin, hours);
  }

  /** A line made of a key without `|`, the marker and some text reads as that key with
      whatever times the text holds. */
  lemma ReadPeriodSplit(key: string, times: string)
    requires '|' !in key
    ensures ReadPeriod(key + (Marker + times))
         == match ReadTimes(times)
            case None => None
            case Some((st, en, h)) => Some(ContinuousPeriod(key, st, en, h))
  {
    var line := key + (Marker + times);
    Split(key, Marker + times);
    Split(Marker, times);
    assert line[..|key| + 1] == key + [' '];
    FindFirst(line, '|', |key| + 1, line[..|key| + 1]);
  }

  /** The part of a printed line after the marker. */
  function PrintedTimes(startMin: nat, endMin: nat, hours: nat): string
  {
    Clock(startMin) + ("-" + (Clock(endMin) + (" (" + (NatStr(hours) + "小时)"))))
  }

  /** The times of a printed line read back as the numbers they were printed from. */
  lemma ReadTimesOf(startMin: nat, endMin: nat, hours: nat)
    ensures ReadTimes(PrintedTimes(startMin, endMin, hours)) == Some((startMin, endMin, hours))
  {
    var c2, n := Clock(endMin), NatStr(hours);
    var r3 := "小时)";
    var r2 := " (" + (n + r3);
    var r1 := "-" + (c2 + r2);
    ReadClockOf(startMin, r1);
    Split("-", c2 + r2);
    ReadClockOf(endMin, r2);
    Split(" (", n + r3);
    ReadNatOf(n, r3);
    NatStrValue(hours);
  }

  /** The lines for the runs that last at least `least` hours, in run order. */
  function PeriodLines(key: string, rs: seq<Run>, least: int): seq<string>
  {
    if rs == [] then []
    else
      (if rs[0].hours >= least then [PeriodLine(key, rs[0])] else []) + PeriodLines(key, rs[1..], least)
  }

  /** The lines of a date's runs once the run that starts at `xs[lo]` and ends before `xs[i]`
      has been cut off: its own line, if any, followed by those of the rest. */
  lemma CloseRunLines(key: string, xs: seq<nat>, lo: nat, i: nat, least: int)
    requires lo < i <= |xs| && StepsBy60(xs[lo..i])
    requires i < |xs| ==> xs[i] != xs[i - 1] + 60
    ensures PeriodLines(key, Runs(xs[lo..]), least)
         == (if i - lo >= least then [PeriodLine(key, Run(xs[lo], i - lo))] else [])
            + PeriodLines(key, Runs(xs[i..]), least)
  {
    CloseRun(xs, lo, i);
    var rs := Runs(xs[lo..]);
    assert rs[1..] == Runs(xs[i..]);
  }

  /** The scan's account: the lines printed so far followed by the lines of the runs from
      `xs[lo]` on are all the lines of the date. */
  ghost predicate Scanned(key: string, xs: seq<nat>, lo: nat, least: int, lines: seq<string>)
    requires lo <= |xs|
  {
    lines + PeriodLines(key, Runs(xs[lo..]), least) == PeriodLines(key, Runs(xs), least)
  }

  /** Cutting off the run `xs[lo..i]` and printing its line, if any, keeps the account. */
  lemma CloseStep(key: string, xs: seq<nat>, lo: nat, i: nat, least: int, lines: seq<string>)
    requires lo < i < |xs| && StepsBy60(xs[lo..i]) && xs[i] != xs[i - 1] + 60
    requires Scanned(key, xs, lo, least, lines)
    ensures Scanned(key, xs, i, least, lines + (if i - lo >= least then [PeriodLine(key, Run(xs[lo], i - lo))] else []))
  {
    CloseRunLines(key, xs, lo, i, least);
    var out := if i - lo >= least then [PeriodLine(key, Run(xs[lo], i - lo))] else [];
    var rest := PeriodLines(key, Runs(xs[i..]), least);
    AppendStep(lines, out, rest, PeriodLines(key, Runs(xs[lo..]), least), PeriodLines(key, Runs(xs), least));
  }

  /** Cutting off the last run accounts for all the lines. */
  lemma LastStep(key: string, xs: seq<nat>, lo: nat, least: int, lines: seq<string>)
    requires lo < |xs| && StepsBy60(xs[lo..|xs|])
    requires Scanned(key, xs, lo, least, lines)
    ensures lines + (if |xs| - lo >= least then [PeriodLine(key, Run(xs[lo], |xs| - lo))] else [])
            == PeriodLines(key, Runs(xs), least)
  {
    CloseRunLines(key, xs, lo, |xs|, least);
    assert Runs(xs[|xs|..]) == [];
    var out := if |xs| - lo >= least then [PeriodLine(key, Run(xs[lo], |xs| - lo))] else [];
    AppendStep(lines, out, [], PeriodLines(key, Runs(xs[lo..]), least), PeriodLines(key, Runs(xs), least));
    assert lines + out + [] == lines + out;
  }

  lemma AppendStep(done: seq<string>, out: seq<string>, rest: seq<string>, left: seq<string>, all: seq<string>)
    requires done + left == all && left == out + rest
    ensures done + out + rest == all
  {
    assert done + out + rest == done + (out + rest);
  }

  /** The block run when a run closes: print it if it lasts at least `least` hours, with
      its end computed from the last start as `cur_prev + 60`. */
  method EmitRun(key: string, curStart: nat, curPrev: nat, curLen: nat, least: int) returns (out: seq<string>)
    requires curPrev == curStart + 60 * (curLen - 1) && curLen >= 1
    ensures out == if curLen >= least then [PeriodLine(key, Run(curStart, curLen))] else []
  {
    out := [];
    if curLen >= least {
      var endMin := curPrev + 60;
      out := [FormatPeriod(key, curStart, endMin, curLen)];
    }
  }

  /** The scan's state after `xs[..i]`: the current run is `xs[lo..i]`, kept as its first start,
      its last start and its length, and `lines` holds the lines of the runs before it. */
  ghost predicate ScanState(key: string, xs: seq<nat>, least: int, i: nat, lo: nat,
                            curStart: nat, curPrev: nat, curLen: nat, lines: seq<string>)
  {
    && 0 <= lo < i <= |xs| && curLen == i - lo
    && curStart == xs[lo] && curPrev == xs[i - 1]
    && curPrev == curStart + 60 * (curLen - 1)
    && StepsBy60(xs[lo..i])
    && Scanned(key, xs, lo, least, lines)
  }

  lemma ScanStart(key: string, xs: seq<nat>, least: int)
    requires |xs| > 0
    ensures ScanState(key, xs, least, 1, 0, xs[0], xs[0], 1, [])
  {
    SingleChain(xs, 0);
    assert xs[0..] == xs;
  }

  /** A start one hour after the last extends the current run. */
  lemma ScanExtend(key: string, xs: seq<nat>, least: int, i: nat, lo: nat,
                   curStart: nat, curPrev: nat, curLen: nat, lines: seq<string>)
    requires ScanState(key, xs, least, i, lo, curStart, curPrev, curLen, lines)
    requires i < |xs| && xs[i] == curPrev + 60
    ensures ScanState(key, xs, least, i + 1, lo, curStart, xs[i], curLen + 1, lines)
  {
    ExtendChain(xs, lo, i);
  }

  /** Any other start closes the current run, printing its line if it is long enough, and
      opens a new run. */
  lemma ScanClose(key: string, xs: seq<nat>, least: int, i: nat, lo: nat,
                  curStart: nat, curPrev: nat, curLen: nat, lines: seq<string>)
    requires ScanState(key, xs, least, i, lo, curStart, curPrev, curLen, lines)
    requires i < |xs| && xs[i] != curPrev + 60
    ensures ScanState(key, xs, least, i + 1, i, xs[i], xs[i], 1,
                      lines + (if curLen >= least then [PeriodLine(key, Run(curStart, curLen))] else []))
  {
    CloseStep(key, xs, lo, i, least, lines);
    SingleChain(xs, i);
  }

  /** At the end the last run is closed and every line is accounted for. */
  lemma ScanEnd(key: string, xs: seq<nat>, least: int, lo: nat,
                curStart: nat, curPrev: nat, curLen: nat, lines: seq<string>)
    requires ScanState(key, xs, least, |xs|, lo, curStart, curPrev, curLen, lines)
    ensures lines + (if curLen >= least then [PeriodLine(key, Run(curStart, curLen))] else [])
            == PeriodLines(key, Runs(xs), least)
  {
    LastStep(key, xs, lo, least, lines);
  }

  /** The scan over one date's sorted starts, keeping `cur_start`, `cur_prev` and `cur_len`. */
  method ScanRuns(key: string, xs: seq<nat>, least: int) returns (lines: seq<string>)
    requires |xs| > 0
    ensures lines == PeriodLines(key, Runs(xs), least)
  {
    var curStart, curPrev, curLen := xs[0], xs[0], 1;
    ghost var lo := 0;
    lines := [];
    ScanStart(key, xs, least);
    for i := 1 to |xs|
      invariant ScanState(key, xs, least, i, lo, curStart, curPrev, curLen, lines)
    {
      var s := xs[i];
      if s == curPrev + 60 {
        ScanExtend(key, xs, least, i, lo, curStart, curPrev, curLen, lines);
        curPrev := s;
        curLen := curLen + 1;
      } else {
        ScanClose(key, xs, least, i, lo, curStart, curPrev, curLen, lines);
        var out := EmitRun(key, curStart, curPrev, curLen, least);
        lines := lines + out;
        lo := i;
        curStart, curPrev, curLen := s, s, 1;
      }
    }
    ScanEnd(key, xs, least, lo, curStart, curPrev, curLen, lines);
    var out := EmitRun(key, curStart, curPrev, curLen, least);
    lines := lines + out;
  }

  // ---------------------------------------------------------------------------
  // Pooling the slot lines per date.

  /** What one line contributes: nothing for an empty line, for a morning line when mornings
      are excluded, and for a line the slot pattern does not match; otherwise its slot. */
  function AcceptLine(line: string, includeMorning: bool): Option<Slot>
  {
    if line == [] then None
    else if !includeMorning && HasMorning(line) then None
    else ParseSlotLine(line)
  }

  /** What each line contributes, line by line. */
  function Accepted(lines: seq<string>, includeMorning: bool): (slots: seq<Option<Slot>>)
    ensures |slots| == |lines|
    ensures forall i :: 0 <= i < |lines| ==> slots[i] == AcceptLine(lines[i], includeMorning)
  {
    if lines == [] then []
    else Accepted(lines[..|lines| - 1], includeMorning) + [AcceptLine(lines[|lines| - 1], includeMorning)]
  }

  /** The set of start minutes pooled under `key` (`pools.setdefault(key, set()).add(start)`). */
  function Pool(slots: seq<Option<Slot>>, key: string): set<nat>
  {
    if slots == [] then {}
    else
      var last := slots[|slots| - 1];
      Pool(slots[..|slots| - 1], key) + (if last.Some? && last.value.dateKey == key then {last.value.start} else {})
  }

  /** The keys of `pools` in insertion order: each date key where it is first pooled. */
  function KeyOrder(slots: seq<Option<Slot>>): seq<string>
  {
    if slots == [] then []
    else
      var order := KeyOrder(slots[..|slots| - 1]);
      var last := slots[|slots| - 1];
      if last.Some? && last.value.dateKey !in order then order + [last.value.dateKey] else order
  }

  /** The lines printed for one date: those of the runs of its sorted starts. */
  ghost function DatePeriods(key: string, pool: set<nat>, least: int): seq<string>
  {
    PeriodLines(key, Runs(SortedSeq(pool)), least)
  }

  /** The lines printed for the dates `keys`, date after date. */
  ghost function PeriodsOver(keys: seq<string>, slots: seq<Option<Slot>>, least: int): seq<string>
  {
    if keys == [] then []
    else
      var key := keys[|keys| - 1];
      PeriodsOver(keys[..|keys| - 1], slots, least) + DatePeriods(key, Pool(slots, key), least)
  }

  /** What `build_continuous_periods(lines, include_morning)` returns. */
  ghost function Periods(lines: seq<string>, includeMorning: bool, least: int): seq<string>
  {
    var slots := Accepted(lines, includeMorning);
    PeriodsOver(KeyOrder(slots), slots, least)
  }

  /** A start is pooled under `key` exactly when some line contributes that slot. */
  lemma {:induction false} PoolMember(slots: seq<Option<Slot>>, key: string, x: nat)
    ensures x in Pool(slots, key) <==> Some(Slot(key, x)) in slots
  {
    if slots != [] {
      var init := slots[..|slots| - 1];
      PoolMember(init, key, x);
      assert slots == init + [slots[|slots| - 1]];
    }
  }

  /** A date key appears in the insertion order exactly when something was pooled under it. */
  lemma {:induction false} KeyOrderMember(slots: seq<Option<Slot>>, key: string)
    ensures key in KeyOrder(slots) <==> Pool(slots, key) != {}
  {
    if slots != [] {
      KeyOrderMember(slots[..|slots| - 1], key);
    }
  }

  ghost predicate Distinct(keys: seq<string>)
  {
    forall i, j :: 0 <= i < j < |keys| ==> keys[i] != keys[j]
  }

  /** Each date is reported under once: the insertion order never repeats a key. */
  lemma {:induction false} KeyOrderDistinct(slots: seq<Option<Slot>>)
    ensures Distinct(KeyOrder(slots))
  {
    if slots != [] {
      var init := slots[..|slots| - 1];
      KeyOrderDistinct(init);
      var before := KeyOrder(init);
      var last := slots[|slots| - 1];
      if last.Some? && last.value.dateKey !in before {
        var after := before + [last.value.dateKey];
        forall i, j | 0 <= i < j < |after| ensures after[i] != after[j] {
          assert after[i] == before[i];
          if j < |before| {
            assert after[j] == before[j];
          }
        }
      }
    }
  }

  /** `pools` and its insertion order `order` hold what the slots `done` pooled. */
  ghost predicate Pooled(pools: map<string, set<nat>>, order: seq<string>, done: seq<Option<Slot>>)
  {
    && order == KeyOrder(done)
    && (forall k :: k in pools <==> k in order)
    && (forall k :: k in pools ==> pools[k] == Pool(done, k))
  }

  /** Adding one more slot to the pools (or nothing, for a line that contributes nothing)
      keeps them in step with the slots read. */
  lemma PooledStep(pools: map<string, set<nat>>, order: seq<string>, slots: seq<Option<Slot>>, i: nat,
                   pools': map<string, set<nat>>, order': seq<string>)
    requires i < |slots| && Pooled(pools, order, slots[..i])
    requires match slots[i]
             case None => pools' == pools && order' == order
             case Some(Slot(key, start)) =>
               if key in pools then pools' == pools[key := pools[key] + {start}] && order' == order
               else pools' == pools[key := {start}] && order' == order + [key]
    ensures Pooled(pools', order', slots[..i + 1])
  {
    assert slots[..i + 1][..i] == slots[..i];
    if slots[i].Some? {
      KeyOrderMember(slots[..i], slots[i].value.dateKey);
    }
    forall k | k in pools' ensures pools'[k] == Pool(slots[..i + 1], k) {
      if k !in pools {
        KeyOrderMember(slots[..i], k);
      }
    }
  }

  // ---------------------------------------------------------------------------
  // The method.

  /** The first loop of `build_continuous_periods`: the `pools` dict, its keys kept in
      insertion order. */
  method PoolSlots(lines: seq<string>, includeMorning: bool) returns (pools: map<string, set<nat>>, order: seq<string>)
    ensures Pooled(pools, order, Accepted(lines, includeMorning))
  {
    ghost var slots := Accepted(lines, includeMorning);
    pools := map[];
    order := [];
    for i := 0 to |lines|
      invariant Pooled(pools, order, slots[..i])
    {
      ghost var pools0, order0 := pools, order;
      var slot := AcceptLine(lines[i], includeMorning);
      if slot.Some? {
        var key, start := slot.value.dateKey, slot.value.start;
        if key in pools {
          pools := pools[key := pools[key] + {start}];
        } else {
          pools := pools[key := {start}];
          order := order + [key];
        }
      }
      PooledStep(pools0, order0, slots, i, pools, order);
    }
    assert slots[..|lines|] == slots;
  }

  /** `build_continuous_periods(lines, include_morning)` with `LEAST_TIME_LENGTH == least`. */
  method BuildContinuousPeriods(lines: seq<string>, includeMorning: bool, least: int) returns (result: seq<string>)
    ensures result == Periods(lines, includeMorning, least)
  {
    var pools, order := PoolSlots(lines, includeMorning);
    result := PrintPools(pools, order, Accepted(lines, includeMorning), least);
  }

  /** The second half of `build_continuous_periods`: date by date in first-seen order, sort
      the pool, cut it into runs and print the runs that last at least `least` hours. */
  method PrintPools(pools: map<string, set<nat>>, order: seq<string>, ghost slots: seq<Option<Slot>>, least: int)
    returns (result: seq<string>)
    requires Pooled(pools, order, slots)
    ensures result == PeriodsOver(order, slots, least)
  {
    result := [];
    for j := 0 to |order|
      invariant result == PeriodsOver(order[..j], slots, least)
    {
      var key := order[j];
      PeriodsOverStep(order, j, slots, least);
      var xs := SortStarts(pools[key]);
      if |xs| > 0 {
        var out := ScanRuns(key, xs, least);
        result := result + out;
      } else {
        assert Runs(xs) == [];
      }
    }
    assert order[..|order|] == order;
  }

  /** The lines for one more date follow those of the dates before it. */
  lemma PeriodsOverStep(order: seq<string>, j: nat, slots: seq<Option<Slot>>, least: int)
    requires j < |order|
    ensures PeriodsOver(order[..j + 1], slots, least)
         == PeriodsOver(order[..j], slots, least) + DatePeriods(order[j], Pool(slots, order[j]), least)
  {
    assert order[..j + 1][..j] == order[..j];
  }

  // ---------------------------------------------------------------------------
  // What the printed lines are.

  /** A line is printed for a date exactly when it is the line of one of its runs that lasts
      at least `least` hours. */
  lemma {:induction false} PeriodLinesSpec(key: string, rs: seq<Run>, least: int, line: string)
    ensures line in PeriodLines(key, rs, least) <==>
            exists r :: r in rs && r.hours >= least && line == PeriodLine(key, r)
  {
    if rs != [] {
      PeriodLinesSpec(key, rs[1..], least, line);
      assert rs == [rs[0]] + rs[1..];
    }
  }

  /** A line is printed for the dates `keys` exactly when it is printed for one of them. */
  lemma {:induction false} PeriodsOverMember(keys: seq<string>, slots: seq<Option<Slot>>, least: int, line: string)
    ensures line in PeriodsOver(keys, slots, least) <==>
            exists k :: k in keys && line in DatePeriods(k, Pool(slots, k), least)
  {
    if keys != [] {
      var init, last := keys[..|keys| - 1], keys[|keys| - 1];
      var before, here := PeriodsOver(init, slots, least), DatePeriods(last, Pool(slots, last), least);
      PeriodsOverMember(init, slots, least, line);
      assert PeriodsOver(keys, slots, least) == before + here;
      assert line in before + here <==> line in before || line in here;
      if line in here {
        assert last in keys;
      } else if line in before {
        var k :| k in init && line in DatePeriods(k, Pool(slots, k), least);
        assert k in keys;
      }
      if exists k :: k in keys && line in DatePeriods(k, Pool(slots, k), least) {
        var k :| k in keys && line in DatePeriods(k, Pool(slots, k), least);
        if k != last {
          InInit(keys, k);
        }
      }
    }
  }

  lemma InInit(keys: seq<string>, k: string)
    requires k in keys && k != keys[|keys| - 1]
    ensures k in keys[..|keys| - 1]
  {
    var i :| 0 <= i < |keys| && keys[i] == k;
    assert keys[..|keys| - 1][i] == k;
  }

  /** Every printed line is the line of a run of at least `least` (and at least one) hours
      among the sorted starts pooled under a date key that was pooled. */
  lemma EmittedLine(lines: seq<string>, includeMorning: bool, least: int, line: string)
    requires line in Periods(lines, includeMorning, least)
    ensures exists key, r :: && key in KeyOrder(Accepted(lines, includeMorning))
                             && r in Runs(SortedSeq(Pool(Accepted(lines, includeMorning), key)))
                             && r.hours >= least && r.hours >= 1 && line == PeriodLine(key, r)
  {
    var slots := Accepted(lines, includeMorning);
    PeriodsOverMember(KeyOrder(slots), slots, least, line);
    var key :| key in KeyOrder(slots) && line in DatePeriods(key, Pool(slots, key), least);
    var rs := Runs(SortedSeq(Pool(slots, key)));
    PeriodLinesSpec(key, rs, least, line);
    var r :| r in rs && r.hours >= least && line == PeriodLine(key, r);
    RunsNonEmpty(SortedSeq(Pool(slots, key)));
  }

  /** A date key something was pooled under came out of the slot parser, so it holds no `|`. */
  lemma PooledKey(lines: seq<string>, includeMorning: bool, key: string)
    requires key in KeyOrder(Accepted(lines, includeMorning))
    ensures '|' !in key
  {
    var slots := Accepted(lines, includeMorning);
    KeyOrderMember(slots, key);
    var x :| x in Pool(slots, key);
    PoolMember(slots, key, x);
    var i :| 0 <= i < |slots| && slots[i] == Some(Slot(key, x));
    assert ParseSlotLine(lines[i]) == Some(Slot(key, x));
  }

  /** Every printed line reads back as a period of at least `least` hours that ends
      60 minutes per hour after it starts, and every hour it covers is a start pooled
      under its date. */
  lemma PrintedPeriod(lines: seq<string>, includeMorning: bool, least: int, line: string)
    requires line in Periods(lines, includeMorning, least)
    ensures ReadPeriod(line).Some?
    ensures var p := ReadPeriod(line).value;
            && p.hours >= least && p.hours >= 1
            && p.endMin == p.startMin + 60 * p.hours
            && forall x :: x in Starts(p.startMin, p.hours) ==> x in Pool(Accepted(lines, includeMorning), p.dateKey)
  {
    var slots := Accepted(lines, includeMorning);
    EmittedLine(lines, includeMorning, least, line);
    var key, r :| && key in KeyOrder(slots) && r in Runs(SortedSeq(Pool(slots, key)))
                  && r.hours >= least && r.hours >= 1 && line == PeriodLine(key, r);
    PooledKey(lines, includeMorning, key);
    ReadPeriodOf(key, r.first, End(r), r.hours);
    RunCovered(SortedSeq(Pool(slots, key)), r);
  }

  /** Pools depend only on which slots occur, not on their order or multiplicity. */
  lemma SamePools(s: seq<Option<Slot>>, t: seq<Option<Slot>>, key: string)
    requires forall x :: x in s <==> x in t
    ensures Pool(s, key) == Pool(t, key)
  {
    forall x | x in Pool(s, key) ensures x in Pool(t, key) {
      PoolMember(s, key, x);
      PoolMember(t, key, x);
    }
    forall x | x in Pool(t, key) ensures x in Pool(s, key) {
      PoolMember(s, key, x);
      PoolMember(t, key, x);
    }
  }

  /** Reordering or repeating the input lines leaves each date's pool of starts, and so each
      date's runs, the same, and prints the same set of lines. */
  lemma ReorderedLines(a: seq<string>, b: seq<string>, includeMorning: bool, least: int)
    requires forall l :: l in a <==> l in b
    ensures forall key :: Pool(Accepted(a, includeMorning), key) == Pool(Accepted(b, includeMorning), key)
    ensures forall line :: line in Periods(a, includeMorning, least) <==> line in Periods(b, includeMorning, least)
  {
    var s, t := Accepted(a, includeMorning), Accepted(b, includeMorning);
    forall x | x in s ensures x in t {
      var i :| 0 <= i < |s| && s[i] == x;
      assert a[i] in b;
      var j :| 0 <= j < |b| && b[j] == a[i];
    }
    forall x | x in t ensures x in s {
      var j :| 0 <= j < |t| && t[j] == x;
      assert b[j] in a;
      var i :| 0 <= i < |a| && a[i] == b[j];
    }
    forall key ensures Pool(s, key) == Pool(t, key) {
      SamePools(s, t, key);
    }
    forall line ensures line in Periods(a, includeMorning, least) <==> line in Periods(b, includeMorning, least) {
      PeriodsOverMember(KeyOrder(s), s, least, line);
      PeriodsOverMember(KeyOrder(t), t, least, line);
      forall k | k in KeyOrder(s) ensures k in KeyOrder(t) {
        KeyOrderMember(s, k);
        KeyOrderMember(t, k);
      }
      forall k | k in KeyOrder(t) ensures k in KeyOrder(s) {
        KeyOrderMember(s, k);
        KeyOrderMember(t, k);
      }
    }
  }

  /** The printed lines depend on the slots only through the pools. */
  lemma {:induction false} PeriodsOverPools(keys: seq<string>, s: seq<Option<Slot>>, t: seq<Option<Slot>>, least: int)
    requires forall k :: Pool(s, k) == Pool(t, k)
    ensures PeriodsOver(keys, s, least) == PeriodsOver(keys, t, least)
  {
    if keys != [] {
      PeriodsOverPools(keys[..|keys| - 1], s, t, least);
    }
  }

  /** A line that contributes nothing changes neither the pools nor the insertion order. */
  lemma {:induction false} DropNone(s1: seq<Option<Slot>>, s2: seq<Option<Slot>>)
    ensures KeyOrder(s1 + [None] + s2) == KeyOrder(s1 + s2)
    ensures forall k :: Pool(s1 + [None] + s2, k) == Pool(s1 + s2, k)
  {
    if s2 == [] {
      assert (s1 + [None] + s2)[..|s1|] == s1;
      assert s1 + s2 == s1;
    } else {
      var init := s2[..|s2| - 1];
      DropNone(s1, init);
      assert (s1 + [None] + s2)[..|s1| + |s2|] == s1 + [None] + init;
      assert (s1 + s2)[..|s1| + |s2| - 1] == s1 + init;
    }
  }

  /** The lines are read one at a time: what a batch contributes is what its parts contribute. */
  lemma {:induction false} AcceptedConcat(a: seq<string>, b: seq<string>, includeMorning: bool)
    ensures Accepted(a + b, includeMorning) == Accepted(a, includeMorning) + Accepted(b, includeMorning)
  {
    if b == [] {
      assert a + b == a;
    } else {
      var init, last := b[..|b| - 1], b[|b| - 1];
      AcceptedConcat(a, init, includeMorning);
      assert (a + b)[..|a + b| - 1] == a + init;
      assert (a + b)[|a + b| - 1] == last;
      AcceptedSnoc(Accepted(a + init, includeMorning), Accepted(a, includeMorning), Accepted(init, includeMorning), AcceptLine(last, includeMorning));
    }
  }

  /** Regrouping `(y + z) + [v]`, kept apart from the line parser. */
  lemma AcceptedSnoc(x: seq<Option<Slot>>, y: seq<Option<Slot>>, z: seq<Option<Slot>>, v: Option<Slot>)
    requires x == y + z
    ensures x + [v] == y + (z + [v])
  {
  }

  lemma IgnoredSlot(s1: seq<Option<Slot>>, s2: seq<Option<Slot>>, least: int)
    ensures PeriodsOver(KeyOrder(s1 + [None] + s2), s1 + [None] + s2, least) == PeriodsOver(KeyOrder(s1 + s2), s1 + s2, least)
  {
    DropNone(s1, s2);
    PeriodsOverPools(KeyOrder(s1 + s2), s1 + [None] + s2, s1 + s2, least);
  }

  /** An empty line, a morning line when mornings are excluded, and a line the slot pattern
      does not match leave the result exactly as it would be without them. */
  lemma IgnoredLine(a: seq<string>, l: string, b: seq<string>, includeMorning: bool, least: int)
    requires l == [] || (!includeMorning && HasMorning(l)) || ParseSlotLine(l).None?
    ensures Periods(a + [l] + b, includeMorning, least) == Periods(a + b, includeMorning, least)
  {
    var sa, sb := Accepted(a, includeMorning), Accepted(b, includeMorning);
    assert Accepted([l], includeMorning) == [None];
    AcceptedConcat(a, [l], includeMorning);
    AcceptedConcat(a + [l], b, includeMorning);
    AcceptedConcat(a, b, includeMorning);
    IgnoredSlot(sa, sb, least);
  }

  lemma RepeatedSlot(s: seq<Option<Slot>>, x: Option<Slot>, least: int)
    requires x in s
    ensures PeriodsOver(KeyOrder(s + [x]), s + [x], least) == PeriodsOver(KeyOrder(s), s, least)
  {
    assert (s + [x])[..|s|] == s;
    if x.Some? {
      PoolMember(s, x.value.dateKey, x.value.start);
      KeyOrderMember(s, x.value.dateKey);
    }
    forall k ensures Pool(s + [x], k) == Pool(s, k) {
      if x.Some? && x.value.dateKey == k {
        PoolMember(s, k, x.value.start);
      }
    }
    PeriodsOverPools(KeyOrder(s), s + [x], s, least);
  }

  /** Repeating a line already read changes nothing: its start is already pooled under its
      date, so no hour count is inflated. */
  lemma DuplicateLine(a: seq<string>, l: string, includeMorning: bool, least: int)
    requires l in a
    ensures Periods(a + [l], includeMorning, least) == Periods(a, includeMorning, least)
  {
    var s := Accepted(a, includeMorning);
    assert Accepted([l], includeMorning) == [AcceptLine(l, includeMorning)];
    AcceptedConcat(a, [l], includeMorning);
    var i :| 0 <= i < |a| && a[i] == l;
    assert s[i] == AcceptLine(l, includeMorning);
    RepeatedSlot(s, AcceptLine(l, includeMorning), least);
  }
}
