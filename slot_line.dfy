/** One raw slot line, `"<day label> <period> | <venue> (H:MM-H:MM)"`, read the
    way `build_continuous_periods` reads it: the pattern
    `^(?P<left>.*?)\|.*\((?P<start>\d{1,2}[:：]\d{2})\s*-\s*(?P<end>\d{1,2}[:：]\d{2})\)`
    written out by hand, and the nested `normalize_date_key`. */
module SlotLine {
  import opened Text
  import opened Wrappers

  /** One hour slot as the merger pools it: its date key and its start in minutes after midnight. */
  datatype Slot = Slot(dateKey: string, start: nat)

  predicate DigitAt(s: string, i: int)
  {
    0 <= i < |s| && IsDigit(s[i])
  }

  predicate CharAt(s: string, i: int, c: char)
  {
    0 <= i < |s| && s[i] == c
  }

  predicate IsColon(c: char)
  {
    c == ':' || c == '：'
  }

  predicate ColonAt(s: string, i: int)
  {
    0 <= i < |s| && IsColon(s[i])
  }

  predicate SepAt(s: string, i: int)
  {
    CharAt(s, i, '-') || CharAt(s, i, '/')
  }

  predicate IsDateChar(c: char)
  {
    IsDigit(c) || c == '-' || c == '/' || c == '月' || c == '日'
  }

  /** `s[i..e]` is a non-empty run of characters the date patterns can match. */
  predicate DatePiece(s: string, i: int, e: int)
  {
    0 <= i < e <= |s| && forall k :: i <= k < e ==> IsDateChar(s[k])
  }

  // ---------------------------------------------------------------------------
  // normalize_date_key: the alternatives of
  //   (\d{4}[-/]\d{1,2}[-/]\d{1,2})|(\d{1,2}-\d{1,2})|(\d{1,2}月\d{1,2}日)
  // Each `\d{1,2}` is greedy: two digits are tried first and, if the rest of
  // the alternative fails, one digit is tried.

  /** A final `\d{1,2}`: nothing follows it, so it keeps two digits when there are two. */
  function TrailingDigits(s: string, l: int): (r: Option<nat>)
    ensures r.Some? ==> DatePiece(s, l, r.value) && r.value <= l + 2
  {
    if DigitAt(s, l) && DigitAt(s, l + 1) then Some(l + 2)
    else if DigitAt(s, l) then Some(l + 1)
    else None
  }

  /** `\d{4}[-/]\d{1,2}[-/]\d{1,2}` at `i`: the end of the match. */
  function FullDateAt(s: string, i: int): (r: Option<nat>)
    ensures r.Some? ==> DatePiece(s, i, r.value)
  {
    if DigitAt(s, i) && DigitAt(s, i + 1) && DigitAt(s, i + 2) && DigitAt(s, i + 3) && SepAt(s, i + 4) then
      var j := i + 5;
      var two := if DigitAt(s, j) && DigitAt(s, j + 1) && SepAt(s, j + 2) then TrailingDigits(s, j + 3) else None;
      if two.Some? then two
      else if DigitAt(s, j) && SepAt(s, j + 1) then TrailingDigits(s, j + 2)
      else None
    else None
  }

  /** `\d{1,2}-\d{1,2}` at `i`. */
  function MonthDayAt(s: string, i: int): (r: Option<nat>)
    ensures r.Some? ==> DatePiece(s, i, r.value)
  {
    var two := if DigitAt(s, i) && DigitAt(s, i + 1) && CharAt(s, i + 2, '-') then TrailingDigits(s, i + 3) else None;
    if two.Some? then two
    else if DigitAt(s, i) && CharAt(s, i + 1, '-') then TrailingDigits(s, i + 2)
    else None
  }

  /** `\d{1,2}日` at `l`. */
  function DayAt(s: string, l: int): (r: Option<nat>)
    ensures r.Some? ==> DatePiece(s, l, r.value)
  {
    if DigitAt(s, l) && DigitAt(s, l + 1) && CharAt(s, l + 2, '日') then Some(l + 3)
    else if DigitAt(s, l) && CharAt(s, l + 1, '日') then Some(l + 2)
    else None
  }

  /** `\d{1,2}月\d{1,2}日` at `i`. */
  function ChineseDateAt(s: string, i: int): (r: Option<nat>)
    ensures r.Some? ==> DatePiece(s, i, r.value)
  {
    var two := if DigitAt(s, i) && DigitAt(s, i + 1) && CharAt(s, i + 2, '月') then DayAt(s, i + 3) else None;
    if two.Some? then two
    else if DigitAt(s, i) && CharAt(s, i + 1, '月') then DayAt(s, i + 2)
    else None
  }

  /** The three date alternatives tried in order at one position. */
  function DateAt(s: string, i: int): (r: Option<nat>)
    ensures r.Some? ==> DatePiece(s, i, r.value)
  {
    var full := FullDateAt(s, i);
    if full.Some? then full
    else
      var md := MonthDayAt(s, i);
      if md.Some? then md else ChineseDateAt(s, i)
  }

  /** `re.search` from position `i`: the leftmost position where a date alternative matches,
      with the end of that match. */
  function SearchDate(s: string, i: nat): (r: Option<(nat, nat)>)
    requires i <= |s|
    decreases |s| - i
    ensures r.Some? ==> i <= r.value.0 && DateAt(s, r.value.0) == Some(r.value.1)
    ensures r.Some? ==> DatePiece(s, r.value.0, r.value.1)
    ensures r.Some? ==> forall k :: i <= k < r.value.0 ==> DateAt(s, k).None?
    ensures r.None? ==> forall k :: i <= k <= |s| ==> DateAt(s, k).None?
  {
    var here := DateAt(s, i);
    if here.Some? then Some((i, here.value))
    else if i == |s| then None
    else SearchDate(s, i + 1)
  }

  /** Length of the first whitespace-delimited token of `s`. */
  function TokenEnd(s: string): (n: nat)
    ensures n <= |s|
    ensures forall k :: 0 <= k < n ==> !IsSpace(s[k])
    ensures n < |s| ==> IsSpace(s[n])
  {
    if s == [] || IsSpace(s[0]) then 0 else 1 + TokenEnd(s[1..])
  }

  /** `normalize_date_key(left)`: the stripped label's leftmost date-like piece, else its
      first token; the empty string for a blank label. */
  function NormalizeDateKey(left: string): (k: string)
    ensures IsInfix(k, left)
    ensures forall c :: c in k ==> !IsSpace(c)
    ensures k == [] <==> forall i :: 0 <= i < |left| ==> IsSpace(left[i])
  {
    var t := Strip(left);
    if t == [] then t
    else
      match SearchDate(t, 0)
      case Some((i, e)) =>
        assert InfixAt(t[i..e], t, i);
        InfixTransitive(t[i..e], t, left);
        DatePieceNoSpace(t, i, e);
        t[i..e]
      case None =>
        var n := TokenEnd(t);
        assert InfixAt(t[..n], t, 0);
        InfixTransitive(t[..n], t, left);
        TokenNoSpace(t, n);
        t[..n]
  }

  /** A label whose stripped text holds a date-like piece is keyed by the leftmost one: the
      longest alternative that matches where a match starts first. */
  lemma NormalizeDateKeyDate(left: string, i: nat)
    requires DateAt(Strip(left), i).Some?
    requires forall k :: 0 <= k < i ==> DateAt(Strip(left), k).None?
    ensures NormalizeDateKey(left) == Strip(left)[i..DateAt(Strip(left), i).value]
  {
    var t := Strip(left);
    assert DatePiece(t, i, DateAt(t, i).value);
    var r := SearchDate(t, 0);
    assert r.Some? && r.value.0 == i;
  }

  /** A label with no date-like piece is keyed by the first whitespace-delimited token of its
      stripped text, which is never empty. */
  lemma NormalizeDateKeyToken(left: string)
    requires Strip(left) != []
    requires forall k :: 0 <= k <= |Strip(left)| ==> DateAt(Strip(left), k).None?
    ensures var t, key := Strip(left), NormalizeDateKey(left);
      && 0 < |key| <= |t| && key == t[..|key|]
      && (|key| == |t| || IsSpace(t[|key|]))
  {
    var t := Strip(left);
    match SearchDate(t, 0)
    case Some((j, e)) =>
      assert false;
    case None =>
      var n := TokenEnd(t);
      assert NormalizeDateKey(left) == t[..n];
      assert !IsSpace(t[0]);
  }

  /** A date-like piece holds no whitespace. */
  lemma DatePieceNoSpace(t: string, i: int, e: int)
    requires DatePiece(t, i, e)
    ensures forall c :: c in t[i..e] ==> !IsSpace(c)
  {
    forall c | c in t[i..e] ensures !IsSpace(c) {
      var k :| 0 <= k < e - i && t[i..e][k] == c;
      assert IsDateChar(t[i + k]);
    }
  }

  /** The first token holds no whitespace. */
  lemma TokenNoSpace(t: string, n: nat)
    requires n <= |t| && forall k :: 0 <= k < n ==> !IsSpace(t[k])
    ensures forall c :: c in t[..n] ==> !IsSpace(c)
  {
    forall c | c in t[..n] ensures !IsSpace(c) {
      var k :| 0 <= k < n && t[..n][k] == c;
    }
  }

  // ---------------------------------------------------------------------------
  // The time range `\((?P<start>\d{1,2}[:：]\d{2})\s*-\s*(?P<end>\d{1,2}[:：]\d{2})\)`.
  // `\s*` is greedy and is always followed by a non-space (`-` or a digit), so it
  // never gives characters back.

  /** Index of the first non-whitespace character at or after `i`, or `|s|`. */
  function SkipSpaces(s: string, i: nat): (j: nat)
    requires i <= |s|
    decreases |s| - i
    ensures i <= j <= |s|
    ensures forall k :: i <= k < j ==> IsSpace(s[k])
    ensures j < |s| ==> !IsSpace(s[j])
  {
    if i == |s| || !IsSpace(s[i]) then i else SkipSpaces(s, i + 1)
  }

  /** `\d{w}[:：]\d{2}` at `q`, for `w` hour digits. */
  predicate ClockAt(s: string, q: int, w: int)
  {
    && (w == 1 || w == 2)
    && DigitAt(s, q) && (w == 2 ==> DigitAt(s, q + 1))
    && ColonAt(s, q + w) && DigitAt(s, q + w + 1) && DigitAt(s, q + w + 2)
  }

  /** `sh * 60 + sm` for the clock at `q`, as `int()` reads its two parts. */
  function ClockMinutes(s: string, q: int, w: int): (m: nat)
    requires ClockAt(s, q, w)
    ensures m <= 99 * 60 + 99
  {
    var hour := if w == 2 then DigitValue(s[q]) * 10 + DigitValue(s[q + 1]) else DigitValue(s[q]);
    hour * 60 + DigitValue(s[q + w + 1]) * 10 + DigitValue(s[q + w + 2])
  }

  /** `(?P<end>\d{1,2}[:：]\d{2})\)` at `b`: two hour digits first, then one. */
  predicate EndClockAt(s: string, b: int)
  {
    (ClockAt(s, b, 2) && CharAt(s, b + 5, ')')) || (ClockAt(s, b, 1) && CharAt(s, b + 4, ')'))
  }

  /** The range at the start of `s` when its start clock has `w` hour digits. */
  function RangeWith(s: string, w: int): (r: Option<nat>)
    requires w == 1 || w == 2
    ensures r.Some? ==> ClockAt(s, 1, w) && r.value == ClockMinutes(s, 1, w)
  {
    if ClockAt(s, 1, w) then
      var a := SkipSpaces(s, w + 4);
      if CharAt(s, a, '-') then
        var b := SkipSpaces(s, a + 1);
        if EndClockAt(s, b) then Some(ClockMinutes(s, 1, w)) else None
      else None
    else None
  }

  /** The parenthesised range matched at the start of `s`: the start in minutes. */
  function Range(s: string): (r: Option<nat>)
    ensures r.Some? ==> |s| > 0 && s[0] == '(' && r.value <= 99 * 60 + 99
  {
    if |s| > 0 && s[0] == '(' then
      var two := RangeWith(s, 2);
      if two.Some? then two else RangeWith(s, 1)
    else None
  }

  // ---------------------------------------------------------------------------
  // The whole line.

  /** First index at or after `i` holding `c`, or `|s|`. */
  function Find(s: string, c: char, i: nat): (j: nat)
    requires i <= |s|
    decreases |s| - i
    ensures i <= j <= |s|
    ensures forall k :: i <= k < j ==> s[k] != c
    ensures j < |s| ==> s[j] == c
  {
    if i == |s| || s[i] == c then i else Find(s, c, i + 1)
  }

  /** No range starts at position `p` of `s`. */
  predicate NoRangeAt(s: string, p: int)
  {
    0 <= p <= |s| && Range(s[p..]).None?
  }

  /** Greedy `.*` followed by the range: the last position in `[lo, hi)` where the range
      matches, with the start it reads there. */
  function LastRange(s: string, lo: nat, hi: nat): (r: Option<(nat, nat)>)
    requires lo <= hi <= |s|
    decreases hi - lo
    ensures r.Some? ==> lo <= r.value.0 < hi && Range(s[r.value.0..]) == Some(r.value.1)
    ensures r.Some? ==> forall p :: r.value.0 < p < hi ==> NoRangeAt(s, p)
    ensures r.None? ==> forall p :: lo <= p < hi ==> NoRangeAt(s, p)
  {
    if hi == lo then None
    else
      var here := Range(s[hi - 1..]);
      if here.Some? then Some((hi - 1, here.value))
      else
        var r := LastRange(s, lo, hi - 1);
        if r.Some? then
          NoRangeAfter(s, r.value.0, hi);
          r
        else
          NoRangeFrom(s, lo, hi);
          r
  }

  lemma NoRangeAfter(s: string, a: nat, hi: nat)
    requires a < hi <= |s|
    requires forall p :: a < p < hi - 1 ==> NoRangeAt(s, p)
    requires NoRangeAt(s, hi - 1)
    ensures forall p :: a < p < hi ==> NoRangeAt(s, p)
  {
  }

  lemma NoRangeFrom(s: string, lo: nat, hi: nat)
    requires lo < hi <= |s|
    requires forall p :: lo <= p < hi - 1 ==> NoRangeAt(s, p)
    requires NoRangeAt(s, hi - 1)
    ensures forall p :: lo <= p < hi ==> NoRangeAt(s, p)
  {
  }

  /** `time_re.search(line)` followed by `normalize_date_key(left)` and `sh * 60 + sm`.
      `.` does not match a newline, so the `|` and the `(` must both come before the first
      one. The lazy `left` stops at the first `|`: a later `|` leaves the greedy `.*` less
      room and cannot succeed where the first one failed. */
  function ParseSlotLine(line: string): (r: Option<Slot>)
    ensures r.Some? ==> r.value.start <= 99 * 60 + 99
    ensures r.Some? ==> IsInfix(r.value.dateKey, line) && '|' in line && '|' !in r.value.dateKey
  {
    var e := Find(line, '\n', 0);
    var b := Find(line, '|', 0);
    if b >= e then None
    else
      match LastRange(line, b + 1, e)
      case None => None
      case Some((_, start)) =>
        var key := NormalizeDateKey(line[..b]);
        assert InfixAt(line[..b], line, 0);
        InfixTransitive(key, line[..b], line);
        InfixAvoids(key, line[..b], '|');
        Some(Slot(key, start))
  }

  // ---------------------------------------------------------------------------
  // Properties of the line parser.

  /** `x` and `y` are the same text except that a `:` may stand where the other has `：`. */
  predicate ColonEquiv(x: string, y: string)
  {
    |x| == |y| && forall k :: 0 <= k < |x| ==> x[k] == y[k] || (IsColon(x[k]) && IsColon(y[k]))
  }

  lemma {:induction false} SkipSpacesColonEquiv(x: string, y: string, i: nat)
    requires ColonEquiv(x, y) && i <= |x|
    decreases |x| - i
    ensures SkipSpaces(x, i) == SkipSpaces(y, i)
  {
    if i < |x| && IsSpace(x[i]) {
      SkipSpacesColonEquiv(x, y, i + 1);
    }
  }

  lemma ColonEquivAt(x: string, y: string, k: int)
    requires ColonEquiv(x, y)
    ensures DigitAt(x, k) == DigitAt(y, k) && ColonAt(x, k) == ColonAt(y, k)
    ensures DigitAt(x, k) ==> x[k] == y[k]
    ensures forall c :: !IsColon(c) ==> CharAt(x, k, c) == CharAt(y, k, c)
  {
  }

  lemma ClockColonEquiv(x: string, y: string, q: int, w: int)
    requires ColonEquiv(x, y)
    ensures ClockAt(x, q, w) == ClockAt(y, q, w)
    ensures ClockAt(x, q, w) ==> ClockMinutes(x, q, w) == ClockMinutes(y, q, w)
  {
    ColonEquivAt(x, y, q);
    ColonEquivAt(x, y, q + 1);
    ColonEquivAt(x, y, q + w);
    ColonEquivAt(x, y, q + w + 1);
    ColonEquivAt(x, y, q + w + 2);
  }

  lemma EndClockColonEquiv(x: string, y: string, b: int)
    requires ColonEquiv(x, y)
    ensures EndClockAt(x, b) == EndClockAt(y, b)
  {
    ClockColonEquiv(x, y, b, 1);
    ClockColonEquiv(x, y, b, 2);
    ColonEquivAt(x, y, b + 4);
    ColonEquivAt(x, y, b + 5);
  }

  lemma RangeWithColonEquiv(x: string, y: string, w: int)
    requires ColonEquiv(x, y) && (w == 1 || w == 2)
    ensures RangeWith(x, w) == RangeWith(y, w)
  {
    ClockColonEquiv(x, y, 1, w);
    if ClockAt(x, 1, w) {
      var a := SkipSpaces(x, w + 4);
      SkipSpacesColonEquiv(x, y, w + 4);
      assert CharAt(x, a, '-') == CharAt(y, a, '-') by {
        ColonEquivAt(x, y, a);
      }
      if CharAt(x, a, '-') {
        var b := SkipSpaces(x, a + 1);
        SkipSpacesColonEquiv(x, y, a + 1);
        EndClockColonEquiv(x, y, b);
      }
    }
  }

  /** The range pattern accepts `:` and `：` alike and reads the same start from both. */
  lemma RangeColonEquiv(x: string, y: string)
    requires ColonEquiv(x, y)
    ensures Range(x) == Range(y)
  {
    ColonEquivAt(x, y, 0);
    RangeWithColonEquiv(x, y, 1);
    RangeWithColonEquiv(x, y, 2);
  }

  lemma ColonEquivDrop(x: string, y: string, m: nat)
    requires ColonEquiv(x, y) && m <= |x|
    ensures ColonEquiv(x[m..], y[m..])
  {
    forall k | 0 <= k < |x| - m
      ensures x[m..][k] == y[m..][k] || (IsColon(x[m..][k]) && IsColon(y[m..][k]))
    {
      assert x[m..][k] == x[m + k] && y[m..][k] == y[m + k];
    }
  }

  /** The range matches at `p` of `s` exactly as at `p` of `t`. */
  predicate SameRangeAt(s: string, t: string, p: int)
  {
    0 <= p <= |s| && p <= |t| && Range(s[p..]) == Range(t[p..])
  }

  /** Two texts on which the range matches alike at every position of `[lo, hi)` give the
      same greedy search result there. */
  lemma {:induction false} LastRangeSame(s: string, t: string, lo: nat, hi: nat)
    requires lo <= hi <= |s| && hi <= |t|
    requires forall p :: lo <= p < hi ==> SameRangeAt(s, t, p)
    decreases hi - lo
    ensures LastRange(s, lo, hi) == LastRange(t, lo, hi)
  {
    if hi > lo {
      assert SameRangeAt(s, t, hi - 1);
      LastRangeSame(s, t, lo, hi - 1);
      LastRangeUnfold(s, lo, hi);
      LastRangeUnfold(t, lo, hi);
      SameLastRange(Range(s[hi - 1..]), Range(t[hi - 1..]), LastRange(s, lo, hi - 1), LastRange(t, lo, hi - 1),
                    LastRange(s, lo, hi), LastRange(t, lo, hi), hi - 1);
    }
  }

  lemma LastRangeUnfold(s: string, lo: nat, hi: nat)
    requires lo < hi <= |s|
    ensures LastRange(s, lo, hi)
         == if Range(s[hi - 1..]).Some? then Some((hi - 1, Range(s[hi - 1..]).value)) else LastRange(s, lo, hi - 1)
  {
  }

  /** One step of the greedy search gives the same answer on two texts that agree on whether
      and how the range matches at `p` and on the answer below `p`. */
  lemma SameLastRange(x: Option<nat>, y: Option<nat>, below1: Option<(nat, nat)>, below2: Option<(nat, nat)>,
                      r1: Option<(nat, nat)>, r2: Option<(nat, nat)>, p: nat)
    requires x == y && below1 == below2
    requires r1 == if x.Some? then Some((p, x.value)) else below1
    requires r2 == if y.Some? then Some((p, y.value)) else below2
    ensures r1 == r2
  {
  }

  /** Texts that differ only in the kind of colon match the range alike everywhere. */
  lemma ColonEquivSameRange(s: string, t: string, lo: nat)
    requires lo <= |s| == |t| && ColonEquiv(s[lo..], t[lo..])
    ensures forall p :: lo <= p < |s| ==> SameRangeAt(s, t, p)
  {
    forall p | lo <= p < |s| ensures SameRangeAt(s, t, p) {
      RangeAtColonEquiv(s, t, lo, p);
    }
  }

  lemma RangeAtColonEquiv(s: string, t: string, lo: nat, p: nat)
    requires lo <= p < |s| == |t| && ColonEquiv(s[lo..], t[lo..])
    ensures Range(s[p..]) == Range(t[p..])
  {
    ColonEquivDrop(s[lo..], t[lo..], p - lo);
    assert s[lo..][p - lo..] == s[p..];
    assert t[lo..][p - lo..] == t[p..];
    RangeColonEquiv(s[p..], t[p..]);
  }

  /** Two texts with `c` at the same places find it at the same place. */
  lemma FindSame(s: string, t: string, c: char)
    requires |s| == |t| && forall k :: 0 <= k < |s| ==> (s[k] == c <==> t[k] == c)
    ensures Find(s, c, 0) == Find(t, c, 0)
  {
    var i, j := Find(s, c, 0), Find(t, c, 0);
    if i < |s| {
      assert t[i] == c;
    }
    if j < |t| {
      assert s[j] == c;
    }
  }

  /** A full-width `：` after the `|` parses exactly as `:` does. */
  lemma ParseColonInsensitive(left: string, rest1: string, rest2: string)
    requires '|' !in left && ColonEquiv(rest1, rest2)
    ensures ParseSlotLine(left + "|" + rest1) == ParseSlotLine(left + "|" + rest2)
  {
    var s, t := left + "|" + rest1, left + "|" + rest2;
    var b := |left|;
    assert forall k :: 0 <= k < |s| ==> (s[k] == '\n' <==> t[k] == '\n') by {
      forall k | 0 <= k < |s| ensures s[k] == '\n' <==> t[k] == '\n' {
        if k > b {
          assert s[k] == rest1[k - b - 1] && t[k] == rest2[k - b - 1];
        }
      }
    }
    FindSame(s, t, '\n');
    var e1 := Find(s, '\n', 0);
    assert s[..b] == left && t[..b] == left;
    FindFirst(s, '|', b, left);
    FindFirst(t, '|', b, left);
    if b < e1 {
      assert s[b + 1..] == rest1 && t[b + 1..] == rest2;
      ColonEquivSameRange(s, t, b + 1);
      LastRangeSame(s, t, b + 1, e1);
      assert s[..b] == left == t[..b];
    }
  }

  /** Any venue text between the `|` and the final range is ignored: the slot is the
      normalised label with the range's start. */
  lemma VenueIrrelevant(left: string, venue: string, range: string)
    requires '|' !in left && '\n' !in left && '\n' !in venue && '\n' !in range
    requires Range(range).Some? && '(' !in range[1..]
    ensures ParseSlotLine(left + "|" + venue + range) == Some(Slot(NormalizeDateKey(left), Range(range).value))
  {
    var s := left + "|" + venue + range;
    var b, p0 := |left|, |left| + 1 + |venue|;
    FindAbsent(s, '\n');
    FindFirst(s, '|', b, left);
    assert s[p0..] == range;
    NoLaterRange(s, p0);
    LastRangeAt(s, b + 1, p0, |s|);
    assert s[..b] == left;
  }

  /** A range starts with `(`, so none starts after the last `(`. */
  lemma NoLaterRange(s: string, p0: nat)
    requires p0 < |s| && '(' !in s[p0..][1..]
    ensures forall p :: p0 < p < |s| ==> NoRangeAt(s, p)
  {
    forall p | p0 < p < |s| ensures NoRangeAt(s, p) {
      ParenAbsent(s, p0, p);
    }
  }

  lemma ParenAbsent(s: string, p0: nat, p: nat)
    requires p0 < p < |s| && '(' !in s[p0..][1..]
    ensures s[p..][0] != '('
  {
    assert s[p0..][1..][p - p0 - 1] == s[p..][0];
  }

  lemma FindAbsent(s: string, c: char)
    requires c !in s
    ensures Find(s, c, 0) == |s|
  {
  }

  lemma FindFirst(s: string, c: char, b: nat, before: string)
    requires b < |s| && s[b] == c && before == s[..b] && c !in before
    ensures Find(s, c, 0) == b
  {
    assert forall k :: 0 <= k < b ==> s[k] == before[k] && before[k] != c;
  }

  /** The greedy search ends at the last position where the range matches. */
  lemma {:induction false} LastRangeAt(s: string, lo: nat, p0: nat, hi: nat)
    requires lo <= p0 < hi <= |s| && Range(s[p0..]).Some?
    requires forall p :: p0 < p < hi ==> NoRangeAt(s, p)
    ensures LastRange(s, lo, hi) == Some((p0, Range(s[p0..]).value))
    decreases hi
  {
    LastRangeUnfold(s, lo, hi);
    if hi - 1 != p0 {
      assert NoRangeAt(s, hi - 1);
      LastRangeAt(s, lo, p0, hi - 1);
    }
  }

  /** A range starts at position `p` of `s`. */
  predicate RangeStartsAt(s: string, p: int)
  {
    0 <= p <= |s| && Range(s[p..]).Some?
  }

  /** The range at `p` reads `start`, and none starts after it before `hi`. */
  predicate LastRangeIs(s: string, p: int, hi: int, start: nat)
  {
    0 <= p < hi <= |s| && Range(s[p..]) == Some(start) && forall q :: p < q < hi ==> NoRangeAt(s, q)
  }

  /** The whole contract of the line parser, with `b` the first `|` and `e` the first newline:
      a slot is read exactly when the `|` comes first and a range starts after it on the same
      line; its key is the normalised text left of the `|`, and its start is the one the last
      such range reads. */
  lemma ParseSlotLineSpec(line: string)
    ensures var b, e := Find(line, '|', 0), Find(line, '\n', 0);
      ParseSlotLine(line).Some? <==> b < e && exists p :: b < p < e && RangeStartsAt(line, p)
    ensures var b, e := Find(line, '|', 0), Find(line, '\n', 0);
      ParseSlotLine(line).Some? ==>
        && ParseSlotLine(line).value.dateKey == NormalizeDateKey(line[..b])
        && IsInfix(ParseSlotLine(line).value.dateKey, line[..b])
        && exists p :: b < p && LastRangeIs(line, p, e, ParseSlotLine(line).value.start)
  {
    var b, e := Find(line, '|', 0), Find(line, '\n', 0);
    ParseSlotLineCases(line);
    if b < e {
      var found := LastRange(line, b + 1, e);
      if found.Some? {
        assert RangeStartsAt(line, found.value.0);
        assert LastRangeIs(line, found.value.0, e, found.value.1);
      } else {
        NoRangeStarts(line, b + 1, e);
      }
    }
  }

  lemma ParseSlotLineCases(line: string)
    ensures var b, e := Find(line, '|', 0), Find(line, '\n', 0);
      && (b >= e ==> ParseSlotLine(line).None?)
      && (b < e && LastRange(line, b + 1, e).None? ==> ParseSlotLine(line).None?)
      && (b < e && LastRange(line, b + 1, e).Some? ==>
            ParseSlotLine(line) == Some(Slot(NormalizeDateKey(line[..b]), LastRange(line, b + 1, e).value.1)))
  {
  }

  lemma NoRangeStarts(s: string, lo: nat, hi: nat)
    requires lo <= hi <= |s| && LastRange(s, lo, hi).None?
    ensures forall p :: lo <= p < hi ==> !RangeStartsAt(s, p)
  {
    forall p | lo <= p < hi ensures !RangeStartsAt(s, p) {
      assert NoRangeAt(s, p);
    }
  }

  /** The label `"12-02 周二 "` of a slot line is keyed by its month-day. */
  lemma MonthDayKey()
    ensures NormalizeDateKey("12-02 周二 ") == "12-02"
  {
    var s, t := "12-02 周二 ", "12-02 周二";
    assert LeadingSpace(s) == 0;
    assert TrimmedEnd(s[..8]) == 8;
    assert TrimmedEnd(s) == 8;
    assert Strip(s) == t by {
      assert s[0..8] == t;
    }
    assert FullDateAt(t, 0).None?;
    assert TrailingDigits(t, 3) == Some(5);
    assert DateAt(t, 0) == Some(5);
    NormalizeDateKeyDate(s, 0);
    assert t[0..5] == "12-02";
  }
}
