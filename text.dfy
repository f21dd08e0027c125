/** Character classes and decimal text used by the slot-line parser and the
    period formatter: Python's notion of whitespace, ASCII digits, `str.strip`,
    the "上午" (morning) marker test, and `str(n)` / `f"{n:02d}"` for naturals. */
module Text {

  /** Python's `str.isspace` (also what `\s`, `str.strip()` and `str.split()` use). */
  predicate IsSpace(c: char)
  {
    || ('\U{0009}' <= c <= '\U{000D}')
    || ('\U{001C}' <= c <= '\U{001F}')
    || c == ' ' || c == '\U{0085}' || c == '\U{00A0}' || c == '\U{1680}'
    || ('\U{2000}' <= c <= '\U{200A}')
    || c == '\U{2028}' || c == '\U{2029}' || c == '\U{202F}' || c == '\U{205F}' || c == '\U{3000}'
  }

  predicate IsDigit(c: char)
  {
    '0' <= c <= '9'
  }

  function DigitValue(c: char): (d: nat)
    requires IsDigit(c)
    ensures d < 10
  {
    (c as int) - ('0' as int)
  }

  function DigitChar(d: nat): (c: char)
    requires d < 10
    ensures IsDigit(c) && DigitValue(c) == d
  {
    (('0' as int) + d) as char
  }

  predicate AllDigits(s: string)
  {
    forall i :: 0 <= i < |s| ==> IsDigit(s[i])
  }

  /** The value of a string of decimal digits, as Python's `int()` reads it. */
  function DigitsValue(s: string): nat
    requires AllDigits(s)
  {
    if s == [] then 0 else DigitsValue(s[..|s| - 1]) * 10 + DigitValue(s[|s| - 1])
  }

  /** `str(n)` for a natural number: decimal, no leading zero. */
  function NatStr(n: nat): (s: string)
    ensures |s| >= 1 && AllDigits(s)
    ensures |s| == 1 <==> n < 10
    ensures s[0] == '0' ==> n == 0
  {
    if n < 10 then [DigitChar(n)] else NatStr(n / 10) + [DigitChar(n % 10)]
  }

  /** `f"{n:02d}"` for a natural number: zero-padded to at least two digits. */
  function Pad2(n: nat): (s: string)
    ensures AllDigits(s) && |s| >= 2
    ensures |s| == 2 <==> n < 100
  {
    if n < 10 then "0" + NatStr(n) else NatStr(n)
  }

  lemma {:induction false} NatStrValue(n: nat)
    ensures DigitsValue(NatStr(n)) == n
  {
    if n >= 10 {
      NatStrValue(n / 10);
      var s := NatStr(n);
      assert s[..|s| - 1] == NatStr(n / 10);
    }
  }

  lemma {:induction false} LeadingZeroValue(s: string)
    requires AllDigits(s) && |s| >= 1 && s[0] == '0'
    ensures DigitsValue(s) == DigitsValue(s[1..])
  {
    if |s| > 1 {
      LeadingZeroValue(s[..|s| - 1]);
      assert s[..|s| - 1][1..] == s[1..][..|s[1..]| - 1];
    }
  }

  /** Reading back a zero-padded number gives the number. */
  lemma Pad2Value(n: nat)
    ensures DigitsValue(Pad2(n)) == n
  {
    NatStrValue(n);
    if n < 10 {
      LeadingZeroValue(Pad2(n));
      assert Pad2(n)[1..] == NatStr(n);
    }
  }

  /** `r` occurs in `s` starting at index `i`. */
  predicate InfixAt(r: string, s: string, i: int)
  {
    0 <= i && i + |r| <= |s| && s[i..i + |r|] == r
  }

  ghost predicate IsInfix(r: string, s: string)
  {
    exists i :: InfixAt(r, s, i)
  }

  /** Python's `"上午" in s`: the line mentions the morning period. */
  predicate HasMorning(s: string)
  {
    exists i :: 0 <= i < |s| - 1 && s[i] == '上' && s[i + 1] == '午'
  }

  /** The morning marker never straddles a boundary character that is neither '上' nor '午'. */
  lemma NoMorningAcross(a: string, c: char, b: string)
    requires !HasMorning(a) && !HasMorning(b) && c != '上' && c != '午'
    ensures !HasMorning(a + [c] + b)
  {
  }

  /** A piece of a line that does not mention the morning period does not mention it either. */
  lemma NoMorningInInfix(r: string, s: string)
    requires IsInfix(r, s) && !HasMorning(s)
    ensures !HasMorning(r)
  {
    var k :| InfixAt(r, s, k);
  }

  /** A piece of a text that lacks a character lacks it too. */
  lemma InfixAvoids(r: string, s: string, c: char)
    requires IsInfix(r, s) && c !in s
    ensures c !in r
  {
    var k :| InfixAt(r, s, k);
  }

  lemma InfixTransitive(r: string, s: string, t: string)
    requires IsInfix(r, s) && IsInfix(s, t)
    ensures IsInfix(r, t)
  {
    var i :| InfixAt(r, s, i);
    var j :| InfixAt(s, t, j);
    forall m | 0 <= m < |r| ensures t[j + i..j + i + |r|][m] == r[m] {
      assert r[m] == s[i..i + |r|][m] == s[i + m];
      assert s[i + m] == t[j..j + |s|][i + m];
    }
    assert InfixAt(r, t, j + i);
  }

  /** Length of the leading run of whitespace. */
  function LeadingSpace(s: string): (n: nat)
    ensures n <= |s|
    ensures forall i :: 0 <= i < n ==> IsSpace(s[i])
    ensures n < |s| ==> !IsSpace(s[n])
  {
    if s == [] || !IsSpace(s[0]) then 0 else 1 + LeadingSpace(s[1..])
  }

  /** Length of `s` without its trailing run of whitespace. */
  function TrimmedEnd(s: string): (n: nat)
    ensures n <= |s|
    ensures forall i :: n <= i < |s| ==> IsSpace(s[i])
    ensures n > 0 ==> !IsSpace(s[n - 1])
  {
    if s == [] || !IsSpace(s[|s| - 1]) then |s| else TrimmedEnd(s[..|s| - 1])
  }

  /** `r` is `s` from index `lo` on with only whitespace before and after it. */
  predicate TrimmedAt(s: string, r: string, lo: int)
  {
    && 0 <= lo && lo + |r| <= |s| && s[lo..lo + |r|] == r
    && (forall i :: 0 <= i < lo ==> IsSpace(s[i]))
    && (forall i :: lo + |r| <= i < |s| ==> IsSpace(s[i]))
  }

  /** Python's `s.strip()`: the largest infix that neither starts nor ends with whitespace. */
  function Strip(s: string): (r: string)
    ensures r == [] || (!IsSpace(r[0]) && !IsSpace(r[|r| - 1]))
    ensures IsInfix(r, s)
    ensures (forall i :: 0 <= i < |s| ==> IsSpace(s[i])) <==> r == []
  {
    var lo := LeadingSpace(s);
    var hi := TrimmedEnd(s);
    if lo >= hi then
      assert forall i :: 0 <= i < |s| ==> IsSpace(s[i]) by {
        forall i | 0 <= i < |s| ensures IsSpace(s[i]) {
          if i >= lo { assert i >= hi; }
        }
      }
      assert InfixAt([], s, 0);
      []
    else
      assert InfixAt(s[lo..hi], s, lo);
      s[lo..hi]
  }

  /** `strip()` removes the leading and the trailing whitespace and nothing else. */
  lemma StripTrims(s: string)
    ensures exists lo :: TrimmedAt(s, Strip(s), lo)
  {
    var lo, hi := LeadingSpace(s), TrimmedEnd(s);
    if lo >= hi {
      assert TrimmedAt(s, Strip(s), 0);
    } else {
      assert TrimmedAt(s, Strip(s), lo);
    }
  }

  /** A text that neither starts nor ends with whitespace is its own `strip()`. */
  lemma StripStripped(s: string)
    requires s == [] || (!IsSpace(s[0]) && !IsSpace(s[|s| - 1]))
    ensures Strip(s) == s
  {
    if s != [] {
      assert LeadingSpace(s) == 0;
      assert TrimmedEnd(s) == |s|;
      assert s[0..|s|] == s;
    }
  }

  /** `[ln.strip() for ln in pieces if ln.strip()]`. */
  function NonBlank(pieces: seq<string>): (lines: seq<string>)
    ensures forall l :: l in lines ==> l != [] && Strip(l) == l
  {
    if pieces == [] then []
    else
      var l := Strip(pieces[0]);
      StripStripped(l);
      (if l == [] then [] else [l]) + NonBlank(pieces[1..])
  }

  /** Exactly the non-blank pieces survive, stripped. */
  lemma {:induction false} NonBlankSpec(pieces: seq<string>, l: string)
    ensures l in NonBlank(pieces) <==> exists p :: p in pieces && Strip(p) != [] && l == Strip(p)
  {
    if pieces != [] {
      var h := Strip(pieces[0]);
      NonBlankSpec(pieces[1..], l);
      assert NonBlank(pieces) == (if h == [] then [] else [h]) + NonBlank(pieces[1..]);
      if exists p :: p in pieces && Strip(p) != [] && l == Strip(p) {
        var p :| p in pieces && Strip(p) != [] && l == Strip(p);
        if p != pieces[0] {
          assert p in pieces[1..];
        }
      }
      if l in NonBlank(pieces[1..]) {
        var p :| p in pieces[1..] && Strip(p) != [] && l == Strip(p);
        assert p in pieces;
      }
    }
  }

  /** Stripping and dropping blanks piece by piece: the result for two batches is the
      result for each, in order. */
  lemma {:induction false} NonBlankConcat(a: seq<string>, b: seq<string>)
    ensures NonBlank(a + b) == NonBlank(a) + NonBlank(b)
  {
    if a == [] {
      assert a + b == b;
    } else {
      var l := Strip(a[0]);
      var head: seq<string> := if l == [] then [] else [l];
      assert (a + b)[1..] == a[1..] + b;
      assert (a + b)[0] == a[0];
      assert NonBlank(a + b) == head + NonBlank(a[1..] + b);
      assert NonBlank(a) == head + NonBlank(a[1..]);
      NonBlankConcat(a[1..], b);
      ConcatAssoc(head, NonBlank(a[1..]), NonBlank(b));
    }
  }

  lemma ConcatAssoc(x: seq<string>, y: seq<string>, z: seq<string>)
    ensures x + (y + z) == (x + y) + z
  {
  }

  /** One piece contributes its stripped text unless that is empty. */
  lemma NonBlankOne(p: string)
    ensures NonBlank([p]) == if Strip(p) == [] then [] else [Strip(p)]
  {
    assert [p][1..] == [];
  }
}
