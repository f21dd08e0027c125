/** Maximal runs of hourly starts. The merger sorts one date's distinct start
    minutes and cuts them into runs in which every start is the previous one plus
    60; this module states that cut as a function and proves it is the unique
    partition of the starts into maximal +60 chains. */
module HourRuns {

  /** A run of `hours` consecutive hour slots whose first slot starts at minute `first`. */
  datatype Run = Run(first: nat, hours: nat)

  /** The minute a run ends: one hour after its last start. */
  function End(r: Run): nat
  {
    r.first + 60 * r.hours
  }

  /** The starts a run of `n` hours from `first` covers: `first, first + 60, …`. */
  function Starts(first: nat, n: nat): (xs: seq<nat>)
    decreases n
    ensures |xs| == n
    ensures forall i :: 0 <= i < n ==> xs[i] == first + 60 * i
  {
    if n == 0 then [] else [first] + Starts(first + 60, n - 1)
  }

  /** Every element is the previous one plus 60. */
  ghost predicate StepsBy60(xs: seq<nat>)
  {
    forall i, j :: 0 <= i < j < |xs| && j == i + 1 ==> xs[j] == xs[i] + 60
  }

  predicate StrictlyIncreasing(xs: seq<nat>)
  {
    forall i, j :: 0 <= i < j < |xs| ==> xs[i] < xs[j]
  }

  /** Length of the longest +60 chain at the front of `xs`. */
  function ChainLength(xs: seq<nat>): (n: nat)
    requires |xs| > 0
    ensures 1 <= n <= |xs|
    ensures StepsBy60(xs[..n])
    ensures n < |xs| ==> xs[n] != xs[n - 1] + 60
  {
    if |xs| > 1 && xs[1] == xs[0] + 60 then
      var m := ChainLength(xs[1..]);
      var ys := xs[1..][..m];
      assert forall j :: 0 <= j < m ==> xs[..m + 1][j + 1] == ys[j];
      var zs := xs[..m + 1];
      assert StepsBy60(zs) by {
        forall i, j | 0 <= i < j < m + 1 && j == i + 1 ensures zs[j] == zs[i] + 60 {
          if i > 0 {
            assert zs[j] == ys[j - 1] && zs[i] == ys[i - 1];
          }
        }
      }
      1 + m
    else 1
  }

  /** The runs of `xs`, front to back: each run is the longest +60 chain at the front of
      what is left. */
  function Runs(xs: seq<nat>): seq<Run>
    decreases |xs|
  {
    if xs == [] then []
    else
      var n := ChainLength(xs);
      [Run(xs[0], n)] + Runs(xs[n..])
  }

  /** The starts the runs cover, in order. */
  function Flatten(rs: seq<Run>): seq<nat>
  {
    if rs == [] then [] else Starts(rs[0].first, rs[0].hours) + Flatten(rs[1..])
  }

  /** `rs` cuts `xs` into non-empty +60 chains, and no chain could be extended into the
      next one: where one run stops the next start is not its end. */
  ghost predicate IsRunPartition(xs: seq<nat>, rs: seq<Run>)
  {
    && Flatten(rs) == xs
    && (forall i :: 0 <= i < |rs| ==> rs[i].hours >= 1)
    && (forall i, j :: 0 <= i < j < |rs| && j == i + 1 ==> rs[j].first != End(rs[i]))
  }

  lemma {:induction false} ChainIsStarts(ys: seq<nat>)
    requires |ys| > 0 && StepsBy60(ys)
    ensures ys == Starts(ys[0], |ys|)
  {
    var zs := Starts(ys[0], |ys|);
    forall i | 0 <= i < |ys| ensures ys[i] == zs[i] {
      ChainElement(ys, i);
    }
  }

  lemma {:induction false} ChainElement(ys: seq<nat>, i: nat)
    requires StepsBy60(ys) && i < |ys|
    ensures ys[i] == ys[0] + 60 * i
  {
    if i > 0 {
      ChainElement(ys, i - 1);
    }
  }

  /** A front chain of exactly `h` starts that the next start does not continue has
      chain length `h`. */
  lemma {:induction false} ChainLengthExact(xs: seq<nat>, h: nat)
    requires 1 <= h <= |xs| && StepsBy60(xs[..h])
    requires h < |xs| ==> xs[h] != xs[h - 1] + 60
    ensures ChainLength(xs) == h
  {
    if h > 1 {
      assert xs[1] == xs[..h][1] == xs[..h][0] + 60;
      var ys := xs[1..][..h - 1];
      assert StepsBy60(ys) by {
        assert forall j :: 0 <= j < h - 1 ==> ys[j] == xs[..h][j + 1];
        forall i, j | 0 <= i < j < h - 1 && j == i + 1 ensures ys[j] == ys[i] + 60 {
          assert ys[j] == xs[..h][j + 1] && ys[i] == xs[..h][i + 1];
        }
      }
      ChainLengthExact(xs[1..], h - 1);
    } else if |xs| > 1 {
      assert xs[1] != xs[0] + 60;
    }
  }

  /** One more start that continues the chain keeps `xs[lo..i + 1]` a chain. */
  lemma ExtendChain(xs: seq<nat>, lo: nat, i: nat)
    requires lo < i < |xs| && StepsBy60(xs[lo..i]) && xs[i] == xs[i - 1] + 60
    ensures StepsBy60(xs[lo..i + 1])
  {
    var ys, zs := xs[lo..i], xs[lo..i + 1];
    assert forall k :: 0 <= k < |ys| ==> zs[k] == ys[k];
    forall a, b | 0 <= a < b < |zs| && b == a + 1 ensures zs[b] == zs[a] + 60 {
      if b < |ys| {
        assert zs[b] == ys[b] && zs[a] == ys[a];
      }
    }
  }

  /** A single start is a run of one hour. */
  lemma SingleChain(xs: seq<nat>, i: nat)
    requires i < |xs|
    ensures StepsBy60(xs[i..i + 1])
  {
  }

  /** A chain `xs[lo..i]` that `xs[i]` does not continue is the first run of `xs[lo..]`. */
  lemma CloseRun(xs: seq<nat>, lo: nat, i: nat)
    requires lo < i <= |xs| && StepsBy60(xs[lo..i])
    requires i < |xs| ==> xs[i] != xs[i - 1] + 60
    ensures Runs(xs[lo..]) == [Run(xs[lo], i - lo)] + Runs(xs[i..])
  {
    var ys := xs[lo..];
    assert ys[..i - lo] == xs[lo..i];
    ChainLengthExact(ys, i - lo);
    RunsHead(ys);
    assert ys[i - lo..] == xs[i..];
  }

  lemma FlattenHead(rs: seq<Run>)
    requires |rs| > 0 && rs[0].hours >= 1
    ensures |Flatten(rs)| > 0 && Flatten(rs)[0] == rs[0].first
  {
  }

  lemma {:induction false} RunsFlatten(xs: seq<nat>)
    ensures Flatten(Runs(xs)) == xs
  {
    if xs != [] {
      var n := ChainLength(xs);
      RunsFlatten(xs[n..]);
      ChainIsStarts(xs[..n]);
      var rs := Runs(xs);
      assert rs[0] == Run(xs[0], n) && rs[1..] == Runs(xs[n..]);
      assert xs[..n] + xs[n..] == xs;
    }
  }

  /** Every hour a run covers is one of the starts it was cut from. */
  lemma {:induction false} RunCovered(xs: seq<nat>, r: Run)
    requires r in Runs(xs)
    ensures forall x :: x in Starts(r.first, r.hours) ==> x in xs
  {
    RunsFlatten(xs);
    FlattenCovers(Runs(xs), r);
  }

  lemma {:induction false} FlattenCovers(rs: seq<Run>, r: Run)
    requires r in rs
    ensures forall x :: x in Starts(r.first, r.hours) ==> x in Flatten(rs)
  {
    if rs[0] != r {
      assert r in rs[1..];
      FlattenCovers(rs[1..], r);
    }
  }

  lemma {:induction false} RunsHead(xs: seq<nat>)
    requires xs != []
    ensures Runs(xs) == [Run(xs[0], ChainLength(xs))] + Runs(xs[ChainLength(xs)..])
    ensures Runs(xs)[1..] == Runs(xs[ChainLength(xs)..])
  {
  }

  lemma {:induction false} RunsNonEmpty(xs: seq<nat>)
    ensures forall i :: 0 <= i < |Runs(xs)| ==> Runs(xs)[i].hours >= 1
  {
    if xs != [] {
      var n := ChainLength(xs);
      RunsNonEmpty(xs[n..]);
      RunsHead(xs);
      var rs, rest := Runs(xs), Runs(xs[n..]);
      assert forall j :: 0 <= j < |rest| ==> rs[j + 1] == rest[j];
    }
  }

  lemma {:induction false} RunsBreak(xs: seq<nat>)
    ensures forall i, j :: 0 <= i < j < |Runs(xs)| && j == i + 1 ==> Runs(xs)[j].first != End(Runs(xs)[i])
  {
    if xs != [] {
      var n := ChainLength(xs);
      RunsBreak(xs[n..]);
      RunsHead(xs);
      var rs, rest := Runs(xs), Runs(xs[n..]);
      forall i, j | 0 <= i < j < |rs| && j == i + 1 ensures rs[j].first != End(rs[i]) {
        if j == 1 {
          RunsFlatten(xs[n..]);
          RunsNonEmpty(xs[n..]);
          FlattenHead(rest);
          ChainElement(xs[..n], n - 1);
          assert rest[0].first == xs[n];
        } else {
          assert rs[j] == rest[j - 1] && rs[i] == rest[i - 1];
        }
      }
    }
  }

  /** The runs of `xs` cut it into maximal +60 chains. */
  lemma RunsPartition(xs: seq<nat>)
    ensures IsRunPartition(xs, Runs(xs))
  {
    RunsFlatten(xs);
    RunsNonEmpty(xs);
    RunsBreak(xs);
  }

  /** There is only one such cut: any partition of `xs` into maximal +60 chains is `Runs(xs)`. */
  lemma {:induction false} RunPartitionUnique(xs: seq<nat>, rs: seq<Run>)
    requires IsRunPartition(xs, rs)
    ensures rs == Runs(xs)
  {
    if rs != [] {
      var h := rs[0].hours;
      PartitionHead(xs, rs);
      StartsSteps(rs[0].first, h);
      ChainLengthExact(xs, h);
      RunPartitionUnique(xs[h..], rs[1..]);
      RunsHead(xs);
      assert rs == [rs[0]] + rs[1..];
    }
  }

  /** The first run of a partition is a front chain of `xs` that the next start does not
      continue, and the other runs partition what is left. */
  lemma PartitionHead(xs: seq<nat>, rs: seq<Run>)
    requires IsRunPartition(xs, rs) && rs != []
    ensures var h := rs[0].hours;
            && 1 <= h <= |xs| && xs[..h] == Starts(rs[0].first, h) && xs[0] == rs[0].first
            && (h < |xs| ==> xs[h] != xs[h - 1] + 60)
            && IsRunPartition(xs[h..], rs[1..])
  {
    var h := rs[0].hours;
    var tail := Flatten(rs[1..]);
    assert xs == Starts(rs[0].first, h) + tail;
    assert xs[..h] == Starts(rs[0].first, h);
    assert xs[h..] == tail;
    assert IsRunPartition(tail, rs[1..]) by {
      assert forall i :: 0 <= i < |rs[1..]| ==> rs[1..][i] == rs[i + 1];
    }
    if h < |xs| {
      assert |rs| > 1;
      FlattenHead(rs[1..]);
      assert xs[h] == rs[1].first != End(rs[0]) == xs[h - 1] + 60;
    }
  }

  lemma StartsSteps(first: nat, n: nat)
    ensures StepsBy60(Starts(first, n))
  {
  }

  /** Each run starts after the last start of the run before it. */
  ghost predicate Ascending(rs: seq<Run>)
  {
    forall i, j :: 0 <= i < j < |rs| && j == i + 1 ==> End(rs[i]) - 60 < rs[j].first
  }

  lemma AscendingCons(r: Run, rest: seq<Run>)
    requires Ascending(rest) && (rest != [] ==> End(r) - 60 < rest[0].first)
    ensures Ascending([r] + rest)
  {
    var rs := [r] + rest;
    forall i, j | 0 <= i < j < |rs| && j == i + 1 ensures End(rs[i]) - 60 < rs[j].first {
      if i > 0 {
        assert rs[i] == rest[i - 1] && rs[j] == rest[j - 1];
      }
    }
  }

  /** On sorted distinct starts the runs come in ascending order, each starting after the
      last start of the one before. */
  lemma {:induction false} RunsAscending(xs: seq<nat>)
    requires StrictlyIncreasing(xs)
    ensures Ascending(Runs(xs))
  {
    if xs != [] {
      var n := ChainLength(xs);
      var rest := Runs(xs[n..]);
      assert StrictlyIncreasing(xs[n..]);
      RunsAscending(xs[n..]);
      RunsHead(xs);
      if |rest| > 0 {
        RunsPartition(xs[n..]);
        FlattenHead(rest);
        ChainElement(xs[..n], n - 1);
        assert rest[0].first == xs[n] > xs[n - 1];
      }
      AscendingCons(Run(xs[0], n), rest);
    }
  }

  // ---------------------------------------------------------------------------
  // `sorted(starts)` for one date's pool of distinct starts.

  function Elems(xs: seq<nat>): set<nat>
  {
    set x | x in xs
  }

  lemma ElemsCons(m: nat, xs: seq<nat>)
    ensures Elems([m] + xs) == {m} + Elems(xs)
  {
    assert forall x :: x in [m] + xs <==> x == m || x in xs;
  }

  /** A strictly increasing sequence starts at its minimum and holds its head once. */
  lemma IncreasingHead(xs: seq<nat>)
    requires StrictlyIncreasing(xs) && xs != []
    ensures forall x :: x in Elems(xs) ==> xs[0] <= x
    ensures Elems(xs[1..]) == Elems(xs) - {xs[0]}
    ensures StrictlyIncreasing(xs[1..])
  {
    assert xs == [xs[0]] + xs[1..];
    ElemsCons(xs[0], xs[1..]);
    assert xs[0] !in xs[1..];
  }

  lemma InsertIncreasing(xs: seq<nat>, i: nat, x: nat)
    requires StrictlyIncreasing(xs) && i <= |xs|
    requires forall k :: 0 <= k < i ==> xs[k] < x
    requires forall k :: i <= k < |xs| ==> x < xs[k]
    ensures StrictlyIncreasing(xs[..i] + [x] + xs[i..])
  {
    var ys := xs[..i] + [x] + xs[i..];
    assert forall k :: 0 <= k < i ==> ys[k] == xs[k];
    assert forall k :: i < k < |ys| ==> ys[k] == xs[k - 1];
  }

  /** The least element of a non-empty pool. */
  ghost function MinOf(s: set<nat>): (m: nat)
    requires s != {}
    ensures m in s && forall x :: x in s ==> m <= x
    decreases |s|
  {
    var y :| y in s;
    if s == {y} then y
    else
      assert |s - {y}| < |s| by { assert s - {y} < s; }
      var m := MinOf(s - {y});
      assert forall x :: x in s ==> x == y || x in s - {y};
      if y < m then y else m
  }

  /** The elements of `s` in ascending order. */
  ghost function SortedSeq(s: set<nat>): (xs: seq<nat>)
    ensures StrictlyIncreasing(xs) && Elems(xs) == s
    decreases |s|
  {
    if s == {} then []
    else
      var m := MinOf(s);
      assert |s - {m}| == |s| - 1;
      var rest := SortedSeq(s - {m});
      SortedSeqCons(m, rest, s);
      [m] + rest
  }

  lemma SortedSeqCons(m: nat, rest: seq<nat>, s: set<nat>)
    requires m in s && (forall x :: x in s ==> m <= x)
    requires StrictlyIncreasing(rest) && Elems(rest) == s - {m}
    ensures StrictlyIncreasing([m] + rest) && Elems([m] + rest) == s
  {
    assert forall j :: 0 <= j < |rest| ==> rest[j] in Elems(rest);
    ElemsCons(m, rest);
    InsertIncreasing(rest, 0, m);
    assert [m] + rest == rest[..0] + [m] + rest[0..];
  }

  /** A sequence that lists the elements of `s` in strictly ascending order is `SortedSeq(s)`. */
  lemma {:induction false} SortedUnique(xs: seq<nat>, s: set<nat>)
    requires StrictlyIncreasing(xs) && Elems(xs) == s
    ensures xs == SortedSeq(s)
    decreases |xs|
  {
    var ys := SortedSeq(s);
    if xs != [] {
      assert xs[0] in s;
      IncreasingHead(xs);
      IncreasingHead(ys);
      assert xs[0] == ys[0] by {
        assert xs[0] in Elems(ys) && ys[0] in Elems(xs);
      }
      SortedUnique(xs[1..], s - {xs[0]});
      SortedUnique(ys[1..], s - {xs[0]});
      assert xs == [xs[0]] + xs[1..] && ys == [ys[0]] + ys[1..];
    } else {
      assert s == {};
    }
  }

  /** `sorted(starts)`: the pool's elements in ascending order, by insertion. */
  method SortStarts(s: set<nat>) returns (xs: seq<nat>)
    ensures xs == SortedSeq(s)
  {
    xs := [];
    var rest := s;
    while rest != {}
      invariant rest <= s
      invariant StrictlyIncreasing(xs) && Elems(xs) == s - rest
      decreases rest
    {
      var x :| x in rest;
      var i := 0;
      while i < |xs| && xs[i] < x
        invariant 0 <= i <= |xs|
        invariant forall k :: 0 <= k < i ==> xs[k] < x
      {
        i := i + 1;
      }
      assert x !in xs;
      assert forall k :: i <= k < |xs| ==> x < xs[k] by {
        if i < |xs| {
          assert x <= xs[i] && x != xs[i];
        }
      }
      ElemsCons(x, xs[..i] + xs[i..]);
      assert Elems(xs[..i] + [x] + xs[i..]) == Elems([x] + xs) by {
        assert xs[..i] + xs[i..] == xs;
        assert forall y :: y in xs[..i] + [x] + xs[i..] <==> y == x || y in xs;
      }
      InsertIncreasing(xs, i, x);
      assert {x} + (s - rest) == s - (rest - {x});
      xs := xs[..i] + [x] + xs[i..];
      rest := rest - {x};
    }
    SortedUnique(xs, s);
  }
}
