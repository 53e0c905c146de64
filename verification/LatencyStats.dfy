/** The nearest-rank statistics of include/pipeline/tick_to_trade.hpp and tools/itch_analysis.hpp. */
module Statistics {

  const HISTOGRAM_BINS: nat := 32
  const BIN_WIDTH: nat := 2

  datatype LatencyStats = LatencyStats(count: nat, min: nat, median: nat, p99: nat, max: nat, histogram: seq<nat>)

  // ---- sorted copies ----

  ghost predicate Sorted(s: seq<nat>)
  {
    forall i, j :: 0 <= i < j < |s| ==> s[i] <= s[j]
  }

  ghost predicate IsSortOf(t: seq<nat>, s: seq<nat>)
  {
    Sorted(t) && multiset(t) == multiset(s)
  }

  lemma SameSize(s: seq<nat>, t: seq<nat>)
    requires multiset(s) == multiset(t)
    ensures |s| == |t|
  {
    assert |multiset(s)| == |s| && |multiset(t)| == |t|;
  }

  lemma SortedLast(s: seq<nat>, x: nat)
    requires Sorted(s) && x in s
    ensures x <= s[|s| - 1]
  {
  }

  lemma WithoutLast(s: seq<nat>)
    requires s != []
    ensures multiset(s[..|s| - 1]) == multiset(s) - multiset{s[|s| - 1]}
    ensures Sorted(s) ==> Sorted(s[..|s| - 1])
  {
    assert s == s[..|s| - 1] + [s[|s| - 1]];
  }

  lemma SameElement(s: seq<nat>, t: seq<nat>, x: nat)
    requires multiset(s) == multiset(t) && x in s
    ensures x in t
  {
    assert x in multiset(s);
  }

  lemma SameLast(t: seq<nat>, u: seq<nat>)
    requires Sorted(t) && Sorted(u) && multiset(t) == multiset(u) && t != [] && |t| == |u|
    ensures t[|t| - 1] == u[|u| - 1]
  {
    var n := |t| - 1;
    SameElement(t, u, t[n]);
    SameElement(u, t, u[n]);
    SortedLast(t, u[n]);
    SortedLast(u, t[n]);
  }

  /** Only one sequence is the sort of another. */
  lemma {:induction false} SortIsUnique(t: seq<nat>, u: seq<nat>)
    requires Sorted(t) && Sorted(u) && multiset(t) == multiset(u)
    ensures t == u
  {
    hide Sorted;
    SameSize(t, u);
    if t != [] {
      var n := |t| - 1;
      SameLast(t, u);
      WithoutLast(t);
      WithoutLast(u);
      SortIsUnique(t[..n], u[..n]);
      assert t == t[..n] + [t[n]] && u == u[..n] + [u[n]];
    }
  }

  /** A sorted sequence with x put in its place. */
  function Inserted(s: seq<nat>, x: nat): (r: seq<nat>)
    ensures |r| == |s| + 1
    ensures r[|s|] == if s == [] || s[|s| - 1] <= x then x else s[|s| - 1]
  {
    if s == [] || s[|s| - 1] <= x then s + [x] else Inserted(s[..|s| - 1], x) + [s[|s| - 1]]
  }

  lemma SortedSnoc(s: seq<nat>, x: nat)
    requires Sorted(s) && (s != [] ==> s[|s| - 1] <= x)
    ensures Sorted(s + [x])
  {
  }

  lemma SortedFront(s: seq<nat>)
    requires s != [] && Sorted(s)
    ensures var n := |s| - 1; Sorted(s[..n]) && (0 < n ==> s[n - 1] <= s[n])
  {
  }

  lemma {:induction false} InsertedKeeps(s: seq<nat>, x: nat)
    ensures multiset(Inserted(s, x)) == multiset(s) + multiset{x}
  {
    if s != [] && x < s[|s| - 1] {
      var n := |s| - 1;
      InsertedKeeps(s[..n], x);
      assert s == s[..n] + [s[n]];
    }
  }

  lemma {:induction false} InsertedSorted(s: seq<nat>, x: nat)
    requires Sorted(s)
    ensures Sorted(Inserted(s, x))
  {
    hide Sorted;
    if s == [] || s[|s| - 1] <= x {
      SortedSnoc(s, x);
    } else {
      var n := |s| - 1;
      SortedFront(s);
      InsertedSorted(s[..n], x);
      SortedSnoc(Inserted(s[..n], x), s[n]);
    }
  }

  /** The elements put in their places one after the other. */
  function SortOf(s: seq<nat>): (t: seq<nat>)
    ensures |t| == |s|
  {
    if s == [] then [] else Inserted(SortOf(s[..|s| - 1]), s[|s| - 1])
  }

  lemma EmptySorted()
    ensures Sorted([])
  {
  }

  lemma {:induction false} SortOfSorts(s: seq<nat>)
    ensures IsSortOf(SortOf(s), s)
  {
    hide Sorted, Inserted;
    if s == [] {
      EmptySorted();
    } else {
      var n := |s| - 1;
      SortOfSorts(s[..n]);
      InsertedSorted(SortOf(s[..n]), s[n]);
      InsertedKeeps(SortOf(s[..n]), s[n]);
      assert s == s[..n] + [s[n]];
    }
  }

  /** Sorts the first n elements; the rest stays. */
  method Sort(a: array<nat>, n: nat)
    requires n <= a.Length
    modifies a
    ensures a[..n] == SortOf(old(a[..n])) && a[n..] == old(a[n..])
  {
    hide Inserted;
    ghost var was := a[..];
    for i := 0 to n
      invariant a[..i] == SortOf(was[..i]) && a[i..] == was[i..]
    {
      assert was[..i + 1][..i] == was[..i] && a[i] == was[i];
      InsertInto(a, i);
    }
    assert was[..n] == old(a[..n]);
  }

  /** Moves element n down to its place among the ones before it. */
  method InsertInto(a: array<nat>, n: nat)
    requires n < a.Length
    modifies a
    ensures a[..n + 1] == Inserted(old(a[..n]), old(a[n])) && a[n + 1..] == old(a[n + 1..])
  {
    hide Inserted;
    ghost var was := a[..];
    var x := a[n];
    var k := n;
    while 0 < k && x < a[k - 1]
      invariant k <= n
      invariant forall j :: 0 <= j <= k || n < j < a.Length ==> a[j] == was[j]
      invariant forall j :: k <= j < n ==> a[j + 1] == was[j]
      invariant forall j :: k <= j < n ==> x < was[j]
    {
      a[k] := a[k - 1];
      k := k - 1;
    }
    a[k] := x;
    ghost var now := a[..];
    Placed(was, now, k, n);
  }

  /** Element n of `was` in its place k, and the ones it has passed one up. */
  lemma Placed(was: seq<nat>, now: seq<nat>, k: nat, n: nat)
    requires k <= n < |was| == |now|
    requires now[k] == was[n] && forall j :: k <= j < n ==> now[j + 1] == was[j]
    requires forall j :: 0 <= j < k || n < j < |was| ==> now[j] == was[j]
    requires (forall j :: k <= j < n ==> was[n] < was[j]) && (0 < k ==> was[k - 1] <= was[n])
    ensures now[..n + 1] == Inserted(was[..n], was[n]) && now[n + 1..] == was[n + 1..]
  {
    hide Inserted;
    var s := was[..n];
    InsertedAt(s, k, was[n]);
    forall j | 0 <= j <= n ensures now[j] == (s[..k] + [was[n]] + s[k..])[j] {
      assert k < j ==> now[(j - 1) + 1] == was[j - 1];
    }
    assert now[..n + 1] == s[..k] + [was[n]] + s[k..];
  }

  lemma {:induction false} InsertedAt(s: seq<nat>, k: nat, x: nat)
    requires k <= |s| && (forall j :: k <= j < |s| ==> x < s[j]) && (0 < k ==> s[k - 1] <= x)
    ensures Inserted(s, x) == s[..k] + [x] + s[k..]
    decreases |s|
  {
    hide Inserted;
    if k == |s| {
      InsertedLast(s, x);
      assert s[..k] == s && s[k..] == [];
    } else {
      var front, last := s[..|s| - 1], s[|s| - 1];
      InsertedAt(front, k, x);
      InsertedBefore(s, x);
      assert front[..k] == s[..k] && front[k..] + [last] == s[k..];
    }
  }

  lemma InsertedLast(s: seq<nat>, x: nat)
    requires s != [] ==> s[|s| - 1] <= x
    ensures Inserted(s, x) == s + [x]
  {
  }

  lemma InsertedBefore(s: seq<nat>, x: nat)
    requires s != [] && x < s[|s| - 1]
    ensures Inserted(s, x) == Inserted(s[..|s| - 1], x) + [s[|s| - 1]]
  {
  }

  // ---- ranks ----

  /** The nearest-rank index of a percentile. */
  function Rank(percent: nat, n: nat): int
  {
    (percent * n + 99) / 100 - 1
  }

  lemma RankInRange(percent: nat, n: nat)
    requires 1 <= percent <= 100 && 1 <= n
    ensures 0 <= Rank(percent, n) < n
    ensures 100 * Rank(percent, n) < percent * n <= 100 * (Rank(percent, n) + 1)
  {
    assert percent * n <= 100 * n;
    assert 1 <= percent * n;
  }

  // ---- counting ----

  ghost function Count(s: seq<nat>, p: nat -> bool): (n: nat)
    ensures n <= |s|
  {
    if s == [] then 0 else Count(s[..|s| - 1], p) + if p(s[|s| - 1]) then 1 else 0
  }

  lemma {:induction false} CountConcat(s: seq<nat>, t: seq<nat>, p: nat -> bool)
    ensures Count(s + t, p) == Count(s, p) + Count(t, p)
    decreases |t|
  {
    if t == [] {
      assert s + t == s;
    } else {
      var n := |t| - 1;
      CountConcat(s, t[..n], p);
      assert (s + t)[..|s + t| - 1] == s + t[..n];
    }
  }

  lemma {:induction false} CountAll(s: seq<nat>, p: nat -> bool)
    ensures Count(s, p) == |s| <==> forall i :: 0 <= i < |s| ==> p(s[i])
  {
    if s != [] {
      var n := |s| - 1;
      CountAll(s[..n], p);
    }
  }

  lemma {:induction false} CountNone(s: seq<nat>, p: nat -> bool)
    ensures Count(s, p) == 0 <==> forall i :: 0 <= i < |s| ==> !p(s[i])
  {
    if s != [] {
      var n := |s| - 1;
      CountNone(s[..n], p);
    }
  }

  /** Counting does not depend on the order. */
  lemma {:induction false} CountPermuted(s: seq<nat>, t: seq<nat>, p: nat -> bool)
    requires multiset(s) == multiset(t)
    ensures Count(s, p) == Count(t, p)
    decreases |s|
  {
    SameSize(s, t);
    if s != [] {
      var n := |s| - 1;
      SameElement(s, t, s[n]);
      var j :| 0 <= j < |t| && t[j] == s[n];
      var a, b := t[..j], t[j + 1..];
      assert t == a + [t[j]] + b && s == s[..n] + [s[n]];
      Moved(s[..n], a, b, s[n]);
      CountPermuted(s[..n], a + b, p);
      CountConcat(a + [t[j]], b, p);
      CountConcat(a, [t[j]], p);
      CountConcat(a, b, p);
    }
  }

  lemma Moved(s: seq<nat>, a: seq<nat>, b: seq<nat>, x: nat)
    requires multiset(s + [x]) == multiset(a + [x] + b)
    ensures multiset(s) == multiset(a + b)
  {
    assert multiset(s + [x]) == multiset(s) + multiset{x};
    assert multiset(a + [x] + b) == multiset(a + b) + multiset{x};
    assert multiset(s) == multiset(s) + multiset{x} - multiset{x};
    assert multiset(a + b) == multiset(a + b) + multiset{x} - multiset{x};
  }

  ghost function CountUpTo(s: seq<nat>, v: nat): nat
  {
    Count(s, x => x <= v)
  }

  ghost function CountBelow(s: seq<nat>, v: nat): nat
  {
    Count(s, x => x < v)
  }

  /** In a sorted sequence, the element at rank r has r + 1 elements up to it, and at most r below it. */
  lemma SortedUpTo(t: seq<nat>, r: nat)
    requires Sorted(t) && r < |t|
    ensures r + 1 <= CountUpTo(t, t[r])
  {
    var v := t[r];
    var upTo: nat -> bool := x => x <= v;
    assert t == t[..r + 1] + t[r + 1..];
    CountConcat(t[..r + 1], t[r + 1..], upTo);
    CountAll(t[..r + 1], upTo);
    assert CountUpTo(t, v) == Count(t, upTo);
  }

  lemma SortedBelow(t: seq<nat>, r: nat)
    requires Sorted(t) && r < |t|
    ensures CountBelow(t, t[r]) <= r
  {
    var v := t[r];
    var below: nat -> bool := x => x < v;
    assert t == t[..r] + t[r..];
    CountConcat(t[..r], t[r..], below);
    CountNone(t[r..], below);
    assert CountBelow(t, v) == Count(t, below);
  }

  // ---- the nearest-rank percentile ----

  /** v is the least sample with at least that percentage of the samples at or below it. */
  ghost predicate IsPercentile(s: seq<nat>, percent: nat, v: nat)
  {
    && v in s
    && percent * |s| <= 100 * CountUpTo(s, v)
    && 100 * CountBelow(s, v) < percent * |s|
  }

  lemma RankIsPercentile(s: seq<nat>, percent: nat)
    requires s != [] && 1 <= percent <= 100
    ensures 0 <= Rank(percent, |s|) < |s|
    ensures IsPercentile(s, percent, SortOf(s)[Rank(percent, |s|)])
  {
    var t, r := SortOf(s), Rank(percent, |s|);
    RankInRange(percent, |s|);
    SortOfSorts(s);
    SortedUpTo(t, r);
    SortedBelow(t, r);
    SameElement(t, s, t[r]);
    CountsPermuted(s, t, t[r]);
  }

  lemma CountsPermuted(s: seq<nat>, t: seq<nat>, v: nat)
    requires multiset(s) == multiset(t)
    ensures CountUpTo(s, v) == CountUpTo(t, v) && CountBelow(s, v) == CountBelow(t, v)
  {
    var upTo, below: nat -> bool := x => x <= v, x => x < v;
    CountPermuted(s, t, upTo);
    CountPermuted(s, t, below);
    assert CountUpTo(s, v) == Count(s, upTo) && CountUpTo(t, v) == Count(t, upTo);
    assert CountBelow(s, v) == Count(s, below) && CountBelow(t, v) == Count(t, below);
  }

  lemma {:induction false} CountLess(s: seq<nat>, p: nat -> bool, q: nat -> bool)
    requires forall x :: p(x) ==> q(x)
    ensures Count(s, p) <= Count(s, q)
  {
    if s != [] {
      CountLess(s[..|s| - 1], p, q);
    }
  }

  lemma UpToBelow(s: seq<nat>, v: nat, w: nat)
    requires v < w
    ensures CountUpTo(s, v) <= CountBelow(s, w)
  {
    var upTo, below: nat -> bool := x => x <= v, x => x < w;
    CountLess(s, upTo, below);
    assert CountUpTo(s, v) == Count(s, upTo) && CountBelow(s, w) == Count(s, below);
  }

  lemma MoreOfMore(p: nat, q: nat, n: nat)
    requires p <= q
    ensures p * n <= q * n
  {
  }

  /** A greater percentage has no lesser percentile; equal ones are unique. */
  lemma PercentileMonotone(s: seq<nat>, p: nat, q: nat, v: nat, w: nat)
    requires IsPercentile(s, p, v) && IsPercentile(s, q, w) && p <= q
    ensures v <= w
  {
    hide CountUpTo, CountBelow;
    MoreOfMore(p, q, |s|);
    if w < v {
      UpToBelow(s, w, v);
    }
  }

  lemma PercentilePermuted(s: seq<nat>, t: seq<nat>, percent: nat, v: nat)
    requires IsPercentile(s, percent, v) && multiset(s) == multiset(t)
    ensures IsPercentile(t, percent, v)
  {
    SameSize(s, t);
    SameElement(s, t, v);
    CountsPermuted(s, t, v);
  }

  method Percentile(v: seq<nat>, percent: nat) returns (r: nat)
    requires 1 <= percent <= 100
    ensures if v == [] then r == 0 else IsPercentile(v, percent, r)
  {
    if v == [] {
      return 0;
    }
    hide IsPercentile, SortOf;
    var a := new nat[|v|](i requires 0 <= i < |v| => v[i]);
    assert a[..|v|] == v;
    Sort(a, |v|);
    RankIs(percent, v);
    ghost var t := a[..|v|];
    r := a[(percent * |v| + 99) / 100 - 1];
    assert r == t[(percent * |v| + 99) / 100 - 1];
  }

  // ---- all the statistics ----

  function Bin(sample: nat): nat
  {
    if sample / BIN_WIDTH < HISTOGRAM_BINS then sample / BIN_WIDTH else HISTOGRAM_BINS - 1
  }

  /** Bins are two cycles wide, and the last of the 32 takes all samples from 62 on. */
  predicate Falls(sample: nat, k: nat)
  {
    2 * k <= sample && (sample < 2 * k + 2 || k == 31)
  }

  ghost function InBin(s: seq<nat>, k: nat): nat
  {
    Count(s, (x: nat) => Falls(x, k))
  }

  ghost predicate IsHistogram(s: seq<nat>, histogram: seq<nat>)
  {
    |histogram| == HISTOGRAM_BINS && forall k :: 0 <= k < HISTOGRAM_BINS ==> histogram[k] == InBin(s, k)
  }

  function NoBins(): (h: seq<nat>)
    ensures |h| == HISTOGRAM_BINS && forall k :: 0 <= k < HISTOGRAM_BINS ==> h[k] == 0
  {
    seq(HISTOGRAM_BINS, _ => 0)
  }

  function NoStats(): LatencyStats
  {
    LatencyStats(0, 0, 0, 0, 0, NoBins())
  }

  /** The statistics of some samples. */
  ghost predicate IsStats(s: seq<nat>, stats: LatencyStats)
  {
    if s == [] then stats == NoStats()
    else
      && stats.count == |s|
      && stats.min in s && (forall x :: x in s ==> stats.min <= x)
      && stats.max in s && (forall x :: x in s ==> x <= stats.max)
      && IsPercentile(s, 50, stats.median) && IsPercentile(s, 99, stats.p99)
      && IsHistogram(s, stats.histogram)
  }

  lemma StatsOrdered(s: seq<nat>, stats: LatencyStats)
    requires s != [] && IsStats(s, stats)
    ensures stats.min <= stats.median <= stats.p99 <= stats.max
  {
    PercentileMonotone(s, 50, 99, stats.median, stats.p99);
  }

  lemma InBinPermuted(s: seq<nat>, t: seq<nat>, k: nat)
    requires multiset(s) == multiset(t)
    ensures InBin(s, k) == InBin(t, k)
  {
    var p: nat -> bool := (x: nat) => Falls(x, k);
    CountPermuted(s, t, p);
    assert InBin(s, k) == Count(s, p) && InBin(t, k) == Count(t, p);
  }

  /** The statistics are unique, whatever the order of the samples. */
  lemma StatsPermuted(s: seq<nat>, t: seq<nat>, a: LatencyStats, b: LatencyStats)
    requires IsStats(s, a) && IsStats(t, b) && multiset(s) == multiset(t)
    ensures a == b
  {
    SameSize(s, t);
    if s != [] {
      forall x ensures x in s <==> x in t {
        if x in s { SameElement(s, t, x); }
        if x in t { SameElement(t, s, x); }
      }
      assert a.min == b.min && a.max == b.max;
      PercentilePermuted(s, t, 50, a.median);
      PercentilePermuted(s, t, 99, a.p99);
      PercentileMonotone(t, 50, 50, a.median, b.median);
      PercentileMonotone(t, 50, 50, b.median, a.median);
      PercentileMonotone(t, 99, 99, a.p99, b.p99);
      PercentileMonotone(t, 99, 99, b.p99, a.p99);
      forall k | 0 <= k < HISTOGRAM_BINS ensures a.histogram[k] == b.histogram[k] {
        InBinPermuted(s, t, k);
      }
      assert a.histogram == b.histogram;
    }
  }

  function Sum(s: seq<nat>): nat
  {
    if s == [] then 0 else Sum(s[..|s| - 1]) + s[|s| - 1]
  }

  lemma {:induction false} SumBump(s: seq<nat>, k: nat)
    requires k < |s|
    ensures Sum(s[k := s[k] + 1]) == Sum(s) + 1
  {
    var n := |s| - 1;
    if k < n {
      SumBump(s[..n], k);
      assert s[k := s[k] + 1][..n] == s[..n][k := s[k] + 1];
    } else {
      assert s[k := s[k] + 1][..n] == s[..n];
    }
  }

  lemma {:induction false} SumZero(s: seq<nat>)
    requires forall i :: 0 <= i < |s| ==> s[i] == 0
    ensures Sum(s) == 0
  {
    if s != [] {
      SumZero(s[..|s| - 1]);
    }
  }

  /** One more sample bumps its own bin only. */
  lemma HistogramSnoc(s: seq<nat>, x: nat, histogram: seq<nat>)
    requires IsHistogram(s, histogram)
    ensures Bin(x) < HISTOGRAM_BINS
    ensures IsHistogram(s + [x], histogram[Bin(x) := histogram[Bin(x)] + 1])
  {
    assert (s + [x])[..|s|] == s;
  }

  /** Every sample is in one bin. */
  lemma {:induction false} HistogramSums(s: seq<nat>, histogram: seq<nat>)
    requires IsHistogram(s, histogram)
    ensures Sum(histogram) == |s|
  {
    if s == [] {
      SumZero(histogram);
    } else {
      var n := |s| - 1;
      var before := seq(HISTOGRAM_BINS, k requires 0 <= k < HISTOGRAM_BINS => InBin(s[..n], k));
      assert s == s[..n] + [s[n]];
      HistogramSnoc(s[..n], s[n], before);
      HistogramSums(s[..n], before);
      SumBump(before, Bin(s[n]));
      assert histogram == before[Bin(s[n]) := before[Bin(s[n])] + 1];
    }
  }

  method FillHistogram(samples: array<nat>, n: nat) returns (histogram: seq<nat>)
    requires n <= samples.Length
    ensures IsHistogram(samples[..n], histogram)
  {
    ghost var s := samples[..n];
    histogram := NoBins();
    NoneInBins();
    for i := 0 to n
      invariant IsHistogram(s[..i], histogram)
    {
      var bin := samples[i] / BIN_WIDTH;
      if bin >= HISTOGRAM_BINS {
        bin := HISTOGRAM_BINS - 1;
      }
      HistogramSnoc(s[..i], s[i], histogram);
      assert s[..i + 1] == s[..i] + [s[i]];
      histogram := histogram[bin := histogram[bin] + 1];
    }
    assert s[..n] == s;
  }

  /** The statistics of n samples; `scratch` is overwritten. */
  method ComputeWith(samples: array<nat>, n: nat, scratch: array<nat>) returns (stats: LatencyStats)
    requires n <= samples.Length && n <= scratch.Length && samples != scratch
    modifies scratch
    ensures IsStats(samples[..n], stats)
  {
    hide IsPercentile, SortOf, IsHistogram, Rank;
    if n == 0 {
      return NoStats();
    }
    ghost var s := samples[..n];
    for i := 0 to n
      invariant scratch[..i] == s[..i]
    {
      scratch[i] := samples[i];
    }
    assert scratch[..n] == s;
    Sort(scratch, n);
    SortEnds(s);
    RankIs(50, s);
    RankIs(99, s);
    ghost var t := SortOf(s);
    var minimum, maximum := scratch[0], scratch[n - 1];
    var median, p99 := scratch[(50 * n + 99) / 100 - 1], scratch[(99 * n + 99) / 100 - 1];
    assert minimum == t[0] && maximum == t[n - 1];
    assert median == t[(50 * n + 99) / 100 - 1] && p99 == t[(99 * n + 99) / 100 - 1];
    var histogram := FillHistogram(samples, n);
    stats := LatencyStats(n, minimum, median, p99, maximum, histogram);
  }

  lemma RankIs(percent: nat, s: seq<nat>)
    requires s != [] && 1 <= percent <= 100
    ensures 0 <= (percent * |s| + 99) / 100 - 1 < |s|
    ensures IsPercentile(s, percent, SortOf(s)[(percent * |s| + 99) / 100 - 1])
  {
    hide IsPercentile, SortOf;
    RankIsPercentile(s, percent);
  }

  lemma NoneInBins()
    ensures IsHistogram([], NoBins())
  {
  }

  /** The ends of the sort are the least and the greatest sample. */
  lemma SortEnds(s: seq<nat>)
    requires s != []
    ensures var t := SortOf(s);
      && t[0] in s && t[|s| - 1] in s && forall x :: x in s ==> t[0] <= x <= t[|s| - 1]
  {
    hide SortOf, Inserted;
    var t := SortOf(s);
    SortOfSorts(s);
    SameElement(t, s, t[0]);
    SameElement(t, s, t[|s| - 1]);
    forall x | x in s ensures t[0] <= x <= t[|s| - 1] {
      SameElement(s, t, x);
      SortedBetween(t, x);
    }
  }

  lemma SortedBetween(t: seq<nat>, x: nat)
    requires Sorted(t) && x in t
    ensures t[0] <= x <= t[|t| - 1]
  {
  }
}
