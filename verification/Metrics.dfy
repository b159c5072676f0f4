/** The in-memory metrics collector: counters, and a sliding window of the latest durations. */
module Metrics {
  // ----- Specification: int64 arithmetic and the window -----

  const TWO63: int := 0x8000_0000_0000_0000
  const TWO64: int := 0x1_0000_0000_0000_0000

  /** How many durations the collector keeps. */
  const MAX_DURATIONS: nat := 1000

  /** The int64 that a Go addition leaves for the mathematical result x. */
  function Wrap64(x: int): (r: int)
    ensures -TWO63 <= r < TWO63
    ensures exists n :: r == x - n * TWO64
  {
    var r := (x + TWO63) % TWO64 - TWO63;
    assert r == x - ((x + TWO63) / TWO64) * TWO64;
    r
  }

  /** Go's division truncates toward zero. */
  function TruncDiv(a: int, b: int): (q: int)
    requires b > 0
    ensures a >= 0 ==> q * b <= a < q * b + b
    ensures a <= 0 ==> q * b - b < a <= q * b
  {
    var q := if a >= 0 then a / b else -((-a) / b);
    TruncStep(a, b);
    q
  }

  lemma TruncStep(a: int, b: int)
    requires b > 0
    ensures a >= 0 ==> a / b * b <= a < a / b * b + b
    ensures a < 0 ==> -((-a) / b) * b - b < a <= -((-a) / b) * b
  {
    var q := (-a) / b;
    assert -q * b == -(q * b);
  }

  function Sum(w: seq<int>): int {
    if w == [] then 0 else Sum(w[..|w| - 1]) + w[|w| - 1]
  }

  /** The average as the collector reports it. */
  function Reported(w: seq<int>): (avg: int)
    ensures w == [] ==> avg == 0
  {
    if w == [] then 0 else TruncDiv(Wrap64(Sum(w)), |w|)
  }

  function Latest(s: seq<int>, n: nat): seq<int> {
    if |s| <= n then s else s[|s| - n..]
  }

  /** The window after recording ds one by one, starting from nothing. */
  function RecordAll(ds: seq<int>, n: nat): seq<int> {
    if ds == [] then [] else Latest(RecordAll(ds[..|ds| - 1], n) + [ds[|ds| - 1]], n)
  }

  lemma {:induction false} RecordAllIsLatest(ds: seq<int>, n: nat)
    ensures RecordAll(ds, n) == Latest(ds, n)
  {
    if ds != [] {
      var init, d := ds[..|ds| - 1], ds[|ds| - 1];
      RecordAllIsLatest(init, n);
      assert ds == init + [d];
    }
  }

  /** After recording ds, one by one, the window has as many of them as it may, and they are the last ones,
      in their order. */
  lemma {:induction false} WindowIsLatest(ds: seq<int>, n: nat)
    ensures |RecordAll(ds, n)| == if |ds| < n then |ds| else n
    ensures forall i :: 0 <= i < |RecordAll(ds, n)| ==> RecordAll(ds, n)[i] == ds[|ds| - |RecordAll(ds, n)| + i]
  {
    hide RecordAll;
    RecordAllIsLatest(ds, n);
  }

  /** The sum is the one of the elements, whatever way they are split. */
  lemma {:induction false} SumConcat(a: seq<int>, b: seq<int>)
    ensures Sum(a + b) == Sum(a) + Sum(b)
    ensures |b| == 1 ==> Sum(b) == b[0]
  {
    if b == [] {
      assert a + b == a;
    } else {
      var n := |b| - 1;
      assert (a + b)[..|a + b| - 1] == a + b[..n];
      SumConcat(a, b[..n]);
    }
  }

  lemma WrapUnique(x: int, y: int)
    requires -TWO63 <= y < TWO63
    requires exists n :: y == x - n * TWO64
    ensures Wrap64(x) == y
  {
    var n :| y == x - n * TWO64;
    var m :| Wrap64(x) == x - m * TWO64;
    assert Wrap64(x) - y == (n - m) * TWO64;
  }

  /** Wrapping after every addition gives the wrapped sum. */
  lemma WrapStep(total: int, d: int)
    ensures Wrap64(Wrap64(total) + d) == Wrap64(total + d)
  {
    var n :| Wrap64(total) == total - n * TWO64;
    var m :| Wrap64(Wrap64(total) + d) == Wrap64(total) + d - m * TWO64;
    assert Wrap64(Wrap64(total) + d) == total + d - (n + m) * TWO64;
    WrapUnique(total + d, Wrap64(Wrap64(total) + d));
  }

  lemma Distribute(x: int, n: int)
    ensures x * (n + 1) == x * n + x
  {
  }

  lemma {:induction false} SumBounds(w: seq<int>, lo: int, hi: int)
    requires forall d :: d in w ==> lo <= d <= hi
    ensures lo * |w| <= Sum(w) <= hi * |w|
  {
    if w != [] {
      var init := w[..|w| - 1];
      assert forall d :: d in init ==> d in w;
      SumBounds(init, lo, hi);
      assert w[|w| - 1] in w;
      Distribute(lo, |init|);
      Distribute(hi, |init|);
    }
  }

  /** The reported average is the mean of the window, truncated as Go does, exactly as long as the total
      fits an int64; durations may be negative. */
  lemma AverageExactIffTotalFits(w: seq<int>)
    requires 0 < |w| <= MAX_DURATIONS
    ensures Reported(w) == TruncDiv(Sum(w), |w|) <==> -TWO63 <= Sum(w) < TWO63
  {
    var total, wrapped := Sum(w), Wrap64(Sum(w));
    if -TWO63 <= total < TWO63 {
      assert total == total - 0 * TWO64;
      WrapUnique(total, total);
    } else {
      var n :| wrapped == total - n * TWO64;
      assert wrapped + TWO64 <= total || total + TWO64 <= wrapped;
      TruncGap(wrapped, total, |w|);
    }
  }

  /** Dividing by at most MAX_DURATIONS does not hide a difference of 2^64. */
  lemma TruncGap(a: int, b: int, n: nat)
    requires 0 < n <= MAX_DURATIONS && (a + TWO64 <= b || b + TWO64 <= a)
    ensures TruncDiv(a, n) != TruncDiv(b, n)
  {
    TruncBounds(a, n);
    TruncBounds(b, n);
  }

  lemma TruncBounds(a: int, n: int)
    requires n > 0
    ensures a - n < TruncDiv(a, n) * n < a + n
  {
    var q := if a >= 0 then a / n else (-a) / n;
    assert q * n == n * q;
    assert -q * n == -(q * n);
  }

  lemma AverageOfNonNegative(w: seq<int>)
    requires 0 < |w| <= MAX_DURATIONS
    requires forall d :: d in w ==> 0 <= d
    ensures Reported(w) == Sum(w) / |w| <==> Sum(w) < TWO63
  {
    SumNonNegative(w);
    AverageExactIffTotalFits(w);
  }

  lemma Cancel(a: int, b: int, n: int)
    requires n > 0 && a * n < b * n
    ensures a < b
  {
  }

  lemma {:induction false} SumNonNegative(w: seq<int>)
    requires forall d :: d in w ==> 0 <= d
    ensures Sum(w) >= 0
  {
    if w != [] {
      var init := w[..|w| - 1];
      assert forall d :: d in init ==> d in w;
      SumNonNegative(init);
      assert w[|w| - 1] in w;
    }
  }

  /** Durations up to (2^63 - 1) / 1000 never overflow, and the average lies within the window. */
  lemma AverageWithinWindow(w: seq<int>, lo: int, hi: int)
    requires 0 < |w| <= MAX_DURATIONS
    requires 0 <= lo && hi <= (TWO63 - 1) / MAX_DURATIONS
    requires forall d :: d in w ==> lo <= d <= hi
    ensures lo <= Reported(w) <= hi
    ensures Reported(w) == Sum(w) / |w|
  {
    SumBounds(w, lo, hi);
    assert w[0] in w;
    TotalFits(hi, |w|);
    AverageOfNonNegative(w);
    DivBounds(Sum(w), |w|, lo, hi);
  }

  lemma TotalFits(hi: int, n: nat)
    requires 0 <= hi <= (TWO63 - 1) / MAX_DURATIONS && n <= MAX_DURATIONS
    ensures hi * n < TWO63
  {
    assert hi * n <= hi * MAX_DURATIONS;
  }

  lemma DivBounds(total: int, n: int, lo: int, hi: int)
    requires n > 0 && lo * n <= total <= hi * n
    ensures lo <= total / n <= hi
  {
    var q := total / n;
    assert q * n <= total && total < q * n + n && q * n + n == (q + 1) * n;
    Cancel(lo, q + 1, n);
    assert hi * n + n == (hi + 1) * n;
    Cancel(q, hi + 1, n);
  }

  /** Two durations of 2^62 are enough to report a negative average. */
  lemma OverflowWitness()
    ensures Reported([0x4000_0000_0000_0000, 0x4000_0000_0000_0000]) < 0
  {
    var d := 0x4000_0000_0000_0000;
    var w := [d, d];
    assert w[..1] == [d];
    assert Sum([d]) == Sum([d][..0]) + d;
    assert Sum(w) == Sum(w[..1]) + d;
    assert -TWO63 == 2 * d - 1 * TWO64;
    WrapUnique(2 * d, -TWO63);
  }

  // ----- The collector -----

  /** A Go slice of durations: the first len cells of a backing array. */
  class Durations {
    var buf: array<int>
    var len: nat

    ghost predicate Valid()
      reads this
    {
      len <= buf.Length
    }

    ghost function Contents(): seq<int>
      requires Valid()
      reads this, buf
    {
      buf[..len]
    }

    constructor (capacity: nat)
      ensures Valid() && fresh(buf) && Contents() == []
    {
      buf := new int[capacity];
      len := 0;
    }

    /** append: in place while there is capacity, else into a larger array. */
    method Append(d: int)
      requires Valid()
      modifies this, buf
      ensures Valid() && Contents() == old(Contents()) + [d]
      ensures buf == old(buf) || fresh(buf)
    {
      if len == buf.Length {
        var grown := new int[2 * len + 1];
        for i := 0 to len
          invariant len == old(len) == buf.Length && buf == old(buf) && buf[..] == old(buf[..])
          invariant grown[..i] == buf[..i]
        {
          grown[i] := buf[i];
        }
        buf := grown;
      }
      buf[len] := d;
      len := len + 1;
    }

    /** recordDuration's shift: the copy moves the newest entries down within the same array. */
    method KeepLast(max: nat)
      requires Valid()
      modifies this, buf
      ensures Valid() && Contents() == Latest(old(Contents()), max) && buf == old(buf)
    {
      if len > max {
        ghost var all := Contents();
        ghost var cells := buf;
        var off := len - max;
        for i := 0 to max
          invariant buf == cells && Valid() && off + max == len && |all| == len
          invariant forall j :: 0 <= j < i ==> buf[j] == all[off + j]
          invariant forall j :: i <= j < len ==> buf[j] == all[j]
        {
          buf[i] := buf[off + i];
        }
        len := max;
      }
    }

    /** recordDuration: the window ends in d, and before that has the last of what it had. */
    method Record(d: int, max: nat)
      requires Valid()
      modifies this, buf
      ensures Valid() && Contents() == Latest(old(Contents()) + [d], max)
      ensures |Contents()| == if old(len) < max then old(len) + 1 else max
      ensures max > 0 ==> Contents()[|Contents()| - 1] == d
      ensures forall i :: 0 <= i < |Contents()| - 1 ==>
                Contents()[i] == old(Contents())[old(len) + 1 - |Contents()| + i]
      ensures buf == old(buf) || fresh(buf)
    {
      Append(d);
      KeepLast(max);
    }

    /** getAverageDuration, on int64. */
    method Average() returns (avg: int)
      requires Valid()
      ensures avg == Reported(Contents())
    {
      if len == 0 { return 0; }
      var total := 0;
      for i := 0 to len
        invariant total == Wrap64(Sum(buf[..i]))
      {
        WrapStep(Sum(buf[..i]), buf[i]);
        assert buf[..i + 1][..i] == buf[..i];
        total := Wrap64(total + buf[i]);
      }
      return TruncDiv(total, len);
    }
  }

  /** An atomic counter; the eviction callback captures the collector's. */
  class Counter {
    var count: int

    constructor ()
      ensures count == 0
    {
      count := 0;
    }

    method Add()
      modifies this
      ensures count == old(count) + 1
    {
      count := count + 1;
    }
  }

  /** DefaultMetricsCollector, the part that a cached store writes to. */
  class Collector {
    var cacheHits: nat
    var cacheMisses: nat
    const cacheEvictions: Counter
    var storageOperations: nat
    var storageSuccesses: nat
    const storageDurations: Durations
    const maxDurationsStored: nat := MAX_DURATIONS

    ghost var Repr: set<object>

    ghost predicate Valid()
      reads this, Repr
    {
      && this in Repr && cacheEvictions in Repr && storageDurations in Repr && storageDurations.buf in Repr
      && storageDurations.Valid()
    }

    constructor ()
      ensures cacheHits == cacheMisses == storageOperations == storageSuccesses == 0
      ensures fresh(cacheEvictions) && cacheEvictions.count == 0
      ensures fresh(Repr) && Valid() && storageDurations.Contents() == []
    {
      cacheHits, cacheMisses := 0, 0;
      cacheEvictions := new Counter();
      storageOperations, storageSuccesses := 0, 0;
      storageDurations := new Durations(MAX_DURATIONS);
      new;
      Repr := {this, cacheEvictions, storageDurations, storageDurations.buf};
    }

    method RecordCacheHit()
      requires Valid()
      modifies this`cacheHits
      ensures Valid() && cacheHits == old(cacheHits) + 1
    {
      cacheHits := cacheHits + 1;
    }

    method RecordCacheMiss()
      requires Valid()
      modifies this`cacheMisses
      ensures Valid() && cacheMisses == old(cacheMisses) + 1
    {
      cacheMisses := cacheMisses + 1;
    }

    method RecordStorageOperation(success: bool, duration: int)
      requires Valid()
      modifies this`storageOperations, this`storageSuccesses, this`Repr, storageDurations, storageDurations.buf
      ensures Valid() && fresh(Repr - old(Repr))
      ensures storageOperations == old(storageOperations) + 1
      ensures storageSuccesses == old(storageSuccesses) + if success then 1 else 0
      ensures storageDurations.Contents() == Latest(old(storageDurations.Contents()) + [duration], maxDurationsStored)
    {
      storageOperations := storageOperations + 1;
      if success {
        storageSuccesses := storageSuccesses + 1;
      }
      storageDurations.Record(duration, maxDurationsStored);
      Repr := Repr + {storageDurations.buf};
    }
  }
}
