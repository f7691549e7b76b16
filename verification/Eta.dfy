/** The estimated wait: the loops of CalculateETA and what the answer means. */
module Eta {
  import opened Lists
  import opened RedisModel
  import opened Interleavings

  const MIN_SAMPLES := 5

  ghost predicate Sorted(s: seq<int>) {
    forall i, j :: 0 <= i < j < |s| ==> s[i] <= s[j]
  }

  /** `t` holds the values of `s` in ascending order. */
  ghost predicate SortOf(s: seq<int>, t: seq<int>) {
    Sorted(t) && multiset(t) == multiset(s)
  }

  /** The place of `x` in ascending order, by value. */
  function Insert(t: seq<int>, x: int): seq<int> {
    if t == [] || x <= t[0] then [x] + t else [t[0]] + Insert(t[1..], x)
  }

  lemma {:induction false} InsertKeepsBound(t: seq<int>, x: int, low: int)
    requires low <= x && forall i :: 0 <= i < |t| ==> low <= t[i]
    ensures forall i :: 0 <= i < |Insert(t, x)| ==> low <= Insert(t, x)[i]
  {
    if t != [] && x > t[0] {
      InsertKeepsBound(t[1..], x, low);
    }
  }

  lemma {:induction false} InsertSorts(t: seq<int>, x: int)
    requires Sorted(t)
    ensures Sorted(Insert(t, x))
  {
    if t != [] && x > t[0] {
      InsertSorts(t[1..], x);
      InsertKeepsBound(t[1..], x, t[0]);
    }
  }

  lemma {:induction false} InsertAdds(t: seq<int>, x: int)
    ensures multiset(Insert(t, x)) == multiset(t) + multiset{x}
  {
    if t != [] && x > t[0] {
      InsertAdds(t[1..], x);
      assert t == [t[0]] + t[1..];
    }
  }

  /** What the sort of the collected timestamps does. */
  method SortTimestamps(history: seq<int>) returns (timestamps: seq<int>)
    ensures SortOf(history, timestamps)
  {
    timestamps := [];
    var i := 0;
    while i < |history|
      invariant 0 <= i <= |history|
      invariant Sorted(timestamps) && multiset(timestamps) == multiset(history[..i])
    {
      assert history[..i + 1] == history[..i] + [history[i]];
      InsertSorts(timestamps, history[i]);
      InsertAdds(timestamps, history[i]);
      timestamps := Insert(timestamps, history[i]);
      i := i + 1;
    }
    assert history[..i] == history;
  }

  ghost predicate IsLeast(m: int, s: seq<int>) { m in s && forall x :: x in s ==> m <= x }

  ghost predicate IsGreatest(m: int, s: seq<int>) { m in s && forall x :: x in s ==> x <= m }

  lemma SortedEnds(s: seq<int>, t: seq<int>)
    requires SortOf(s, t) && |t| > 0
    ensures IsLeast(t[0], s) && IsGreatest(t[|t| - 1], s) && |t| == |s|
  {
    assert |multiset(t)| == |t| && |multiset(s)| == |s|;
    assert t[0] in multiset(t) && t[|t| - 1] in multiset(t);
    forall x | x in s ensures t[0] <= x <= t[|t| - 1] {
      assert x in multiset(s);
      assert x in multiset(t);
      var k :| 0 <= k < |t| && t[k] == x;
    }
  }

  /** The average gap of `n` stamps from `first` to `last`, rounded down. */
  function Rate(first: int, last: int, n: nat): int
    requires n > 1
  {
    (last - first) / (n - 1)
  }

  /**
    The estimate: -1 on fewer than five samples, otherwise the average gap between
    the oldest and the newest admission, rounded down, for every place ahead.
   */
  ghost predicate IsEta(history: seq<int>, position: int, eta: int) {
    if |history| < 5 then eta == -1 else
      exists first, last :: IsLeast(first, history) && IsGreatest(last, history)
        && eta == Rate(first, last, |history|) * (position - 1)
  }

  /** The sum of the gaps telescopes. */
  method CalculateETA(history: seq<int>, position: int) returns (eta: int)
    ensures IsEta(history, position, eta)
  {
    if |history| < MIN_SAMPLES {
      return -1;
    }
    var timestamps := SortTimestamps(history);
    assert |multiset(timestamps)| == |multiset(history)|;
    var total := 0;
    var i := 1;
    while i < |timestamps|
      invariant 1 <= i <= |timestamps|
      invariant total == timestamps[i - 1] - timestamps[0]
    {
      total := total + (timestamps[i] - timestamps[i - 1]);
      i := i + 1;
    }
    SortedEnds(history, timestamps);
    var avg := total / (|timestamps| - 1);
    eta := if avg == 0 then 0 else avg * (position - 1);
    assert eta == Rate(timestamps[0], timestamps[|timestamps| - 1], |history|) * (position - 1);
  }

  /** The estimate depends only on which stamps the history holds, not on their order. */
  lemma EtaIgnoresOrder(h: seq<int>, k: seq<int>, position: int, a: int, b: int)
    requires multiset(h) == multiset(k)
    requires IsEta(h, position, a) && IsEta(k, position, b)
    ensures a == b
  {
    assert |multiset(h)| == |h| && |multiset(k)| == |k|;
    if |h| >= MIN_SAMPLES {
      var f1, l1 :| IsLeast(f1, h) && IsGreatest(l1, h) && a == Rate(f1, l1, |h|) * (position - 1);
      var f2, l2 :| IsLeast(f2, k) && IsGreatest(l2, k) && b == Rate(f2, l2, |k|) * (position - 1);
      assert forall x :: x in h <==> x in multiset(h);
      assert forall x :: x in k <==> x in multiset(k);
    }
  }

  lemma ExtremesAreUnique(h: seq<int>, f1: int, l1: int, f2: int, l2: int)
    requires IsLeast(f1, h) && IsLeast(f2, h) && IsGreatest(l1, h) && IsGreatest(l2, h)
    ensures f1 == f2 && l1 == l2 && f1 <= l1
  {}

  /** All estimates from one history share one rate per place. */
  lemma EtaRate(h: seq<int>, p: int, q: int, a: int, b: int) returns (rate: int)
    requires |h| >= MIN_SAMPLES && IsEta(h, p, a) && IsEta(h, q, b)
    ensures rate >= 0 && a == rate * (p - 1) && b == rate * (q - 1)
  {
    var f1, l1 :| IsLeast(f1, h) && IsGreatest(l1, h) && a == Rate(f1, l1, |h|) * (p - 1);
    var f2, l2 :| IsLeast(f2, h) && IsGreatest(l2, h) && b == Rate(f2, l2, |h|) * (q - 1);
    ExtremesAreUnique(h, f1, l1, f2, l2);
    rate := Rate(f1, l1, |h|);
  }

  /** With enough samples: zero at the head of the line, never less for a later place. */
  lemma EtaGrowsWithPosition(h: seq<int>, p: int, q: int, a: int, b: int)
    requires |h| >= MIN_SAMPLES && p <= q && IsEta(h, p, a) && IsEta(h, q, b)
    ensures p == 1 ==> a == 0
    ensures a <= b
  {
    var rate := EtaRate(h, p, q, a, b);
    MulMonotone(rate, p - 1, q - 1);
  }

  lemma MulMonotone(c: int, x: int, y: int)
    requires 0 <= c && x <= y
    ensures c * x <= c * y
  {}

  /**
    Rounding down costs less than one second for every place ahead:
    the estimate lies within `position - 1` below the exact average times the places ahead.
   */
  lemma EtaNearAverage(h: seq<int>, position: int, eta: int, first: int, last: int)
    requires |h| >= MIN_SAMPLES && position >= 1 && IsEta(h, position, eta)
    requires IsLeast(first, h) && IsGreatest(last, h)
    ensures eta * (|h| - 1) <= (last - first) * (position - 1)
    ensures position > 1 ==> (last - first) * (position - 1) < (eta + position - 1) * (|h| - 1)
  {
    var gaps, span, ahead := |h| - 1, last - first, position - 1;
    var avg := span / gaps;
    assert eta == avg * ahead;
    assert avg * gaps <= span < (avg + 1) * gaps;
    MulMonotone(ahead, avg * gaps, span);
    assert ahead * (avg * gaps) == eta * gaps;
    if ahead > 0 {
      StrictMul(ahead, span, (avg + 1) * gaps);
      assert ahead * ((avg + 1) * gaps) == (eta + ahead) * gaps;
    }
  }

  lemma StrictMul(c: int, x: int, y: int)
    requires 0 < c && x < y
    ensures c * x < c * y
  {}

  lemma EtaIsNonNegative(h: seq<int>, position: int, eta: int)
    requires |h| >= MIN_SAMPLES && position >= 1 && IsEta(h, position, eta)
    ensures eta >= 0
  {}

  /** In every schedule, an estimate is missing exactly until five admissions have been recorded. */
  lemma EtaAppearsAfterFive(clock: int, capacity: Option<int>, cmds: seq<Command>, position: int, eta: int)
    requires position >= 1
    requires IsEta(Run(Empty(clock, capacity), cmds).history, position, eta)
    ensures eta == -1 <==> |AdmissionLog(Empty(clock, capacity), cmds)| < 5
  {
    HistoryIsNewest(clock, capacity, cmds);
    var h := Run(Empty(clock, capacity), cmds).history;
    if |h| >= MIN_SAMPLES {
      EtaIsNonNegative(h, position, eta);
    }
  }
}
