/** Facts about finite sequences that several parts of the model share. */
module Lists {

  datatype Option<+T> = None | Some(value: T)

  function Min(a: int, b: int): int { if a <= b then a else b }

  function Max(a: int, b: int): int { if a >= b then a else b }

  /** The distinct elements of a sequence. */
  function Elems<T>(s: seq<T>): set<T> { set x | x in s }

  ghost predicate NoDup<T(!new)>(s: seq<T>) {
    forall i, j :: 0 <= i < j < |s| ==> s[i] != s[j]
  }

  /** The entries of `s` that lie in `keep`, in their old order. */
  function Keep<T(==)>(s: seq<T>, keep: set<T>): seq<T> {
    if s == [] then [] else if s[0] in keep then [s[0]] + Keep(s[1..], keep) else Keep(s[1..], keep)
  }

  /** LREM with count 1: drop the first occurrence, if there is one. */
  function RemoveFirst<T(==)>(s: seq<T>, x: T): seq<T> {
    if s == [] then [] else if s[0] == x then s[1..] else [s[0]] + RemoveFirst(s[1..], x)
  }

  /** The index of the first occurrence of `x`, or `|s|` when there is none. */
  function FirstIndex<T(==)>(s: seq<T>, x: T): (i: nat)
    ensures i <= |s|
    ensures i < |s| ==> s[i] == x
    ensures x !in s[..i]
    ensures i == |s| <==> x !in s
  {
    if s == [] then 0 else if s[0] == x then 0 else
      var i := 1 + FirstIndex(s[1..], x);
      assert s[..i] == [s[0]] + s[1..][..i - 1];
      i
  }

  /** The number of occurrences of `x`. */
  function Count<T(==)>(s: seq<T>, x: T): nat {
    if s == [] then 0 else (if s[0] == x then 1 else 0) + Count(s[1..], x)
  }

  lemma {:induction false} KeepConcat<T>(a: seq<T>, b: seq<T>, keep: set<T>)
    ensures Keep(a + b, keep) == Keep(a, keep) + Keep(b, keep)
  {
    if a == [] {
      assert a + b == b;
    } else {
      assert (a + b)[0] == a[0] && (a + b)[1..] == a[1..] + b;
      KeepConcat(a[1..], b, keep);
    }
  }

  lemma {:induction false} KeepMembers<T>(s: seq<T>, keep: set<T>)
    ensures forall x :: x in Keep(s, keep) <==> x in s && x in keep
    ensures |Keep(s, keep)| <= |s|
  {
    if s != [] {
      KeepMembers(s[1..], keep);
      assert forall x :: x in s <==> x == s[0] || x in s[1..];
    }
  }

  /** A filter keeps everything exactly when every entry is wanted. */
  lemma {:induction false} KeepAll<T>(s: seq<T>, keep: set<T>)
    ensures |Keep(s, keep)| == |s| <==> Elems(s) <= keep
    ensures Elems(s) <= keep ==> Keep(s, keep) == s
  {
    if s != [] {
      KeepAll(s[1..], keep);
      KeepMembers(s[1..], keep);
      assert forall x :: x in s <==> x == s[0] || x in s[1..];
      assert Elems(s[1..]) <= Elems(s);
    }
  }

  lemma {:induction false} KeepNoDup<T(!new)>(s: seq<T>, keep: set<T>)
    requires NoDup(s)
    ensures NoDup(Keep(s, keep))
  {
    if s != [] {
      assert NoDup(s[1..]);
      KeepNoDup(s[1..], keep);
      KeepMembers(s[1..], keep);
      assert s[0] !in s[1..];
    }
  }

  /** The first occurrence splits the sequence. */
  lemma {:induction false} RemoveFirstSplit<T>(a: seq<T>, x: T, b: seq<T>)
    requires x !in a
    ensures RemoveFirst(a + [x] + b, x) == a + b
  {
    var s := a + [x] + b;
    if a == [] {
      assert s[0] == x && s[1..] == b;
    } else {
      assert s[0] == a[0] && s[1..] == a[1..] + [x] + b;
      RemoveFirstSplit(a[1..], x, b);
      assert a + b == [a[0]] + (a[1..] + b);
    }
  }

  /** In a duplicate-free list, removing one occurrence removes the element and nothing else. */
  lemma {:induction false} RemoveFirstNoDup<T(!new)>(s: seq<T>, x: T)
    requires NoDup(s)
    ensures NoDup(RemoveFirst(s, x))
    ensures forall y :: y in RemoveFirst(s, x) <==> y in s && y != x
    ensures RemoveFirst(s, x) == Keep(s, Elems(s) - {x})
  {
    if s != [] {
      assert NoDup(s[1..]);
      assert s[0] !in s[1..];
      RemoveFirstNoDup(s[1..], x);
      assert forall y :: y in s <==> y == s[0] || y in s[1..];
      KeepExtensional(s[1..], Elems(s) - {x}, Elems(s[1..]) - {x});
      if s[0] == x {
        KeepAll(s[1..], Elems(s[1..]) - {x});
      }
    }
  }

  lemma {:induction false} KeepExtensional<T>(s: seq<T>, p: set<T>, q: set<T>)
    requires forall x :: x in s ==> (x in p <==> x in q)
    ensures Keep(s, p) == Keep(s, q)
  {
    if s != [] {
      KeepExtensional(s[1..], p, q);
    }
  }

  lemma {:induction false} ElemsSize<T(!new)>(s: seq<T>)
    requires NoDup(s)
    ensures |Elems(s)| == |s|
  {
    if s == [] {
      assert Elems(s) == {};
    } else {
      assert NoDup(s[1..]);
      ElemsSize(s[1..]);
      assert s[0] !in s[1..];
      assert Elems(s) == Elems(s[1..]) + {s[0]} by {
        assert forall x :: x in s <==> x == s[0] || x in s[1..];
      }
    }
  }

  /** What holds at one place and is passed on to the next one holds further on. */
  lemma {:induction false} PassedOn(holds: seq<bool>, m: nat, n: nat)
    requires m <= n < |holds| && holds[m]
    requires forall k :: m <= k < n && holds[k] ==> holds[k + 1]
    ensures holds[n]
    decreases n - m
  {
    if m < n {
      PassedOn(holds, m + 1, n);
    }
  }

  /** One turn of a loop that drops the unwanted entries of a snapshot one by one. */
  lemma DropStep<T>(s: seq<T>, i: nat, keep: set<T>)
    requires i < |s|
    ensures Keep(s[..i + 1], keep) == Keep(s[..i], keep) + (if s[i] in keep then [s[i]] else [])
    ensures Elems(s[..i + 1]) - keep == (Elems(s[..i]) - keep) + (if s[i] in keep then {} else {s[i]})
    ensures Keep(s[..i], keep) + s[i..] == Keep(s[..i], keep) + [s[i]] + s[i + 1..]
    ensures s[i] !in keep ==>
      RemoveFirst(Keep(s[..i], keep) + s[i..], s[i]) == Keep(s[..i], keep) + s[i + 1..]
  {
    assert s[..i + 1] == s[..i] + [s[i]];
    KeepConcat(s[..i], [s[i]], keep);
    KeepMembers(s[..i], keep);
    assert s[i..] == [s[i]] + s[i + 1..];
    if s[i] !in keep {
      RemoveFirstSplit(Keep(s[..i], keep), s[i], s[i + 1..]);
    }
  }

  /** Deleting keys twice is deleting them together. */
  lemma MinusMinus<K, V>(m: map<K, V>, a: set<K>, b: set<K>)
    ensures m - a - b == m - (a + b)
  {}

  /** One turn of a loop that visits a snapshot `all` of a set and drops the unwanted members. */
  lemma VisitStep<T>(all: set<T>, todo: set<T>, x: T, keep: set<T>)
    requires x in todo && todo <= all
    ensures var before, after := all - todo - keep, all - (todo - {x}) - keep;
      && after == (if x in keep then before else before + {x})
      && |after| == |before| + (if x in keep then 0 else 1)
  {}
}
