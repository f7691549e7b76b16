/**
  The signature over the identity headers: the canonical string, the 64-bit time
  window and the verification that puts them together. The keyed hash with its
  base64url encoding is a parameter `mac`.
 */
module Wrapsig {
  import opened Lists
  import opened Text

  /** What `http.Header.Get` answers: the value, or the empty string. */
  type Headers = string -> string

  const SUB := "X-User-Sub"
  const EMAIL := "X-User-Email"
  const USERNAME := "X-User-Username"
  const ROLES := "X-User-Roles"
  const ACCOUNT := "X-Bank-Account-Number"
  const MFA_VERIFIED := "X-MFA-Verified"
  const MFA_METHOD := "X-MFA-Method"
  const TIMESTAMP := "X-Wrapper-Timestamp"
  const SIGNATURE := "X-Wrapper-Signature"

  const SIGNED_HEADERS: seq<string> :=
    [SUB, EMAIL, USERNAME, ROLES, ACCOUNT, MFA_VERIFIED, MFA_METHOD, TIMESTAMP]

  // ---- Line order ----

  function LowerChar(c: char): char {
    if 'A' <= c <= 'Z' then (c as int + 32) as char else c
  }

  function ToLower(s: string): string {
    seq(|s|, i requires 0 <= i < |s| => LowerChar(s[i]))
  }

  /** Byte-wise order of strings. */
  predicate LexLe(a: string, b: string) {
    a == [] || (b != [] && (a[0] < b[0] || (a[0] == b[0] && LexLe(a[1..], b[1..]))))
  }

  lemma {:induction false} LexTotal(a: string, b: string)
    ensures LexLe(a, b) || LexLe(b, a)
  {
    if a != [] && b != [] && a[0] == b[0] {
      LexTotal(a[1..], b[1..]);
    }
  }

  lemma {:induction false} LexAntisymmetric(a: string, b: string)
    requires LexLe(a, b) && LexLe(b, a)
    ensures a == b
  {
    if a != [] {
      LexAntisymmetric(a[1..], b[1..]);
      assert a == [a[0]] + a[1..] && b == [b[0]] + b[1..];
    }
  }

  lemma {:induction false} LexTransitive(a: string, b: string, c: string)
    requires LexLe(a, b) && LexLe(b, c)
    ensures LexLe(a, c)
  {
    if a != [] && a[0] == b[0] == c[0] {
      LexTransitive(a[1..], b[1..], c[1..]);
    }
  }

  ghost predicate InOrder(lines: seq<string>) {
    |lines| > 1 ==> LexLe(lines[0], lines[1]) && InOrder(lines[1..])
  }

  function InsertLine(lines: seq<string>, x: string): seq<string> {
    if lines == [] || LexLe(x, lines[0]) then [x] + lines else [lines[0]] + InsertLine(lines[1..], x)
  }

  function SortLines(lines: seq<string>): seq<string> {
    if lines == [] then [] else InsertLine(SortLines(lines[1..]), lines[0])
  }

  lemma {:induction false} InsertLineOrders(lines: seq<string>, x: string)
    requires InOrder(lines)
    ensures InOrder(InsertLine(lines, x))
    ensures multiset(InsertLine(lines, x)) == multiset(lines) + multiset{x}
  {
    if lines != [] && !LexLe(x, lines[0]) {
      LexTotal(x, lines[0]);
      InsertLineOrders(lines[1..], x);
      var t := InsertLine(lines, x);
      assert lines == [lines[0]] + lines[1..];
      assert t[1..] == InsertLine(lines[1..], x);
    } else {
      assert InsertLine(lines, x)[1..] == lines;
    }
  }

  lemma {:induction false} SortLinesSorts(lines: seq<string>)
    ensures InOrder(SortLines(lines))
    ensures multiset(SortLines(lines)) == multiset(lines)
  {
    if lines != [] {
      SortLinesSorts(lines[1..]);
      InsertLineOrders(SortLines(lines[1..]), lines[0]);
      assert lines == [lines[0]] + lines[1..];
    }
  }

  lemma {:induction false} FirstIsLeast(lines: seq<string>, x: string)
    requires InOrder(lines) && x in lines
    ensures LexLe(lines[0], x)
  {
    if lines[0] == x {
      LexTotal(x, x);
    } else {
      assert x in lines[1..];
      FirstIsLeast(lines[1..], x);
      LexTransitive(lines[0], lines[1], x);
    }
  }

  lemma SameFirst(a: seq<string>, b: seq<string>)
    requires InOrder(a) && InOrder(b) && multiset(a) == multiset(b) && a != [] && b != []
    ensures a[0] == b[0]
  {
    assert a[0] in multiset(a) && b[0] in multiset(b);
    assert b[0] in a && a[0] in b;
    FirstIsLeast(a, b[0]);
    FirstIsLeast(b, a[0]);
    LexAntisymmetric(a[0], b[0]);
  }

  lemma TailMultiset(a: seq<string>)
    requires a != []
    ensures multiset(a[1..]) == multiset(a) - multiset{a[0]}
  {
    assert a == [a[0]] + a[1..];
  }

  /** There is only one way to put given lines in order. */
  lemma {:induction false} OrderIsUnique(a: seq<string>, b: seq<string>)
    requires InOrder(a) && InOrder(b) && multiset(a) == multiset(b)
    ensures a == b
  {
    assert |multiset(a)| == |a| && |multiset(b)| == |b|;
    if a != [] {
      SameFirst(a, b);
      TailMultiset(a);
      TailMultiset(b);
      OrderIsUnique(a[1..], b[1..]);
      assert a == [a[0]] + a[1..] && b == [b[0]] + b[1..];
    }
  }

  // ---- The canonical string ----

  function LineOf(h: string, get: Headers): string { ToLower(h) + "=" + get(h) }

  function LinesOf(headers: seq<string>, get: Headers): seq<string> {
    if headers == [] then [] else [LineOf(headers[0], get)] + LinesOf(headers[1..], get)
  }

  function Join(lines: seq<string>): string {
    if lines == [] then "" else if |lines| == 1 then lines[0] else lines[0] + "\n" + Join(lines[1..])
  }

  function Canonical(headers: seq<string>, get: Headers): string {
    Join(SortLines(LinesOf(headers, get)))
  }

  lemma {:induction false} LinesOfConcat(a: seq<string>, b: seq<string>, get: Headers)
    ensures LinesOf(a + b, get) == LinesOf(a, get) + LinesOf(b, get)
  {
    if a == [] {
      assert a + b == b;
    } else {
      assert (a + b)[0] == a[0] && (a + b)[1..] == a[1..] + b;
      LinesOfConcat(a[1..], b, get);
    }
  }

  /** Wherever a header stands in the list, it contributes its one line. */
  lemma LinesOfMoved(head: seq<string>, x: string, tail: seq<string>, get: Headers)
    ensures multiset(LinesOf(head + ([x] + tail), get)) == multiset(LinesOf(head + tail, get)) + multiset{LineOf(x, get)}
  {
    LinesOfConcat(head, tail, get);
    LinesOfConcat(head, [x] + tail, get);
    assert ([x] + tail)[1..] == tail;
  }

  /** The first entry of `a` found in a permutation `b` of it. */
  lemma PickOut(a: seq<string>, b: seq<string>) returns (head: seq<string>, tail: seq<string>)
    requires multiset(a) == multiset(b) && a != []
    ensures b == head + ([a[0]] + tail)
    ensures multiset(a[1..]) == multiset(head + tail)
  {
    assert a[0] in multiset(a);
    assert a[0] in b;
    var k :| 0 <= k < |b| && b[k] == a[0];
    head, tail := b[..k], b[k + 1..];
    assert b == head + ([a[0]] + tail);
    assert a == [a[0]] + a[1..];
    assert multiset(a) == multiset{a[0]} + multiset(a[1..]);
    assert multiset(b) == multiset(head) + (multiset{a[0]} + multiset(tail));
    assert multiset(head + tail) == multiset(b) - multiset{a[0]};
    assert multiset(a[1..]) == multiset(a) - multiset{a[0]};
  }

  lemma {:induction false} LinesOfPermutation(a: seq<string>, b: seq<string>, get: Headers)
    requires multiset(a) == multiset(b)
    ensures multiset(LinesOf(a, get)) == multiset(LinesOf(b, get))
    decreases |a|
  {
    if a == [] {
      assert |multiset(a)| == |multiset(b)| == |b|;
    } else {
      var head, tail := PickOut(a, b);
      LinesOfPermutation(a[1..], head + tail, get);
      LinesOfMoved(head, a[0], tail, get);
      LinesOfMoved([], a[0], a[1..], get);
      assert [] + ([a[0]] + a[1..]) == a && [] + a[1..] == a[1..];
    }
  }

  /** The order in which the headers are listed does not matter. */
  lemma CanonicalIgnoresListing(a: seq<string>, b: seq<string>, get: Headers)
    requires multiset(a) == multiset(b)
    ensures Canonical(a, get) == Canonical(b, get)
  {
    LinesOfPermutation(a, b, get);
    SortLinesSorts(LinesOf(a, get));
    SortLinesSorts(LinesOf(b, get));
    OrderIsUnique(SortLines(LinesOf(a, get)), SortLines(LinesOf(b, get)));
  }

  /** The loop that collects the lines, and the sort that follows. */
  method CanonicalString(headers: seq<string>, get: Headers) returns (text: string)
    ensures text == Canonical(headers, get)
  {
    var lines: seq<string> := [];
    var i := 0;
    while i < |headers|
      invariant 0 <= i <= |headers|
      invariant lines == LinesOf(headers[..i], get)
    {
      assert headers[..i + 1] == headers[..i] + [headers[i]];
      LinesOfConcat(headers[..i], [headers[i]], get);
      lines := lines + [ToLower(headers[i]) + "=" + get(headers[i])];
      i := i + 1;
    }
    assert headers[..i] == headers;
    lines := SortLines(lines);
    text := Join(lines);
  }

  // ---- One fixed order ----

  /** The signed headers in the order of their lines. */
  const LINE_ORDER: seq<string> :=
    [ACCOUNT, MFA_METHOD, MFA_VERIFIED, EMAIL, ROLES, SUB, USERNAME, TIMESTAMP]

  /** The lines in the order the Makefile's forge recipe writes out. */
  function FixedLines(get: Headers): seq<string> {
    ["x-bank-account-number=" + get(ACCOUNT),
     "x-mfa-method=" + get(MFA_METHOD),
     "x-mfa-verified=" + get(MFA_VERIFIED),
     "x-user-email=" + get(EMAIL),
     "x-user-roles=" + get(ROLES),
     "x-user-sub=" + get(SUB),
     "x-user-username=" + get(USERNAME),
     "x-wrapper-timestamp=" + get(TIMESTAMP)]
  }

  function Without<T>(s: seq<T>, i: nat): (r: seq<T>)
    requires i < |s|
    ensures |r| == |s| - 1
    ensures forall k :: 0 <= k < |r| ==> r[k] == if k < i then s[k] else s[k + 1]
  {
    s[..i] + s[i + 1..]
  }

  /** Taking entry `i` to the front of what is already rearranged. */
  lemma ToFront<T>(s: seq<T>, i: nat, t: seq<T>)
    requires i < |s| && t != [] && t[0] == s[i] && multiset(Without(s, i)) == multiset(t[1..])
    ensures multiset(s) == multiset(t)
  {
    assert s == s[..i] + [s[i]] + s[i + 1..];
    assert t == [t[0]] + t[1..];
  }

  lemma Rearranged<T>(s: seq<T>, t: seq<T>)
    requires |s| == |t| == 8
    requires t[0] == s[4] && t[1] == s[6] && t[2] == s[5] && t[3] == s[1]
    requires t[4] == s[3] && t[5] == s[0] && t[6] == s[2] && t[7] == s[7]
    ensures multiset(s) == multiset(t)
  {
    var s1 := Without(s, 4);
    var s2 := Without(s1, 5);
    var s3 := Without(s2, 4);
    var s4 := Without(s3, 1);
    var s5 := Without(s4, 2);
    assert s5 == t[5..];
    ToFront(s4, 2, t[4..]) by { assert t[4..][1..] == t[5..]; }
    ToFront(s3, 1, t[3..]) by { assert t[3..][1..] == t[4..]; }
    ToFront(s2, 4, t[2..]) by { assert t[2..][1..] == t[3..]; }
    ToFront(s1, 5, t[1..]) by { assert t[1..][1..] == t[2..]; }
    ToFront(s, 4, t);
  }

  lemma SameHeaders()
    ensures multiset(SIGNED_HEADERS) == multiset(LINE_ORDER)
  {
    Rearranged(SIGNED_HEADERS, LINE_ORDER);
  }

  lemma {:induction false} LexByChar(p: string, a: string, b: string)
    requires a != [] && b != [] && a[0] < b[0]
    ensures LexLe(p + a, p + b)
  {
    if p == [] {
      assert p + a == a && p + b == b;
    } else {
      assert (p + a)[1..] == p[1..] + a && (p + b)[1..] == p[1..] + b;
      LexByChar(p[1..], a, b);
    }
  }

  lemma LowerNames()
    ensures ToLower(MFA_METHOD) == "x-mfa-method"
    ensures ToLower(MFA_VERIFIED) == "x-mfa-verified"
    ensures ToLower(EMAIL) == "x-user-email"
    ensures ToLower(ROLES) == "x-user-roles"
  {}

  lemma LowerShortNames()
    ensures ToLower(SUB) == "x-user-sub"
    ensures ToLower(USERNAME) == "x-user-username"
  {}

  lemma LowerLongNames()
    ensures ToLower(ACCOUNT) == "x-bank-account-number"
    ensures ToLower(TIMESTAMP) == "x-wrapper-timestamp"
  {}

  lemma LinesInOrder(get: Headers)
    ensures LinesOf(LINE_ORDER, get) == FixedLines(get)
  {
    LowerNames();
    LowerShortNames();
    LowerLongNames();
    var h := LINE_ORDER;
    LinesOfEach(h, get);
    var lines, fixed := LinesOf(h, get), FixedLines(get);
    assert |lines| == |fixed| == 8;
    assert forall i :: 0 <= i < 8 ==> lines[i] == fixed[i];
  }

  lemma {:induction false} LinesOfEach(headers: seq<string>, get: Headers)
    ensures |LinesOf(headers, get)| == |headers|
    ensures forall i :: 0 <= i < |headers| ==> LinesOf(headers, get)[i] == LineOf(headers[i], get)
  {
    if headers != [] {
      LinesOfEach(headers[1..], get);
    }
  }

  /** Two names that first differ at position `i` order their lines, whatever follows. */
  lemma LexByName(m: string, n: string, i: nat, v: string, w: string)
    requires i < |m| && i < |n| && m[..i] == n[..i] && m[i] < n[i]
    ensures LexLe(m + v, n + w)
  {
    LexByChar(m[..i], m[i..] + v, n[i..] + w);
    assert m[..i] + (m[i..] + v) == m + v;
    assert n[..i] + (n[i..] + w) == n + w;
  }

  lemma FirstPairs(get: Headers)
    ensures var f := FixedLines(get); LexLe(f[0], f[1]) && LexLe(f[1], f[2]) && LexLe(f[2], f[3])
  {
    LexByName("x-bank-account-number=", "x-mfa-method=", 2, get(ACCOUNT), get(MFA_METHOD));
    LexByName("x-mfa-method=", "x-mfa-verified=", 6, get(MFA_METHOD), get(MFA_VERIFIED));
    LexByName("x-mfa-verified=", "x-user-email=", 2, get(MFA_VERIFIED), get(EMAIL));
  }

  lemma LastPairs(get: Headers)
    ensures var f := FixedLines(get);
      LexLe(f[3], f[4]) && LexLe(f[4], f[5]) && LexLe(f[5], f[6]) && LexLe(f[6], f[7])
  {
    LexByName("x-user-email=", "x-user-roles=", 7, get(EMAIL), get(ROLES));
    LexByName("x-user-roles=", "x-user-sub=", 7, get(ROLES), get(SUB));
    LexByName("x-user-sub=", "x-user-username=", 7, get(SUB), get(USERNAME));
    LexByName("x-user-username=", "x-wrapper-timestamp=", 2, get(USERNAME), get(TIMESTAMP));
  }

  /** Whatever the values, the names alone decide the order of the lines. */
  lemma FixedLinesInOrder(get: Headers)
    ensures InOrder(FixedLines(get))
  {
    FirstPairs(get);
    LastPairs(get);
    InOrderByPairs(FixedLines(get));
  }

  lemma {:induction false} InOrderByPairs(lines: seq<string>)
    requires forall i :: 0 <= i < |lines| - 1 ==> LexLe(lines[i], lines[i + 1])
    ensures InOrder(lines)
  {
    if |lines| > 1 {
      assert LexLe(lines[0], lines[0 + 1]);
      forall i | 0 <= i < |lines[1..]| - 1 ensures LexLe(lines[1..][i], lines[1..][i + 1]) {
        assert lines[1..][i] == lines[i + 1] && lines[1..][i + 1] == lines[i + 1 + 1];
      }
      InOrderByPairs(lines[1..]);
    }
  }

  /** The canonical string is the fixed lines, joined. */
  lemma CanonicalIsFixed(get: Headers)
    ensures Canonical(SIGNED_HEADERS, get) == Join(FixedLines(get))
  {
    SameHeaders();
    CanonicalIgnoresListing(SIGNED_HEADERS, LINE_ORDER, get);
    LinesInOrder(get);
    FixedLinesInOrder(get);
    SortLinesSorts(FixedLines(get));
    OrderIsUnique(SortLines(FixedLines(get)), FixedLines(get));
  }

  /** One line and what follows on the next. */
  function Over(line: string, rest: string): string { line + "\n" + rest }

  /** The string written out, as the Makefile prints it. */
  function Printed(get: Headers): string {
    Over("x-bank-account-number=" + get("X-Bank-Account-Number"),
    Over("x-mfa-method=" + get("X-MFA-Method"),
    Over("x-mfa-verified=" + get("X-MFA-Verified"),
    Over("x-user-email=" + get("X-User-Email"),
    Over("x-user-roles=" + get("X-User-Roles"),
    Over("x-user-sub=" + get("X-User-Sub"),
    Over("x-user-username=" + get("X-User-Username"),
         "x-wrapper-timestamp=" + get("X-Wrapper-Timestamp"))))))))
  }

  lemma JoinOver(lines: seq<string>, i: nat)
    requires i < |lines|
    ensures Join(lines[i..]) == if i == |lines| - 1 then lines[i] else Over(lines[i], Join(lines[i + 1..]))
  {
    assert lines[i..][1..] == lines[i + 1..];
  }

  lemma JoinEight(lines: seq<string>)
    requires |lines| == 8
    ensures Join(lines) == Over(lines[0], Over(lines[1], Over(lines[2], Over(lines[3],
                           Over(lines[4], Over(lines[5], Over(lines[6], lines[7])))))))
  {
    assert lines[0..] == lines;
    JoinOver(lines, 0);
    JoinOver(lines, 1);
    JoinOver(lines, 2);
    JoinOver(lines, 3);
    JoinOver(lines, 4);
    JoinOver(lines, 5);
    JoinOver(lines, 6);
    JoinOver(lines, 7);
  }

  /** What is signed is exactly that text. */
  lemma CanonicalIsPrinted(get: Headers)
    ensures Canonical(SIGNED_HEADERS, get) == Printed(get)
  {
    CanonicalIsFixed(get);
    JoinEight(FixedLines(get));
  }

  // ---- Nothing gets lost ----

  predicate OneLine(s: string) { '\n' !in s }

  lemma {:induction false} FirstLine(a: string, x: string, b: string, y: string)
    requires OneLine(a) && OneLine(b) && a + "\n" + x == b + "\n" + y
    ensures a == b && x == y
  {
    var s, t := a + "\n" + x, b + "\n" + y;
    assert s[|a|] == '\n' && t[|b|] == '\n';
    assert forall i :: 0 <= i < |a| ==> s[i] == a[i];
    assert forall i :: 0 <= i < |b| ==> t[i] == b[i];
    assert |a| == |b|;
    assert a == s[..|a|] && b == t[..|b|];
    assert x == s[|a| + 1..] && y == t[|b| + 1..];
  }

  /** Lines without line breaks can be read back from their join. */
  lemma {:induction false} JoinIsInjective(a: seq<string>, b: seq<string>)
    requires |a| == |b| && Join(a) == Join(b)
    requires forall i :: 0 <= i < |a| ==> OneLine(a[i]) && OneLine(b[i])
    ensures a == b
  {
    if |a| > 1 {
      FirstLine(a[0], Join(a[1..]), b[0], Join(b[1..]));
      JoinIsInjective(a[1..], b[1..]);
      assert a == [a[0]] + a[1..] && b == [b[0]] + b[1..];
    }
  }

  /** Header values hold no line break (section 5.5 of RFC 9110). */
  ghost predicate Wellformed(get: Headers) {
    forall i :: 0 <= i < |LINE_ORDER| ==> OneLine(get(LINE_ORDER[i]))
  }

  lemma NamesAreOneLine()
    ensures forall i :: 0 <= i < |LINE_ORDER| ==> OneLine(ToLower(LINE_ORDER[i]))
  {}

  lemma LinesAreOneLine(get: Headers)
    requires Wellformed(get)
    ensures forall i :: 0 <= i < |LINE_ORDER| ==> OneLine(LineOf(LINE_ORDER[i], get))
  {
    NamesAreOneLine();
  }

  /** Two header sets with the same canonical string agree on every signed header. */
  lemma CanonicalIsInjective(g: Headers, h: Headers)
    requires Wellformed(g) && Wellformed(h)
    requires Canonical(SIGNED_HEADERS, g) == Canonical(SIGNED_HEADERS, h)
    ensures forall i :: 0 <= i < |SIGNED_HEADERS| ==> g(SIGNED_HEADERS[i]) == h(SIGNED_HEADERS[i])
  {
    LineValuesAgree(g, h);
    forall i | 0 <= i < |SIGNED_HEADERS| ensures g(SIGNED_HEADERS[i]) == h(SIGNED_HEADERS[i]) {
      var k := PlaceInOrder(i);
    }
  }

  lemma PlaceInOrder(i: nat) returns (k: nat)
    requires i < |SIGNED_HEADERS|
    ensures k < |LINE_ORDER| && LINE_ORDER[k] == SIGNED_HEADERS[i]
  {
    var places := [5, 3, 6, 4, 0, 2, 1, 7];
    k := places[i];
  }

  lemma LineValuesAgree(g: Headers, h: Headers)
    requires Wellformed(g) && Wellformed(h)
    requires Canonical(SIGNED_HEADERS, g) == Canonical(SIGNED_HEADERS, h)
    ensures forall i :: 0 <= i < |LINE_ORDER| ==> g(LINE_ORDER[i]) == h(LINE_ORDER[i])
  {
    var a, b := LinesOf(LINE_ORDER, g), LinesOf(LINE_ORDER, h);
    CanonicalIsFixed(g);
    CanonicalIsFixed(h);
    LinesInOrder(g);
    LinesInOrder(h);
    LinesOfEach(LINE_ORDER, g);
    LinesOfEach(LINE_ORDER, h);
    LinesAreOneLine(g);
    LinesAreOneLine(h);
    JoinIsInjective(a, b);
    forall i | 0 <= i < |LINE_ORDER| ensures g(LINE_ORDER[i]) == h(LINE_ORDER[i]) {
      var name := LINE_ORDER[i];
      assert a[i] == b[i];
      SameValue(ToLower(name) + "=", g(name), h(name));
    }
  }

  lemma SameValue(p: string, v: string, w: string)
    requires p + v == p + w
    ensures v == w
  {
    assert v == (p + v)[|p|..] && w == (p + w)[|p|..];
  }

  // ---- The time window ----

  const TWO_64 := 0x1_0000_0000_0000_0000
  const SECOND := 1_000_000_000
  const MAX_SKEW := 30

  /** The farthest apart, in seconds, that clock and timestamp may be for the check to be right. */
  const EXACT_RANGE := 9_223_372_036

  function Abs(x: int): int { if x < 0 then -x else x }

  /** 64-bit two's-complement arithmetic. */
  function Wrap(x: int): (r: int)
    ensures IsInt64(r)
    ensures IsInt64(x) ==> r == x
  {
    (x - INT64_MIN) % TWO_64 + INT64_MIN
  }

  /** The skew check as the code computes it, in nanoseconds of a 64-bit duration. */
  predicate InWindow(now: int, ts: int) {
    var delta := Wrap(now - ts);
    var skew := if delta < 0 then Wrap(-delta) else delta;
    Wrap(skew * SECOND) <= MAX_SKEW * SECOND
  }

  /** Within the range in which nothing overflows, the check means what it says. */
  lemma WindowIsExact(now: int, ts: int)
    requires Abs(now - ts) <= 9_223_372_036
    ensures InWindow(now, ts) <==> Abs(now - ts) <= 30
  {}

  /** One second further the nanoseconds overflow and the check lets the timestamp through. */
  lemma WindowOverflows(now: int, ts: int)
    requires Abs(now - ts) == EXACT_RANGE + 1
    ensures InWindow(now, ts)
  {}

  /** So the range is exact: the check is right for all timestamps up to a distance iff that is within it. */
  lemma WindowRangeIsExact(now: int, range: nat)
    requires IsInt64(now)
    ensures (forall ts :: IsInt64(ts) && Abs(now - ts) <= range ==> (InWindow(now, ts) <==> Abs(now - ts) <= 30))
            <==> range <= 9_223_372_036
  {
    forall ts | IsInt64(ts) && Abs(now - ts) <= range && range <= EXACT_RANGE
      ensures InWindow(now, ts) <==> Abs(now - ts) <= MAX_SKEW
    {
      WindowIsExact(now, ts);
    }
    if range > EXACT_RANGE {
      var ts := if now < 0 then now + EXACT_RANGE + 1 else now - EXACT_RANGE - 1;
      assert IsInt64(ts) && Abs(now - ts) == EXACT_RANGE + 1;
      WindowOverflows(now, ts);
    }
  }

  // ---- Signing and verifying ----

  type Mac = string -> string

  function Sign(get: Headers, mac: Mac): string { mac(Canonical(SIGNED_HEADERS, get)) }

  datatype Check =
    | Trusted
    | MissingSignature
    | MissingTimestamp
    | InvalidTimestamp
    | OutsideWindow
    | SignatureMismatch

  function Verify(get: Headers, mac: Mac, now: int): Check {
    var provided := get(SIGNATURE);
    if provided == "" then MissingSignature else
      var stamp := get(TIMESTAMP);
      if stamp == "" then MissingTimestamp else
        var ts := ParseInt(TrimSpace(stamp));
        if ts.None? then InvalidTimestamp
        else if !InWindow(now, ts.value) then OutsideWindow
        else if Sign(get, mac) != provided then SignatureMismatch
        else Trusted
  }

  /** The headers carry a signature, and it is their own. */
  predicate OwnSignature(get: Headers, mac: Mac) {
    get(SIGNATURE) != "" && get(SIGNATURE) == Sign(get, mac)
  }

  function TimestampOf(get: Headers): Option<int> { ParseInt(TrimSpace(get(TIMESTAMP))) }

  /**
    Trusted exactly when the signature is that of the received headers and their timestamp
    passes the check, which in the exact range means that it is at most 30 seconds off.
   */
  lemma VerifyMeaning(get: Headers, mac: Mac, now: int)
    ensures var ts := TimestampOf(get);
      && (Verify(get, mac, now).Trusted? <==> OwnSignature(get, mac) && ts.Some? && InWindow(now, ts.value))
      && (ts.Some? && Abs(now - ts.value) <= 9_223_372_036 ==>
            (Verify(get, mac, now).Trusted? <==> OwnSignature(get, mac) && Abs(now - ts.value) <= 30))
  {
    var ts := TimestampOf(get);
    if ts.Some? && Abs(now - ts.value) <= EXACT_RANGE {
      WindowIsExact(now, ts.value);
    }
  }

  /** Each refusal, and when it is given: the first thing wrong in this order. */
  lemma RefusalMeaning(get: Headers, mac: Mac, now: int)
    ensures var check, ts := Verify(get, mac, now), TimestampOf(get);
      var signed, stamped := get("X-Wrapper-Signature") != "", get("X-Wrapper-Timestamp") != "";
      && (check == MissingSignature <==> !signed)
      && (check == MissingTimestamp <==> signed && !stamped)
      && (check == InvalidTimestamp <==> signed && stamped && ts.None?)
      && (check == OutsideWindow <==> signed && stamped && ts.Some? && !InWindow(now, ts.value))
      && (check == SignatureMismatch <==>
            signed && stamped && ts.Some? && InWindow(now, ts.value) && !OwnSignature(get, mac))
  {}

  /** What the wrapper sends: the timestamp of its clock and the signature over the whole set. */
  ghost predicate SignedAt(get: Headers, mac: Mac, t: int) {
    get(TIMESTAMP) == FormatInt(t) && get(SIGNATURE) == Sign(get, mac)
  }

  /** A signed set is trusted throughout the window around its timestamp, and outside it, in range, is not. */
  lemma SignedSetsVerify(get: Headers, mac: Mac, t: int, now: int)
    requires SignedAt(get, mac, t) && IsInt64(t) && Sign(get, mac) != ""
    requires Abs(now - t) <= 9_223_372_036
    ensures Verify(get, mac, now).Trusted? <==> Abs(now - t) <= 30
  {
    ParseFormat(t);
    VerifyMeaning(get, mac, now);
  }

  ghost predicate Injective(mac: Mac) { forall x, y :: mac(x) == mac(y) ==> x == y }

  /** Two different strings with the same MAC. */
  ghost predicate Collision(mac: Mac, x: string, y: string) { x != y && mac(x) == mac(y) }

  /**
    Whatever the MAC: a set that carries another set's signature and differs from it in some
    signed header is trusted only on a collision of the two canonical strings.
   */
  lemma ChangedHeadersNeedACollision(sent: Headers, received: Headers, mac: Mac, now: int, i: nat)
    requires Wellformed(sent) && Wellformed(received)
    requires received(SIGNATURE) == Sign(sent, mac)
    requires i < |SIGNED_HEADERS| && received(SIGNED_HEADERS[i]) != sent(SIGNED_HEADERS[i])
    ensures Verify(received, mac, now).Trusted? ==>
      Collision(mac, Canonical(SIGNED_HEADERS, sent), Canonical(SIGNED_HEADERS, received))
  {
    if Canonical(SIGNED_HEADERS, sent) == Canonical(SIGNED_HEADERS, received) {
      CanonicalIsInjective(sent, received);
      assert false;
    }
  }

  /** In particular a MAC without collisions refuses every such set. */
  lemma ChangedHeadersAreRefused(sent: Headers, received: Headers, mac: Mac, now: int, i: nat)
    requires Injective(mac) && Wellformed(sent) && Wellformed(received)
    requires received(SIGNATURE) == Sign(sent, mac)
    requires i < |SIGNED_HEADERS| && received(SIGNED_HEADERS[i]) != sent(SIGNED_HEADERS[i])
    ensures !Verify(received, mac, now).Trusted?
  {
    ChangedHeadersNeedACollision(sent, received, mac, now, i);
  }
}
