/** The string functions the MFA services use: trimming, decimal numbers, lower case, line order. */
module Text {
  import opened Lists

  /** White space as strings.TrimSpace understands it. */
  predicate IsSpace(c: char) {
    || c in {'\t', '\n', ' ', '\r'}
    || c as int in {0x0B, 0x0C, 0x85, 0xA0, 0x1680, 0x2028, 0x2029, 0x202F, 0x205F, 0x3000}
    || 0x2000 <= c as int <= 0x200A
  }

  function TrimLeft(s: string): string {
    if s != [] && IsSpace(s[0]) then TrimLeft(s[1..]) else s
  }

  function TrimRight(s: string): string {
    if s != [] && IsSpace(s[|s| - 1]) then TrimRight(s[..|s| - 1]) else s
  }

  function TrimSpace(s: string): string { TrimRight(TrimLeft(s)) }

  ghost predicate Blank(s: string) { forall i :: 0 <= i < |s| ==> IsSpace(s[i]) }

  lemma {:induction false} TrimLeftDrops(pad: string, s: string)
    requires Blank(pad) && s != [] && !IsSpace(s[0])
    ensures TrimLeft(pad + s) == s
  {
    if pad == [] {
      assert pad + s == s;
    } else {
      assert (pad + s)[0] == pad[0] && (pad + s)[1..] == pad[1..] + s;
      TrimLeftDrops(pad[1..], s);
    }
  }

  lemma {:induction false} TrimRightDrops(s: string, pad: string)
    requires Blank(pad) && s != [] && !IsSpace(s[|s| - 1])
    ensures TrimRight(s + pad) == s
  {
    if pad == [] {
      assert s + pad == s;
    } else {
      var n := |pad| - 1;
      assert (s + pad)[..|s| + n] == s + pad[..n];
      TrimRightDrops(s, pad[..n]);
    }
  }

  /** Blanks around a text that neither starts nor ends with one do not count. */
  lemma TrimSpaceDrops(left: string, s: string, right: string)
    requires Blank(left) && Blank(right)
    requires s != [] && !IsSpace(s[0]) && !IsSpace(s[|s| - 1])
    ensures TrimSpace(left + s + right) == s
  {
    assert left + s + right == left + (s + right);
    TrimLeftDrops(left, s + right);
    TrimRightDrops(s, right);
  }

  // ---- Decimal numbers ----

  predicate IsDigit(c: char) { '0' <= c <= '9' }

  function DigitOf(d: nat): (c: char)
    requires d < 10
    ensures IsDigit(c) && c as int - '0' as int == d && !IsSpace(c)
  {
    ('0' as int + d) as char
  }

  predicate AllDigits(s: string) { forall i :: 0 <= i < |s| ==> IsDigit(s[i]) }

  /** The value of a run of digits. */
  function ValueOf(s: string): nat
    requires AllDigits(s)
  {
    if s == [] then 0
    else 10 * ValueOf(s[..|s| - 1]) + (s[|s| - 1] as int - '0' as int)
  }

  /** The decimal digits of a natural number, without leading zeros. */
  function FormatNat(n: nat): (s: string)
    ensures s != [] && AllDigits(s) && ValueOf(s) == n
  {
    if n < 10 then [DigitOf(n)]
    else
      var rest := FormatNat(n / 10);
      var s := rest + [DigitOf(n % 10)];
      assert s[..|s| - 1] == rest;
      s
  }

  const INT64_MIN := -0x8000_0000_0000_0000
  const INT64_MAX := 0x7FFF_FFFF_FFFF_FFFF

  predicate IsInt64(x: int) { INT64_MIN <= x <= INT64_MAX }

  /** strconv.FormatInt in base 10. */
  function FormatInt(x: int): string {
    if x < 0 then "-" + FormatNat(-x) else FormatNat(x)
  }

  /** strconv.ParseInt in base 10 for 64 bits: an optional sign, then digits, in range. */
  function ParseInt(s: string): Option<int> {
    if s == [] then None else
      var signed := s[0] == '-' || s[0] == '+';
      var digits := if signed then s[1..] else s;
      if digits == [] || !AllDigits(digits) then None else
        var value: int := if s[0] == '-' then 0 - ValueOf(digits) else ValueOf(digits);
        if IsInt64(value) then Some(value) else None
  }

  lemma ParseFormat(x: int)
    requires IsInt64(x)
    ensures ParseInt(FormatInt(x)) == Some(x)
    ensures TrimSpace(FormatInt(x)) == FormatInt(x)
  {}

  /** Six digits, padded with zeros on the left. */
  function FormatCode(n: nat): (s: string)
    requires n < 1_000_000
    ensures |s| == 6 && AllDigits(s)
  {
    [DigitOf(n / 100_000), DigitOf(n / 10_000 % 10), DigitOf(n / 1_000 % 10),
     DigitOf(n / 100 % 10), DigitOf(n / 10 % 10), DigitOf(n % 10)]
  }

  lemma ValueOneMore(s: string, d: nat)
    requires AllDigits(s) && d < 10
    ensures AllDigits(s + [DigitOf(d)]) && ValueOf(s + [DigitOf(d)]) == 10 * ValueOf(s) + d
  {
    assert (s + [DigitOf(d)])[..|s|] == s;
  }

  lemma OnePlace(n: nat)
    ensures n / 10 / 10 == n / 100 && n / 100 / 10 == n / 1_000
  {}

  lemma HighPlaces(n: nat)
    ensures n / 1_000 / 10 == n / 10_000 && n / 10_000 / 10 == n / 100_000
  {}

  /** Writing the last digit of `q` behind the digits of the rest. */
  lemma NextPlace(s: string, q: nat) returns (t: string)
    requires AllDigits(s) && ValueOf(s) == q / 10
    ensures t == s + [DigitOf(q % 10)] && AllDigits(t) && ValueOf(t) == q
  {
    t := s + [DigitOf(q % 10)];
    ValueOneMore(s, q % 10);
  }

  lemma ThreePlaces(s: string, a: nat, b: nat, c: nat) returns (t: string)
    requires AllDigits(s) && ValueOf(s) == a / 10 && b / 10 == a && c / 10 == b
    ensures t == s + [DigitOf(a % 10), DigitOf(b % 10), DigitOf(c % 10)] && AllDigits(t) && ValueOf(t) == c
  {
    t := NextPlace(s, a);
    t := NextPlace(t, b);
    t := NextPlace(t, c);
  }

  /** The code of a draw is its decimal value in six digits. */
  lemma CodeValue(n: nat)
    requires n < 1_000_000
    ensures |FormatCode(n)| == 6 && AllDigits(FormatCode(n)) && ValueOf(FormatCode(n)) == n
  {
    OnePlace(n);
    HighPlaces(n);
    var high := ThreePlaces([], n / 100_000, n / 10_000, n / 1_000);
    var all := ThreePlaces(high, n / 100, n / 10, n);
    assert n / 100_000 % 10 == n / 100_000;
    assert all == FormatCode(n);
  }

  /** So different draws give different codes. */
  lemma CodesDiffer(m: nat, n: nat)
    requires m < 1_000_000 && n < 1_000_000 && m != n
    ensures FormatCode(m) != FormatCode(n)
  {
    CodeValue(m);
    CodeValue(n);
  }

  // ---- What parsing and trimming accept ----

  /** `s` is an optional sign and at least one digit, and means `x`. */
  ghost predicate Denotes(s: string, x: int) {
    exists digits: string :: digits != [] && AllDigits(digits)
      && ((s == digits && x == ValueOf(digits)) || (s == "+" + digits && x == ValueOf(digits)) || (s == "-" + digits && x == 0 - ValueOf(digits)))
  }

  /** ParseInt accepts exactly signed decimal numbers that fit 64 bits. */
  lemma ParseMeaning(s: string, x: int)
    ensures ParseInt(s) == Some(x) <==> Denotes(s, x) && -0x8000_0000_0000_0000 <= x <= 0x7FFF_FFFF_FFFF_FFFF
  {
    if ParseInt(s) == Some(x) {
      var digits := if s[0] == '-' || s[0] == '+' then s[1..] else s;
      assert s == digits || s == "+" + digits || s == "-" + digits;
    }
    if Denotes(s, x) {
      var digits: string :| digits != [] && AllDigits(digits)
        && ((s == digits && x == ValueOf(digits)) || (s == "+" + digits && x == ValueOf(digits)) || (s == "-" + digits && x == 0 - ValueOf(digits)));
      assert IsDigit(digits[0]);
      assert s != digits ==> s[1..] == digits;
    }
  }

  lemma {:induction false} TrimLeftSplits(s: string) returns (pad: string)
    ensures Blank(pad) && s == pad + TrimLeft(s)
    ensures TrimLeft(s) != [] ==> !IsSpace(TrimLeft(s)[0])
  {
    pad := [];
    if s != [] && IsSpace(s[0]) {
      var rest := TrimLeftSplits(s[1..]);
      pad := [s[0]] + rest;
      assert s == [s[0]] + s[1..];
    }
  }

  lemma {:induction false} TrimRightSplits(s: string) returns (pad: string)
    ensures Blank(pad) && s == TrimRight(s) + pad
    ensures TrimRight(s) != [] ==> !IsSpace(TrimRight(s)[|TrimRight(s)| - 1])
  {
    pad := [];
    if s != [] && IsSpace(s[|s| - 1]) {
      var rest := TrimRightSplits(s[..|s| - 1]);
      pad := rest + [s[|s| - 1]];
      assert s == s[..|s| - 1] + [s[|s| - 1]];
    }
  }

  /** Trimming takes blanks off both ends and nothing else. */
  lemma TrimMeaning(s: string) returns (left: string, right: string)
    ensures Blank(left) && Blank(right) && s == left + TrimSpace(s) + right
    ensures var t := TrimSpace(s); t != [] ==> !IsSpace(t[0]) && !IsSpace(t[|t| - 1])
  {
    left := TrimLeftSplits(s);
    right := TrimRightSplits(TrimLeft(s));
    assert TrimSpace(s) != [] ==> TrimSpace(s)[0] == TrimLeft(s)[0];
  }
}
