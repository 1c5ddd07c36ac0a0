/** Strings as the sources use them: the relational order of strings, trimming and decimal digits. */
module Text {

  // ----- Order: the relational operators of JavaScript, by code unit -----

  predicate AtOrBefore(a: string, b: string) {
    a == "" || (b != "" && (a[0] < b[0] || (a[0] == b[0] && AtOrBefore(a[1..], b[1..]))))
  }

  predicate Before(a: string, b: string) {
    AtOrBefore(a, b) && a != b
  }

  lemma {:induction false} OrderTotal(a: string, b: string)
    ensures AtOrBefore(a, b) || AtOrBefore(b, a)
  {
    if a != "" && b != "" && a[0] == b[0] {
      OrderTotal(a[1..], b[1..]);
    }
  }

  lemma {:induction false} OrderAntisymmetric(a: string, b: string)
    requires AtOrBefore(a, b) && AtOrBefore(b, a)
    ensures a == b
  {
    if a != "" {
      OrderAntisymmetric(a[1..], b[1..]);
      assert a == [a[0]] + a[1..] && b == [b[0]] + b[1..];
    }
  }

  lemma {:induction false} OrderTransitive(a: string, b: string, c: string)
    requires AtOrBefore(a, b) && AtOrBefore(b, c)
    ensures AtOrBefore(a, c)
  {
    if a != "" && a[0] == b[0] == c[0] {
      OrderTransitive(a[1..], b[1..], c[1..]);
    }
  }

  lemma {:induction false} OrderReflexive(a: string)
    ensures AtOrBefore(a, a)
  {
    if a != "" { OrderReflexive(a[1..]); }
  }

  /** Equal-length fronts decide first, and only a tie leaves the decision to the backs. */
  lemma {:induction false} OrderOfConcat(p: string, r: string, q: string, s: string)
    requires |p| == |q|
    ensures Before(p + r, q + s) <==> Before(p, q) || (p == q && Before(r, s))
  {
    if p == "" {
      assert p + r == r && q + s == s;
    } else {
      OrderOfConcat(p[1..], r, q[1..], s);
      assert (p + r)[1..] == p[1..] + r && (q + s)[1..] == q[1..] + s;
      assert p == [p[0]] + p[1..] && q == [q[0]] + q[1..];
      assert p + r == [p[0]] + (p[1..] + r) && q + s == [q[0]] + (q[1..] + s);
    }
  }

  // ----- Trimming -----

  /** The characters String.prototype.trim removes: white space and line terminators. */
  predicate IsSpace(c: char) {
    c in {'\t', '\n', '\r', ' ', '\U{000B}', '\U{000C}', '\U{00A0}', '\U{1680}', '\U{2028}', '\U{2029}',
          '\U{202F}', '\U{205F}', '\U{3000}', '\U{FEFF}'} ||
    '\U{2000}' <= c <= '\U{200A}'
  }

  function TrimStart(s: string): string {
    if s != "" && IsSpace(s[0]) then TrimStart(s[1..]) else s
  }

  function TrimEnd(s: string): string {
    if s != "" && IsSpace(s[|s| - 1]) then TrimEnd(s[..|s| - 1]) else s
  }

  function Trim(s: string): string {
    TrimEnd(TrimStart(s))
  }

  ghost predicate IsBlank(s: string) {
    forall i :: 0 <= i < |s| ==> IsSpace(s[i])
  }

  lemma {:induction false} TrimStartExactly(s: string) returns (a: string)
    ensures s == a + TrimStart(s) && IsBlank(a)
    ensures TrimStart(s) == "" || !IsSpace(TrimStart(s)[0])
  {
    a := "";
    if s != "" && IsSpace(s[0]) {
      var b := TrimStartExactly(s[1..]);
      a := [s[0]] + b;
      assert s == [s[0]] + s[1..];
    }
  }

  lemma {:induction false} TrimEndExactly(s: string) returns (b: string)
    ensures s == TrimEnd(s) + b && IsBlank(b)
    ensures TrimEnd(s) == "" || !IsSpace(TrimEnd(s)[|TrimEnd(s)| - 1])
  {
    b := "";
    if s != "" && IsSpace(s[|s| - 1]) {
      var a := TrimEndExactly(s[..|s| - 1]);
      b := a + [s[|s| - 1]];
      assert s == s[..|s| - 1] + [s[|s| - 1]];
    }
  }

  /** Trimming takes blanks off both ends and leaves none there. */
  lemma TrimExactly(s: string) returns (a: string, b: string)
    ensures s == a + Trim(s) + b && IsBlank(a) && IsBlank(b)
    ensures Trim(s) == "" || (!IsSpace(Trim(s)[0]) && !IsSpace(Trim(s)[|Trim(s)| - 1]))
  {
    a := TrimStartExactly(s);
    b := TrimEndExactly(TrimStart(s));
    assert TrimStart(s) == Trim(s) + b;
    assert Trim(s) != "" ==> Trim(s)[0] == TrimStart(s)[0];
  }

  lemma TrimsToNothing(s: string)
    ensures Trim(s) == "" <==> IsBlank(s)
  {
    var a, b := TrimExactly(s);
    assert Trim(s) != "" ==> s[|a|] == Trim(s)[0];
  }

  // ----- Decimal digits -----

  predicate IsDigit(c: char) {
    '0' <= c <= '9'
  }

  predicate AllDigits(s: string) {
    forall i :: 0 <= i < |s| ==> IsDigit(s[i])
  }

  function DigitValue(c: char): (d: nat)
    requires IsDigit(c)
    ensures d < 10
  {
    c as int - '0' as int
  }

  function DigitChar(d: nat): (c: char)
    requires d < 10
    ensures IsDigit(c) && DigitValue(c) == d
  {
    ('0' as int + d) as char
  }

  function Number(s: string): nat
    requires AllDigits(s)
  {
    if s == "" then 0 else 10 * Number(s[..|s| - 1]) + DigitValue(s[|s| - 1])
  }

  function Digits(n: nat): (s: string)
    ensures AllDigits(s) && s != ""
  {
    if n < 10 then [DigitChar(n)] else Digits(n / 10) + [DigitChar(n % 10)]
  }

  /** No sign, no leading zero: the shape ^(0|[1-9]\d*)$. */
  predicate IsCanonicalDecimal(s: string) {
    s != "" && AllDigits(s) && (s == "0" || s[0] != '0')
  }

  function Power10(k: nat): (p: nat)
    ensures p >= 1
  {
    if k == 0 then 1 else 10 * Power10(k - 1)
  }

  lemma {:induction false} NumberOfDigits(n: nat)
    ensures Number(Digits(n)) == n
    ensures IsCanonicalDecimal(Digits(n))
    ensures n > 0 ==> Digits(n)[0] != '0'
  {
    if n < 10 {
      assert Digits(n)[..0] == "";
    } else {
      NumberOfDigits(n / 10);
      assert Digits(n)[..|Digits(n)| - 1] == Digits(n / 10);
    }
  }

  lemma {:induction false} NumberBelowPower(s: string)
    requires AllDigits(s)
    ensures Number(s) < Power10(|s|)
  {
    if s != "" { NumberBelowPower(s[..|s| - 1]); }
  }

  lemma {:induction false} NumberAtLeastPower(s: string)
    requires s != "" && AllDigits(s) && s[0] != '0'
    ensures Number(s) >= Power10(|s| - 1)
  {
    if |s| > 1 {
      NumberAtLeastPower(s[..|s| - 1]);
    } else {
      assert s[..0] == "" && DigitValue(s[0]) >= 1;
    }
  }

  lemma {:induction false} PowerMonotone(j: nat, k: nat)
    requires j <= k
    ensures Power10(j) <= Power10(k)
  {
    if j < k { PowerMonotone(j, k - 1); }
  }

  /** The inverse of NumberOfDigits: a canonical decimal is the print of its own value. */
  lemma {:induction false} DigitsOfNumber(s: string)
    requires IsCanonicalDecimal(s)
    ensures Digits(Number(s)) == s
  {
    if |s| == 1 {
      assert s[..0] == "" && Number(s) == DigitValue(s[0]);
      assert s == [s[0]];
    } else {
      var front := s[..|s| - 1];
      DigitsOfNumber(front);
      NumberAtLeastPower(front);
      assert Number(front) >= 1;
      assert Number(s) / 10 == Number(front) && Number(s) % 10 == DigitValue(s[|s| - 1]);
      assert s == front + [s[|s| - 1]];
    }
  }

  /** Reading from the front: the first digit carries the largest power. */
  lemma {:induction false} NumberFromFront(s: string)
    requires s != "" && AllDigits(s)
    ensures Number(s) == DigitValue(s[0]) * Power10(|s| - 1) + Number(s[1..])
  {
    if |s| == 1 {
      assert s[..0] == "" && s[1..] == "";
    } else {
      var front := s[..|s| - 1];
      NumberFromFront(front);
      assert s[1..][..|s| - 2] == front[1..];
    }
  }

  /** The leading digit outweighs everything behind it. */
  lemma LeadingDigitDecides(x: nat, y: nat, p: nat, m: nat, n: nat)
    requires m < p && n < p
    ensures x * p + m < y * p + n <==> x < y || (x == y && m < n)
  {
    if x < y {
      assert (x + 1) * p <= y * p;
    } else if y < x {
      assert (y + 1) * p <= x * p;
    }
  }

  /** On digit strings of one width the string order is the order of the numbers. */
  lemma {:induction false} FixedWidthOrder(a: string, b: string)
    requires AllDigits(a) && AllDigits(b) && |a| == |b|
    ensures Before(a, b) <==> Number(a) < Number(b)
    ensures a == b <==> Number(a) == Number(b)
  {
    if a != "" {
      var p := Power10(|a| - 1);
      FixedWidthOrder(a[1..], b[1..]);
      NumberFromFront(a);
      NumberFromFront(b);
      NumberBelowPower(a[1..]);
      NumberBelowPower(b[1..]);
      LeadingDigitDecides(DigitValue(a[0]), DigitValue(b[0]), p, Number(a[1..]), Number(b[1..]));
      LeadingDigitDecides(DigitValue(b[0]), DigitValue(a[0]), p, Number(b[1..]), Number(a[1..]));
      assert a == [a[0]] + a[1..] && b == [b[0]] + b[1..];
      OrderReflexive(a[1..]);
    }
  }

  // ----- Hexadecimal -----

  ghost predicate IsLowerHex(s: string, n: nat) {
    |s| == n && forall i :: 0 <= i < n ==> s[i] in "0123456789abcdef"
  }

  lemma LowerHexDigit(c: char)
    ensures ('0' <= c <= '9' || 'a' <= c <= 'f') <==> c in "0123456789abcdef"
  {
    var all := "0123456789abcdef";
    assert all[0] == '0' && all[1] == '1' && all[2] == '2' && all[3] == '3' && all[4] == '4' && all[5] == '5';
    assert all[6] == '6' && all[7] == '7' && all[8] == '8' && all[9] == '9' && all[10] == 'a' && all[11] == 'b';
    assert all[12] == 'c' && all[13] == 'd' && all[14] == 'e' && all[15] == 'f';
  }
}
