/** Printing and parsing of natural numbers, and how string order relates to numeric order. */
module Decimal {
  import opened Common

  predicate IsDigit(c: char) {
    '0' <= c <= '9'
  }

  predicate AllDigits(s: string) {
    forall i :: 0 <= i < |s| ==> IsDigit(s[i])
  }

  function DigitChar(d: nat): (c: char)
    requires d < 10
    ensures IsDigit(c) && DigitValue(c) == d
  {
    "0123456789"[d]
  }

  function DigitValue(c: char): int {
    c as int - '0' as int
  }

  function Print(n: nat): (s: string)
    ensures AllDigits(s) && s != []
  {
    if n < 10 then [DigitChar(n)] else Print(n / 10) + [DigitChar(n % 10)]
  }

  function Zeros(k: nat): string {
    if k == 0 then [] else ['0'] + Zeros(k - 1)
  }

  /** Left-padded with zeros to `width`, wider when the number needs it. */
  function Padded(n: nat, width: nat): string {
    var s := Print(n);
    if |s| < width then Zeros(width - |s|) + s else s
  }

  function Parse(s: string): nat
    requires AllDigits(s)
  {
    if s == [] then 0 else Parse(s[..|s| - 1]) * 10 + DigitValue(s[|s| - 1])
  }

  lemma {:induction false} ParsePrint(n: nat)
    ensures Parse(Print(n)) == n
  {
    if n < 10 {
    } else {
      ParsePrint(n / 10);
      assert Print(n)[..|Print(n)| - 1] == Print(n / 10);
    }
  }

  lemma {:induction false} ParseZeros(k: nat, s: string)
    requires AllDigits(s)
    ensures AllDigits(Zeros(k) + s) && Parse(Zeros(k) + s) == Parse(s)
    decreases |s|, k
  {
    ZerosSnoc(k);
    if s == [] {
      assert Zeros(k) + s == Zeros(k);
      if k > 0 {
        ParseZeros(k - 1, s);
        assert Zeros(k - 1) + s == Zeros(k - 1);
        ZerosSnoc(k - 1);
      }
    } else {
      assert (Zeros(k) + s)[..|Zeros(k) + s| - 1] == Zeros(k) + s[..|s| - 1];
      ParseZeros(k, s[..|s| - 1]);
    }
  }

  lemma {:induction false} ZerosSnoc(k: nat)
    ensures Zeros(k + 1) == Zeros(k) + ['0'] && |Zeros(k)| == k && AllDigits(Zeros(k))
  {
    if k == 0 {
    } else {
      ZerosSnoc(k - 1);
    }
  }

  lemma DigitsAfterZeros(k: nat, s: string)
    requires AllDigits(s)
    ensures AllDigits(Zeros(k) + s) && |Zeros(k) + s| == k + |s|
  {
    ZerosSnoc(k);
  }

  lemma PaddedDigits(n: nat, width: nat)
    ensures AllDigits(Padded(n, width)) && |Padded(n, width)| >= width
  {
    if |Print(n)| < width { DigitsAfterZeros(width - |Print(n)|, Print(n)); }
  }

  /** Printing and parsing are inverse, padding included. */
  lemma ParsePadded(n: nat, width: nat)
    ensures AllDigits(Padded(n, width)) && Parse(Padded(n, width)) == n
  {
    PaddedDigits(n, width);
    ParsePrint(n);
    if |Print(n)| < width { ParseZeros(width - |Print(n)|, Print(n)); }
  }

  lemma {:induction false} SnocOrder(a: string, b: string, x: char, y: char)
    requires |a| == |b|
    ensures StringLess(a + [x], b + [y]) <==> StringLess(a, b) || (a == b && x < y)
  {
    if a == [] {
      assert (a + [x])[1..] == [] && (b + [y])[1..] == [];
    } else {
      assert (a + [x])[1..] == a[1..] + [x] && (b + [y])[1..] == b[1..] + [y];
      SnocOrder(a[1..], b[1..], x, y);
      assert a == [a[0]] + a[1..] && b == [b[0]] + b[1..];
    }
  }

  /** Among digit strings of one length, string order is numeric order. */
  lemma {:induction false} OrdersAgree(a: string, b: string)
    requires |a| == |b| && AllDigits(a) && AllDigits(b)
    ensures StringLess(a, b) <==> Parse(a) < Parse(b)
    ensures a == b <==> Parse(a) == Parse(b)
  {
    if a == [] {
    } else {
      var a', b', x, y := a[..|a| - 1], b[..|b| - 1], a[|a| - 1], b[|b| - 1];
      assert a == a' + [x] && b == b' + [y];
      OrdersAgree(a', b');
      SnocOrder(a', b', x, y);
      assert 0 <= DigitValue(x) <= 9 && 0 <= DigitValue(y) <= 9;
    }
  }

  lemma PrintInjective(m: nat, n: nat)
    ensures Print(m) == Print(n) <==> m == n
  {
    ParsePrint(m);
    ParsePrint(n);
  }

  lemma {:induction false} CommonPrefixOrder(p: string, a: string, b: string)
    ensures StringLess(p + a, p + b) <==> StringLess(a, b)
  {
    if p == [] {
      assert p + a == a && p + b == b;
    } else {
      assert (p + a)[1..] == p[1..] + a && (p + b)[1..] == p[1..] + b;
      CommonPrefixOrder(p[1..], a, b);
    }
  }

  lemma {:induction false} StringOrderIsTotal(a: string, b: string)
    ensures a == b || StringLess(a, b) || StringLess(b, a)
    ensures !(StringLess(a, b) && StringLess(b, a))
    ensures a == b ==> !StringLess(a, b)
  {
    if a == [] || b == [] {
    } else {
      StringOrderIsTotal(a[1..], b[1..]);
      assert a == [a[0]] + a[1..] && b == [b[0]] + b[1..];
    }
  }

  lemma {:induction false} StringOrderIsTransitive(a: string, b: string, c: string)
    requires StringLess(a, b) && StringLess(b, c)
    ensures StringLess(a, c)
  {
    if a != [] && a[0] == b[0] == c[0] {
      StringOrderIsTransitive(a[1..], b[1..], c[1..]);
    }
  }

  /** Two colon-free heads followed by a colon can be read back; so can two colon-free tails. */
  lemma SplitFirst(sep: char, a: string, x: string, b: string, y: string)
    requires sep !in a && sep !in b && a + ([sep] + x) == b + ([sep] + y)
    ensures a == b && x == y
  {
    var whole := a + ([sep] + x);
    assert forall k :: 0 <= k < |a| ==> whole[k] == a[k] && whole[k] != sep;
    assert forall k :: 0 <= k < |b| ==> whole[k] == b[k] && whole[k] != sep;
    assert whole[|a|] == sep && whole[|b|] == sep;
    assert a == whole[..|a|] && b == whole[..|b|];
    assert x == whole[|a| + 1..] && y == whole[|b| + 1..];
  }

  lemma SplitLast(sep: char, x: string, a: string, y: string, b: string)
    requires sep !in a && sep !in b && x + ([sep] + a) == y + ([sep] + b)
    ensures a == b && x == y
  {
    var whole := x + ([sep] + a);
    assert |whole| == |x| + 1 + |a| == |y| + 1 + |b|;
    assert forall k :: |x| < k < |whole| ==> whole[k] == a[k - |x| - 1] && whole[k] != sep;
    assert forall k :: |y| < k < |whole| ==> whole[k] == b[k - |y| - 1] && whole[k] != sep;
    assert whole[|x|] == sep && whole[|y|] == sep;
    assert x == whole[..|x|] && y == whole[..|y|];
    assert a == whole[|x| + 1..] && b == whole[|y| + 1..];
  }
}
