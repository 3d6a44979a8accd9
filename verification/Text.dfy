/**
 Text as the sort keys and identifier seeds of the repository use it: a string is compared
 character by character, numbers are rendered in decimal, and '|' separates fields.
 One `char` stands for one code unit of the source language's string.
 */
module Text {

  // ---------- Comparing strings ----------

  /** `a < b` on strings: the first differing code unit decides, a proper prefix comes first. */
  predicate Less(a: string, b: string) {
    b != [] && (a == [] || a[0] < b[0] || (a[0] == b[0] && Less(a[1..], b[1..])))
  }

  /** One string is the beginning of the other. */
  predicate PrefixRelated(a: string, b: string) {
    a <= b || b <= a
  }

  lemma {:induction false} LessIrreflexive(a: string)
    ensures !Less(a, a)
  {
    if a != [] {
      LessIrreflexive(a[1..]);
    }
  }

  lemma {:induction false} LessTransitive(a: string, b: string, c: string)
    requires Less(a, b) && Less(b, c)
    ensures Less(a, c)
  {
    if a != [] && a[0] == b[0] && b[0] == c[0] {
      LessTransitive(a[1..], b[1..], c[1..]);
    }
  }

  /** Exactly one of `a < b`, `a == b`, `b < a`. */
  lemma {:induction false} LessTrichotomy(a: string, b: string)
    ensures a == b ==> !Less(a, b) && !Less(b, a)
    ensures a != b ==> (Less(a, b) <==> !Less(b, a))
  {
    if a == b {
      LessIrreflexive(a);
    } else if a != [] && b != [] && a[0] == b[0] {
      assert a == [a[0]] + a[1..] && b == [b[0]] + b[1..];
      LessTrichotomy(a[1..], b[1..]);
    }
  }

  /** A common beginning does not matter. */
  lemma {:induction false} LessAfterCommonPrefix(p: string, a: string, b: string)
    ensures Less(p + a, p + b) <==> Less(a, b)
  {
    if p == [] {
      assert p + a == a && p + b == b;
    } else {
      assert (p + a)[1..] == p[1..] + a && (p + b)[1..] == p[1..] + b;
      LessAfterCommonPrefix(p[1..], a, b);
    }
  }

  /** What follows does not matter once neither string is the beginning of the other. */
  lemma {:induction false} LessDecidedEarly(a: string, x: string, b: string, y: string)
    requires !PrefixRelated(a, b)
    ensures Less(a + x, b + y) <==> Less(a, b)
  {
    assert a != [] && b != [];
    assert (a + x)[0] == a[0] && (b + y)[0] == b[0];
    if a[0] == b[0] {
      assert (a + x)[1..] == a[1..] + x && (b + y)[1..] == b[1..] + y;
      assert a == [a[0]] + a[1..] && b == [b[0]] + b[1..];
      LessDecidedEarly(a[1..], x, b[1..], y);
    }
  }

  /** Strings of equal length are prefix related only when they are equal. */
  lemma EqualLengthPrefix(a: string, b: string)
    requires |a| == |b|
    ensures PrefixRelated(a, b) <==> a == b
  {
  }

  // ---------- Decimal numerals ----------

  predicate IsDigit(c: char) { '0' <= c <= '9' }

  predicate AllDigits(s: string) { forall i :: 0 <= i < |s| ==> IsDigit(s[i]) }

  function DigitChar(d: nat): (c: char)
    requires d < 10
    ensures IsDigit(c) && c as int == '0' as int + d
  {
    '0' + d as char
  }

  /** The decimal rendering of a natural number. */
  function Decimal(n: nat): (s: string)
    ensures s != [] && AllDigits(s)
  {
    if n < 10 then [DigitChar(n)] else Decimal(n / 10) + [DigitChar(n % 10)]
  }

  /** The number a string of digits denotes. */
  function NumberOf(s: string): nat
    requires AllDigits(s)
  {
    if s == [] then 0
    else 10 * NumberOf(s[..|s| - 1]) + (s[|s| - 1] as int - '0' as int)
  }

  lemma {:induction false} NumberOfDecimal(n: nat)
    ensures NumberOf(Decimal(n)) == n
  {
    if n >= 10 {
      var s := Decimal(n);
      assert s[..|s| - 1] == Decimal(n / 10);
      NumberOfDecimal(n / 10);
    }
  }

  /** 10 to the power k. */
  function PowerOfTen(k: nat): (p: nat)
    ensures p >= 1
  {
    if k == 0 then 1 else 10 * PowerOfTen(k - 1)
  }

  lemma {:induction false} DecimalLength(n: nat, k: nat)
    requires k >= 1 && n < PowerOfTen(k)
    ensures |Decimal(n)| <= k
  {
    if n >= 10 {
      assert PowerOfTen(1) == 10 * PowerOfTen(0);
      DecimalLength(n / 10, k - 1);
    }
  }

  /** `padStart(width, '0')`: zeros in front until the width is reached, never a cut. */
  function ZeroPad(s: string, width: nat): (r: string)
    ensures |r| == if |s| >= width then |s| else width
    ensures AllDigits(s) ==> AllDigits(r)
    decreases width - |s|
  {
    if |s| >= width then s else ZeroPad("0" + s, width)
  }

  lemma {:induction false} LeadingZero(s: string)
    requires AllDigits(s)
    ensures NumberOf("0" + s) == NumberOf(s)
  {
    var z := "0" + s;
    if s == [] {
      assert z[..|z| - 1] == [];
    } else {
      assert z[..|z| - 1] == "0" + s[..|s| - 1];
      LeadingZero(s[..|s| - 1]);
    }
  }

  lemma {:induction false} NumberOfZeroPad(s: string, width: nat)
    requires AllDigits(s)
    ensures NumberOf(ZeroPad(s, width)) == NumberOf(s)
    decreases width - |s|
  {
    if |s| < width {
      LeadingZero(s);
      NumberOfZeroPad("0" + s, width);
    }
  }

  /** Numerals of equal length compare as strings exactly as their numbers do. */
  lemma {:induction false} EqualLengthNumerals(s: string, t: string)
    requires AllDigits(s) && AllDigits(t) && |s| == |t|
    ensures Less(s, t) <==> NumberOf(s) < NumberOf(t)
    ensures s == t <==> NumberOf(s) == NumberOf(t)
  {
    if s != [] {
      var k := |s| - 1;
      var (p, q) := (s[..k], t[..k]);
      assert s == p + [s[k]] && t == q + [t[k]];
      EqualLengthNumerals(p, q);
      if p == q {
        LessAfterCommonPrefix(p, [s[k]], [t[k]]);
      } else {
        EqualLengthPrefix(p, q);
        LessDecidedEarly(p, [s[k]], q, [t[k]]);
      }
    }
  }

  // ---------- Fields separated by '|' ----------

  predicate BarFree(s: string) { forall k :: 0 <= k < |s| ==> s[k] != '|' }

  /** The position of the first '|', or the length when there is none. */
  function FirstBar(s: string): (i: nat)
    ensures i <= |s| && (i < |s| ==> s[i] == '|')
    ensures forall k :: 0 <= k < i ==> s[k] != '|'
  {
    if s == [] || s[0] == '|' then 0 else 1 + FirstBar(s[1..])
  }

  /** The position just after the last '|', or 0 when there is none. */
  function AfterLastBar(s: string): (i: nat)
    ensures i <= |s| && (i > 0 ==> s[i - 1] == '|')
    ensures forall k :: i <= k < |s| ==> s[k] != '|'
  {
    if s == [] || s[|s| - 1] == '|' then |s| else AfterLastBar(s[..|s| - 1])
  }

  lemma FirstBarUnique(head: string, rest: string)
    requires BarFree(head)
    ensures FirstBar(head + "|" + rest) == |head|
  {
    var s := head + "|" + rest;
    assert s[|head|] == '|';
    assert forall k :: 0 <= k < |head| ==> s[k] == head[k];
  }

  lemma {:induction false} LastBarAt(s: string, j: nat)
    requires 0 < j <= |s| && s[j - 1] == '|'
    requires forall k :: j <= k < |s| ==> s[k] != '|'
    ensures AfterLastBar(s) == j
  {
    if j < |s| {
      LastBarAt(s[..|s| - 1], j);
    }
  }

  lemma AfterLastBarUnique(front: string, tail: string)
    requires BarFree(tail)
    ensures AfterLastBar(front + "|" + tail) == |front| + 1
  {
    LastBarAt(front + "|" + tail, |front| + 1);
  }
}
