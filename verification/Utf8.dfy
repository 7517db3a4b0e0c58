/** UTF-8 (section 3 of RFC 3629) and the byte order of `scripts/release-order.ts`.

    A string is a sequence of Unicode scalar values, that is, well formed. */
module Utf8 {
  import opened Bits

  function EncodeChar(c: char): (r: seq<byte>)
    ensures 1 <= |r| <= 4
  {
    var n := c as int;
    if n < 0x80 then [n]
    else if n < 0x800 then [0xC0 + n / 0x40, 0x80 + n % 0x40]
    else if n < 0x1_0000 then [0xE0 + n / 0x1000, 0x80 + n / 0x40 % 0x40, 0x80 + n % 0x40]
    else [0xF0 + n / 0x4_0000, 0x80 + n / 0x1000 % 0x40, 0x80 + n / 0x40 % 0x40, 0x80 + n % 0x40]
  }

  /** The one sequence of section 3 of RFC 3629 for a character number: the range decides how many bytes, the first
      byte (0xxxxxxx, 110xxxxx, 1110xxxx or 11110xxx) tells how many, the others are 10xxxxxx, and the free bits hold
      the number. */
  ghost predicate IsSequenceOf(b: seq<byte>, n: nat) {
    if n <= 0x7F then b == [n]
    else if n <= 0x7FF then |b| == 2 && IsPair(b[0], b[1], n)
    else if n <= 0xFFFF then |b| == 3 && IsTriple(b[0], b[1], b[2], n)
    else n <= 0x10_FFFF && |b| == 4 && IsQuadruple(b[0], b[1], b[2], b[3], n)
  }

  ghost predicate IsPair(a: byte, b: byte, n: nat) {
    a / 32 == 6 && b / 64 == 2 && n == a % 32 * 64 + b % 64
  }

  ghost predicate IsTriple(a: byte, b: byte, c: byte, n: nat) {
    a / 16 == 14 && b / 64 == 2 && c / 64 == 2 && n == a % 16 * 4096 + b % 64 * 64 + c % 64
  }

  ghost predicate IsQuadruple(a: byte, b: byte, c: byte, d: byte, n: nat) {
    && a / 8 == 30 && b / 64 == 2 && c / 64 == 2 && d / 64 == 2
    && n == a % 8 * 262144 + b % 64 * 4096 + c % 64 * 64 + d % 64
  }

  lemma TailBits(x: nat)
    requires x < 64
    ensures (0x80 + x) / 64 == 2 && (0x80 + x) % 64 == x
  {
  }

  lemma LeadBits(x: nat)
    ensures x < 32 ==> (0xC0 + x) / 32 == 6 && (0xC0 + x) % 32 == x
    ensures x < 16 ==> (0xE0 + x) / 16 == 14 && (0xE0 + x) % 16 == x
    ensures x < 8 ==> (0xF0 + x) / 8 == 30 && (0xF0 + x) % 8 == x
  {
  }

  lemma TwoParts(n: nat)
    ensures n == n / 0x40 * 64 + n % 0x40
  {
  }

  lemma Quotients(n: nat)
    ensures n / 0x40 / 0x40 == n / 0x1000
  {
  }

  lemma MoreQuotients(n: nat)
    ensures n / 0x1000 / 0x40 == n / 0x4_0000
  {
  }

  lemma ThreeParts(n: nat)
    ensures n == n / 0x1000 * 4096 + n / 0x40 % 0x40 * 64 + n % 0x40
  {
    Quotients(n);
    TwoParts(n);
    TwoParts(n / 0x40);
  }

  lemma FourParts(n: nat)
    ensures n == n / 0x4_0000 * 262144 + n / 0x1000 % 0x40 * 4096 + n / 0x40 % 0x40 * 64 + n % 0x40
  {
    ThreeParts(n);
    MoreQuotients(n);
    TwoParts(n / 0x1000);
  }

  lemma PairOf(n: nat, x: nat, y: nat)
    requires x < 32 && y < 64 && n == x * 64 + y
    ensures IsPair(0xC0 + x, 0x80 + y, n)
  {
    LeadBits(x);
    TailBits(y);
  }

  lemma TripleOf(n: nat, x: nat, y: nat, z: nat)
    requires x < 16 && y < 64 && z < 64 && n == x * 4096 + y * 64 + z
    ensures IsTriple(0xE0 + x, 0x80 + y, 0x80 + z, n)
  {
    LeadBits(x);
    TailBits(y);
    TailBits(z);
  }

  lemma QuadrupleOf(n: nat, v: nat, x: nat, y: nat, z: nat)
    requires v < 8 && x < 64 && y < 64 && z < 64 && n == v * 262144 + x * 4096 + y * 64 + z
    ensures IsQuadruple(0xF0 + v, 0x80 + x, 0x80 + y, 0x80 + z, n)
  {
    LeadBits(v);
    TailBits(x);
    TailBits(y);
    TailBits(z);
  }

  /** Every character is encoded as section 3 of RFC 3629 says. */
  lemma CharIsSequence(c: char)
    ensures IsSequenceOf(EncodeChar(c), c as int)
  {
    var n := c as int;
    if 0x80 <= n < 0x800 {
      TwoParts(n);
      PairOf(n, n / 0x40, n % 0x40);
    } else if 0x800 <= n < 0x1_0000 {
      ThreeParts(n);
      TripleOf(n, n / 0x1000, n / 0x40 % 0x40, n % 0x40);
    } else if n >= 0x1_0000 {
      FourParts(n);
      QuadrupleOf(n, n / 0x4_0000, n / 0x1000 % 0x40, n / 0x40 % 0x40, n % 0x40);
    }
  }

  function Encode(s: string): (r: seq<byte>)
    ensures |r| >= |s|
  {
    if s == "" then [] else EncodeChar(s[0]) + Encode(s[1..])
  }

  lemma {:induction false} EncodeConcat(s: string, t: string)
    ensures Encode(s + t) == Encode(s) + Encode(t)
  {
    if s == "" {
      assert s + t == t;
    } else {
      assert (s + t)[1..] == s[1..] + t;
      EncodeConcat(s[1..], t);
    }
  }

  // ---------------------------------------------------------------- byte comparison

  /** Order of two byte buffers: the first difference decides, then the length. */
  function Compare(a: seq<byte>, b: seq<byte>): (r: int)
    ensures r in {-1, 0, 1}
    decreases |a|
  {
    if a == [] then (if b == [] then 0 else -1)
    else if b == [] then 1
    else if a[0] < b[0] then -1
    else if a[0] > b[0] then 1
    else Compare(a[1..], b[1..])
  }

  /** The program's string order. */
  function CompareUtf8Bytes(left: string, right: string): (r: int)
    ensures r in {-1, 0, 1}
  {
    Compare(Encode(left), Encode(right))
  }

  /** Lexicographic order of the code points themselves. */
  function CompareCodePoints(s: string, t: string): (r: int)
    ensures r in {-1, 0, 1}
    decreases |s|
  {
    if s == "" then (if t == "" then 0 else -1)
    else if t == "" then 1
    else if s[0] < t[0] then -1
    else if s[0] > t[0] then 1
    else CompareCodePoints(s[1..], t[1..])
  }

  lemma {:induction false} CompareAt(a: seq<byte>, b: seq<byte>, k: nat)
    requires k < |a| && k < |b| && a[..k] == b[..k] && a[k] < b[k]
    ensures Compare(a, b) == -1
    ensures Compare(b, a) == 1
    decreases k
  {
    if k == 0 {
    } else {
      assert a[0] == a[..k][0] == b[..k][0] == b[0];
      assert a[1..][..k - 1] == a[..k][1..] == b[..k][1..] == b[1..][..k - 1];
      CompareAt(a[1..], b[1..], k - 1);
    }
  }

  lemma {:induction false} CompareAfterPrefix(p: seq<byte>, a: seq<byte>, b: seq<byte>)
    ensures Compare(p + a, p + b) == Compare(a, b)
  {
    if p == [] {
      assert p + a == a && p + b == b;
    } else {
      assert (p + a)[1..] == p[1..] + a;
      assert (p + b)[1..] == p[1..] + b;
      CompareAfterPrefix(p[1..], a, b);
    }
  }

  /** Base-64 digits decide an order from the highest down. */
  lemma DigitSplit(m: nat, n: nat)
    requires m < n
    ensures m / 0x40 < n / 0x40 || (m / 0x40 == n / 0x40 && m % 0x40 < n % 0x40)
  {
  }

  lemma ThreeDigits(m: nat, n: nat)
    requires m < n
    ensures var m1, n1 := m / 0x40, n / 0x40;
            || m / 0x1000 < n / 0x1000
            || (m / 0x1000 == n / 0x1000 && m1 % 0x40 < n1 % 0x40)
            || (m / 0x1000 == n / 0x1000 && m1 % 0x40 == n1 % 0x40 && m % 0x40 < n % 0x40)
  {
    var m1, n1 := m / 0x40, n / 0x40;
    DigitSplit(m, n);
    if m1 < n1 {
      DigitSplit(m1, n1);
    }
    assert m1 / 0x40 == m / 0x1000 && n1 / 0x40 == n / 0x1000;
  }

  lemma FourDigits(m: nat, n: nat)
    requires m < n
    ensures var m1, n1, m2, n2 := m / 0x40, n / 0x40, m / 0x1000, n / 0x1000;
            || m / 0x4_0000 < n / 0x4_0000
            || (m / 0x4_0000 == n / 0x4_0000 && m2 % 0x40 < n2 % 0x40)
            || (m / 0x4_0000 == n / 0x4_0000 && m2 % 0x40 == n2 % 0x40 && m1 % 0x40 < n1 % 0x40)
            || (m / 0x4_0000 == n / 0x4_0000 && m2 % 0x40 == n2 % 0x40 && m1 % 0x40 == n1 % 0x40 && m % 0x40 < n % 0x40)
  {
    var m2, n2 := m / 0x1000, n / 0x1000;
    ThreeDigits(m, n);
    if m2 < n2 {
      DigitSplit(m2, n2);
    }
    assert m2 / 0x40 == m / 0x4_0000 && n2 / 0x40 == n / 0x4_0000;
  }

  ghost predicate DifferAt(a: seq<byte>, b: seq<byte>, k: nat) {
    k < |a| && k < |b| && a[..k] == b[..k] && a[k] < b[k]
  }

  lemma FirstBytes(c: char, d: char)
    requires |EncodeChar(c)| < |EncodeChar(d)|
    ensures DifferAt(EncodeChar(c), EncodeChar(d), 0)
  {
  }

  lemma LengthsGrow(c: char, d: char)
    requires c < d
    ensures |EncodeChar(c)| <= |EncodeChar(d)|
  {
  }

  /** The encodings of two different characters differ first in the right direction. */
  lemma CharsDiffer(c: char, d: char) returns (k: nat)
    requires c < d
    ensures DifferAt(EncodeChar(c), EncodeChar(d), k)
  {
    var m, n := c as int, d as int;
    var a, b := EncodeChar(c), EncodeChar(d);
    LengthsGrow(c, d);
    if |a| < |b| || |a| == 1 {
      k := 0;
      if |a| < |b| {
        FirstBytes(c, d);
      }
    } else if |a| == 2 {
      DigitSplit(m, n);
      k := if a[0] < b[0] then 0 else 1;
    } else if |a| == 3 {
      ThreeDigits(m, n);
      k := if a[0] < b[0] then 0 else if a[1] < b[1] then 1 else 2;
    } else {
      FourDigits(m, n);
      k := if a[0] < b[0] then 0 else if a[1] < b[1] then 1 else if a[2] < b[2] then 2 else 3;
    }
  }

  lemma CharOrder(c: char, d: char, x: seq<byte>, y: seq<byte>)
    requires c < d
    ensures Compare(EncodeChar(c) + x, EncodeChar(d) + y) == -1
    ensures Compare(EncodeChar(d) + y, EncodeChar(c) + x) == 1
  {
    var k := CharsDiffer(c, d);
    var a, b := EncodeChar(c), EncodeChar(d);
    assert (a + x)[..k] == a[..k] && (b + y)[..k] == b[..k];
    CompareAt(a + x, b + y, k);
  }

  /** Byte order of the encodings is code-point order of the strings (section 1 of RFC 3629). */
  lemma {:induction false} ByteOrderIsCodePointOrder(s: string, t: string)
    ensures CompareUtf8Bytes(s, t) == CompareCodePoints(s, t)
    decreases |s|
  {
    if s == "" || t == "" {
      assert Encode("") == [];
    } else if s[0] == t[0] {
      CompareAfterPrefix(EncodeChar(s[0]), Encode(s[1..]), Encode(t[1..]));
      ByteOrderIsCodePointOrder(s[1..], t[1..]);
    } else if s[0] < t[0] {
      CharOrder(s[0], t[0], Encode(s[1..]), Encode(t[1..]));
    } else {
      CharOrder(t[0], s[0], Encode(t[1..]), Encode(s[1..]));
    }
  }

  lemma {:induction false} CodePointsTotal(s: string, t: string)
    ensures CompareCodePoints(s, t) == 0 <==> s == t
    ensures CompareCodePoints(s, t) == -CompareCodePoints(t, s)
    decreases |s|
  {
    if s == "" || t == "" {
    } else {
      CodePointsTotal(s[1..], t[1..]);
      assert s == [s[0]] + s[1..] && t == [t[0]] + t[1..];
    }
  }

  lemma {:induction false} CodePointsTransitive(s: string, t: string, u: string)
    requires CompareCodePoints(s, t) <= 0 && CompareCodePoints(t, u) <= 0
    ensures CompareCodePoints(s, u) <= 0
    ensures CompareCodePoints(s, u) == 0 ==> CompareCodePoints(s, t) == 0
    decreases |s|
  {
    if s != "" && t != "" && u != "" && s[0] == t[0] == u[0] {
      CodePointsTransitive(s[1..], t[1..], u[1..]);
    }
  }

  /** The program's string order is total, and ties only equal strings. */
  lemma OrderIsTotal(s: string, t: string)
    ensures CompareUtf8Bytes(s, t) == 0 <==> s == t
    ensures CompareUtf8Bytes(s, t) == -CompareUtf8Bytes(t, s)
  {
    ByteOrderIsCodePointOrder(s, t);
    ByteOrderIsCodePointOrder(t, s);
    CodePointsTotal(s, t);
  }

  lemma OrderIsTransitive(s: string, t: string, u: string)
    requires CompareUtf8Bytes(s, t) <= 0 && CompareUtf8Bytes(t, u) <= 0
    ensures CompareUtf8Bytes(s, u) <= 0
    ensures CompareUtf8Bytes(s, u) == 0 ==> s == t && t == u
  {
    ByteOrderIsCodePointOrder(s, t);
    ByteOrderIsCodePointOrder(t, u);
    ByteOrderIsCodePointOrder(s, u);
    CodePointsTransitive(s, t, u);
    CodePointsTotal(s, t);
    CodePointsTotal(s, u);
  }

  /** The encoding loses nothing. */
  lemma EncodeInjective(s: string, t: string)
    requires Encode(s) == Encode(t)
    ensures s == t
  {
    CompareAfterPrefix(Encode(s), [], []);
    assert Encode(s) + [] == Encode(s);
    assert CompareUtf8Bytes(s, t) == Compare(Encode(s) + [], Encode(s) + []);
    OrderIsTotal(s, t);
  }
}
