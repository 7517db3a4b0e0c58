/** The CRC-32 of `scripts/release-gzip.ts`: a 256-entry table, a byte-at-a-time update over it, and
    the definition they implement, the remainder of a polynomial division over GF(2). */
module Crc32 {
  import opened Bits

  /** The reflected polynomial of the table's inner loop. */
  const POLY: seq<bool> := Of(0xedb88320, 32)

  // ---------------------------------------------------------------- the register, bit by bit

  /** One turn of the table's inner loop: shift right, folding the polynomial in when a one falls out. */
  function Step(poly: seq<bool>, w: seq<bool>): (r: seq<bool>)
    requires |poly| == |w| == 32
    ensures |r| == 32
  {
    var shifted := w[1..] + [false];
    if w[0] then Xor(poly, shifted) else shifted
  }

  function Steps(poly: seq<bool>, w: seq<bool>, n: nat): (r: seq<bool>)
    requires |poly| == |w| == 32
    ensures |r| == 32
    decreases n, w
  {
    if n == 0 then w else Steps(poly, Step(poly, w), n - 1)
  }

  /** The register after taking in one message bit. */
  function FeedBit(poly: seq<bool>, w: seq<bool>, bit: bool): (r: seq<bool>)
    requires |poly| == |w| == 32
    ensures |r| == 32
  {
    Step(poly, [w[0] != bit] + w[1..])
  }

  /** The simple form: the register after taking in message bits one at a time. */
  function Feed(poly: seq<bool>, w: seq<bool>, bits: seq<bool>): (r: seq<bool>)
    requires |poly| == |w| == 32
    ensures |r| == 32
    decreases |bits|
  {
    if bits == [] then w else Feed(poly, FeedBit(poly, w, bits[0]), bits[1..])
  }

  /** CRC-32 of a byte string: all-ones start, all bits of all bytes, final complement. */
  function Crc(poly: seq<bool>, data: seq<byte>): (r: seq<bool>)
    requires |poly| == 32
    ensures |r| == 32
  {
    Xor(Feed(poly, Ones(32), OfBytes(data)), Ones(32))
  }

  // ---------------------------------------------------------------- the step is linear

  lemma StepLinear(poly: seq<bool>, a: seq<bool>, b: seq<bool>)
    requires |poly| == |a| == |b| == 32
    ensures Step(poly, Xor(a, b)) == Xor(Step(poly, a), Step(poly, b))
  {
    var c := Xor(a, b);
    assert c[1..] + [false] == Xor(a[1..] + [false], b[1..] + [false]);
  }

  lemma {:induction false} StepsLinear(poly: seq<bool>, a: seq<bool>, b: seq<bool>, n: nat)
    requires |poly| == |a| == |b| == 32
    ensures Steps(poly, Xor(a, b), n) == Xor(Steps(poly, a, n), Steps(poly, b, n))
    decreases n
  {
    if n == 0 {
    } else {
      StepLinear(poly, a, b);
      StepsLinear(poly, Step(poly, a), Step(poly, b), n - 1);
    }
  }

  /** While only zeros fall out, the steps are plain shifts. */
  lemma {:induction false} StepsShift(poly: seq<bool>, w: seq<bool>, n: nat)
    requires |poly| == |w| == 32 && n <= 32 && w[..n] == Zeros(n)
    ensures Steps(poly, w, n) == w[n..] + Zeros(n)
    decreases n
  {
    if n == 0 {
    } else {
      assert !w[..n][0];
      var s := w[1..] + [false];
      assert s[..n - 1] == w[..n][1..] == Zeros(n - 1);
      StepsShift(poly, s, n - 1);
      assert s[n - 1..] == w[n..] + [false];
      assert [false] + Zeros(n - 1) == Zeros(n);
      assert w[n..] + [false] + Zeros(n - 1) == w[n..] + ([false] + Zeros(n - 1));
    }
  }

  lemma FeedFirst(poly: seq<bool>, w: seq<bool>, bits: seq<bool>)
    requires |poly| == |w| == 32 && 0 < |bits| <= 32
    ensures Step(poly, Xor(w, bits + Zeros(32 - |bits|)))
         == Xor(FeedBit(poly, w, bits[0]), bits[1..] + Zeros(32 - |bits[1..]|))
  {
    var pad := Zeros(32 - |bits|);
    var first := [w[0] != bits[0]] + w[1..];
    var later := [false] + bits[1..] + pad;
    assert Xor(w, bits + pad) == Xor(first, later);
    StepLinear(poly, first, later);
    assert Step(poly, later) == bits[1..] + Zeros(32 - |bits[1..]|);
  }

  /** Taking in n bits one at a time is the same as folding them all in first and stepping n times. */
  lemma {:induction false} FeedIsSteps(poly: seq<bool>, w: seq<bool>, bits: seq<bool>)
    requires |poly| == |w| == 32 && |bits| <= 32
    ensures Feed(poly, w, bits) == Steps(poly, Xor(w, bits + Zeros(32 - |bits|)), |bits|)
    decreases |bits|
  {
    if bits == [] {
      assert Xor(w, Zeros(32)) == w;
    } else {
      FeedFirst(poly, w, bits);
      FeedIsSteps(poly, FeedBit(poly, w, bits[0]), bits[1..]);
    }
  }

  lemma {:induction false} FeedConcat(poly: seq<bool>, w: seq<bool>, a: seq<bool>, b: seq<bool>)
    requires |poly| == |w| == 32
    ensures Feed(poly, w, a + b) == Feed(poly, Feed(poly, w, a), b)
    decreases |a|
  {
    if a == [] {
      assert a + b == b;
    } else {
      assert (a + b)[1..] == a[1..] + b;
      FeedConcat(poly, FeedBit(poly, w, a[0]), a[1..], b);
    }
  }

  // ---------------------------------------------------------------- the table

  /** The table's entry for a byte value: eight steps. */
  function Entry(poly: seq<bool>, index: nat): (r: seq<bool>)
    requires |poly| == 32
    ensures |r| == 32
  {
    Steps(poly, Of(index, 32), 8)
  }

  ghost predicate IsTable(poly: seq<bool>, table: seq<seq<bool>>)
    requires |poly| == 32
  {
    |table| == 256 && forall i :: 0 <= i < 256 ==> table[i] == Entry(poly, i)
  }

  /** Fills the table, eight steps per entry. */
  method BuildTable(poly: seq<bool>) returns (table: array<seq<bool>>)
    requires |poly| == 32
    ensures fresh(table)
    ensures IsTable(poly, table[..])
  {
    table := new seq<bool>[256];
    for index := 0 to table.Length
      invariant forall i :: 0 <= i < index ==> table[i] == Entry(poly, i)
    {
      var value := EightSteps(poly, index);
      table[index] := value;
    }
  }

  /** The inner loop: one entry of the table. */
  method EightSteps(poly: seq<bool>, index: nat) returns (value: seq<bool>)
    requires |poly| == 32
    ensures value == Entry(poly, index)
  {
    value := Of(index, 32);
    ghost var start := value;
    for bit := 0 to 8
      invariant |value| == 32
      invariant Steps(poly, value, 8 - bit) == Steps(poly, start, 8)
    {
      value := if value[0] then Xor(poly, value[1..] + [false]) else value[1..] + [false];
    }
  }

  /** The value whose table entry a byte selects: its digits, then 24 zeros. */
  lemma TableEntry(poly: seq<bool>, table: seq<seq<bool>>, low: seq<bool>)
    requires |poly| == 32 && IsTable(poly, table) && |low| == 8
    ensures Value(low) < 256
    ensures table[Value(low)] == Steps(poly, low + Zeros(24), 8)
  {
    ValueBound(low);
    Pow2Values();
    OfHigh(Value(low), 8, 24);
    OfValue(low);
  }

  /** The fast step: one lookup for the low byte, one shift for the rest, equals eight bit steps. */
  lemma TableStep(poly: seq<bool>, table: seq<seq<bool>>, w: seq<bool>)
    requires |poly| == 32 && IsTable(poly, table) && |w| == 32
    ensures Value(w[..8]) < 256
    ensures |table[Value(w[..8])]| == 32
    ensures Xor(table[Value(w[..8])], w[8..] + Zeros(8)) == Steps(poly, w, 8)
  {
    var low, high := w[..8] + Zeros(24), Zeros(8) + w[8..];
    assert w == Xor(low, high);
    StepsLinear(poly, low, high, 8);
    StepsShift(poly, high, 8);
    assert high[8..] == w[8..];
    TableEntry(poly, table, w[..8]);
  }

  lemma ByteDigits(b: byte)
    ensures Of(b, 32) == Of(b, 8) + Zeros(24)
  {
    Pow2Values();
    OfHigh(b, 8, 24);
  }

  lemma FeedByte(poly: seq<bool>, table: seq<seq<bool>>, w: seq<bool>, digits: seq<bool>)
    requires |poly| == 32 && IsTable(poly, table) && |w| == 32 && |digits| == 8
    ensures var mixed := Xor(w, digits + Zeros(24));
            && Value(mixed[..8]) < 256
            && |table[Value(mixed[..8])]| == 32
            && Xor(table[Value(mixed[..8])], w[8..] + Zeros(8)) == Feed(poly, w, digits)
  {
    var mixed := Xor(w, digits + Zeros(24));
    FeedIsSteps(poly, w, digits);
    assert mixed[8..] == w[8..];
    TableStep(poly, table, mixed);
  }

  lemma FeedSnoc(poly: seq<bool>, w: seq<bool>, bytes: seq<byte>, b: byte)
    requires |poly| == |w| == 32
    ensures Feed(poly, w, OfBytes(bytes + [b])) == Feed(poly, Feed(poly, w, OfBytes(bytes)), Of(b, 8))
  {
    OfBytesConcat(bytes, [b]);
    assert OfBytes([b]) == Of(b, 8);
    FeedConcat(poly, w, OfBytes(bytes), Of(b, 8));
  }

  /** The register can be carried from one chunk to the next. */
  lemma FeedChunks(poly: seq<bool>, w: seq<bool>, a: seq<byte>, b: seq<byte>)
    requires |poly| == |w| == 32
    ensures Feed(poly, Feed(poly, w, OfBytes(a)), OfBytes(b)) == Feed(poly, w, OfBytes(a + b))
  {
    OfBytesConcat(a, b);
    FeedConcat(poly, w, OfBytes(a), OfBytes(b));
  }

  /** One turn of the loop takes in the byte's eight bits. */
  lemma UpdateStep(poly: seq<bool>, table: seq<seq<bool>>, w: seq<bool>, b: byte, mixed: seq<bool>)
    requires |poly| == 32 && IsTable(poly, table) && |w| == 32
    requires mixed == Xor(w, Of(b, 32))
    ensures Value(mixed[..8]) < 256
    ensures |table[Value(mixed[..8])]| == 32
    ensures Xor(table[Value(mixed[..8])], w[8..] + Zeros(8)) == Feed(poly, w, Of(b, 8))
  {
    ByteDigits(b);
    FeedByte(poly, table, w, Of(b, 8));
  }

  lemma UpdateTurn(poly: seq<bool>, table: seq<seq<bool>>, current: seq<bool>, bytes: seq<byte>, k: nat, value: seq<bool>)
    requires |poly| == |current| == 32 && IsTable(poly, table) && k < |bytes|
    requires value == Feed(poly, current, OfBytes(bytes[..k]))
    ensures var mixed := Xor(value, Of(bytes[k], 32));
            && Value(mixed[..8]) < 256
            && |table[Value(mixed[..8])]| == 32
            && Xor(table[Value(mixed[..8])], value[8..] + Zeros(8)) == Feed(poly, current, OfBytes(bytes[..k + 1]))
  {
    UpdateStep(poly, table, value, bytes[k], Xor(value, Of(bytes[k], 32)));
    FeedSnoc(poly, current, bytes[..k], bytes[k]);
    assert bytes[..k + 1] == bytes[..k] + [bytes[k]];
  }

  /** The byte-at-a-time loop refines the bit-at-a-time register. */
  method UpdateCrc32(table: array<seq<bool>>, ghost poly: seq<bool>, current: seq<bool>, bytes: seq<byte>)
      returns (value: seq<bool>)
    requires |poly| == |current| == 32
    requires IsTable(poly, table[..])
    ensures |value| == 32
    ensures value == Feed(poly, current, OfBytes(bytes))
  {
    value := current;
    for k := 0 to |bytes|
      invariant |value| == 32
      invariant value == Feed(poly, current, OfBytes(bytes[..k]))
    {
      UpdateTurn(poly, table[..], current, bytes, k, value);
      var mixed := Xor(value, Of(bytes[k], 32));
      value := Xor(table[Value(mixed[..8])], value[8..] + Zeros(8));
    }
    assert bytes[..|bytes|] == bytes;
  }

  // ---------------------------------------------------------------- polynomial division

  /** Coefficients of the generator a reflected polynomial stands for, from x^32 down to x^0. */
  function Generator(poly: seq<bool>): (g: seq<bool>)
    requires |poly| == 32
    ensures |g| == 33
  {
    [true] + poly
  }

  const POLY0: seq<bool> := [false, false, false, false, false, true, false, false]
  const POLY1: seq<bool> := [true, true, false, false, false, false, false, true]
  const POLY2: seq<bool> := [false, false, false, true, true, true, false, true]
  const POLY3: seq<bool> := [true, false, true, true, false, true, true, true]

  lemma PolyDigits()
    ensures POLY == POLY0 + (POLY1 + (POLY2 + POLY3))
  {
    Pow2Values();
    ValueOfEight(POLY0);
    ValueOfEight(POLY1);
    ValueOfEight(POLY2);
    ValueOfEight(POLY3);
    ValueConcat(POLY2, POLY3);
    ValueConcat(POLY1, POLY2 + POLY3);
    ValueConcat(POLY0, POLY1 + (POLY2 + POLY3));
    OfValue(POLY0 + (POLY1 + (POLY2 + POLY3)));
  }

  lemma ByteExponents(e: nat)
    requires e < 8
    ensures POLY3[7 - e] <==> e == 7 || e == 5 || e == 4 || e == 2 || e == 1 || e == 0
    ensures POLY2[7 - e] <==> e == 4 || e == 3 || e == 2 || e == 0
    ensures POLY1[7 - e] <==> e == 7 || e == 6 || e == 0
    ensures POLY0[7 - e] <==> e == 2
  {
    if e == 0 {
    } else if e == 1 {
    } else if e == 2 {
    } else if e == 3 {
    } else if e == 4 {
    } else if e == 5 {
    } else if e == 6 {
    } else {
    }
  }

  /** The powers below x^32 in the CRC-32 polynomial of ISO 3309. */
  predicate IsExponent(e: nat) {
    e == 26 || e == 23 || e == 22 || e == 16 || e == 12 || e == 11 || e == 10 || e == 8 ||
    e == 7 || e == 5 || e == 4 || e == 2 || e == 1 || e == 0
  }

  /** Coefficients of x^32 plus the powers above, highest first. */
  predicate IsCrc32Polynomial(g: seq<bool>) {
    |g| == 33 && g[0] && forall e | 0 <= e < 32 :: g[32 - e] <==> IsExponent(e)
  }

  lemma DigitsArePolynomial(tail: seq<bool>)
    requires tail == POLY0 + (POLY1 + (POLY2 + POLY3))
    ensures IsCrc32Polynomial([true] + tail)
  {
    forall e | 0 <= e < 32
      ensures ([true] + tail)[32 - e] <==> IsExponent(e)
    {
      if e < 8 {
        ByteExponents(e);
      } else if e < 16 {
        ByteExponents(e - 8);
      } else if e < 24 {
        ByteExponents(e - 16);
      } else {
        ByteExponents(e - 24);
      }
    }
  }

  /** The constant of the table's inner loop is the CRC-32 polynomial, reflected. */
  lemma GeneratorIsCrc32Polynomial()
    ensures IsCrc32Polynomial(Generator(POLY))
  {
    PolyDigits();
    DigitsArePolynomial(POLY);
  }

  /** One row of long division: cancel the leading coefficient and drop it. */
  function Reduce(g: seq<bool>, p: seq<bool>): (r: seq<bool>)
    requires |g| == 33 && |p| > 32
    ensures |r| == |p| - 1
  {
    (if p[0] then Xor(p, g + Zeros(|p| - 33)) else p)[1..]
  }

  /** Schoolbook long division of a polynomial (coefficients from the highest power down) by the
      generator, leaving the 32 lowest coefficients: the remainder. */
  function LongDivision(g: seq<bool>, p: seq<bool>): (r: seq<bool>)
    requires |g| == 33 && |p| >= 32
    ensures |r| == 32
    decreases |p|
  {
    if |p| == 32 then p else LongDivision(g, Reduce(g, p))
  }

  /** The product of a quotient and the generator. */
  function Product(g: seq<bool>, q: seq<bool>): (r: seq<bool>)
    requires |g| == 33
    ensures |r| == |q| + 32
  {
    if q == [] then Zeros(32)
    else Xor((if q[0] then g else Zeros(33)) + Zeros(|q| - 1), [false] + Product(g, q[1..]))
  }

  /** p == q * g + r over GF(2). */
  ghost predicate Divides(g: seq<bool>, p: seq<bool>, q: seq<bool>, r: seq<bool>)
    requires |g| == 33
  {
    |r| == 32 && |p| == |q| + 32 && p == Xor(Product(g, q), Zeros(|q|) + r)
  }

  /** A division and its first row's division agree coefficient by coefficient. */
  lemma ReduceDivides(g: seq<bool>, p: seq<bool>, q: seq<bool>, r: seq<bool>)
    requires |g| == 33 && g[0]
    requires |q| > 0 && |r| == 32 && |p| == |q| + 32
    ensures Divides(g, p, q, r) <==> p[0] == q[0] && Divides(g, Reduce(g, p), q[1..], r)
  {
    var head := (if q[0] then g else Zeros(33)) + Zeros(|q| - 1);
    var tail := Product(g, q[1..]);
    var low, low' := Zeros(|q|) + r, Zeros(|q[1..]|) + r;
    assert Product(g, q) == Xor(head, [false] + tail);
    assert head[0] == q[0];
    if p[0] == q[0] {
      var p' := Reduce(g, p);
      forall i | 0 < i < |p|
        ensures p[i] == Xor(Product(g, q), low)[i] <==> p'[i - 1] == Xor(tail, low')[i - 1]
      {
        assert p'[i - 1] == (p[i] != head[i]);
        assert Product(g, q)[i] == (head[i] != tail[i - 1]);
        assert low'[i - 1] == low[i];
      }
      assert p[0] == Xor(Product(g, q), low)[0];
      if Divides(g, p, q, r) {
        assert forall i :: 0 <= i < |p'| ==> p'[i] == Xor(tail, low')[i + 1 - 1];
        assert p' == Xor(tail, low');
      }
      if Divides(g, p', q[1..], r) {
        assert p == Xor(Product(g, q), low);
      }
    }
  }

  /** Long division finds a quotient... */
  lemma {:induction false} DivisionExists(g: seq<bool>, p: seq<bool>) returns (q: seq<bool>)
    requires |g| == 33 && g[0] && |p| >= 32
    ensures Divides(g, p, q, LongDivision(g, p))
    decreases |p|
  {
    if |p| == 32 {
      q := [];
    } else {
      var q' := DivisionExists(g, Reduce(g, p));
      q := [p[0]] + q';
      assert q[1..] == q';
      ReduceDivides(g, p, q, LongDivision(g, p));
    }
  }

  /** ...and no other remainder has one. */
  lemma {:induction false} RemainderUnique(g: seq<bool>, p: seq<bool>, q: seq<bool>, r: seq<bool>)
    requires |g| == 33 && g[0]
    requires Divides(g, p, q, r)
    ensures r == LongDivision(g, p)
    decreases |p|
  {
    if q == [] {
      assert p == r;
    } else {
      ReduceDivides(g, p, q, r);
      RemainderUnique(g, Reduce(g, p), q[1..], r);
    }
  }

  /** The register, lined up with the highest powers, added to the message times x^32. */
  function Aligned(w: seq<bool>, bits: seq<bool>): (p: seq<bool>)
    requires |w| == 32
    ensures |p| == |bits| + 32
  {
    Xor(w + Zeros(|bits|), bits + Zeros(32))
  }

  lemma FeedReduces(poly: seq<bool>, w: seq<bool>, bits: seq<bool>)
    requires |poly| == |w| == 32 && bits != []
    ensures Reduce(Generator(poly), Aligned(w, bits)) == Aligned(FeedBit(poly, w, bits[0]), bits[1..])
  {
    var g, p, next, rest := Generator(poly), Aligned(w, bits), FeedBit(poly, w, bits[0]), bits[1..];
    var shifted := w[1..] + [false];
    assert p[0] == (w[0] != bits[0]);
    assert next == if p[0] then Xor(poly, shifted) else shifted;
    forall i | 0 <= i < |p| - 1
      ensures Reduce(g, p)[i] == Aligned(next, rest)[i]
    {
      assert p[i + 1] == ((w + Zeros(|bits|))[i + 1] != (bits + Zeros(32))[i + 1]);
      assert (w + Zeros(|bits|))[i + 1] == (shifted + Zeros(|rest|))[i];
      assert (bits + Zeros(32))[i + 1] == (rest + Zeros(32))[i];
      assert (g + Zeros(|p| - 33))[i + 1] == (poly + Zeros(|rest|))[i];
    }
  }

  /** Feeding bits through the register divides. */
  lemma {:induction false} FeedDivides(poly: seq<bool>, w: seq<bool>, bits: seq<bool>)
    requires |poly| == |w| == 32
    ensures Feed(poly, w, bits) == LongDivision(Generator(poly), Aligned(w, bits))
    decreases |bits|
  {
    if bits == [] {
      assert Aligned(w, bits) == w;
    } else {
      FeedReduces(poly, w, bits);
      FeedDivides(poly, FeedBit(poly, w, bits[0]), bits[1..]);
    }
  }

  /** The dividend of section 8 of RFC 1952 (ISO 3309): the message times x^32, with its first 32 bits
      complemented. */
  function Dividend(data: seq<byte>): (p: seq<bool>)
    ensures |p| == 8 * |data| + 32
  {
    Aligned(Ones(32), OfBytes(data))
  }

  /** The register after all bytes is the remainder of that division, and no other word is. */
  lemma FeedIsRemainder(poly: seq<bool>, data: seq<byte>, r: seq<bool>)
    requires |poly| == |r| == 32
    ensures r == Feed(poly, Ones(32), OfBytes(data)) <==> exists q :: Divides(Generator(poly), Dividend(data), q, r)
  {
    var g, p := Generator(poly), Dividend(data);
    FeedDivides(poly, Ones(32), OfBytes(data));
    var q := DivisionExists(g, p);
    if q' :| Divides(g, p, q', r) {
      RemainderUnique(g, p, q', r);
    }
  }

  lemma ComplementTwice(a: seq<bool>, b: seq<bool>)
    requires |a| == |b| == 32
    ensures Xor(a, Ones(32)) == Xor(b, Ones(32)) <==> a == b
  {
    var x, y := Xor(a, Ones(32)), Xor(b, Ones(32));
    if x == y {
      forall i | 0 <= i < 32
        ensures a[i] == b[i]
      {
        assert x[i] == !a[i] && y[i] == !b[i];
      }
    }
  }

  /** The CRC the program computes is the complement of the remainder by the generator. */
  lemma CrcIsRemainder(poly: seq<bool>, data: seq<byte>, r: seq<bool>)
    requires |poly| == |r| == 32
    ensures Crc(poly, data) == Xor(r, Ones(32)) <==> exists q :: Divides(Generator(poly), Dividend(data), q, r)
  {
    FeedIsRemainder(poly, data, r);
    ComplementTwice(Feed(poly, Ones(32), OfBytes(data)), r);
  }
}
