/** The stop-bit integer codec of `encoder.cpp`.

    An unsigned integer is cut into seven-bit digits, most significant first, and
    the last byte alone carries the stop bit. */
module Codec {
  import opened Bits

  type Byte = b: nat | b < 256

  const STOP_BIT: nat := 0x80
  const MASK: nat := 0x7F

  // -- The format ------------------------------------------------------------

  ghost predicate AllDigits(ds: seq<nat>) {
    forall i :: 0 <= i < |ds| ==> ds[i] < 128
  }

  /** The base-128 digits of a value, most significant first. */
  function Digits(v: nat): (ds: seq<nat>)
    ensures |ds| >= 1 && AllDigits(ds)
  {
    if v < 128 then [v] else Digits(v / 128) + [v % 128]
  }

  /** The number a digit sequence denotes, most significant digit first. */
  function Value(ds: seq<nat>): nat {
    if ds == [] then 0 else Value(ds[..|ds| - 1]) * 128 + ds[|ds| - 1]
  }

  /** Digits as bytes, with the stop bit set on the last one. */
  function Terminate(ds: seq<nat>): (bs: seq<Byte>)
    requires |ds| > 0 && AllDigits(ds)
    ensures |bs| == |ds|
  {
    seq(|ds|, i requires 0 <= i < |ds| => if i == |ds| - 1 then ds[i] + STOP_BIT else ds[i])
  }

  /** The seven low bits of every byte. */
  function Payload(bs: seq<Byte>): (ds: seq<nat>)
    ensures |ds| == |bs| && AllDigits(ds)
  {
    seq(|bs|, i requires 0 <= i < |bs| => bs[i] % 128)
  }

  /** The stop bit is set on the last byte and on no other. */
  ghost predicate Stopped(bs: seq<Byte>) {
    && |bs| > 0
    && bs[|bs| - 1] >= 128
    && forall i :: 0 <= i < |bs| - 1 ==> bs[i] < 128
  }

  function Encoding(v: nat): seq<Byte> {
    Terminate(Digits(v))
  }

  // -- The encoder -----------------------------------------------------------

  /** `encodeInteger`: nothing is written, and 0 returned, unless the whole encoding fits. */
  method EncodeInteger(v: nat, buf: array?<Byte>, len: nat) returns (n: nat)
    requires buf != null ==> len <= buf.Length
    modifies buf
    ensures buf == null || len < |Encoding(v)| ==>
              n == 0 && (buf != null ==> buf[..] == old(buf[..]))
    ensures buf != null && |Encoding(v)| <= len ==>
              n == |Encoding(v)| && buf[..n] == Encoding(v) && buf[n..] == old(buf[n..])
  {
    var encodedBytes: nat := 1;
    var tmp: nat := v / 128;
    while tmp != 0
      invariant tmp == 0 ==> |Digits(v)| == encodedBytes
      invariant tmp != 0 ==> |Digits(v)| == encodedBytes + |Digits(tmp)|
    {
      encodedBytes := encodedBytes + 1;
      tmp := tmp / 128;
    }

    if buf == null || encodedBytes > len {
      return 0;
    }

    WriteDigits(v, buf, encodedBytes);
    SetStopBit(buf[encodedBytes - 1]);
    buf[encodedBytes - 1] := Or(buf[encodedBytes - 1], STOP_BIT);
    assert buf[..encodedBytes] == Encoding(v);
    return encodedBytes;
  }

  /** The loop of the encoder that fills the buffer from the last byte to the first. */
  method WriteDigits(v: nat, buf: array<Byte>, encodedBytes: nat)
    requires encodedBytes == |Digits(v)| <= buf.Length
    modifies buf
    ensures forall j :: 0 <= j < encodedBytes ==> buf[j] == Digits(v)[j]
    ensures buf[encodedBytes..] == old(buf[encodedBytes..])
  {
    hide And, Digits;
    var pos: int := encodedBytes - 1;
    var val := v;
    while pos >= 0
      invariant -1 <= pos < encodedBytes
      invariant val == HighPart(v, encodedBytes - 1 - pos)
      invariant forall j :: pos < j < encodedBytes ==> buf[j] == Digits(v)[j]
      invariant buf[encodedBytes..] == old(buf[encodedBytes..])
    {
      AndMask(val, 7);
      DigitAt(v, pos);
      buf[pos] := And(val, MASK);
      pos := pos - 1;
      val := val / 128;
    }
  }

  /** What is left of v after k shifts by seven. */
  function HighPart(v: nat, k: nat): nat {
    if k == 0 then v else HighPart(v, k - 1) / 128
  }

  lemma {:induction false} HighPartShift(v: nat, k: nat)
    requires k > 0
    ensures HighPart(v, k) == HighPart(v / 128, k - 1)
  {
    if k > 1 {
      HighPartShift(v, k - 1);
    }
  }

  /** The digit written at position `pos` of the encoding. */
  lemma {:induction false} DigitAt(v: nat, pos: nat)
    requires pos < |Digits(v)|
    ensures Digits(v)[pos] == HighPart(v, |Digits(v)| - 1 - pos) % 128
  {
    if v >= 128 && pos < |Digits(v)| - 1 {
      DigitAt(v / 128, pos);
      HighPartShift(v, |Digits(v)| - 1 - pos);
    }
  }

  lemma SetStopBit(d: nat)
    requires d < 128
    ensures Or(d, STOP_BIT) == d + STOP_BIT
  {
    assert Pow2(7) == 128;
    OrDisjoint(1, d, 7);
    OrCommutes(d, STOP_BIT);
  }

  // -- The decoder -----------------------------------------------------------

  /** A decoded value, or `Undefined` where the C++ shift has no defined meaning. */
  datatype Decoded = Result(value: nat) | Undefined

  ghost predicate Width(width: nat) {
    width == 8 || width == 16 || width == 32 || width == 64
  }

  /** Which buffers pass the decoder's length and stop-bit checks. */
  ghost predicate Accepted(width: nat, bs: seq<Byte>) {
    |bs| <= width / 7 + 1 && Stopped(bs)
  }

  /** A number as stored in an unsigned type after passing through a 32-bit signed int. */
  function ThroughInt(width: nat, x: nat): nat {
    if width <= 32 then x % Pow2(width)
    else
      var r := x % 0x1_0000_0000;
      if r < 0x8000_0000 then r else r + 0xFFFF_FFFF_0000_0000
  }

  /** What `decodeInteger` returns for the bytes of a non-null buffer. */
  ghost function Decoding(width: nat, bs: seq<Byte>): Decoded
    requires Width(width)
  {
    if !Accepted(width, bs) then Result(0)
    else if |bs| > 5 then Undefined
    else Result(ThroughInt(width, Value(Payload(bs))))
  }

  /** The value of `x` reduced to a signed 32-bit int. */
  function Signed32(x: nat): int {
    var r := x % 0x1_0000_0000;
    if r < 0x8000_0000 then r else r - 0x1_0000_0000
  }

  /** `d << s` computed in a 32-bit `int` and then converted to the unsigned result type. */
  function ShiftInInt(width: nat, d: nat, s: nat): nat {
    Signed32(Shl(d, s)) % Pow2(width)
  }

  /** `decodeInteger`, with the shift done in `int` as written: a shift by 32 or more is undefined. */
  method DecodeInteger(width: nat, buf: array?<Byte>, len: nat) returns (r: Decoded)
    requires Width(width)
    requires buf != null ==> len <= buf.Length
    ensures buf == null || len == 0 || len > width / 7 + 1 || buf[len - 1] < 128 ==> r == Result(0)
    ensures buf != null && (exists i :: 0 <= i < len - 1 && buf[i] >= 128) ==> r == Result(0)
    ensures buf != null && 0 < len <= width / 7 + 1 &&
            buf[len - 1] >= 128 && (forall i :: 0 <= i < len - 1 ==> buf[i] < 128) ==>
              var x := Value(Payload(buf[..len]));
              if width <= 32 then r == Result(x % Pow2(width))
              else if len > 5 then r == Undefined
              else r == Result(if x % 0x1_0000_0000 < 0x8000_0000 then x % 0x1_0000_0000
                               else x % 0x1_0000_0000 + 0xFFFF_FFFF_0000_0000)
    ensures buf != null ==> r == Decoding(width, buf[..len])
  {
    hide And, Pow2, Value, Payload;
    if buf == null || len == 0 || len > width / 7 + 1 {
      return Result(0);
    }
    ghost var bs := buf[..len];

    var i := 0;
    while i < len - 1
      invariant 0 <= i <= len - 1
      invariant forall j :: 0 <= j < i ==> buf[j] < 128
    {
      TestStopBit(buf[i]);
      if And(buf[i], STOP_BIT) != 0 {
        assert bs[i] >= 128;
        return Result(0);
      }
      i := i + 1;
    }
    TestStopBit(buf[len - 1]);
    if And(buf[len - 1], STOP_BIT) == 0 {
      return Result(0);
    }
    assert Accepted(width, bs);
    r := AccumulateDigits(width, buf, len);
  }

  /** The decoding loop of `decodeInteger`. */
  method AccumulateDigits(width: nat, buf: array<Byte>, len: nat) returns (r: Decoded)
    requires Width(width) && 0 < len <= buf.Length && len <= width / 7 + 1
    ensures r == if len > 5 then Undefined else Result(ThroughInt(width, Value(Payload(buf[..len]))))
    ensures width <= 32 ==> r == Result(Value(Payload(buf[..len])) % Pow2(width))
  {
    ghost var bs := buf[..len];
    AccumulatedNone(width, bs);
    hide And, Or, Pow2, Shl, ThroughInt, Accumulated, Value;
    var val := 0;
    var i := 0;
    while i < len
      invariant 0 <= i <= len
      invariant i > 0 ==> len <= 5
      invariant val == Accumulated(width, bs, i)
    {
      var shift := 7 * (len - i - 1);
      if shift >= 32 {
        return Undefined;
      }
      LoopStep(width, bs, i, buf[i], shift);
      val := Or(val, ShiftInInt(width, And(buf[i], MASK), shift));
      i := i + 1;
    }
    AccumulatedAll(width, bs);
    NarrowModulo(width, Value(Payload(bs)));
    return Result(val);
  }

  /** The decoder's running value after i bytes. */
  ghost function Accumulated(width: nat, bs: seq<Byte>, i: nat): nat
    requires i <= |bs|
  {
    ThroughInt(width, Shl(Value(Payload(bs)[..i]), 7 * (|bs| - i)))
  }

  lemma NarrowModulo(width: nat, x: nat)
    ensures width <= 32 ==> ThroughInt(width, x) == x % Pow2(width)
  {
  }

  lemma AccumulatedNone(width: nat, bs: seq<Byte>)
    ensures Accumulated(width, bs, 0) == 0
  {
    ShlIsMul(0, 7 * |bs|);
  }

  lemma AccumulatedAll(width: nat, bs: seq<Byte>)
    ensures Accumulated(width, bs, |bs|) == ThroughInt(width, Value(Payload(bs)))
  {
    assert Payload(bs)[..|bs|] == Payload(bs);
  }

  lemma LoopStep(width: nat, bs: seq<Byte>, i: nat, b: Byte, s: nat)
    requires Width(width) && i < |bs| <= width / 7 + 1 && |bs| <= 5
    requires b == bs[i] && s == 7 * (|bs| - i - 1)
    ensures Or(Accumulated(width, bs, i), ShiftInInt(width, And(b, MASK), s)) == Accumulated(width, bs, i + 1)
  {
    var ds := Payload(bs);
    assert Pow2(7) == 128;
    AndMask(bs[i], 7);
    PrefixValue(ds, i);
    assert i == 0 ==> ds[..i] == [];
    assert 7 * (|bs| - i) == s + 7;
    AccumulateDigit(width, Value(ds[..i]), ds[i], s);
  }

  lemma TestStopBit(b: Byte)
    ensures And(b, STOP_BIT) != 0 <==> b >= 128
  {
    assert Pow2(7) == 128;
    AndBit(b, 7);
  }

  lemma ScaledMod(a: nat, m: nat, p: nat, x: nat)
    requires m > 0 && x < p
    ensures m * p > 0 && (a * p + x) % (m * p) == (a % m) * p + x
  {
    var q, r := a / m, a % m;
    Distribute(m - r - 1, 1, p);
    Distribute(m - 1, 1, p);
    Distribute(m - r - 1, r + 1, p);
    Distribute(r, 1, p);
    Regroup(m, q, r, p);
    ModUnique(a * p + x, m * p, q, r * p + x);
  }

  lemma Distribute(a: nat, b: nat, p: nat)
    ensures (a + b) * p == a * p + b * p && a * p >= 0
  {
  }

  lemma Regroup(m: nat, q: nat, r: nat, p: nat)
    ensures (m * q + r) * p == (m * p) * q + r * p
  {
    assert (m * q) * p == (m * p) * q;
  }

  /** Reducing `a * 2^k + x` with x below 2^k keeps x and reduces the rest. */
  lemma ModSplit(a: nat, k: nat, x: nat, w: nat)
    requires x < Pow2(k) && k <= w
    ensures (a * Pow2(k) + x) % Pow2(w) == (a % Pow2(w - k)) * Pow2(k) + x
    ensures (a * Pow2(k)) % Pow2(w) == (a % Pow2(w - k)) * Pow2(k)
  {
    Pow2Add(w - k, k);
    ScaledMod(a, Pow2(w - k), Pow2(k), x);
    ScaledMod(a, Pow2(w - k), Pow2(k), 0);
  }

  lemma PrefixValue(ds: seq<nat>, i: nat)
    requires i < |ds|
    ensures Value(ds[..i + 1]) == Value(ds[..i]) * 128 + ds[i]
  {
    assert ds[..i + 1][..i] == ds[..i];
  }

  /** One turn of the decoding loop: the or adds the next digit at its place.
      Only the first digit, at which nothing has been accumulated yet, may lose high bits. */
  lemma AccumulateDigit(width: nat, a: nat, d: nat, s: nat)
    requires Width(width) && d < 128
    requires a == 0 || (s + 7 <= width && s + 7 <= 28)
    ensures Or(ThroughInt(width, Shl(a, s + 7)), ShiftInInt(width, d, s)) == ThroughInt(width, Shl(a * 128 + d, s))
  {
    ShiftDigit(a, d, s);
    if a == 0 {
      FirstDigit(width, Shl(d, s));
      assert Shl(a, s + 7) == 0;
    } else {
      AddDigit(width, a, s + 7, Shl(d, s));
    }
  }

  lemma ShiftDigit(a: nat, d: nat, s: nat)
    requires d < 128
    ensures Shl(a * 128 + d, s) == Shl(a, s + 7) + Shl(d, s)
    ensures Shl(d, s) < Pow2(s + 7)
  {
    assert Pow2(7) == 128;
    hide Pow2, Shl;
    Pow2Add(s, 7);
    ShlIsMul(a * 128 + d, s);
    ShlIsMul(a, s + 7);
    ShlIsMul(d, s);
    ScaledDigit(a, d, Pow2(s));
  }

  lemma ScaledDigit(a: nat, d: nat, p: nat)
    requires d < 128 && p > 0
    ensures (a * 128 + d) * p == a * (p * 128) + d * p
    ensures d * p < p * 128
  {
    Distribute(a * 128, d, p);
    assert (a * 128) * p == a * (p * 128);
    Distribute(127 - d, d, p);
  }

  lemma Powers()
    ensures Pow2(8) == 0x100 && Pow2(16) == 0x1_0000 && Pow2(32) == 0x1_0000_0000
    ensures Pow2(31) == 0x8000_0000
    ensures Pow2(64) == 0x1_0000_0000_0000_0000
  {
    assert Pow2(4) == 16;
    Pow2Add(4, 4);
    Pow2Add(8, 8);
    Pow2Add(16, 16);
    Pow2Add(32, 32);
    assert Pow2(32) == 2 * Pow2(31);
  }

  /** Narrowing an int to 8, 16 or 32 bits discards the sign. */
  lemma FirstDigit(width: nat, x: nat)
    requires Width(width)
    ensures Signed32(x) % Pow2(width) == ThroughInt(width, x)
  {
    Powers();
    assert width < 64 ==> ThroughInt(width, x) == x % Pow2(width);
    hide Pow2, Signed32, ThroughInt;
    if width == 8 {
      Narrow(x, 0x100, 0x100_0000);
    } else if width == 16 {
      Narrow(x, 0x1_0000, 0x1_0000);
    } else if width == 32 {
      Narrow(x, 0x1_0000_0000, 1);
    } else {
      Widened(x);
    }
  }

  /** At 64 bits the sign is extended. */
  lemma Widened(x: nat)
    ensures Signed32(x) % 0x1_0000_0000_0000_0000 == ThroughInt(64, x)
  {
    var r := x % 0x1_0000_0000;
    assert Signed32(x) == if r < 0x8000_0000 then r else r - 0x1_0000_0000;
    assert ThroughInt(64, x) == if r < 0x8000_0000 then r else r + 0xFFFF_FFFF_0000_0000;
  }

  lemma Narrow(x: nat, m: nat, k: nat)
    requires m > 0 && m * k == 0x1_0000_0000
    ensures Signed32(x) % m == x % m
  {
    var q := x / 0x1_0000_0000;
    var q' := if x % 0x1_0000_0000 < 0x8000_0000 then q else q + 1;
    assert Signed32(x) == x - (m * k) * q';
    assert (m * k) * q' == m * (k * q');
    Congruent(x, Signed32(x), m, k * q');
  }

  lemma Congruent(x: nat, y: int, m: nat, q: int)
    requires m > 0 && y == x - m * q
    ensures x % m == y % m
  {
    var q', r := y / m, y % m;
    assert y == m * q' + r;
    assert m * (q + q') == m * q + m * q';
    assert m * -(q + q') == -(m * (q + q'));
    if q + q' < 0 {
      MulAtLeast(m, -(q + q'));
    }
    ModUnique(x, m, q + q', r);
  }

  lemma AddDigit(width: nat, a: nat, k: nat, x: nat)
    requires Width(width) && x < Pow2(k)
    requires k <= width && k <= 28
    ensures Or(ThroughInt(width, Shl(a, k)), Signed32(x) % Pow2(width)) == ThroughInt(width, Shl(a, k) + x)
  {
    SmallDigit(width, k, x);
    if width <= 32 {
      AddDigitNarrow(width, a, k, x);
    } else {
      AddDigitWide(a, k, x);
    }
  }

  lemma SmallDigit(width: nat, k: nat, x: nat)
    requires x < Pow2(k) && k <= width && k <= 28
    ensures Signed32(x) % Pow2(width) == x
  {
    Powers();
    hide Pow2, Signed32;
    Pow2Monotone(k, 31);
    Pow2Monotone(k, width);
    SmallSigned(x);
    SmallMod(x, Pow2(width));
  }

  lemma SmallSigned(x: nat)
    requires x < 0x8000_0000
    ensures Signed32(x) == x
  {
  }

  lemma SmallMod(x: nat, m: nat)
    requires x < m
    ensures x % m == x
  {
  }

  lemma AddDigitNarrow(width: nat, a: nat, k: nat, x: nat)
    requires x < Pow2(k) && k <= width <= 32
    ensures Or(ThroughInt(width, Shl(a, k)), x) == ThroughInt(width, Shl(a, k) + x)
  {
    ShlIsMul(a, k);
    ModSplit(a, k, x, width);
    OrDisjoint(a % Pow2(width - k), x, k);
  }

  /** At width 64 the sign extension of the first digit stays above the added digits. */
  lemma AddDigitWide(a: nat, k: nat, x: nat)
    requires x < Pow2(k) && k <= 28
    ensures Or(ThroughInt(64, Shl(a, k)), x) == ThroughInt(64, Shl(a, k) + x)
  {
    Powers();
    hide Pow2, Or, Shl, ThroughInt;
    var b, p := a % Pow2(32 - k), Pow2(k);
    ShlIsMul(a, k);
    ModSplit(a, k, x, 32);
    Pow2Add(31 - k, k);
    SameSide(b, Pow2(31 - k), p, x);
    ThroughIntPlus(a * p, b * p, x);
    OrDisjoint(b, x, k);
    var high := ExtensionBits(k);
    OrDisjoint(b + high, x, k);
    Distribute(b, high, p);
  }

  /** Adding x to a word of which `low` remains in 32 bits, without crossing the sign bit. */
  lemma ThroughIntPlus(word: nat, low: nat, x: nat)
    requires word % 0x1_0000_0000 == low && (word + x) % 0x1_0000_0000 == low + x
    requires low < 0x8000_0000 <==> low + x < 0x8000_0000
    ensures ThroughInt(64, word) == if low < 0x8000_0000 then low else low + 0xFFFF_FFFF_0000_0000
    ensures ThroughInt(64, word + x) == ThroughInt(64, word) + x
  {
  }

  /** The sign-extension bits of a 64-bit word as a multiple of 2^k. */
  lemma ExtensionBits(k: nat) returns (high: nat)
    requires k <= 28
    ensures high * Pow2(k) == 0xFFFF_FFFF_0000_0000
  {
    Powers();
    Pow2Add(64 - k, k);
    Pow2Add(32 - k, k);
    Pow2Monotone(32 - k, 64 - k);
    high := Pow2(64 - k) - Pow2(32 - k);
    Distribute(high, Pow2(32 - k), Pow2(k));
  }

  lemma SameSide(b: nat, m: nat, p: nat, x: nat)
    requires x < p
    ensures b * p < m * p <==> b * p + x < m * p
  {
    if b < m {
      Distribute(m - b - 1, b + 1, p);
      Distribute(b, 1, p);
    } else {
      Distribute(b - m, m, p);
    }
  }

  // -- What the format promises ----------------------------------------------

  lemma {:induction false} DigitsDenote(v: nat)
    ensures Value(Digits(v)) == v
  {
    if v >= 128 {
      DigitsDenote(v / 128);
      assert Digits(v)[..|Digits(v)| - 1] == Digits(v / 128);
    } else {
      assert [v][..0] == [];
    }
  }

  /** No leading zero digit, except in the encoding of zero itself. */
  ghost predicate Canonical(ds: seq<nat>) {
    |ds| > 0 && AllDigits(ds) && (|ds| == 1 || ds[0] != 0)
  }

  lemma {:induction false} DigitsCanonical(v: nat)
    ensures Canonical(Digits(v))
  {
    if v >= 128 {
      DigitsCanonical(v / 128);
      assert v / 128 < 128 ==> Digits(v / 128) == [v / 128];
    }
  }

  lemma {:induction false} CanonicalDigits(ds: seq<nat>)
    requires Canonical(ds)
    ensures Digits(Value(ds)) == ds
    ensures |ds| > 1 ==> Value(ds) >= 128
  {
    var n := |ds| - 1;
    if n == 0 {
      assert ds[..0] == [];
    } else {
      CanonicalDigits(ds[..n]);
      assert ds[..n][0] == ds[0];
      if n == 1 {
        assert Value(ds[..1]) == ds[0] by { assert ds[..1][..0] == []; }
      }
      assert Value(ds) / 128 == Value(ds[..n]) && Value(ds) % 128 == ds[n];
      assert ds == ds[..n] + [ds[n]];
    }
  }

  lemma TerminatedPayload(ds: seq<nat>)
    requires |ds| > 0 && AllDigits(ds)
    ensures Stopped(Terminate(ds)) && Payload(Terminate(ds)) == ds
  {
    var bs := Terminate(ds);
    forall i | 0 <= i < |ds|
      ensures Payload(bs)[i] == ds[i]
    {
    }
  }

  lemma PayloadTerminated(bs: seq<Byte>)
    requires Stopped(bs)
    ensures Terminate(Payload(bs)) == bs
  {
  }

  /** The encoding has the least number n >= 1 of bytes with v < 2^(7n). */
  lemma LeastLength(v: nat)
    ensures v < Pow2(7 * |Encoding(v)|)
    ensures forall n: nat :: n >= 1 && v < Pow2(7 * n) ==> |Encoding(v)| <= n
  {
    LengthBounds(v);
    forall n: nat | n >= 1 && v < Pow2(7 * n)
      ensures |Encoding(v)| <= n
    {
      if n < |Digits(v)| {
        Pow2Monotone(7 * n, 7 * (|Digits(v)| - 1));
      }
    }
  }

  lemma {:induction false} LengthBounds(v: nat)
    ensures v < Pow2(7 * |Digits(v)|)
    ensures |Digits(v)| > 1 ==> v >= Pow2(7 * (|Digits(v)| - 1))
  {
    assert Pow2(7) == 128;
    if v >= 128 {
      LengthBounds(v / 128);
      var n := |Digits(v / 128)|;
      Pow2Add(7 * n, 7);
      assert 7 * (n + 1) == 7 * n + 7;
      if n > 1 {
        Pow2Add(7 * (n - 1), 7);
        assert 7 * n == 7 * (n - 1) + 7;
      }
    }
  }

  /** Every encoding of a value of the type passes the decoder's checks. */
  lemma EncodingAccepted(width: nat, v: nat)
    requires Width(width) && v < Pow2(width)
    ensures Accepted(width, Encoding(v))
  {
    TerminatedPayload(Digits(v));
    LengthBounds(v);
    hide Pow2, Digits;
    var n := |Digits(v)|;
    if n > width / 7 + 1 {
      Pow2Monotone(width, 7 * (n - 1));
    }
  }

  /** Decoding what was encoded gives the value back, for 8, 16 and 32 bits. */
  lemma RoundTrip(width: nat, v: nat)
    requires Width(width) && width <= 32 && v < Pow2(width)
    ensures Decoding(width, Encoding(v)) == Result(v)
  {
    EncodingAccepted(width, v);
    TerminatedPayload(Digits(v));
    DigitsDenote(v);
    SmallMod(v, Pow2(width));
  }

  lemma NarrowLength(v: nat)
    requires v < 0x8000_0000
    ensures |Digits(v)| <= 5
  {
    Powers();
    LengthBounds(v);
    if |Digits(v)| > 5 {
      Pow2Monotone(31, 7 * (|Digits(v)| - 1));
    }
  }

  lemma WideValue(v: nat)
    requires |Digits(v)| <= 5
    ensures v < 8 * 0x1_0000_0000
  {
    Powers();
    LengthBounds(v);
    Pow2Monotone(7 * |Digits(v)|, 35);
    Pow2Add(32, 3);
    assert Pow2(3) == 8;
  }

  lemma ThroughIntWide(v: nat)
    requires v < 8 * 0x1_0000_0000
    ensures ThroughInt(64, v) == v <==> v < 0x8000_0000
  {
    Powers();
  }

  /** At 64 bits the shift in `int` makes the round trip hold below 2^31 and nowhere else. */
  lemma RoundTripWide(v: nat)
    requires v < Pow2(64)
    ensures Decoding(64, Encoding(v)) == Result(v) <==> v < 0x8000_0000
  {
    hide Pow2, Digits, ThroughInt, Value, Payload, Accepted;
    EncodingAccepted(64, v);
    TerminatedPayload(Digits(v));
    DigitsDenote(v);
    if v < 0x8000_0000 {
      NarrowLength(v);
      ThroughIntWide(v);
    } else if |Digits(v)| <= 5 {
      WideValue(v);
      ThroughIntWide(v);
    }
  }

  /** Encoding into a buffer and decoding the bytes written, as the two functions are called. */
  method EncodeThenDecode(width: nat, v: nat, buf: array<Byte>, len: nat) returns (n: nat, r: Decoded)
    requires Width(width) && width <= 32 && v < Pow2(width)
    requires |Encoding(v)| <= len <= buf.Length
    modifies buf
    ensures n == |Encoding(v)| && r == Result(v)
  {
    n := EncodeInteger(v, buf, len);
    RoundTrip(width, v);
    r := DecodeInteger(width, buf, n);
  }

  /** An accepted buffer decodes to its big-endian base-128 value modulo 2^width. */
  lemma DecodedValue(width: nat, bs: seq<Byte>)
    requires Width(width) && width <= 32
    ensures Accepted(width, bs) ==> Decoding(width, bs) == Result(Value(Payload(bs)) % Pow2(width))
    ensures !Accepted(width, bs) ==> Decoding(width, bs) == Result(0)
  {
    if Accepted(width, bs) {
      assert |bs| <= 5;
    }
  }

  /** An accepted buffer re-encodes to itself exactly when it has no leading zero digit and its value fits the type. */
  lemma Reencode(width: nat, bs: seq<Byte>)
    requires Width(width) && width <= 32 && Accepted(width, bs)
    ensures Encoding(Decoding(width, bs).value) == bs <==>
            (|bs| == 1 || Payload(bs)[0] != 0) && Value(Payload(bs)) < Pow2(width)
  {
    var ds := Payload(bs);
    var v := Value(ds);
    DecodedValue(width, bs);
    if Canonical(ds) && v < Pow2(width) {
      SmallMod(v, Pow2(width));
      CanonicalDigits(ds);
      PayloadTerminated(bs);
    }
    if Encoding(v % Pow2(width)) == bs {
      TerminatedPayload(Digits(v % Pow2(width)));
      DigitsCanonical(v % Pow2(width));
      DigitsDenote(v % Pow2(width));
    }
  }

  function Concat(blocks: seq<seq<Byte>>): seq<Byte> {
    if blocks == [] then [] else blocks[0] + Concat(blocks[1..])
  }

  /** Position just after the first stop bit, or the end of the stream. */
  function FirstStop(bs: seq<Byte>): (n: nat)
    ensures n <= |bs| && (bs != [] ==> n > 0)
  {
    if bs == [] then 0 else if bs[0] >= 128 then 1 else 1 + FirstStop(bs[1..])
  }

  /** Cutting a stream after every stop bit. */
  function SplitAtStops(bs: seq<Byte>): seq<seq<Byte>>
    decreases |bs|
  {
    if bs == [] then [] else [bs[..FirstStop(bs)]] + SplitAtStops(bs[FirstStop(bs)..])
  }

  lemma {:induction false} FirstStopOf(a: seq<Byte>, rest: seq<Byte>)
    requires Stopped(a)
    ensures FirstStop(a + rest) == |a|
  {
    var bs := a + rest;
    assert bs[0] == a[0];
    if |a| > 1 {
      assert bs[1..] == a[1..] + rest;
      FirstStopOf(a[1..], rest);
    }
  }

  /** No encoding is a proper prefix of another, so a stream has only one first encoding. */
  lemma PrefixFree(a: seq<Byte>, x: seq<Byte>, b: seq<Byte>, y: seq<Byte>)
    requires Stopped(a) && Stopped(b) && a + x == b + y
    ensures a == b && x == y
  {
    FirstStopOf(a, x);
    FirstStopOf(b, y);
    assert a == (a + x)[..|a|] && x == (a + x)[|a|..];
    assert b == (b + y)[..|b|] && y == (b + y)[|b|..];
  }

  /** A concatenation of complete encodings is cut back into exactly those encodings. */
  lemma {:induction false} StreamSplits(blocks: seq<seq<Byte>>)
    requires forall i :: 0 <= i < |blocks| ==> Stopped(blocks[i])
    ensures SplitAtStops(Concat(blocks)) == blocks
  {
    if blocks != [] {
      var a, rest := blocks[0], Concat(blocks[1..]);
      assert Stopped(a);
      FirstStopOf(a, rest);
      assert (a + rest)[..|a|] == a && (a + rest)[|a|..] == rest;
      StreamSplits(blocks[1..]);
    }
  }

  /** A stream of encoded values. */
  function EncodeAll(vs: seq<nat>): seq<seq<Byte>> {
    seq(|vs|, i requires 0 <= i < |vs| => Encoding(vs[i]))
  }

  /** Cutting at stop bits and decoding each piece recovers every value of a stream. */
  lemma StreamRoundTrip(width: nat, vs: seq<nat>)
    requires Width(width) && width <= 32
    requires forall i :: 0 <= i < |vs| ==> vs[i] < Pow2(width)
    ensures var pieces := SplitAtStops(Concat(EncodeAll(vs)));
            |pieces| == |vs| && forall i :: 0 <= i < |vs| ==> Decoding(width, pieces[i]) == Result(vs[i])
  {
    forall i | 0 <= i < |vs|
      ensures Stopped(EncodeAll(vs)[i])
    {
      TerminatedPayload(Digits(vs[i]));
    }
    StreamSplits(EncodeAll(vs));
    forall i | 0 <= i < |vs|
      ensures Decoding(width, EncodeAll(vs)[i]) == Result(vs[i])
    {
      RoundTrip(width, vs[i]);
    }
  }
}
