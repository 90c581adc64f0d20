/**
  The Fletcher-style checksum of the protocol. Both running sums are reduced
  with `& 0xff`, that is modulo 256 (the textbook Fletcher-16 reduces modulo
  255); this module follows the firmware.
 */
module Fletcher {
  import opened Bytes

  /** The pair of running sums (`f16_sum1`, `f16_sum2`). */
  datatype Sums = Sums(sum1: byte, sum2: byte)

  /** The accumulator as `txStart` leaves it. */
  const Reset := Sums(0, 0)

  /** `(sum2 << 8) | sum1`: the 16-bit checksum the sums stand for. */
  function Value(s: Sums): uint16 {
    s.sum2 * 0x100 + s.sum1
  }

  /** The checksum goes out low byte (`sum1`) first. */
  lemma ValueBytes(s: Sums)
    ensures LE16(Value(s)) == [s.sum1, s.sum2]
  {
    DivModStep(s.sum1, s.sum2);
  }

  /** One byte folded into the sums. */
  function Accum(s: Sums, b: byte): Sums {
    var sum1 := (s.sum1 + b) % 0x100;
    Sums(sum1, (s.sum2 + sum1) % 0x100)
  }

  /**
    `fletcher16Accum`: folds one byte into the running sums and reports the
    checksum of everything accumulated so far.
   */
  function Fletcher16Accum(s: Sums, b: byte): (Sums, uint16) {
    var s' := Accum(s, b);
    (s', Value(s'))
  }

  /** The sums after folding `bs`, first byte first, into `s`. */
  function AccumAll(s: Sums, bs: seq<byte>): Sums
    decreases |bs|
  {
    if bs == [] then s else AccumAll(Accum(s, bs[0]), bs[1..])
  }

  /** The checksum of `bs`: the running value after accumulating it from `Reset`. */
  function Checksum(bs: seq<byte>): uint16 {
    Value(AccumAll(Reset, bs))
  }

  /**
    Fed the bytes of a frame one at a time from `Reset`, `fletcher16Accum`
    reports after each byte the checksum of the bytes fed so far.
   */
  lemma RunningChecksum(bs: seq<byte>, b: byte)
    ensures Fletcher16Accum(AccumAll(Reset, bs), b) == (AccumAll(Reset, bs + [b]), Checksum(bs + [b]))
  {
    AccumAllSnoc(Reset, bs, b);
  }

  /** Folding one more byte at the end is one more `Accum`. */
  lemma {:induction false} AccumAllSnoc(s: Sums, bs: seq<byte>, b: byte)
    ensures AccumAll(s, bs + [b]) == Accum(AccumAll(s, bs), b)
    decreases |bs|
  {
    if bs == [] {
      assert [] + [b] == [b];
      assert [b][1..] == [];
    } else {
      assert (bs + [b])[0] == bs[0];
      assert (bs + [b])[1..] == bs[1..] + [b];
      AccumAllSnoc(Accum(s, bs[0]), bs[1..], b);
    }
  }

  /** Folding a concatenation is folding its parts in turn. */
  lemma {:induction false} AccumAllAppend(s: Sums, a: seq<byte>, b: seq<byte>)
    ensures AccumAll(s, a + b) == AccumAll(AccumAll(s, a), b)
    decreases |a|
  {
    if a == [] {
      assert a + b == b;
    } else {
      assert (a + b)[0] == a[0];
      assert (a + b)[1..] == a[1..] + b;
      AccumAllAppend(Accum(s, a[0]), a[1..], b);
    }
  }

  /**
    `fletcher16(data, length)`: the whole-buffer checksum, computed by the
    firmware's own loop over the first `length` bytes. It agrees bit for bit
    with the running accumulator of the transmitter, and with the closed form
    of the two sums.
   */
  method Fletcher16(data: seq<byte>, length: uint16) returns (checksum: uint16)
    requires length <= |data|
    ensures checksum == Checksum(data[..length])
    ensures checksum % 0x100 == Sum(data[..length]) % 0x100
    ensures checksum / 0x100 == WeightedSum(data[..length]) % 0x100
  {
    var sum1: uint16, sum2: uint16 := 0, 0;
    var i: uint16 := 0;
    while i < length
      invariant i <= length
      invariant sum1 < 0x100 && sum2 < 0x100
      invariant Sums(sum1, sum2) == AccumAll(Reset, data[..i])
    {
      assert data[..i + 1] == data[..i] + [data[i]];
      AccumAllSnoc(Reset, data[..i], data[i]);
      sum1 := (sum1 + data[i]) % 0x100;
      sum2 := (sum2 + sum1) % 0x100;
      i := i + 1;
    }
    assert data[..i] == data[..length];
    checksum := sum2 * 0x100 + sum1;
    ClosedForm(data[..length]);
    DivModStep(sum1, sum2);
  }

  /** The plain sum of the bytes. */
  function Sum(bs: seq<byte>): nat {
    if bs == [] then 0 else bs[0] + Sum(bs[1..])
  }

  /** Each byte weighted by the number of bytes from it to the end, inclusive. */
  function WeightedSum(bs: seq<byte>): nat {
    if bs == [] then 0 else |bs| * bs[0] + WeightedSum(bs[1..])
  }

  lemma ModAddLeft(x: int, y: int)
    ensures (x % 0x100 + y) % 0x100 == (x + y) % 0x100
  {
  }

  lemma ModMulRight(k: nat, x: int)
    ensures (k * (x % 0x100)) % 0x100 == (k * x) % 0x100
  {
    var q := x / 0x100;
    assert x == 0x100 * q + x % 0x100;
    assert k * x == 0x100 * (k * q) + k * (x % 0x100);
  }

  /**
    The sums after folding `bs` into `s`: the first is the byte sum, the
    second adds `s.sum1` once per byte plus the weighted byte sum, both
    modulo 256.
   */
  lemma {:induction false} AccumAllClosedForm(s: Sums, bs: seq<byte>)
    ensures AccumAll(s, bs).sum1 == (s.sum1 + Sum(bs)) % 0x100
    ensures AccumAll(s, bs).sum2 == (s.sum2 + |bs| * s.sum1 + WeightedSum(bs)) % 0x100
    decreases |bs|
  {
    if bs != [] {
      var b, rest := bs[0], bs[1..];
      var s' := Accum(s, b);
      var m, n, w := |bs|, |rest|, WeightedSum(rest);
      assert AccumAll(s, bs) == AccumAll(s', rest);
      AccumAllClosedForm(s', rest);
      assert AccumAll(s, bs).sum1 == (s.sum1 + Sum(bs)) % 0x100 by {
        assert Sum(bs) == b + Sum(rest);
        assert s'.sum1 == (s.sum1 + b) % 0x100;
        assert AccumAll(s, bs).sum1 == (s'.sum1 + Sum(rest)) % 0x100;
        ModAddLeft(s.sum1 + b, Sum(rest));
      }
      assert AccumAll(s, bs).sum2 == (s.sum2 + m * s.sum1 + WeightedSum(bs)) % 0x100 by {
        assert WeightedSum(bs) == m * b + w;
        SecondSumStep(s.sum1, s.sum2, b, s'.sum1, s'.sum2, n, m, w);
      }
    }
  }

  /** The arithmetic of one step of `AccumAllClosedForm`, over plain integers. */
  lemma SecondSumStep(s1: int, s2: int, b: int, s1': int, s2': int, n: nat, m: nat, w: int)
    requires s1' == (s1 + b) % 0x100 && s2' == (s2 + s1') % 0x100
    requires m == n + 1
    ensures (s2' + n * s1' + w) % 0x100 == (s2 + m * s1 + (m * b + w)) % 0x100
  {
    var a := s1 + b;
    ModAddLeft(s2 + s1', n * s1' + w);
    assert s2 + s1' + (n * s1' + w) == s2 + w + m * s1';
    ModMulRight(m, a);
    ModCongruent(m * s1', m * a, s2 + w);
    assert m * a == m * s1 + m * b;
  }

  lemma ModCongruent(p: int, q: int, x: int)
    requires p % 0x100 == q % 0x100
    ensures (p + x) % 0x100 == (q + x) % 0x100
  {
    ModAddLeft(p, x);
    ModAddLeft(q, x);
  }

  /** From zeroed sums, the checksum is the byte sum and the weighted byte sum, modulo 256. */
  lemma ClosedForm(bs: seq<byte>)
    ensures AccumAll(Reset, bs) == Sums(Sum(bs) % 0x100, WeightedSum(bs) % 0x100)
    ensures Checksum(bs) == (WeightedSum(bs) % 0x100) * 0x100 + Sum(bs) % 0x100
  {
    AccumAllClosedForm(Reset, bs);
  }
}
