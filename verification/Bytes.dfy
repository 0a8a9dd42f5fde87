/** Bytes and result types that several models share. */
module Bytes {
  type byte = x: int | 0 <= x < 256

  type Sector = s: seq<byte> | |s| == 512 witness seq(512, _ => 0)

  datatype Option<+T> = None | Some(value: T)

  function Min(a: nat, b: nat): nat {
    if a < b then a else b
  }

  function Concat(parts: seq<seq<byte>>): seq<byte> {
    if parts == [] then [] else parts[0] + Concat(parts[1..])
  }
}

/** Words of four bytes, lowest byte first. */
module LittleEndian {
  import opened Bytes

  /** A little-endian word. */
  function Le(b0: byte, b1: byte, b2: byte, b3: byte): nat {
    b0 as nat + 0x100 * b1 as nat + 0x1_0000 * b2 as nat + 0x100_0000 * b3 as nat
  }

  function ByteOf(w: nat, k: nat): byte
    requires k < 4
  {
    if k == 0 then w % 0x100
    else if k == 1 then w / 0x100 % 0x100
    else if k == 2 then w / 0x1_0000 % 0x100
    else w / 0x100_0000 % 0x100
  }

  lemma LowBytes(b0: byte, b1: byte, high: nat)
    ensures (b0 + 0x100 * b1 + 0x1_0000 * high) % 0x100 == b0
    ensures (b0 + 0x100 * b1 + 0x1_0000 * high) / 0x100 % 0x100 == b1
    ensures (b0 + 0x100 * b1 + 0x1_0000 * high) / 0x1_0000 == high
  {}

  lemma BytesOfLe(b0: byte, b1: byte, b2: byte, b3: byte)
    ensures var w := Le(b0, b1, b2, b3);
      ByteOf(w, 0) == b0 && ByteOf(w, 1) == b1 && ByteOf(w, 2) == b2 && ByteOf(w, 3) == b3
  {
    var w := Le(b0, b1, b2, b3);
    LowBytes(b0, b1, b2 + 0x100 * b3);
    assert w / 0x1_0000 == b2 + 0x100 * b3;
    LowBytes(b2, b3, 0);
    assert w / 0x100_0000 == w / 0x1_0000 / 0x100;
  }
}

/** Quotients by a divisor that is not a constant. */
module Division {
  lemma Scaled(a: nat, b: nat, n: nat)
    requires a <= b
    ensures a * n <= b * n
  {}

  lemma QuotientIs(y: nat, a: nat, b: nat, n: nat)
    requires n > 0 && y == a * n + b && b < n
    ensures y / n == a && y % n == b
  {
    var q := y / n;
    assert y == q * n + y % n;
    if q > a {
      Scaled(a + 1, q, n);
    } else if q < a {
      Scaled(q + 1, a, n);
    }
  }

  lemma DivideSum(c: nat, x: nat, n: nat)
    requires n > 0
    ensures (c * n + x) / n == c + x / n && (c * n + x) % n == x % n
  {
    var a, b := x / n, x % n;
    assert c * n + x == (c + a) * n + b;
    QuotientIs(c * n + x, c + a, b, n);
  }

  lemma QuotientBelow(k: nat, n: nat, p: nat)
    requires p > 0 && k < n * p
    ensures k / p < n
  {
    if k / p >= n { Scaled(n, k / p, p); }
  }

  lemma QuotientAtLeast(k: nat, n: nat, p: nat)
    requires p > 0 && n * p <= k
    ensures n <= k / p
  {
    if k / p < n {
      Scaled(k / p + 1, n, p);
    }
  }
}
