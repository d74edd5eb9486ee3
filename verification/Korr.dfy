/** The little-endian readers of mariadb_python.h, for hosts that are not IA-32. */
module Korr {
  import opened Arith
  import opened Bytes

  function Uint2(b: seq<byte>, i: nat): nat
    requires i + 2 <= |b|
  {
    b[i] as int + 0x100 * b[i + 1] as int
  }

  function Uint4(b: seq<byte>, i: nat): nat
    requires i + 4 <= |b|
  {
    b[i] as int + 0x100 * b[i + 1] as int + 0x1_0000 * b[i + 2] as int + 0x100_0000 * b[i + 3] as int
  }

  function Uint8(b: seq<byte>, i: nat): nat
    requires i + 8 <= |b|
  {
    Uint4(b, i) + 0x1_0000_0000 * Uint4(b, i + 4)
  }

  /** A two's complement number of `modulus` values. */
  function Signed(n: nat, modulus: nat): int {
    if 2 * n >= modulus then n - modulus else n
  }

  function Sint2(b: seq<byte>, i: nat): int
    requires i + 2 <= |b|
  {
    Signed(Uint2(b, i), 0x1_0000)
  }

  function Sint4(b: seq<byte>, i: nat): int
    requires i + 4 <= |b|
  {
    Signed(Uint4(b, i), 0x1_0000_0000)
  }

  function Sint8(b: seq<byte>, i: nat): int
    requires i + 8 <= |b|
  {
    Signed(Uint8(b, i), 0x1_0000_0000_0000_0000)
  }

  // --- storing -----------------------------------------------------------------------------------------

  function Pow256(w: nat): (p: nat)
    ensures p > 0
  {
    if w == 0 then 1 else 256 * Pow256(w - 1)
  }

  /** The `w` low-order bytes of a number in memory on a little-endian host. */
  function Stored(n: int, w: nat): (b: seq<byte>)
    ensures |b| == w
    decreases w
  {
    if w == 0 then [] else [n % 256] + Stored(n / 256, w - 1)
  }

  /** The number some bytes denote, least significant first. */
  function Unsigned(b: seq<byte>): nat {
    if b == [] then 0 else b[0] as int + 256 * Unsigned(b[1..])
  }

  /** Storing keeps a number modulo the width. */
  lemma {:induction false} StoredUnsigned(n: int, w: nat)
    ensures Unsigned(Stored(n, w)) == n % Pow256(w)
    decreases w
  {
    if w > 0 {
      StoredUnsigned(n / 256, w - 1);
      assert Stored(n, w)[1..] == Stored(n / 256, w - 1);
      ModSplit(n, Pow256(w - 1));
    }
  }

  lemma {:induction false} ModSplit(n: int, p: nat)
    requires p > 0
    ensures n % (256 * p) == n % 256 + 256 * ((n / 256) % p)
  {
    var q := n / 256;
    var k := q / p;
    var r := n % 256 + 256 * (q % p);
    assert n == 256 * q + n % 256 && q == p * k + q % p;
    assert n == (256 * p) * k + r by {
      assert 256 * (p * k) == (256 * p) * k;
    }
    assert 0 <= r < 256 * p;
    DivModUnique(n, 256 * p, k, r);
  }

  lemma {:induction false} ReadersAgree(b: seq<byte>)
    ensures |b| == 2 ==> Uint2(b, 0) == Unsigned(b)
    ensures |b| == 4 ==> Uint4(b, 0) == Unsigned(b)
    ensures |b| == 8 ==> Uint8(b, 0) == Unsigned(b)
  {
    if |b| == 2 {
      assert b[1..][1..] == [];
    } else if |b| == 4 {
      FourBytes(b);
    } else if |b| == 8 {
      FourBytes(b[4..]);
      assert b[1..][1..][1..][1..] == b[4..];
      assert Unsigned(b) == b[0] + 256 * Unsigned(b[1..]);
      assert Unsigned(b[1..]) == b[1] + 256 * Unsigned(b[1..][1..]);
      assert Unsigned(b[1..][1..]) == b[2] + 256 * Unsigned(b[1..][1..][1..]);
      assert Unsigned(b[1..][1..][1..]) == b[3] + 256 * Unsigned(b[4..]);
    }
  }

  lemma {:induction false} FourBytes(b: seq<byte>)
    requires |b| == 4
    ensures Unsigned(b) == Uint4(b, 0)
  {
    assert b[1..][1..][1..][1..] == [];
    assert Unsigned(b[1..][1..][1..]) == b[3];
    assert Unsigned(b[1..][1..]) == b[2] as int + 256 * b[3] as int;
  }

  lemma {:induction false} Powers()
    ensures Pow256(1) == 0x100 && Pow256(2) == 0x1_0000
    ensures Pow256(4) == 0x1_0000_0000 && Pow256(8) == 0x1_0000_0000_0000_0000
  {
    assert Pow256(2) == 256 * Pow256(1);
    assert Pow256(4) == 256 * Pow256(3) && Pow256(3) == 256 * Pow256(2);
    assert Pow256(6) == 256 * Pow256(5) && Pow256(5) == 256 * Pow256(4);
    assert Pow256(8) == 256 * Pow256(7) && Pow256(7) == 256 * Pow256(6);
  }
}
