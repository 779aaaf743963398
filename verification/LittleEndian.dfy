// Integers of any width as little-endian bytes, unsigned and in two's complement.

module LittleEndian {
  import opened Bytes

  function Power256(n: nat): (p: nat)
    ensures p >= 1
  {
    if n == 0 then 1 else 0x100 * Power256(n - 1)
  }

  /** An unsigned number, least significant byte first. */
  function FromLe(b: Bytes): nat {
    if b == [] then 0 else b[0] + 0x100 * FromLe(b[1..])
  }

  /** The low `w` bytes of `n`, in two's complement. */
  function Le(n: int, w: nat): (b: Bytes)
    ensures |b| == w
    decreases w
  {
    if w == 0 then [] else [n % 0x100] + Le(n / 0x100, w - 1)
  }

  function SignedLe(b: Bytes): int {
    if b != [] && b[|b| - 1] >= 0x80 then FromLe(b) - Power256(|b|) else FromLe(b)
  }

  lemma {:induction false} TopByte(b: Bytes)
    requires b != []
    ensures FromLe(b) < Power256(|b|)
    ensures b[|b| - 1] >= 0x80 <==> 2 * FromLe(b) >= Power256(|b|)
  {
    hide FromLe;
    hide Power256;
    FirstByte(b);
    if |b| == 1 {
      NoBytes(b[1..]);
    } else {
      TopByte(b[1..]);
      EvenPower(|b| - 1);
      TopStep(b[0], FromLe(b[1..]), Power256(|b| - 1));
    }
  }

  lemma FirstByte(b: Bytes)
    requires b != []
    ensures FromLe(b) == b[0] as int + 0x100 * FromLe(b[1..]) && Power256(|b|) == 0x100 * Power256(|b| - 1)
  {
  }

  lemma NoBytes(b: Bytes)
    requires b == []
    ensures FromLe(b) == 0 && Power256(|b|) == 1
  {
  }

  lemma EvenPower(n: nat)
    requires n > 0
    ensures Power256(n) % 2 == 0
  {
    assert Power256(n) == 2 * (0x80 * Power256(n - 1));
  }

  lemma TopStep(first: byte, rest: nat, p: nat)
    requires rest < p && p % 2 == 0
    ensures first as int + 0x100 * rest < 0x100 * p
    ensures 2 * (first as int + 0x100 * rest) >= 0x100 * p <==> 2 * rest >= p
  {
    var half := p / 2;
    assert p == 2 * half;
  }

  lemma {:induction false} LeUnsigned(n: int, w: nat) returns (q: int)
    ensures n == FromLe(Le(n, w)) + Power256(w) * q
    decreases w
  {
    if w == 0 {
      q := n;
    } else {
      q := LeUnsigned(n / 0x100, w - 1);
      assert Le(n, w)[1..] == Le(n / 0x100, w - 1);
      assert 0x100 * (Power256(w - 1) * q) == Power256(w) * q;
    }
  }

  /** Numbers in the two's complement range of `w` bytes are read back. */
  lemma SignedReadBack(n: int, w: nat)
    requires w >= 1 && -(Power256(w) as int) <= 2 * n < Power256(w)
    ensures SignedLe(Le(n, w)) == n
  {
    var b, p := Le(n, w), Power256(w);
    var q := LeUnsigned(n, w);
    TopByte(b);
    SmallQuotient(FromLe(b), p, q, n);
  }

  lemma SmallQuotient(u: nat, p: nat, q: int, n: int)
    requires u < p && n == u + p * q && -(p as int) <= 2 * n < p
    ensures 2 * u < p ==> q == 0
    ensures 2 * u >= p ==> q == -1
  {
    assert q >= 1 ==> p * q >= p;
    assert q <= -2 ==> p * q <= -2 * p;
    assert q == 0 ==> p * q == 0;
    assert q == -1 ==> p * q == -(p as int);
  }

  /** Numbers in the unsigned range are read back. */
  lemma UnsignedReadBack(n: nat, w: nat)
    requires w >= 1 && n < Power256(w)
    ensures FromLe(Le(n, w)) == n
  {
    var p := Power256(w);
    var q := LeUnsigned(n, w);
    TopByte(Le(n, w));
    SmallMultiple(FromLe(Le(n, w)), p, q, n);
  }

  lemma SmallMultiple(u: nat, p: nat, q: int, n: nat)
    requires u < p && n < p && n == u + p * q
    ensures q == 0
  {
    assert q >= 1 ==> p * q >= p;
    assert q <= -1 ==> p * q <= -(p as int);
  }
}
