// Bytes, fixed-width integers and flattened sequences shared by every component.

module Bytes {

  type byte = b: int | 0 <= b < 0x100

  type Bytes = seq<byte>

  const TWO_32 := 0x1_0000_0000
  const TWO_31 := 0x8000_0000

  datatype Option<+T> = None | Some(value: T)

  // -- Little-endian integers --

  /** The low 32 bits of `n`, least significant byte first. */
  function U32Le(n: int): (r: Bytes)
    ensures |r| == 4
  {
    [n % 0x100, n / 0x100 % 0x100, n / 0x1_0000 % 0x100, n / 0x100_0000 % 0x100]
  }

  function FromU32Le(b: Bytes): (n: nat)
    requires |b| == 4
    ensures n < TWO_32
  {
    Base256(b[0], b[1], b[2], b[3])
  }

  function Base256(b0: int, b1: int, b2: int, b3: int): int {
    b0 + 0x100 * b1 + 0x1_0000 * b2 + 0x100_0000 * b3
  }

  /** The low 64 bits of `n`, least significant byte first. */
  function U64Le(n: int): (r: Bytes)
    ensures |r| == 8
  {
    U32Le(n % TWO_32) + U32Le(n / TWO_32)
  }

  function FromU64Le(b: Bytes): (n: nat)
    requires |b| == 8
  {
    FromU32Le(b[..4]) + TWO_32 * FromU32Le(b[4..])
  }

  lemma DivDiv(n: nat)
    ensures n / 0x1_0000 == n / 0x100 / 0x100 && n / 0x100_0000 == n / 0x1_0000 / 0x100
  {
  }

  lemma U32RoundTrip(n: nat)
    requires n < TWO_32
    ensures FromU32Le(U32Le(n)) == n
  {
    var a := n / 0x100;
    var b := a / 0x100;
    var c := b / 0x100;
    DivDiv(n);
    assert c < 0x100 && b == 0x100 * c + b % 0x100;
    assert a == 0x100 * b + a % 0x100;
    assert n == 0x100 * a + n % 0x100;
    assert U32Le(n) == [n % 0x100, a % 0x100, b % 0x100, c];
    assert FromU32Le(U32Le(n)) == Base256(n % 0x100, a % 0x100, b % 0x100, c);
  }

  lemma U64RoundTrip(n: nat)
    requires n < TWO_32 * TWO_32
    ensures FromU64Le(U64Le(n)) == n
  {
    var hi, lo := n / TWO_32, n % TWO_32;
    assert n == TWO_32 * hi + lo && hi < TWO_32;
    U32RoundTrip(lo);
    U32RoundTrip(hi);
    assert U64Le(n)[..4] == U32Le(lo) && U64Le(n)[4..] == U32Le(hi);
  }

  // -- Flattening --

  function Flatten<T>(parts: seq<seq<T>>): seq<T> {
    if parts == [] then [] else parts[0] + Flatten(parts[1..])
  }

  lemma {:induction false} FlattenConcat<T>(a: seq<seq<T>>, b: seq<seq<T>>)
    ensures Flatten(a + b) == Flatten(a) + Flatten(b)
  {
    if a == [] {
      assert a + b == b;
    } else {
      assert (a + b)[0] == a[0] && (a + b)[1..] == a[1..] + b;
      FlattenConcat(a[1..], b);
    }
  }

  lemma FlattenAppend<T>(a: seq<seq<T>>, last: seq<T>)
    ensures Flatten(a + [last]) == Flatten(a) + last
  {
    FlattenConcat(a, [last]);
    assert Flatten([last]) == last + Flatten<T>([]);
  }

  lemma FlattenSplit<T>(a: seq<seq<T>>, k: nat)
    requires k <= |a|
    ensures Flatten(a) == Flatten(a[..k]) + Flatten(a[k..])
  {
    assert a == a[..k] + a[k..];
    FlattenConcat(a[..k], a[k..]);
  }

  // -- Zero-filled buffers --

  function Zeros(n: nat): (r: Bytes)
    ensures |r| == n && forall i :: 0 <= i < n ==> r[i] == 0
  {
    seq(n, _ => 0)
  }

  lemma Assoc<T>(a: seq<T>, b: seq<T>, c: seq<T>)
    ensures (a + b) + c == a + (b + c)
  {
  }

  lemma MiddleSlice<T>(a: seq<T>, b: seq<T>, c: seq<T>)
    ensures (a + b + c)[|a|..|a| + |b|] == b
  {
  }

  // -- Slices --

  lemma FrontAndRest<T>(a: seq<T>, b: seq<T>)
    ensures (a + b)[..|a|] == a && (a + b)[|a|..] == b
  {
  }

  lemma SliceOfSlice<T>(s: seq<T>, i: nat, j: nat, k: nat, l: nat)
    requires i <= j <= |s| && k <= l <= j - i
    ensures s[i..j][k..l] == s[i + k..i + l]
  {
    forall n | 0 <= n < l - k ensures s[i..j][k..l][n] == s[i + k..i + l][n] {
    }
  }

  lemma FrontOfRest<T>(s: seq<T>, i: nat, n: nat)
    requires i + n <= |s|
    ensures s[i..][..n] == s[i..i + n]
  {
  }

  lemma RestOfRest<T>(s: seq<T>, i: nat, j: nat)
    requires i + j <= |s|
    ensures s[i..][j..] == s[i + j..]
  {
  }

  lemma SliceOfPrefix<T>(a: seq<T>, b: seq<T>, i: nat, j: nat)
    requires a <= b && i <= j <= |a|
    ensures a[i..j] == b[i..j]
  {
  }

  // -- Overwriting a part --

  /** The bytes with those from `at` on overwritten. */
  function Patch(file: Bytes, at: nat, part: Bytes): (r: Bytes)
    requires at + |part| <= |file|
    ensures |r| == |file|
  {
    file[..at] + part + file[at + |part|..]
  }

  lemma PatchMiddle(a: Bytes, x: Bytes, b: Bytes, y: Bytes)
    requires |x| == |y|
    ensures Patch(a + x + b, |a|, y) == a + y + b
  {
    var f := a + x + b;
    assert f[..|a|] == a && f[|a| + |y|..] == b;
  }
}
