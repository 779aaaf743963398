// The C decompressor, writing into a slice of a larger buffer in place.

module LzfDecoder {
  import opened Bytes
  import opened LzfFormat

  lemma {:induction false} CopyBackDisjoint(out: Bytes, dist: nat, len: nat)
    requires 1 <= dist <= |out| && len <= dist
    ensures CopyBack(out, dist, len) == out + out[|out| - dist..|out| - dist + len]
    decreases len
  {
    hide *;
    var from := |out| - dist;
    if len == 0 {
      NothingToCopy(out, dist);
      assert out + out[from..from] == out;
    } else {
      var out' := out + [out[from]];
      FirstCopied(out, dist, len);
      CopyBackDisjoint(out', dist, len - 1);
      SliceOfPrefix(out, out', from + 1, from + len);
      Assoc(out, [out[from]], out[from + 1..from + len]);
      FirstOfSlice(out, from, from + len);
    }
  }

  lemma FirstCopied(out: Bytes, dist: nat, len: nat)
    requires 1 <= dist <= |out| && len > 0
    ensures CopyBack(out, dist, len) == CopyBack(out + [out[|out| - dist]], dist, len - 1)
  {
  }

  lemma FirstOfSlice(s: Bytes, i: nat, j: nat)
    requires i < j <= |s|
    ensures s[i..j] == [s[i]] + s[i + 1..j]
  {
  }

  /** Only `buf[from..to]` differs from what the buffer was. */
  twostate predicate OnlyWithin(buf: array<byte>, from: nat, to: nat)
    reads buf
  {
    && from <= to <= buf.Length
    && (forall i :: 0 <= i < from ==> buf[i] == old(buf[i]))
    && (forall i :: to <= i < buf.Length ==> buf[i] == old(buf[i]))
  }

  /**
    * The literal switch, entered at label `n`: every label copies one byte and falls through to the
    * next lower one.
    */
  method LiteralSwitch(input: Bytes, ip: nat, buf: array<byte>, start: nat, op: nat, n: nat)
    requires 1 <= n <= 32 && ip + n <= |input| && start <= op && op + n <= buf.Length
    modifies buf
    ensures OnlyWithin(buf, op, op + n)
    ensures buf[start..op + n] == old(buf[start..op]) + input[ip..ip + n]
    decreases n
  {
    ghost var out := buf[start..op];
    buf[op] := input[ip];
    assert buf[start..op + 1] == out + [input[ip]];
    if n > 1 {
      LiteralSwitch(input, ip + 1, buf, start, op + 1, n - 1);
      assert [input[ip]] + input[ip + 1..ip + n] == input[ip..ip + n];
      Assoc(out, [input[ip]], input[ip + 1..ip + n]);
    } else {
      assert input[ip..ip + 1] == [input[ip]];
    }
  }

  /** One byte forward: the first step of any copy over the distance between `ref` and `op`. */
  method CopyOctet(buf: array<byte>, start: nat, op: nat, ref: nat, ghost len: nat)
    requires start <= ref < op < buf.Length && len > 0
    modifies buf
    ensures OnlyWithin(buf, op, op + 1)
    ensures CopyBack(buf[start..op + 1], op - ref, len - 1) == CopyBack(old(buf[start..op]), op - ref, len)
  {
    ghost var out := buf[start..op];
    buf[op] := buf[ref];
    assert buf[start..op + 1] == out + [out[|out| - (op - ref)]];
  }

  /**
    * The reference switch, entered at `label`: every label copies one byte and falls through to the
    * next lower one, and label 0 copies a second byte.
    */
  method ReferenceSwitch(buf: array<byte>, start: nat, op: nat, ref: nat, code: nat)
    requires code <= 9 && start <= ref < op && op + code + 2 <= buf.Length
    modifies buf
    ensures OnlyWithin(buf, op, op + code + 2)
    ensures buf[start..op + code + 2] == CopyBack(old(buf[start..op]), op - ref, code + 2)
    decreases code
  {
    hide CopyBack;
    ghost var dist := op - ref;
    CopyOctet(buf, start, op, ref, code + 2);
    assert (op + 1) - (ref + 1) == dist;
    if code == 0 {
      CopyOctet(buf, start, op + 1, ref + 1, 1);
      NothingToCopy(buf[start..op + 2], dist);
    } else {
      ReferenceSwitch(buf, start, op + 1, ref + 1, code - 1);
    }
  }

  /** Overlapping areas: one byte at a time, forward, until `len` bytes are copied. */
  method CopyOctets(buf: array<byte>, start: nat, op: nat, ref: nat, len: nat)
    requires start <= ref < op && 0 < len && op + len <= buf.Length
    modifies buf
    ensures OnlyWithin(buf, op, op + len)
    ensures buf[start..op + len] == CopyBack(old(buf[start..op]), op - ref, len)
  {
    hide CopyBack;
    var k := 0;
    while k < len
      invariant 0 <= k <= len
      invariant OnlyWithin(buf, op, op + len)
      invariant CopyBack(buf[start..op + k], op - ref, len - k) == CopyBack(old(buf[start..op]), op - ref, len)
    {
      CopyOctet(buf, start, op + k, ref + k, len - k);
      k := k + 1;
    }
    NothingToCopy(buf[start..op + len], op - ref);
  }

  lemma NothingToCopy(out: Bytes, dist: nat)
    requires 1 <= dist <= |out|
    ensures CopyBack(out, dist, 0) == out
  {
  }

  /** Disjoint areas: one block copy. */
  method CopyDisjoint(buf: array<byte>, start: nat, op: nat, ref: nat, len: nat)
    requires start <= ref && ref + len <= op && 0 < len && op + len <= buf.Length
    modifies buf
    ensures OnlyWithin(buf, op, op + len)
    ensures buf[start..op + len] == CopyBack(old(buf[start..op]), op - ref, len)
  {
    hide CopyBack;
    ghost var out := buf[start..op];
    forall i | 0 <= i < len {
      buf[op + i] := buf[ref + i];
    }
    ghost var now := buf[start..op + len];
    assert forall i :: 0 <= i < |out| ==> now[i] == out[i];
    assert forall i :: |out| <= i < |now| ==> now[i] == out[i - (op - ref)];
    BlockCopied(now, out, op - ref, len);
  }

  /** A block copied behind `out` from `dist` bytes before its end. */
  lemma BlockCopied(now: Bytes, out: Bytes, dist: nat, len: nat)
    requires 1 <= dist <= |out| && len <= dist && |now| == |out| + len
    requires forall i :: 0 <= i < |out| ==> now[i] == out[i]
    requires forall i :: |out| <= i < |now| ==> now[i] == out[i - dist]
    ensures now == CopyBack(out, dist, len)
  {
    hide CopyBack;
    CopyBackDisjoint(out, dist, len);
    var copy := out + out[|out| - dist..|out| - dist + len];
    assert forall i :: 0 <= i < |now| ==> now[i] == copy[i];
  }

  /**
    * The three copy strategies: the switch for short copies, a block copy of disjoint areas, the
    * byte loop otherwise. All equal a forward copy.
    */
  method CopyReference(buf: array<byte>, start: nat, op: nat, ref: nat, code: nat)
    requires start <= ref < op && op + code + 2 <= buf.Length
    modifies buf
    ensures OnlyWithin(buf, op, op + code + 2)
    ensures buf[start..op + code + 2] == CopyBack(old(buf[start..op]), op - ref, code + 2)
  {
    var len := code + 2;
    if code <= 9 {
      ReferenceSwitch(buf, start, op, ref, code);
    } else if op >= ref + len {
      CopyDisjoint(buf, start, op, ref, len);
    } else {
      CopyOctets(buf, start, op, ref, len);
    }
  }

  lemma Suffix(input: Bytes, ip: nat, n: nat)
    requires ip + n <= |input|
    ensures input[ip..][n..] == input[ip + n..]
    ensures forall i :: 0 <= i < |input| - ip ==> input[ip..][i] == input[ip + i]
  {
  }

  /** A control byte below 32: one literal run. */
  method LiteralRun(input: Bytes, ip: nat, buf: array<byte>, start: nat, op: nat, cap: nat)
    returns (ok: bool, ip': nat, op': nat)
    requires ip < |input| && input[ip] < 32 && start <= op <= start + cap <= buf.Length
    modifies buf
    ensures OnlyWithin(buf, start, start + cap)
    ensures ok ==> ip < ip' <= |input| && op <= op' <= start + cap
    ensures var p := Step(input[ip..], old(buf[start..op]), cap);
      if ok then p == Next(input[ip'..], buf[start..op']) else p.Stop?
  {
    var n := input[ip] as int + 1;
    if op + n > start + cap || ip + 1 + n > |input| {
      return false, ip, op;
    }
    Suffix(input, ip, 1 + n);
    assert input[ip..][1..1 + n] == input[ip + 1..ip + 1 + n];
    LiteralSwitch(input, ip + 1, buf, start, op, n);
    return true, ip + 1 + n, op + n;
  }

  /** The length code and distance of a reference, and the position behind it. */
  method ReadReference(input: Bytes, ip: nat) returns (ok: bool, code: nat, dist: nat, ip': nat)
    requires ip < |input| && input[ip] >= 32
    ensures ok ==> ip < ip' <= |input| && 1 <= code && 1 <= dist
    ensures forall out: Bytes, cap: nat ::
      Step(input[ip..], out, cap) == (if ok then StepRef(input[ip'..], out, cap, code + 2, dist) else Stop(PastInput))
  {
    var ctrl: int := input[ip];
    code, ip' := ctrl / 32, ip + 1;
    Suffix(input, ip, 1);
    if ip' >= |input| {
      return false, 0, 0, ip;
    }
    if code == 7 {
      code := code + input[ip'] as int;
      ip' := ip' + 1;
      if ip' >= |input| {
        return false, 0, 0, ip;
      }
    }
    dist := ctrl % 32 * 0x100 + 1 + input[ip'] as int;
    ip' := ip' + 1;
    Suffix(input, ip, ip' - ip);
    ok := true;
  }

  /** Any other control byte: one back-reference. */
  method BackReference(input: Bytes, ip: nat, buf: array<byte>, start: nat, op: nat, cap: nat)
    returns (ok: bool, ip': nat, op': nat)
    requires ip < |input| && input[ip] >= 32 && start <= op <= start + cap <= buf.Length
    modifies buf
    ensures OnlyWithin(buf, start, start + cap)
    ensures ok ==> ip < ip' <= |input| && op <= op' <= start + cap
    ensures var p := Step(input[ip..], old(buf[start..op]), cap);
      if ok then p == Next(input[ip'..], buf[start..op']) else p.Stop?
  {
    var code, dist;
    ok, code, dist, ip' := ReadReference(input, ip);
    if !ok || op + code + 2 > start + cap || dist > op - start {
      return false, ip, op;
    }
    CopyReference(buf, start, op, op - dist, code);
    op' := op + code + 2;
  }

  /**
    * Decompress `input` into `buf[start..start + cap]`. Returns the number of bytes written, or 0
    * for a stream that does not fit or refers back too far (or, in a build without the input
    * checks, would make the decoder read on past its input).
    */
  method LzfDecompress(input: Bytes, buf: array<byte>, start: nat, cap: nat) returns (n: nat)
    requires input != [] && start + cap <= buf.Length
    modifies buf
    ensures OnlyWithin(buf, start, start + cap)
    ensures match Decode(input, [], cap)
      case Done(out) => 0 < n == |out| && buf[start..start + n] == out
      case _ => n == 0
  {
    var ip, op := 0, start;
    assert buf[start..op] == [] && input[0..] == input;
    while ip < |input|
      invariant ip <= |input| && start <= op <= start + cap
      invariant OnlyWithin(buf, start, start + cap)
      invariant Decode(input[ip..], buf[start..op], cap) == Decode(input, [], cap)
    {
      var ok;
      if input[ip] < 32 {
        ok, ip, op := LiteralRun(input, ip, buf, start, op, cap);
      } else {
        ok, ip, op := BackReference(input, ip, buf, start, op, cap);
      }
      if !ok {
        return 0;
      }
    }
    n := op - start;
  }

  /** The safe wrapper: empty input is empty output, and a returned 0 is an error. */
  method DecompressInto(input: Bytes, buf: array<byte>, start: nat, cap: nat) returns (n: Option<nat>)
    requires start + cap <= buf.Length
    modifies buf
    ensures OnlyWithin(buf, start, start + cap)
    ensures n.Some? == Inflate(input, cap).Some?
    ensures n.Some? ==> n.value <= cap && buf[start..start + n.value] == Inflate(input, cap).value
  {
    if input == [] {
      assert buf[start..start] == [];
      return Some(0);
    }
    var written := LzfDecompress(input, buf, start, cap % TWO_32);
    if written == 0 {
      return None;
    }
    return Some(written);
  }
}
