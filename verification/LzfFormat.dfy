// The LZF byte format, apart from how either side computes it: an item list (literals and
// back-references), the bytes it encodes to, and what those bytes decode to.

module LzfFormat {
  import opened Bytes

  const MAX_LIT := 32
  const MAX_REF := 264
  const MAX_OFF := 8192

  datatype Item = Lit(value: byte) | Ref(dist: nat, len: nat)

  predicate ValidItem(t: Item) {
    t.Ref? ==> 1 <= t.dist <= MAX_OFF && 3 <= t.len <= MAX_REF
  }

  predicate ValidItems(items: seq<Item>) {
    forall i :: 0 <= i < |items| ==> ValidItem(items[i])
  }

  /** Output bytes one item stands for. */
  function Size(t: Item): nat {
    if t.Lit? then 1 else t.len
  }

  // -- Meaning of an item list --

  /** `len` bytes, each copied from `dist` positions before the end: a forward byte-by-byte copy. */
  function CopyBack(out: Bytes, dist: nat, len: nat): (r: Bytes)
    requires 1 <= dist <= |out|
    ensures |r| == |out| + len && out <= r
    decreases len
  {
    if len == 0 then out else CopyBack(out + [out[|out| - dist]], dist, len - 1)
  }

  /** The output after `items`, starting from `out`; None if a reference reaches before the start. */
  function Expand(out: Bytes, items: seq<Item>): (r: Option<Bytes>)
    ensures r.Some? ==> out <= r.value
    decreases |items|
  {
    if items == [] then Some(out)
    else match items[0]
      case Lit(b) => Expand(out + [b], items[1..])
      case Ref(dist, len) =>
        if 1 <= dist <= |out| then Expand(CopyBack(out, dist, len), items[1..]) else None
  }

  // -- Encoding --

  /** One literal run: its length less one, then its bytes. */
  function Run(pending: Bytes): Bytes
    requires |pending| <= MAX_LIT
  {
    if pending == [] then [] else [|pending| - 1] + pending
  }

  /** A back-reference in two bytes, or in three when the length code does not fit in three bits. */
  function RefBytes(dist: nat, len: nat): (r: Bytes)
    requires ValidItem(Ref(dist, len))
    ensures |r| == if len < 9 then 2 else 3
  {
    var off, code := dist - 1, len - 2;
    if code < 7 then [code * 32 + off / 0x100, off % 0x100]
    else [7 * 32 + off / 0x100, code - 7, off % 0x100]
  }

  /** The encoding of `items` when the literals `pending` already wait to be written as one run. */
  function Encode(pending: Bytes, items: seq<Item>): Bytes
    requires |pending| < MAX_LIT && ValidItems(items)
    decreases |items|
  {
    if items == [] then Run(pending)
    else match items[0]
      case Lit(b) =>
        var p := pending + [b];
        if |p| == MAX_LIT then Run(p) + Encode([], items[1..]) else Encode(p, items[1..])
      case Ref(dist, len) =>
        Run(pending) + (RefBytes(dist, len) + Encode([], items[1..]))
  }

  // -- Decoding --

  /**
    * What the decoder makes of its input. `PastInput` stands for a read beyond the end of the
    * input, which the decoder only notices when it is built with its input checks.
    */
  datatype Decoded = Done(out: Bytes) | TooBig | BadReference | PastInput

  /** One control byte's worth of decoding: go on with the unread `rest` and `out` produced, or stop. */
  datatype Progress = Next(rest: Bytes, out: Bytes) | Stop(why: Decoded)

  function Step(input: Bytes, out: Bytes, cap: nat): (p: Progress)
    requires input != []
    ensures p.Next? ==> |p.rest| < |input| && out <= p.out && |out| < |p.out|
    ensures p.Next? && |out| <= cap ==> |p.out| <= cap
    ensures p.Stop? ==> !p.why.Done?
  {
    var ctrl: int := input[0];
    if ctrl < 32 then
      var n := ctrl + 1;
      if |out| + n > cap then Stop(TooBig)
      else if 1 + n > |input| then Stop(PastInput)
      else Next(input[1 + n..], out + input[1..1 + n])
    else if ctrl / 32 == 7 then
      if |input| < 3 then Stop(PastInput)
      else StepRef(input[3..], out, cap, 9 + input[1] as int, 1 + ctrl % 32 * 0x100 + input[2] as int)
    else
      if |input| < 2 then Stop(PastInput)
      else StepRef(input[2..], out, cap, 2 + ctrl / 32, 1 + ctrl % 32 * 0x100 + input[1] as int)
  }

  function StepRef(rest: Bytes, out: Bytes, cap: nat, len: nat, dist: nat): Progress
    requires 1 <= dist
  {
    if |out| + len > cap then Stop(TooBig)
    else if dist > |out| then Stop(BadReference)
    else Next(rest, CopyBack(out, dist, len))
  }

  /** Decode all of `input`, with `out` already produced and room for `cap` bytes in all. */
  function Decode(input: Bytes, out: Bytes, cap: nat): (d: Decoded)
    ensures d.Done? ==> out <= d.out && (input != [] ==> |out| < |d.out|)
    ensures d.Done? && |out| <= cap ==> |d.out| <= cap
    decreases |input|
  {
    if input == [] then Done(out)
    else match Step(input, out, cap)
      case Next(rest, out') => Decode(rest, out', cap)
      case Stop(why) => why
  }

  // -- Decoding inverts encoding --

  lemma DecodeRun(run: Bytes, tail: Bytes, out: Bytes, cap: nat)
    requires |run| <= MAX_LIT && |out| + |run| <= cap
    ensures Decode(Run(run) + tail, out, cap) == Decode(tail, out + run, cap)
  {
    if run == [] {
      assert Run(run) + tail == tail && out + run == out;
    } else {
      var input := Run(run) + tail;
      assert input[0] == |run| - 1 && input[1..1 + |run|] == run && input[1 + |run|..] == tail;
    }
  }

  /** The control byte of a reference holds the length code above the high bits of the offset. */
  lemma RefBytesFields(dist: nat, len: nat)
    requires ValidItem(Ref(dist, len))
    ensures var r := RefBytes(dist, len); var ctrl: int := r[0]; var low: int := r[|r| - 1];
      && 32 <= ctrl && 1 + ctrl % 32 * 0x100 + low == dist
      && ctrl / 32 == (if len < 9 then len - 2 else 7)
  {
    var off, code := dist - 1, len - 2;
    var hi := off / 0x100;
    assert hi < 32;
    var top := if code < 7 then code else 7;
    assert (top * 32 + hi) / 32 == top && (top * 32 + hi) % 32 == hi;
  }

  lemma DecodeRefBytes(dist: nat, len: nat, tail: Bytes, out: Bytes, cap: nat)
    requires ValidItem(Ref(dist, len)) && dist <= |out| && |out| + len <= cap
    ensures Decode(RefBytes(dist, len) + tail, out, cap) == Decode(tail, CopyBack(out, dist, len), cap)
  {
    StepRefBytes(dist, len, tail, out, cap);
    hide Step;
  }

  lemma StepRefBytes(dist: nat, len: nat, tail: Bytes, out: Bytes, cap: nat)
    requires ValidItem(Ref(dist, len)) && dist <= |out| && |out| + len <= cap
    ensures Step(RefBytes(dist, len) + tail, out, cap) == Next(tail, CopyBack(out, dist, len))
  {
    var r := RefBytes(dist, len);
    var input := r + tail;
    RefBytesFields(dist, len);
    LongCode(dist, len);
    hide *;
    FrontAndRest(r, tail);
    assert input[0] == r[0] && input[1] == r[1] && input[|r| - 1] == r[|r| - 1];
    StepReads(input, out, cap, dist, len);
  }

  lemma LongCode(dist: nat, len: nat)
    requires ValidItem(Ref(dist, len))
    ensures 3 <= len && (len >= 9 ==> RefBytes(dist, len)[1] as int == len - 9)
  {
  }

  /** The fields of a reference at the start of the input. */
  lemma StepReads(input: Bytes, out: Bytes, cap: nat, dist: nat, len: nat)
    requires 1 <= dist <= |out| && |out| + len <= cap && 3 <= len
    requires |input| >= if len < 9 then 2 else 3
    requires var size := if len < 9 then 2 else 3; var ctrl := input[0] as int;
      && ctrl >= 32
      && 1 + ctrl % 32 * 0x100 + input[size - 1] as int == dist
      && ctrl / 32 == (if len < 9 then len - 2 else 7)
      && (len >= 9 ==> input[1] as int == len - 9)
    ensures Step(input, out, cap) == Next(input[(if len < 9 then 2 else 3)..], CopyBack(out, dist, len))
  {
    hide CopyBack;
  }

  // One item of an encoding and of an expansion

  lemma EncodeLit(pending: Bytes, b: byte, rest: seq<Item>)
    requires |pending| < MAX_LIT && ValidItems(rest)
    ensures Encode(pending, [Lit(b)] + rest)
         == if |pending| + 1 == MAX_LIT then Run(pending + [b]) + Encode([], rest) else Encode(pending + [b], rest)
  {
    assert ([Lit(b)] + rest)[1..] == rest;
  }

  lemma EncodeRef(pending: Bytes, dist: nat, len: nat, rest: seq<Item>)
    requires |pending| < MAX_LIT && ValidItem(Ref(dist, len)) && ValidItems(rest)
    ensures Encode(pending, [Ref(dist, len)] + rest) == Run(pending) + (RefBytes(dist, len) + Encode([], rest))
  {
    assert ([Ref(dist, len)] + rest)[1..] == rest;
  }

  lemma ExpandLit(out: Bytes, b: byte, rest: seq<Item>)
    ensures Expand(out, [Lit(b)] + rest) == Expand(out + [b], rest)
  {
    assert ([Lit(b)] + rest)[1..] == rest;
  }

  lemma ExpandRef(out: Bytes, dist: nat, len: nat, rest: seq<Item>)
    ensures Expand(out, [Ref(dist, len)] + rest)
         == if 1 <= dist <= |out| then Expand(CopyBack(out, dist, len), rest) else None
  {
    assert ([Ref(dist, len)] + rest)[1..] == rest;
  }

  /** The bytes of an item list decode to what the list expands to. */
  lemma {:induction false} DecodeEncode(pending: Bytes, items: seq<Item>, out: Bytes, cap: nat, r: Bytes)
    requires |pending| < MAX_LIT && ValidItems(items)
    requires Expand(out + pending, items) == Some(r) && |r| <= cap
    ensures Decode(Encode(pending, items), out, cap) == Done(r)
    decreases |items|
  {
    if items == [] {
      DecodeRun(pending, [], out, cap);
      assert Run(pending) + [] == Run(pending);
    } else {
      var rest := items[1..];
      assert items == [items[0]] + rest && ValidItem(items[0]);
      match items[0] {
        case Lit(b) =>
          DecodeEncodeLit(pending, b, rest, out, cap, r);
        case Ref(dist, len) =>
          DecodeEncodeRef(pending, dist, len, rest, out, cap, r);
      }
    }
  }

  lemma {:induction false} DecodeEncodeLit(pending: Bytes, b: byte, rest: seq<Item>, out: Bytes, cap: nat, r: Bytes)
    requires |pending| < MAX_LIT && ValidItems(rest)
    requires Expand(out + pending, [Lit(b)] + rest) == Some(r) && |r| <= cap
    ensures Decode(Encode(pending, [Lit(b)] + rest), out, cap) == Done(r)
    decreases |rest| + 1, 0
  {
    var p := pending + [b];
    EncodeLit(pending, b, rest);
    ExpandLit(out + pending, b, rest);
    assert (out + pending) + [b] == out + p;
    if |p| == MAX_LIT {
      DecodeRun(p, Encode([], rest), out, cap);
      assert (out + p) + [] == out + p;
      DecodeEncode([], rest, out + p, cap, r);
    } else {
      DecodeEncode(p, rest, out, cap, r);
    }
  }

  lemma {:induction false} DecodeEncodeRef(pending: Bytes, dist: nat, len: nat, rest: seq<Item>, out: Bytes, cap: nat,
      r: Bytes)
    requires |pending| < MAX_LIT && ValidItem(Ref(dist, len)) && ValidItems(rest)
    requires Expand(out + pending, [Ref(dist, len)] + rest) == Some(r) && |r| <= cap
    ensures Decode(Encode(pending, [Ref(dist, len)] + rest), out, cap) == Done(r)
    decreases |rest| + 1, 0
  {
    var mid, tail, out1 := RefBytes(dist, len), Encode([], rest), out + pending;
    EncodeRef(pending, dist, len, rest);
    ExpandRef(out1, dist, len, rest);
    var out2 := CopyBack(out1, dist, len);
    DecodeRun(pending, mid + tail, out, cap);
    DecodeRefBytes(dist, len, tail, out1, cap);
    assert out2 + [] == out2;
    DecodeEncode([], rest, out2, cap, r);
  }

  // -- Size of an encoding --

  /** Input bytes an item list stands for. */
  function Span(items: seq<Item>): nat {
    if items == [] then 0 else Size(items[0]) + Span(items[1..])
  }

  /** Only a full 32-byte literal run costs an extra byte: a shorter one is paid for by the reference after it. */
  lemma {:induction false} EncodeBound(pending: Bytes, items: seq<Item>)
    requires |pending| < MAX_LIT && ValidItems(items)
    ensures |Encode(pending, items)| <= |pending| + Span(items) + (|pending| + Span(items)) / 32 + 1
    ensures pending == [] && items == [] ==> Encode(pending, items) == []
    decreases |items|
  {
    if items != [] {
      var rest := items[1..];
      match items[0] {
        case Lit(b) =>
          var p := pending + [b];
          EncodeBound(if |p| == MAX_LIT then [] else p, rest);
          assert (32 + Span(rest)) / 32 == 1 + Span(rest) / 32;
        case Ref(dist, len) =>
          EncodeBound([], rest);
          assert Span(rest) / 32 <= (|pending| + Span(items)) / 32;
      }
    }
  }

  // -- Capacity only decides whether decoding fits --

  /** A decoding that fits in `cap` bytes is the same in any buffer that holds its result. */
  lemma {:induction false} DecodeCapacity(input: Bytes, out: Bytes, cap: nat, cap': nat)
    requires Decode(input, out, cap).Done?
    requires |Decode(input, out, cap).out| <= cap'
    ensures Decode(input, out, cap') == Decode(input, out, cap)
    decreases |input|
  {
    if input != [] {
      hide Step;
      var p := Step(input, out, cap);
      assert |p.out| <= cap';
      StepCapacity(input, out, cap, cap');
      DecodeCapacity(p.rest, p.out, cap, cap');
    }
  }

  lemma StepCapacity(input: Bytes, out: Bytes, cap: nat, cap': nat)
    requires input != [] && Step(input, out, cap).Next? && |Step(input, out, cap).out| <= cap'
    ensures Step(input, out, cap') == Step(input, out, cap)
  {
  }

  // -- Without input checks --

  /**
    * What a decoder without input checks makes of memory of which the last `beyond` bytes do not
    * belong to the input: it stops at or behind the end of the input, wherever its last item ends.
    */
  function DecodeUnchecked(memory: Bytes, beyond: nat, out: Bytes, cap: nat): Decoded
    decreases |memory|
  {
    if |memory| <= beyond then Done(out)
    else match Step(memory, out, cap)
      case Next(rest, out') => DecodeUnchecked(rest, beyond, out', cap)
      case Stop(why) => why
  }

  /** Input checks make no difference, whatever lies behind the input, exactly if no item is cut off by its end. */
  lemma UncheckedAgrees(input: Bytes, beyond: Bytes, out: Bytes, cap: nat)
    requires |beyond| >= MAX_LIT
    ensures
      DecodeUnchecked(input + beyond, |beyond|, out, cap) == Decode(input, out, cap)
      <==> Decode(input, out, cap) != PastInput
  {
    NeverPast(input + beyond, |beyond|, out, cap);
    if Decode(input, out, cap) != PastInput {
      WholeItems(input, beyond, out, cap);
    }
  }

  lemma {:induction false} WholeItems(input: Bytes, beyond: Bytes, out: Bytes, cap: nat)
    requires Decode(input, out, cap) != PastInput
    ensures DecodeUnchecked(input + beyond, |beyond|, out, cap) == Decode(input, out, cap)
    decreases |input|
  {
    if input == [] {
      assert input + beyond == beyond;
    } else {
      StepMore(input, beyond, out, cap);
      hide Step;
      var p := Step(input, out, cap);
      if p.Next? {
        WholeItems(p.rest, beyond, p.out, cap);
      }
    }
  }

  /** An item that is all there is decoded alike with more bytes behind it. */
  lemma StepMore(input: Bytes, beyond: Bytes, out: Bytes, cap: nat)
    requires input != [] && Step(input, out, cap) != Stop(PastInput)
    ensures
      Step(input + beyond, out, cap)
      == match Step(input, out, cap)
         case Next(rest, out') => Next(rest + beyond, out')
         case Stop(why) => Stop(why)
  {
    hide CopyBack;
    var ctrl, all := input[0] as int, input + beyond;
    if ctrl < 32 {
      var n := ctrl + 1;
      if |out| + n <= cap {
        assert all[1..1 + n] == input[1..1 + n] && all[1 + n..] == input[1 + n..] + beyond;
      }
    } else {
      var size := if ctrl / 32 == 7 then 3 else 2;
      assert all[size..] == input[size..] + beyond;
    }
  }

  lemma {:induction false} NeverPast(memory: Bytes, beyond: nat, out: Bytes, cap: nat)
    requires beyond >= MAX_LIT
    ensures DecodeUnchecked(memory, beyond, out, cap) != PastInput
    decreases |memory|
  {
    if |memory| > beyond {
      StepInside(memory, out, cap);
      hide Step;
      var p := Step(memory, out, cap);
      if p.Next? {
        NeverPast(p.rest, beyond, p.out, cap);
      }
    }
  }

  lemma StepInside(memory: Bytes, out: Bytes, cap: nat)
    requires |memory| > MAX_LIT
    ensures Step(memory, out, cap) != Stop(PastInput)
  {
  }

  // -- One block --

  /**
    * A whole compressed block written to a buffer of `cap` bytes: empty input is empty output, and
    * the decoder is told the capacity as an unsigned 32-bit number.
    */
  function Inflate(input: Bytes, cap: nat): (r: Option<Bytes>)
    ensures r.Some? ==> |r.value| <= cap
  {
    if input == [] then Some([])
    else match Decode(input, [], cap % TWO_32)
      case Done(out) => Some(out)
      case _ => None
  }
}
