// The LZF compressor: a greedy parse driven by a hash table of earlier positions, written out
// with back-patched literal headers.

module Lzf {
  import opened Bytes
  import opened LzfFormat

  const HASH_SIZE := 0x1_0000

  type Table = t: seq<nat> | |t| == HASH_SIZE witness seq(HASH_SIZE, _ => 0)

  function HashIdx(hval: nat): (h: nat)
    ensures h < HASH_SIZE
  {
    (hval / 0x100 - hval * 5) % HASH_SIZE
  }

  /** Seed of the rolling hash: two consecutive bytes. */
  function Seed(input: Bytes, ip: nat): nat
    requires ip + 1 < |input|
  {
    input[ip] as int * 0x100 + input[ip + 1] as int
  }

  function Roll(hval: nat, b: byte): nat {
    hval * 0x100 % TWO_32 + b as int
  }

  // -- Greedy parse --

  /** A candidate position is used only when its three bytes really match. */
  predicate Matches(input: Bytes, ref: nat, ip: nat)
    requires ip + 2 < |input|
  {
    && 0 < ref < ip && ip - ref - 1 < MAX_OFF
    && input[ref + 2] == input[ip + 2] && input[ref] == input[ip] && input[ref + 1] == input[ip + 1]
  }

  function ByteAt(input: Bytes, start: nat, j: nat): byte
    requires start + j < |input|
  {
    input[start + j]
  }

  predicate Same(input: Bytes, ref: nat, ip: nat, len: nat)
    requires ref <= ip && ip + len <= |input|
  {
    forall j :: 0 <= j < len ==> ByteAt(input, ref, j) == ByteAt(input, ip, j)
  }

  function MatchLen(input: Bytes, ref: nat, ip: nat, k: nat): (r: nat)
    requires ref < ip && ip + k <= |input| && k <= MAX_REF && Same(input, ref, ip, k)
    ensures k <= r <= MAX_REF && ip + r <= |input| && Same(input, ref, ip, r)
    decreases MAX_REF - k
  {
    if k < MAX_REF && ip + k < |input| && input[ref + k] == input[ip + k] then
      MatchLen(input, ref, ip, k + 1)
    else k
  }

  function Literals(data: Bytes): seq<Item> {
    seq(|data|, i requires 0 <= i < |data| => Lit(data[i]))
  }

  /** The table after a match ending at `end`: the two positions before `end` are entered. */
  function AfterMatch(input: Bytes, table: Table, end: nat): Table
    requires 2 <= end && end + 1 < |input|
  {
    var h1 := Roll(Seed(input, end - 2), input[end]);
    var h2 := Roll(h1, input[end + 1]);
    table[HashIdx(h1) := (end - 2) % TWO_32][HashIdx(h2) := (end - 1) % TWO_32]
  }

  function HashAfterMatch(input: Bytes, end: nat): nat
    requires 2 <= end && end + 1 < |input|
  {
    Roll(Roll(Seed(input, end - 2), input[end]), input[end + 1])
  }

  /** The item reproduces the input at `ip` from what precedes it. */
  predicate Fits(input: Bytes, ip: nat, item: Item) {
    match item
    case Lit(b) => ip < |input| && b == input[ip]
    case Ref(dist, len) => 1 <= dist <= ip && ip + len <= |input| && Same(input, ip - dist, ip, len)
  }

  datatype Choice = Choice(item: Item, ip: nat, hval: nat, table: Table)

  /** What the compressor emits at `ip`, and the position and hash state it goes on with. */
  function Choose(input: Bytes, ip: nat, hval: nat, table: Table): (c: Choice)
    requires ip + 2 < |input|
    ensures ValidItem(c.item) && Fits(input, ip, c.item) && c.ip == ip + Size(c.item) && ip < c.ip
  {
    var h := Roll(hval, input[ip + 2]);
    var ref, entered := table[HashIdx(h)], table[HashIdx(h) := ip % TWO_32];
    if Matches(input, ref, ip) then
      var len := MatchLen(input, ref, ip, 3);
      var end := ip + len;
      if end + 2 >= |input| then Choice(Ref(ip - ref, len), end, h, entered)
      else Choice(Ref(ip - ref, len), end, HashAfterMatch(input, end), AfterMatch(input, entered, end))
    else Choice(Lit(input[ip]), ip + 1, h, entered)
  }

  /** The items chosen from position `ip` on, given the hash state; the last two bytes are always literals. */
  function Greedy(input: Bytes, ip: nat, hval: nat, table: Table): (items: seq<Item>)
    requires ip <= |input|
    ensures ValidItems(items)
    decreases |input| - ip
  {
    if ip + 2 >= |input| then Literals(input[ip..])
    else
      var c := Choose(input, ip, hval, table);
      [c.item] + Greedy(input, c.ip, c.hval, c.table)
  }

  function Items(input: Bytes): (items: seq<Item>)
    requires |input| > 4
    ensures ValidItems(items)
  {
    Greedy(input, 0, Seed(input, 0), seq(HASH_SIZE, _ => 0))
  }

  /** The compressed form, unless the input is tiny or the result would not be smaller. */
  function Compressed(input: Bytes): (r: Option<Bytes>) {
    if |input| <= 4 then None
    else
      var out := Encode([], Items(input));
      if |out| < |input| then Some(out) else None
  }

  // -- The parse expands to the input, whatever the hash table holds --

  lemma {:induction false} ExpandLiterals(pre: Bytes, data: Bytes)
    ensures Expand(pre, Literals(data)) == Some(pre + data)
    decreases |data|
  {
    if data == [] {
      assert pre + data == pre;
    } else {
      assert Literals(data)[1..] == Literals(data[1..]);
      assert (pre + [data[0]]) + data[1..] == pre + data;
      ExpandLiterals(pre + [data[0]], data[1..]);
    }
  }

  lemma {:induction false} CopyBackMatch(input: Bytes, ref: nat, ip: nat, len: nat, done: nat)
    requires ref < ip && ip + len <= |input| && done <= len && Same(input, ref, ip, len)
    ensures CopyBack(input[..ip + done], ip - ref, len - done) == input[..ip + len]
    decreases len - done
  {
    if done < len {
      assert ByteAt(input, ref, done) == ByteAt(input, ip, done);
      assert input[..ip + done] + [input[ip + done]] == input[..ip + done + 1];
      CopyBackMatch(input, ref, ip, len, done + 1);
    }
  }

  /** A fitting item appends exactly the input bytes it steps over. */
  lemma ItemExpands(input: Bytes, ip: nat, item: Item, rest: seq<Item>)
    requires Fits(input, ip, item)
    ensures Expand(input[..ip], [item] + rest) == Expand(input[..ip + Size(item)], rest)
  {
    match item {
      case Lit(b) =>
        ExpandLit(input[..ip], b, rest);
        assert input[..ip] + [b] == input[..ip + 1];
      case Ref(dist, len) =>
        ExpandRef(input[..ip], dist, len, rest);
        CopyBackMatch(input, ip - dist, ip, len, 0);
    }
  }

  lemma {:induction false} GreedyExpands(input: Bytes, ip: nat, hval: nat, table: Table)
    requires ip <= |input|
    ensures Expand(input[..ip], Greedy(input, ip, hval, table)) == Some(input)
    decreases |input| - ip
  {
    hide Choose;
    if ip + 2 >= |input| {
      ExpandLiterals(input[..ip], input[ip..]);
      assert input[..ip] + input[ip..] == input;
    } else {
      var c := Choose(input, ip, hval, table);
      var rest := Greedy(input, c.ip, c.hval, c.table);
      GreedyExpands(input, c.ip, c.hval, c.table);
      ItemExpands(input, ip, c.item, rest);
    }
  }

  /** Compressed data is smaller than its input and decodes to it in any buffer that can hold the input. */
  lemma RoundTrip(input: Bytes, cap: nat)
    requires Compressed(input).Some? && |input| <= cap
    ensures var c := Compressed(input).value;
      0 < |c| < |input| && Decode(c, [], cap) == Done(input)
  {
    var items := Items(input);
    GreedyExpands(input, 0, Seed(input, 0), seq(HASH_SIZE, _ => 0));
    assert input[..0] == [] && [] + [] == input[..0];
    var c := Compressed(input).value;
    DecodeEncode([], items, [], cap, input);
  }

  // -- The compressor --

  /**
    * The finished output if `rest` is still to be written: what precedes the reserved header byte
    * at `litStart`, then the encoding of the literals behind it followed by `rest`.
    */
  ghost function Finished(out: Bytes, litStart: nat, rest: seq<Item>): Bytes
    requires litStart < |out| <= litStart + MAX_LIT && ValidItems(rest)
  {
    out[..litStart] + Encode(out[litStart + 1..], rest)
  }

  /** Append one literal; a full run gets its header patched and a new header byte is reserved. */
  method PushLiteral(out: Bytes, b: byte, lit: nat, litStart: nat, ghost rest: seq<Item>)
    returns (out': Bytes, lit': nat, litStart': nat)
    requires |out| == litStart + 1 + lit && lit < MAX_LIT && ValidItems(rest)
    ensures |out'| == litStart' + 1 + lit'
    ensures if lit + 1 < MAX_LIT then lit' == lit + 1 && litStart' == litStart
      else lit' == 0 && litStart' == litStart + 33
    ensures Finished(out', litStart', rest) == Finished(out, litStart, [Lit(b)] + rest)
  {
    ghost var p := out[litStart + 1..] + [b];
    EncodeLit(out[litStart + 1..], b, rest);
    out', lit', litStart' := out + [b], lit + 1, litStart;
    assert out'[litStart + 1..] == p;
    if lit' == MAX_LIT {
      out' := out'[litStart' := lit' - 1];
      lit', litStart' := 0, |out'|;
      assert out' == out[..litStart] + Run(p);
      out' := out' + [0];
    }
  }

  /** Patch the header of the pending literal run, or drop it when no literal came. */
  method CloseRun(out: Bytes, lit: nat, litStart: nat) returns (out': Bytes)
    requires |out| == litStart + 1 + lit && lit < MAX_LIT
    ensures out' == out[..litStart] + Run(out[litStart + 1..])
  {
    if lit > 0 {
      out' := out[litStart := lit - 1];
    } else {
      out' := out[..|out| - 1];
    }
  }

  method WriteRef(out: Bytes, off: nat, len: nat) returns (out': Bytes)
    requires ValidItem(Ref(off + 1, len))
    ensures out' == out + RefBytes(off + 1, len)
  {
    var code := len - 2;
    if code < 7 {
      out' := out + [code * 32 + off / 0x100];
      out' := out' + [off % 0x100];
    } else {
      out' := out + [7 * 32 + off / 0x100];
      out' := out' + [code - 7];
      out' := out' + [off % 0x100];
    }
  }

  lemma Regroup(a: Bytes, b: Bytes, c: Bytes, d: Bytes)
    ensures (a + b + c) + d == a + (b + (c + d))
  {
  }

  method PushRef(out: Bytes, dist: nat, len: nat, lit: nat, litStart: nat, ghost rest: seq<Item>)
    returns (out': Bytes)
    requires |out| == litStart + 1 + lit && lit < MAX_LIT
    requires ValidItem(Ref(dist, len)) && ValidItems(rest)
    ensures |out'| <= litStart + lit + len
    ensures out' + Encode([], rest) == Finished(out, litStart, [Ref(dist, len)] + rest)
  {
    out' := CloseRun(out, lit, litStart);
    out' := WriteRef(out', dist - 1, len);
    ghost var pending := out[litStart + 1..];
    EncodeRef(pending, dist, len, rest);
    Regroup(out[..litStart], Run(pending), RefBytes(dist, len), Encode([], rest));
  }

  /** Reserve the header byte of the next literal run. */
  method Reserve(out: Bytes, ghost rest: seq<Item>) returns (out': Bytes, litStart: nat)
    requires ValidItems(rest)
    ensures out' == out + [0] && litStart == |out|
    ensures Finished(out', litStart, rest) == out + Encode([], rest)
  {
    litStart := |out|;
    out' := out + [0];
    assert out'[litStart + 1..] == [];
  }

  /** Remember `ip` as the latest position with this hash. */
  method Enter(hashTable: array<nat>, hval: nat, ip: nat)
    requires hashTable.Length == HASH_SIZE
    modifies hashTable
    ensures hashTable[..] == old(hashTable[..])[HashIdx(hval) := ip % TWO_32]
  {
    hashTable[HashIdx(hval)] := ip % TWO_32;
  }

  /** Enter the last two positions of a match, leaving the rolling hash seeded for `end`. */
  method Rehash(hashTable: array<nat>, input: Bytes, end: nat) returns (hval: nat)
    requires hashTable.Length == HASH_SIZE && 2 <= end && end + 1 < |input|
    modifies hashTable
    ensures hashTable[..] == AfterMatch(input, old(hashTable[..]), end) && hval == HashAfterMatch(input, end)
  {
    var ip := end - 2;
    hval := Seed(input, ip);
    hval := Roll(hval, input[ip + 2]);
    Enter(hashTable, hval, ip);
    ip := ip + 1;
    hval := Roll(hval, input[ip + 2]);
    Enter(hashTable, hval, ip);
  }

  /** Write a match of `len` bytes and reserve the next literal header. */
  method PushMatch(out: Bytes, dist: nat, len: nat, lit: nat, litStart: nat, ghost ip: nat, ghost rest: seq<Item>)
    returns (out': Bytes, litStart': nat)
    requires Scanning(out, lit, litStart, ip) && ValidItem(Ref(dist, len)) && ValidItems(rest)
    ensures Scanning(out', 0, litStart', ip + len)
    ensures Finished(out', litStart', rest) == Finished(out, litStart, [Ref(dist, len)] + rest)
  {
    out' := PushRef(out, dist, len, lit, litStart, rest);
    out', litStart' := Reserve(out', rest);
  }

  /**
    * The compressor. `peak` is the largest length the output buffer reaches; it stays within the
    * capacity the buffer is created with.
    */
  method Compress(input: Bytes) returns (r: Option<Bytes>, peak: nat)
    ensures r == Compressed(input)
    ensures peak <= |input| + |input| / 32 + 1 <= |input| + |input| / 16 + 16
  {
    var n := |input|;
    if n <= 4 {
      return None, 0;
    }
    var hashTable := new nat[HASH_SIZE](_ => 0);
    assert hashTable[..] == seq(HASH_SIZE, _ => 0);
    var lit, litStart, ip, hval := 0, 0, 0, Seed(input, 0);
    var out: Bytes := [0];
    peak := 1;

    while ip < n - 2
      invariant ip <= n && WithinBounds(out, lit, litStart, ip, peak)
      invariant Finished(out, litStart, Greedy(input, ip, hval, hashTable[..])) == Encode([], Items(input))
    {
      out, lit, litStart, ip, hval := ScanOne(input, hashTable, out, lit, litStart, ip, hval);
      peak := if peak < |out| then |out| else peak;
    }

    while ip < n
      invariant ip <= n && WithinBounds(out, lit, litStart, ip, peak)
      invariant Finished(out, litStart, Literals(input[ip..])) == Encode([], Items(input))
    {
      assert Literals(input[ip..]) == [Lit(input[ip])] + Literals(input[ip + 1..]);
      out, lit, litStart := PushLiteral(out, input[ip], lit, litStart, Literals(input[ip + 1..]));
      ip := ip + 1;
      peak := if peak < |out| then |out| else peak;
    }

    out := CloseRun(out, lit, litStart);
    return if |out| < n then Some(out) else None, peak;
  }

  /** While scanning: the reserved byte and `lit` literals end the output, which stays near its input's length. */
  predicate Scanning(out: Bytes, lit: nat, litStart: nat, ip: nat) {
    && |out| == litStart + 1 + lit && lit < MAX_LIT && lit <= ip
    && litStart <= ip - lit + (ip - lit) / 32
  }

  predicate WithinBounds(out: Bytes, lit: nat, litStart: nat, ip: nat, peak: nat) {
    Scanning(out, lit, litStart, ip) && |out| <= peak <= ip + ip / 32 + 1
  }

  /** One turn of the main loop: a verified match of at least three bytes, or one literal. */
  method ScanOne(input: Bytes, hashTable: array<nat>, out: Bytes, lit: nat, litStart: nat, ip: nat, hval: nat)
    returns (out': Bytes, lit': nat, litStart': nat, ip': nat, hval': nat)
    requires hashTable.Length == HASH_SIZE && ip + 2 < |input| && Scanning(out, lit, litStart, ip)
    modifies hashTable
    ensures ip < ip' <= |input| && Scanning(out', lit', litStart', ip')
    ensures Finished(out', litStart', Greedy(input, ip', hval', hashTable[..]))
         == old(Finished(out, litStart, Greedy(input, ip, hval, hashTable[..])))
  {
    hide Finished;
    ghost var c := Choose(input, ip, hval, hashTable[..]);
    ghost var rest := Greedy(input, c.ip, c.hval, c.table);
    assert Greedy(input, ip, hval, hashTable[..]) == [c.item] + rest;
    hide Greedy;
    hide Fits;
    hval' := Roll(hval, input[ip + 2]);
    var ref := hashTable[HashIdx(hval')];
    Enter(hashTable, hval', ip);
    if Matches(input, ref, ip) {
      var len := MatchLength(input, ref, ip);
      assert c.item == Ref(ip - ref, len);
      out', litStart' := PushMatch(out, ip - ref, len, lit, litStart, ip, rest);
      ip', lit' := ip + len, 0;
      if ip' < |input| - 2 {
        hval' := Rehash(hashTable, input, ip');
      }
    } else {
      out', lit', litStart' := PushLiteral(out, input[ip], lit, litStart, rest);
      ip' := ip + 1;
    }
    assert ip' == c.ip && hval' == c.hval && hashTable[..] == c.table;
  }

  method MatchLength(input: Bytes, ref: nat, ip: nat) returns (len: nat)
    requires ip + 2 < |input| && Matches(input, ref, ip)
    ensures len == MatchLen(input, ref, ip, 3)
  {
    len := 3;
    while len < MAX_REF && ip + len < |input| && input[ref + len] == input[ip + len]
      invariant 3 <= len <= MAX_REF && ip + len <= |input| && Same(input, ref, ip, len)
      invariant MatchLen(input, ref, ip, len) == MatchLen(input, ref, ip, 3)
    {
      len := len + 1;
    }
  }
}
