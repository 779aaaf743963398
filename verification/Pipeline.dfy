// The pipelined writer: the main thread cuts records into blocks and writes finished frames, a
// compressor thread turns blocks into frames, and two bounded channels connect them. The threads
// are modelled as a step system, so that every interleaving is a run of it.

module Pipeline {
  import opened Bytes
  import opened BlockLayout

  const CHANNEL_CAPACITY := 2

  /** Where the main thread is; each value names the statement it executes next. */
  datatype Pc =
    | RowTop        // loop head: end of data, group boundary, or the next record
    | BoundaryDrain // take finished frames without waiting
    | BoundaryWait  // wait for the frames still outstanding
    | BoundarySend
    | BoundaryFlush // wait for the block just sent
    | PushIndex
    | CheckRoom     // does the record fit behind the buffered data?
    | RoomDrain
    | RoomSend
    | Append        // append record data up to the end of the block
    | SplitDrain
    | SplitSend
    | FinalSend
    | Close         // no more blocks will come
    | FinalWait
    | Join
    | Finished

  datatype Worker = Idle | Holding(frame: Bytes) | Exited

  /** `sent` and `marks` are history: the blocks sent so far, and how many there were at each index entry. */
  datatype State = State(
    pc: Pc, row: nat, rest: Bytes, buf: Bytes, index: seq<nat>, filePos: nat, pending: nat, written: Bytes,
    rawQ: seq<Bytes>, closed: bool, worker: Worker, doneQ: seq<Bytes>,
    sent: seq<Bytes>, marks: seq<nat>)

  function Start(dataStart: nat): State {
    State(RowTop, 0, [], [], [dataStart], dataStart, 0, [], [], false, Idle, [], [], [0])
  }

  // -- Steps --

  function Receive(s: State): State
    requires s.doneQ != [] && s.pending > 0
  {
    s.(written := s.written + s.doneQ[0], filePos := s.filePos + |s.doneQ[0]|,
       pending := s.pending - 1, doneQ := s.doneQ[1..])
  }

  /** Take a finished frame if there is one, else go on. */
  function Drain(s: State, next: Pc): State {
    if s.pending > 0 && s.doneQ != [] then Receive(s) else s.(pc := next)
  }

  /** Wait until nothing is outstanding. */
  function Await(s: State, next: Pc): Option<State> {
    if s.pending == 0 then Some(s.(pc := next))
    else if s.doneQ != [] then Some(Receive(s))
    else None
  }

  function Send(s: State, next: Pc): Option<State> {
    if |s.rawQ| < CHANNEL_CAPACITY then
      Some(s.(pc := next, rawQ := s.rawQ + [s.buf], sent := s.sent + [s.buf], pending := s.pending + 1, buf := []))
    else None
  }

  /** The main thread's next step; None while it has to wait for the compressor. */
  function MainStep(records: seq<Bytes>, s: State): Option<State>
    requires s.row <= |records| && |s.buf| <= BLOCK_SIZE
  {
    match s.pc
    case RowTop =>
      if s.row == |records| then Some(s.(pc := FinalSend))
      else if s.row > 0 && s.row % RECORDS_PER_BLOCK == 0 then
        Some(s.(pc := if s.buf != [] then BoundaryDrain else PushIndex))
      else Some(s.(pc := CheckRoom, rest := records[s.row]))
    case BoundaryDrain => Some(Drain(s, BoundaryWait))
    case BoundaryWait => Await(s, BoundarySend)
    case BoundarySend => Send(s, BoundaryFlush)
    case BoundaryFlush => Await(s, PushIndex)
    case PushIndex =>
      if s.row == |records| then None
      else Some(s.(pc := CheckRoom, index := s.index + [s.filePos], marks := s.marks + [|s.sent|],
        rest := records[s.row]))
    case CheckRoom =>
      Some(s.(pc := if |s.buf| + |s.rest| > BLOCK_SIZE && s.buf != [] then RoomDrain else Append))
    case RoomDrain => Some(Drain(s, RoomSend))
    case RoomSend => Send(s, Append)
    case Append =>
      var space := BLOCK_SIZE - |s.buf|;
      if |s.rest| <= space then Some(s.(pc := RowTop, row := s.row + 1, buf := s.buf + s.rest, rest := []))
      else Some(s.(pc := SplitDrain, buf := s.buf + s.rest[..space], rest := s.rest[space..]))
    case SplitDrain => Some(Drain(s, SplitSend))
    case SplitSend => Send(s, Append)
    case FinalSend => if s.buf != [] then Send(s, Close) else Some(s.(pc := Close))
    case Close => Some(s.(pc := FinalWait, closed := true))
    case FinalWait => Await(s, Join)
    case Join => if s.worker == Exited then Some(s.(pc := Finished)) else None
    case Finished => None
  }

  /** The compressor thread's next step; None while it has to wait for the main thread. */
  function WorkerStep(s: State): Option<State> {
    match s.worker
    case Idle =>
      if s.rawQ != [] then Some(s.(worker := Holding(Frame(s.rawQ[0])), rawQ := s.rawQ[1..]))
      else if s.closed then Some(s.(worker := Exited))
      else None
    case Holding(frame) =>
      if |s.doneQ| < CHANNEL_CAPACITY then Some(s.(worker := Idle, doneQ := s.doneQ + [frame])) else None
    case Exited => None
  }

  ghost predicate Next(records: seq<Bytes>, s: State, s': State)
    requires s.row <= |records| && |s.buf| <= BLOCK_SIZE
  {
    MainStep(records, s) == Some(s') || WorkerStep(s) == Some(s')
  }

  // -- What every reachable state satisfies --

  function InFlight(s: State): nat {
    |s.rawQ| + (if s.worker.Holding? then 1 else 0) + |s.doneQ|
  }

  /** The main thread counts exactly the blocks between the two channel ends. */
  predicate Channels(s: State) {
    && |s.rawQ| <= CHANNEL_CAPACITY && |s.doneQ| <= CHANNEL_CAPACITY && s.pending == InFlight(s)
    && (s.closed <==> s.pc in {FinalWait, Join, Finished})
    && (s.worker == Exited ==> s.closed && s.rawQ == [])
  }

  /**
    * The most blocks that can be outstanding at each point: 3 after a drain, 4 before the next one, 5
    * after the last send.
    */
  function Limit(pc: Pc): nat {
    match pc
    case RowTop | BoundaryDrain | CheckRoom | RoomDrain | Append | SplitDrain | FinalSend => 4
    case BoundaryWait | RoomSend | SplitSend => 3
    case Close | FinalWait => 5
    case BoundaryFlush => 1
    case BoundarySend | PushIndex | Join | Finished => 0
  }

  function Held(w: Worker): Bytes {
    if w.Holding? then w.frame else []
  }

  /** Written, finished, held and waiting data is the sequential output, in order. */
  ghost predicate InOrder(s: State, dataStart: nat) {
    && s.written + Flatten(s.doneQ) + Held(s.worker) + Stream(s.rawQ) == Stream(s.sent)
    && s.filePos == dataStart + |s.written|
  }

  ghost predicate IndexExact(s: State, dataStart: nat) {
    InRange(s.sent, s.marks) && s.index == Positions(dataStart, s.sent, s.marks)
  }

  function Emitted(s: State): Emit {
    Emit(s.buf, s.sent, s.marks)
  }

  predicate IsBoundary(row: nat) {
    row > 0 && row % RECORDS_PER_BLOCK == 0
  }

  /** The main thread is exactly as far as the sequential cut of the records it has taken. */
  ghost predicate OnTrack(records: seq<Bytes>, s: State) {
    && s.row <= |records|
    && var e := EmitAll(records[..s.row]);
    match s.pc
    case RowTop => Emitted(s) == e && s.rest == [] && (s.buf == [] ==> s.pending == 0)
    case BoundaryDrain | BoundaryWait | BoundarySend =>
      s.row < |records| && IsBoundary(s.row) && Emitted(s) == e && s.buf != []
    case BoundaryFlush | PushIndex => s.row < |records| && IsBoundary(s.row) && Emitted(s) == Flush(e)
    case CheckRoom =>
      s.row < |records| && Emitted(s) == Boundary(e, s.row) && s.rest == records[s.row]
        && (s.buf == [] ==> s.pending == 0)
    case RoomDrain | RoomSend =>
      && s.row < |records| && Emitted(s) == Boundary(e, s.row) && s.rest == records[s.row]
      && |s.buf| + |s.rest| > BLOCK_SIZE && s.buf != []
    case Append =>
      && s.row < |records|
      && (s.buf == [] || |s.buf| + |s.rest| <= BLOCK_SIZE)
      && (s.buf == [] && s.rest == [] ==> s.pending == 0)
      && Fill(Emitted(s), s.rest) == EmitAll(records[..s.row + 1])
    case SplitDrain | SplitSend =>
      && s.row < |records| && s.rest != [] && s.buf != []
      && Fill(Emit([], s.sent + [s.buf], s.marks), s.rest) == EmitAll(records[..s.row + 1])
    case FinalSend => s.row == |records| && Emitted(s) == e
    case Close | FinalWait | Join | Finished =>
      s.row == |records| && Emitted(s) == Flush(e) && (s.pc == Finished ==> s.worker == Exited)
  }

  ghost predicate Inv(records: seq<Bytes>, dataStart: nat, s: State) {
    && |s.buf| <= BLOCK_SIZE && Channels(s) && s.pending <= Limit(s.pc)
    && InOrder(s, dataStart) && IndexExact(s, dataStart) && OnTrack(records, s)
  }

  lemma StartInv(records: seq<Bytes>, dataStart: nat)
    ensures Inv(records, dataStart, Start(dataStart))
  {
    var s := Start(dataStart);
    assert records[..0] == [];
    assert Stream([]) == [];
    assert Position(dataStart, [], 0) == dataStart;
  }

  // Each part of the invariant is kept by every step.

  predicate Receives(pc: Pc) {
    pc in {BoundaryDrain, BoundaryWait, BoundaryFlush, RoomDrain, SplitDrain, FinalWait}
  }

  predicate Sends(pc: Pc) {
    pc in {BoundarySend, RoomSend, SplitSend, FinalSend}
  }

  lemma ReceivingKeepsChannels(records: seq<Bytes>, s: State)
    requires |s.buf| <= BLOCK_SIZE && s.row <= |records| && Channels(s) && s.pending <= Limit(s.pc)
    requires Receives(s.pc) && MainStep(records, s).Some?
    ensures
      var s' := MainStep(records, s).value;
      Channels(s') && s'.pending <= Limit(s'.pc) && |s'.buf| <= BLOCK_SIZE
  {
    hide RECORDS_PER_BLOCK;
  }

  lemma SendingKeepsChannels(records: seq<Bytes>, s: State)
    requires |s.buf| <= BLOCK_SIZE && s.row <= |records| && Channels(s) && s.pending <= Limit(s.pc)
    requires Sends(s.pc) && MainStep(records, s).Some?
    ensures
      var s' := MainStep(records, s).value;
      Channels(s') && s'.pending <= Limit(s'.pc) && |s'.buf| <= BLOCK_SIZE
  {
    hide RECORDS_PER_BLOCK;
  }

  lemma MainKeepsChannels(records: seq<Bytes>, s: State)
    requires |s.buf| <= BLOCK_SIZE && s.row <= |records| && Channels(s) && s.pending <= Limit(s.pc)
    requires MainStep(records, s).Some?
    requires s.pc == RowTop && s.buf == [] ==> s.pending == 0
    ensures
      var s' := MainStep(records, s).value;
      Channels(s') && s'.pending <= Limit(s'.pc) && |s'.buf| <= BLOCK_SIZE
  {
    hide *;
    if Receives(s.pc) {
      ReceivingKeepsChannels(records, s);
    } else if Sends(s.pc) {
      SendingKeepsChannels(records, s);
    } else {
      LocalKeepsChannels(records, s);
    }
  }

  lemma LocalKeepsChannels(records: seq<Bytes>, s: State)
    requires |s.buf| <= BLOCK_SIZE && s.row <= |records| && Channels(s) && s.pending <= Limit(s.pc)
    requires !Receives(s.pc) && !Sends(s.pc) && MainStep(records, s).Some?
    requires s.pc == RowTop && s.buf == [] ==> s.pending == 0
    ensures
      var s' := MainStep(records, s).value;
      Channels(s') && s'.pending <= Limit(s'.pc) && |s'.buf| <= BLOCK_SIZE
  {
    hide RECORDS_PER_BLOCK;
    hide Drain;
    hide Await;
    hide Send;
  }

  lemma ReceiveInOrder(s: State, dataStart: nat)
    requires InOrder(s, dataStart) && s.doneQ != [] && s.pending > 0
    ensures InOrder(Receive(s), dataStart)
  {
    hide Stream;
    assert Flatten(s.doneQ) == s.doneQ[0] + Flatten(s.doneQ[1..]);
    Assoc(s.written, s.doneQ[0], Flatten(s.doneQ[1..]));
  }

  lemma SendInOrder(s: State, dataStart: nat, next: Pc)
    requires InOrder(s, dataStart) && Send(s, next).Some?
    ensures InOrder(Send(s, next).value, dataStart)
  {
    hide Stream;
    hide Flatten;
    StreamAppend(s.rawQ, s.buf);
    StreamAppend(s.sent, s.buf);
    Assoc(s.written + Flatten(s.doneQ) + Held(s.worker), Stream(s.rawQ), Frame(s.buf));
  }

  /** The compressor moves one block from the head of one queue to the tail of the other. */
  lemma WorkerInOrder(s: State, dataStart: nat)
    requires InOrder(s, dataStart) && WorkerStep(s).Some?
    ensures InOrder(WorkerStep(s).value, dataStart)
  {
    hide Flatten;
    var front := s.written + Flatten(s.doneQ);
    match s.worker {
      case Idle =>
        if s.rawQ != [] {
          StreamHead(s.rawQ);
          assert front + [] == front;
          Assoc(front, Frame(s.rawQ[0]), Stream(s.rawQ[1..]));
        }
      case Holding(frame) =>
        FlattenAppend(s.doneQ, frame);
        Assoc(s.written, Flatten(s.doneQ), frame);
        assert front + frame + [] == front + frame;
      case Exited =>
    }
  }

  lemma StreamHead(blocks: seq<Bytes>)
    requires blocks != []
    ensures Stream(blocks) == Frame(blocks[0]) + Stream(blocks[1..])
  {
    assert Frames(blocks)[0] == Frame(blocks[0]) && Frames(blocks)[1..] == Frames(blocks[1..]);
  }

  lemma SendIndexExact(s: State, dataStart: nat, next: Pc)
    requires IndexExact(s, dataStart) && Send(s, next).Some?
    ensures IndexExact(Send(s, next).value, dataStart)
  {
    PositionsGrow(dataStart, s.sent, s.sent + [s.buf], s.marks);
  }

  /** With nothing outstanding, the file position is that of the next block. */
  lemma PushIndexExact(s: State, dataStart: nat)
    requires IndexExact(s, dataStart) && InOrder(s, dataStart) && InFlight(s) == 0
    ensures IndexExact(s.(index := s.index + [s.filePos], marks := s.marks + [|s.sent|]), dataStart)
  {
    assert s.sent[..|s.sent|] == s.sent;
    assert Stream(s.rawQ) == [] && Flatten(s.doneQ) == [];
    assert Stream(s.sent) == s.written;
    assert Positions(dataStart, s.sent, s.marks + [|s.sent|]) == Positions(dataStart, s.sent, s.marks) + [s.filePos];
  }

  lemma ReceivingKeepsOrder(records: seq<Bytes>, dataStart: nat, s: State)
    requires |s.buf| <= BLOCK_SIZE && s.row <= |records| && Channels(s) && Receives(s.pc)
    requires InOrder(s, dataStart) && IndexExact(s, dataStart) && MainStep(records, s).Some?
    ensures var s' := MainStep(records, s).value; InOrder(s', dataStart) && IndexExact(s', dataStart)
  {
    hide Stream;
    hide Flatten;
    hide Positions;
    hide Channels;
    if s.doneQ != [] && s.pending > 0 {
      ReceiveInOrder(s, dataStart);
    }
  }

  lemma SendingKeepsOrder(records: seq<Bytes>, dataStart: nat, s: State)
    requires |s.buf| <= BLOCK_SIZE && s.row <= |records| && Sends(s.pc)
    requires InOrder(s, dataStart) && IndexExact(s, dataStart) && MainStep(records, s).Some?
    ensures var s' := MainStep(records, s).value; InOrder(s', dataStart) && IndexExact(s', dataStart)
  {
    hide *;
    var next := SendingStep(records, s);
    if Send(s, next).Some? {
      SendInOrder(s, dataStart, next);
      SendIndexExact(s, dataStart, next);
    }
    PcOnly(s, dataStart, next);
  }

  /** A sending step sends, except that at the end an empty buffer is not sent. */
  lemma SendingStep(records: seq<Bytes>, s: State) returns (next: Pc)
    requires |s.buf| <= BLOCK_SIZE && s.row <= |records| && Sends(s.pc)
    ensures MainStep(records, s) == Send(s, next) || MainStep(records, s) == Some(s.(pc := next))
  {
    hide Send;
    next := match s.pc
      case BoundarySend => BoundaryFlush
      case FinalSend => Close
      case _ => Append;
  }

  lemma PcOnly(s: State, dataStart: nat, next: Pc)
    requires InOrder(s, dataStart) && IndexExact(s, dataStart)
    ensures InOrder(s.(pc := next), dataStart) && IndexExact(s.(pc := next), dataStart)
  {
    hide Stream;
    hide Flatten;
    hide Positions;
  }

  lemma LocalKeepsOrder(records: seq<Bytes>, dataStart: nat, s: State)
    requires |s.buf| <= BLOCK_SIZE && s.row <= |records| && !Receives(s.pc) && !Sends(s.pc)
    requires Channels(s) && s.pending <= Limit(s.pc)
    requires InOrder(s, dataStart) && IndexExact(s, dataStart) && MainStep(records, s).Some?
    ensures var s' := MainStep(records, s).value; InOrder(s', dataStart) && IndexExact(s', dataStart)
  {
    hide Stream;
    hide Flatten;
    hide Positions;
    hide Drain;
    hide Await;
    hide Send;
    if s.pc == PushIndex {
      PushIndexExact(s, dataStart);
    }
  }

  lemma MainKeepsOrder(records: seq<Bytes>, dataStart: nat, s: State)
    requires |s.buf| <= BLOCK_SIZE && s.row <= |records| && Channels(s) && s.pending <= Limit(s.pc)
    requires InOrder(s, dataStart) && IndexExact(s, dataStart) && MainStep(records, s).Some?
    ensures var s' := MainStep(records, s).value; InOrder(s', dataStart) && IndexExact(s', dataStart)
  {
    hide *;
    if Receives(s.pc) {
      ReceivingKeepsOrder(records, dataStart, s);
    } else if Sends(s.pc) {
      SendingKeepsOrder(records, dataStart, s);
    } else {
      LocalKeepsOrder(records, dataStart, s);
    }
  }

  lemma WorkerKeeps(records: seq<Bytes>, dataStart: nat, s: State)
    requires Inv(records, dataStart, s) && WorkerStep(s).Some?
    ensures Inv(records, dataStart, WorkerStep(s).value)
  {
    hide EmitAll;
    hide InOrder;
    hide Positions;
    WorkerInOrder(s, dataStart);
  }

  lemma ReceivingKeepsTrack(records: seq<Bytes>, s: State)
    requires |s.buf| <= BLOCK_SIZE && Channels(s) && s.pending <= Limit(s.pc) && OnTrack(records, s)
    requires Receives(s.pc) && MainStep(records, s).Some?
    ensures OnTrack(records, MainStep(records, s).value)
  {
    hide EmitAll;
    hide Fill;
    hide Boundary;
    hide Flush;
    assert records[..|records|] == records;
  }

  lemma SendingKeepsTrack(records: seq<Bytes>, s: State)
    requires |s.buf| <= BLOCK_SIZE && OnTrack(records, s)
    requires Sends(s.pc) && MainStep(records, s).Some?
    ensures OnTrack(records, MainStep(records, s).value)
  {
    hide EmitAll;
    hide Fill;
    assert records[..|records|] == records;
    if s.row < |records| {
      EmitNext(records[..s.row], records[s.row]);
      assert records[..s.row + 1] == records[..s.row] + [records[s.row]];
    }
  }

  lemma LocalKeepsTrack(records: seq<Bytes>, s: State)
    requires |s.buf| <= BLOCK_SIZE && Channels(s) && s.pending <= Limit(s.pc) && OnTrack(records, s)
    requires !Receives(s.pc) && !Sends(s.pc) && MainStep(records, s).Some?
    ensures OnTrack(records, MainStep(records, s).value)
  {
    hide EmitAll;
    hide Fill;
    hide Drain;
    hide Await;
    hide Send;
    assert records[..|records|] == records;
    if s.row < |records| {
      EmitNext(records[..s.row], records[s.row]);
      assert records[..s.row + 1] == records[..s.row] + [records[s.row]];
      if s.pc == Append {
        FillStep(Emitted(s), s.rest);
      }
    }
  }

  lemma MainKeepsTrack(records: seq<Bytes>, s: State)
    requires |s.buf| <= BLOCK_SIZE && Channels(s) && s.pending <= Limit(s.pc) && OnTrack(records, s)
    requires MainStep(records, s).Some?
    ensures OnTrack(records, MainStep(records, s).value)
  {
    hide *;
    if Receives(s.pc) {
      ReceivingKeepsTrack(records, s);
    } else if Sends(s.pc) {
      SendingKeepsTrack(records, s);
    } else {
      LocalKeepsTrack(records, s);
    }
  }

  lemma MainKeeps(records: seq<Bytes>, dataStart: nat, s: State)
    requires Inv(records, dataStart, s) && MainStep(records, s).Some?
    ensures Inv(records, dataStart, MainStep(records, s).value)
  {
    hide EmitAll;
    hide InOrder;
    hide IndexExact;
    MainKeepsChannels(records, s);
    MainKeepsOrder(records, dataStart, s);
    MainKeepsTrack(records, s);
  }

  // -- No deadlock --

  /** Until the writer has finished, one of the two threads can always go on. */
  lemma NoDeadlock(records: seq<Bytes>, dataStart: nat, s: State)
    requires Inv(records, dataStart, s) && s.pc != Finished
    ensures MainStep(records, s).Some? || WorkerStep(s).Some?
  {
    hide EmitAll;
    hide InOrder;
    hide IndexExact;
  }

  // -- Termination --

  function Remaining(records: seq<Bytes>, row: nat): nat
    decreases |records| - row
  {
    if row >= |records| then 0 else |records[row]| + 1 + Remaining(records, row + 1)
  }

  function Work(records: seq<Bytes>, s: State): nat {
    match s.pc
    case CheckRoom | RoomDrain | RoomSend | Append | SplitDrain | SplitSend => |s.rest| + 1
      + Remaining(records, s.row + 1)
    case _ => Remaining(records, s.row)
  }

  function PcRank(pc: Pc): nat {
    match pc
    case RowTop => 15 case BoundaryDrain => 14 case BoundaryWait => 13 case BoundarySend => 12
    case BoundaryFlush => 8 case PushIndex => 7 case CheckRoom => 6 case RoomDrain => 5 case RoomSend => 4
    case Append => 0 case SplitDrain => 5 case SplitSend => 4
    case FinalSend => 12 case Close => 8 case FinalWait => 7 case Join => 6 case Finished => 5
  }

  /** An upper bound on the steps still to come. */
  function Rank(records: seq<Bytes>, s: State): nat {
    16 * Work(records, s) + PcRank(s.pc) + 3 * |s.rawQ| + |s.doneQ|
    + match s.worker case Holding(_) => 3 case Idle => 1 case Exited => 0
  }

  lemma StepsDecreaseRank(records: seq<Bytes>, dataStart: nat, s: State, s': State)
    requires Inv(records, dataStart, s) && Next(records, s, s')
    ensures Rank(records, s') < Rank(records, s)
  {
    hide EmitAll;
    hide InOrder;
    hide IndexExact;
    hide Rank;
    if MainStep(records, s) == Some(s') {
      MainDecreasesRank(records, s);
    } else {
      WorkerDecreasesRank(records, s);
    }
  }

  lemma ReceivingDecreasesRank(records: seq<Bytes>, s: State)
    requires s.row <= |records| && |s.buf| <= BLOCK_SIZE && MainStep(records, s).Some? && Receives(s.pc)
    ensures Rank(records, MainStep(records, s).value) < Rank(records, s)
  {
    hide *;
    var next := ReceivingStep(records, s);
    if s.pending > 0 && s.doneQ != [] {
      ReceiveDecreasesRank(records, s);
    }
  }

  /** A receiving step receives, or goes on to a later point with the same work left. */
  lemma ReceivingStep(records: seq<Bytes>, s: State) returns (next: Pc)
    requires s.row <= |records| && |s.buf| <= BLOCK_SIZE && MainStep(records, s).Some? && Receives(s.pc)
    ensures
      if MainStep(records, s) == Some(s.(pc := next)) then Rank(records, s.(pc := next)) < Rank(records, s)
      else s.pending > 0 && s.doneQ != [] && MainStep(records, s) == Some(Receive(s))
  {
    hide Remaining;
    hide Receive;
    next := match s.pc
      case BoundaryDrain => BoundaryWait
      case BoundaryWait => BoundarySend
      case BoundaryFlush => PushIndex
      case RoomDrain => RoomSend
      case SplitDrain => SplitSend
      case _ => Join;
  }

  lemma ReceiveDecreasesRank(records: seq<Bytes>, s: State)
    requires s.pending > 0 && s.doneQ != []
    ensures Rank(records, Receive(s)) < Rank(records, s)
  {
    hide Remaining;
    hide PcRank;
    assert Work(records, Receive(s)) == Work(records, s);
    hide Work;
  }

  lemma SendingDecreasesRank(records: seq<Bytes>, s: State)
    requires s.row <= |records| && |s.buf| <= BLOCK_SIZE && MainStep(records, s).Some? && Sends(s.pc)
    ensures Rank(records, MainStep(records, s).value) < Rank(records, s)
  {
    hide Remaining;
  }

  lemma LocalDecreasesRank(records: seq<Bytes>, s: State)
    requires s.row <= |records| && |s.buf| <= BLOCK_SIZE && MainStep(records, s).Some?
    requires !Receives(s.pc) && !Sends(s.pc)
    requires s.pc == Append ==> s.buf == [] || |s.buf| + |s.rest| <= BLOCK_SIZE
    ensures Rank(records, MainStep(records, s).value) < Rank(records, s)
  {
    hide Remaining;
    hide Drain;
    hide Await;
    hide Send;
    hide RECORDS_PER_BLOCK;
    if s.row < |records| {
      RemainingStep(records, s.row);
    }
  }

  lemma MainDecreasesRank(records: seq<Bytes>, s: State)
    requires s.row <= |records| && |s.buf| <= BLOCK_SIZE && MainStep(records, s).Some?
    requires s.pc == Append ==> s.buf == [] || |s.buf| + |s.rest| <= BLOCK_SIZE
    ensures Rank(records, MainStep(records, s).value) < Rank(records, s)
  {
    hide *;
    if Receives(s.pc) {
      ReceivingDecreasesRank(records, s);
    } else if Sends(s.pc) {
      SendingDecreasesRank(records, s);
    } else {
      LocalDecreasesRank(records, s);
    }
  }

  lemma RemainingStep(records: seq<Bytes>, row: nat)
    requires row < |records|
    ensures Remaining(records, row) == |records[row]| + 1 + Remaining(records, row + 1)
  {
  }

  lemma WorkerDecreasesRank(records: seq<Bytes>, s: State)
    requires WorkerStep(s).Some?
    ensures Rank(records, WorkerStep(s).value) < Rank(records, s)
  {
    assert Work(records, WorkerStep(s).value) == Work(records, s);
  }

  // -- Whole runs --

  ghost predicate IsRun(records: seq<Bytes>, dataStart: nat, run: seq<State>) {
    && run != [] && run[0] == Start(dataStart)
    && forall i :: 0 <= i < |run| - 1 ==> Linked(records, run[i], run[i + 1])
  }

  ghost predicate Linked(records: seq<Bytes>, s: State, s': State) {
    s.row <= |records| && |s.buf| <= BLOCK_SIZE && Next(records, s, s')
  }

  lemma {:induction false} RunInv(records: seq<Bytes>, dataStart: nat, run: seq<State>)
    requires IsRun(records, dataStart, run)
    ensures Inv(records, dataStart, run[|run| - 1])
    ensures |run| - 1 + Rank(records, run[|run| - 1]) <= Rank(records, Start(dataStart))
    decreases |run|
  {
    hide Inv;
    hide Rank;
    hide Next;
    if |run| == 1 {
      StartInv(records, dataStart);
    } else {
      var prefix := run[..|run| - 1];
      RunInv(records, dataStart, prefix);
      var s, s' := run[|run| - 2], run[|run| - 1];
      assert Linked(records, run[|run| - 2], run[|run| - 2 + 1]);
      StepKeeps(records, dataStart, s, s');
      StepsDecreaseRank(records, dataStart, s, s');
    }
  }

  lemma StepKeeps(records: seq<Bytes>, dataStart: nat, s: State, s': State)
    requires Inv(records, dataStart, s) && Next(records, s, s')
    ensures Inv(records, dataStart, s')
  {
    hide EmitAll;
    hide InOrder;
    hide IndexExact;
    if MainStep(records, s) == Some(s') {
      MainKeeps(records, dataStart, s);
    } else {
      WorkerKeeps(records, dataStart, s);
    }
  }

  /** What the caller of the pipeline writes around it: header, metadata, index, and the index position. */
  function FileOf(meta: Bytes, numRecords: nat, s: State): Bytes {
    Patch(Header(numRecords, |meta| / 2) + ((meta + s.written) + IndexBytes(s.index)), INDEX_POS_AT, U64Le(s.filePos))
  }

  /**
    * Every run, under every interleaving, is finite, and a run that cannot be continued has
    * finished, with exactly the file that the records determine.
    */
  lemma EveryRunWritesTheFile(records: seq<Bytes>, meta: Bytes, run: seq<State>)
    requires IsRun(records, HEADER_SIZE + |meta|, run)
    ensures |run| <= Rank(records, Start(HEADER_SIZE + |meta|)) + 1
    ensures var s := run[|run| - 1];
      s.row <= |records| && |s.buf| <= BLOCK_SIZE && s.pending <= 5 && s.filePos == HEADER_SIZE + |meta| + |s.written|
    ensures var s := run[|run| - 1];
      (MainStep(records, s).None? && WorkerStep(s).None?) ==> (
        s.pc == Finished && FileOf(meta, |records|, s) == YxdbFile(meta, records))
  {
    hide EmitAll;
    hide Stream;
    hide Positions;
    hide IndexBytes;
    hide Patch;
    hide Header;
    var dataStart := HEADER_SIZE + |meta|;
    var s := run[|run| - 1];
    RunInv(records, dataStart, run);
    if MainStep(records, s).None? && WorkerStep(s).None? {
      if s.pc != Finished {
        NoDeadlock(records, dataStart, s);
      }
      assert records[..|records|] == records;
      assert s.rawQ == [] && s.doneQ == [];
      FinishedWritesAll(records, dataStart, s);
    }
  }

  lemma FinishedWritesAll(records: seq<Bytes>, dataStart: nat, s: State)
    requires Inv(records, dataStart, s) && s.pc == Finished
    ensures s.written == Stream(Final(records).blocks)
    ensures s.index == Positions(dataStart, Final(records).blocks, Final(records).marks)
  {
    hide EmitAll;
    hide Positions;
    assert records[..|records|] == records;
    assert s.rawQ == [] && s.doneQ == [] && Stream([]) == [];
    assert s.written == Stream(s.sent);
  }
}
