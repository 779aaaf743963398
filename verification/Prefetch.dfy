// The prefetch worker of the streaming reader: one thread that decompresses the jobs it is sent,
// connected by two channels of capacity one.

module Prefetch {
  import opened Bytes
  import opened LzfFormat
  import opened BlockReader

  /** `spare` is the size of the reused destination buffer that travels with the job. */
  datatype Job = Job(input: Bytes, uncompressed: bool, spare: nat)

  /** Decompressed data, and the size the destination buffer has grown to. */
  datatype Delivery = Delivery(contents: Bytes, bufferSize: nat)

  function Wanted(job: Job): nat {
    BlockReader.Capacity(BlockRef(0, |job.input|, job.uncompressed))
  }

  function BufferSize(job: Job): nat {
    if job.spare < Wanted(job) then Wanted(job) else job.spare
  }

  /** What the worker makes of a job; None if the block does not decompress. */
  function Work(job: Job): Option<Delivery> {
    if job.uncompressed then Some(Delivery(job.input, BufferSize(job)))
    else match Inflate(job.input, BufferSize(job))
      case None => None
      case Some(c) => Some(Delivery(c, BufferSize(job)))
  }

  lemma InflateLarger(input: Bytes, cap: nat, cap': nat)
    requires Inflate(input, cap).Some? && cap <= cap' < TWO_32
    ensures Inflate(input, cap') == Inflate(input, cap)
  {
    hide Decode;
    if input != [] {
      InflateIs(input, cap);
      InflateIs(input, cap');
      DecodeCapacity(input, [], cap, cap');
    }
  }

  lemma InflateIs(input: Bytes, cap: nat)
    requires input != [] && cap < TWO_32
    ensures
      var d := Decode(input, [], cap);
      Inflate(input, cap) == (if d.Done? then Some(d.out) else None) && (d.Done? ==> |d.out| <= cap)
  {
    hide Step;
    assert cap % TWO_32 == cap;
  }

  function WorkAll(jobs: seq<Job>): (r: seq<Option<Delivery>>)
    ensures |r| == |jobs|
  {
    if jobs == [] then [] else [Work(jobs[0])] + WorkAll(jobs[1..])
  }

  class PrefetchWorker {
    var requests: seq<Job>
    var working: Option<Job>
    var results: seq<Option<Delivery>>

    predicate Valid()
      reads this
    {
      |requests| <= 1 && |results| <= 1
    }

    /** Everything sent and not yet received, in the order in which it will be received. */
    function Outstanding(): seq<Option<Delivery>>
      reads this
    {
      results + (if working.Some? then [Work(working.value)] else []) + WorkAll(requests)
    }

    constructor ()
      ensures Valid() && Outstanding() == []
    {
      requests, working, results := [], None, [];
    }

    predicate CanStep()
      reads this
    {
      if working.Some? then |results| == 0 else requests != []
    }

    /** The worker thread takes a job, or hands over a finished one. */
    method Step()
      requires Valid() && CanStep()
      modifies this
      ensures Valid() && Outstanding() == old(Outstanding())
      ensures if old(working).Some? then working == None && results != [] else working.Some? && results == old(results)
      ensures |requests| <= old(|requests|)
    {
      hide Work;
      ghost var before := Outstanding();
      if working.Some? {
        results := results + [Work(working.value)];
        working := None;
      } else {
        working, requests := Some(requests[0]), requests[1..];
      }
      assert Outstanding() == before;
    }

    /** The worker may run for any time while the reader does something else. */
    method Interleave()
      requires Valid()
      modifies this
      ensures Valid() && Outstanding() == old(Outstanding()) && |requests| <= old(|requests|)
    {
      var turns: nat := *;
      while turns > 0 && CanStep()
        invariant Valid() && Outstanding() == old(Outstanding()) && |requests| <= old(|requests|)
        decreases turns
      {
        Step();
        turns := turns - 1;
      }
    }

    /** Send a job. With nothing in flight the channel has room, so the sender never waits. */
    method Send(job: Job)
      requires Valid() && Outstanding() == []
      modifies this
      ensures Valid() && Outstanding() == [Work(job)]
    {
      assert |Outstanding()| == |results| + (if working.Some? then 1 else 0) + |requests|;
      requests := requests + [job];
      assert requests == [job] && WorkAll([job]) == [Work(job)] + WorkAll([job][1..]);
    }

    /** Receive a result, waiting for the worker if need be; with a job in flight the wait ends. */
    method Receive() returns (d: Option<Delivery>)
      requires Valid() && |Outstanding()| == 1
      modifies this
      ensures Valid() && Outstanding() == [] && d == old(Outstanding())[0]
    {
      while results == []
        invariant Valid() && Outstanding() == old(Outstanding())
        decreases if working.Some? then 1 else if results == [] then 2 else 0
      {
        Step();
      }
      assert |Outstanding()| == |results| + (if working.Some? then 1 else 0) + |requests|;
      d := results[0];
      results := results[1..];
    }
  }
}
