/**
 * The byte sink: appends a whole slice to the shared queue, or nothing at all.
 */
module ByteSink {
  import opened Rust
  import opened Wrappers
  import opened Rvc
  import BBQueue

  /**
   * The queue contents after submitting `slice` to a queue of BufferSize bytes holding
   * `contents`, or None when the slice does not fit.
   */
  function Submitted(contents: seq<u8>, slice: seq<u8>): (r: Option<seq<u8>>)
    ensures |slice| > BufferSize ==> r.None?
    ensures r.None? ==> |contents| + |slice| > BufferSize
    ensures r.Some? ==> |r.value| == |contents| + |slice| <= BufferSize
    ensures r.Some? ==> r.value[..|contents|] == contents && r.value[|contents|..] == slice
  {
    if |contents| + |slice| <= BufferSize then Some(contents + slice) else None
  }

  /**
   * Submitting a burst leaves the same queue as submitting its two pieces in turn, and
   * the burst fits exactly when both pieces do.
   */
  lemma SubmitInPieces(contents: seq<u8>, a: seq<u8>, b: seq<u8>)
    ensures Submitted(contents, a + b).Some?
        <==> Submitted(contents, a).Some? && Submitted(Submitted(contents, a).value, b).Some?
    ensures Submitted(contents, a + b).Some? ==>
              Submitted(contents, a + b) == Submitted(Submitted(contents, a).value, b)
  {
    assert contents + (a + b) == contents + a + b;
  }

  class Processor {
    /** The write half of the shared queue. */
    const producer: BBQueue.BBBuffer

    ghost predicate Valid()
      reads this, producer
    {
      producer.capacity == BufferSize && producer.Valid() && producer.split && !producer.writeInProgress
    }

    /** `Processor::new` only ever receives the producer half of a split BBBuffer<BUFFER_SIZE>. */
    constructor (producer: BBQueue.BBBuffer)
      requires producer.capacity == BufferSize && producer.Valid() && producer.split && !producer.writeInProgress
      ensures this.producer == producer && Valid()
    {
      this.producer := producer;
    }

    /**
     * Reserves exactly `|slice|` bytes, copies the slice into the reservation and commits
     * it; when the reservation is refused the queue is left as it was.
     */
    method ProcessSlice(slice: seq<u8>) returns (r: Result<(), Error>)
      requires Valid()
      modifies producer
      ensures Valid()
      ensures r.Success? <==> Submitted(old(producer.contents), slice).Some?
      ensures r.Success? ==> producer.contents == Submitted(old(producer.contents), slice).value
      ensures r.Failure? ==> r.error == BbqError(BBQueue.InsufficientSize) && producer.contents == old(producer.contents)
    {
      var grant := producer.GrantExact(|slice|);
      match grant {
        case Success(wgr) =>
          forall k | 0 <= k < |slice| {
            wgr[k] := slice[k];
          }
          assert wgr[..|slice|] == slice;
          producer.Commit(wgr, |slice|);
          return Success(());
        case Failure(e) =>
          return Failure(BbqError(e));
      }
    }
  }
}
