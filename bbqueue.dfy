/**
 * An abstract model of the bounded single-producer/single-consumer byte queue the crate
 * is built on (the `bbqueue` library). Only what the core relies on is modelled: a
 * sequence of committed, not yet released bytes under a fixed capacity, a one-time split
 * into producer and consumer halves, exact write grants that are committed, and a read
 * of the bytes currently available.
 */
module BBQueue {
  import opened Rust
  import opened Wrappers

  /** The queue's error values that the core can observe. */
  datatype Error = InsufficientSize | GrantInProgress | AlreadySplit

  class BBBuffer {
    /** Total capacity in bytes, fixed when the buffer is declared. */
    const capacity: nat
    /** Bytes committed by the producer and not yet released by the consumer, oldest first. */
    var contents: seq<u8>
    /** Whether the buffer has already been split into a producer and a consumer. */
    var split: bool
    /** Whether a write grant is outstanding. */
    var writeInProgress: bool
    /** Size of the outstanding write grant. */
    ghost var granted: nat

    ghost predicate Valid()
      reads this
    {
      && |contents| <= capacity
      && (writeInProgress ==> |contents| + granted <= capacity)
      && (!split ==> contents == [] && !writeInProgress)
    }

    /** Bytes the producer may still reserve. */
    ghost function Free(): nat
      reads this
      requires Valid()
    {
      capacity - |contents|
    }

    constructor (capacity: nat)
      ensures Valid()
      ensures this.capacity == capacity && contents == [] && !split && !writeInProgress
    {
      this.capacity := capacity;
      contents := [];
      split := false;
      writeInProgress := false;
      granted := 0;
    }

    /** Hands out the producer and consumer halves; this succeeds once only. */
    method TrySplit() returns (r: Result<(), Error>)
      requires Valid()
      modifies this`split
      ensures Valid() && split
      ensures r == if old(split) then Failure(AlreadySplit) else Success(())
    {
      if split {
        r := Failure(AlreadySplit);
      } else {
        split := true;
        r := Success(());
      }
    }

    /**
     * Reserves exactly `n` bytes for writing and returns the region to fill, or fails and
     * changes nothing that is visible to the consumer.
     */
    method GrantExact(n: nat) returns (r: Result<array<u8>, Error>)
      requires Valid() && split
      modifies this`writeInProgress, this`granted
      ensures Valid() && contents == old(contents)
      ensures old(writeInProgress) ==> r == Failure(GrantInProgress) && writeInProgress
      ensures !old(writeInProgress) ==> (r.Success? <==> n <= old(Free()))
      ensures !old(writeInProgress) && r.Failure? ==> r.error == InsufficientSize && !writeInProgress
      ensures r.Success? ==> fresh(r.value) && r.value.Length == n && writeInProgress && granted == n
    {
      if writeInProgress {
        r := Failure(GrantInProgress);
      } else if n > capacity - |contents| {
        r := Failure(InsufficientSize);
      } else {
        var region := new u8[n];
        writeInProgress, granted := true, n;
        r := Success(region);
      }
    }

    /** Makes the first `used` bytes of the outstanding grant visible to the consumer. */
    method Commit(grant: array<u8>, used: nat)
      requires Valid() && writeInProgress && grant.Length == granted && used <= grant.Length
      modifies this`contents, this`writeInProgress
      ensures Valid() && !writeInProgress
      ensures contents == old(contents) + grant[..used]
    {
      contents := contents + grant[..used];
      writeInProgress := false;
    }

    /**
     * The bytes available to the consumer, as one view; an empty queue is an error.
     * Dropping the read grant without releasing retires nothing, so a read alone
     * changes no state.
     */
    method Read() returns (r: Result<seq<u8>, Error>)
      ensures r == if contents == [] then Failure(InsufficientSize) else Success(contents)
    {
      if contents == [] {
        r := Failure(InsufficientSize);
      } else {
        r := Success(contents);
      }
    }
  }
}
