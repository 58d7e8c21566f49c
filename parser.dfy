/**
 * The streaming frame decoder: a three-state search for the 0xAAAA header, then the
 * capture of the body that follows it, and the "release size" that tells how many
 * leading bytes of the view may be retired.
 *
 * The behaviour is the one parser.rs gives, including where it departs from a working
 * decoder:
 *  - a second header byte that is not 0xAA leaves the search in
 *    LookingForSecondHeaderByte instead of going back to the first-byte search, so
 *    0xAA, noise, 0xAA also counts as a header (parser.rs:78-80);
 *  - only the first body byte is decoded, into `index`;
 *  - a body with fewer than 17 bytes left in the view is still reported as a frame
 *    (the unchanged last frame) and the whole view is given as the release size, so a
 *    caller that released that size would lose the header;
 *  - the state is reset only after a body; when the view runs out first, the search
 *    state carries over to the next call.
 */
module FrameParser {
  import opened Rust
  import opened Wrappers
  import opened Rvc
  import BBQueue

  /** The decoded record as parser.rs declares it: no roll field, unsigned 16-bit readings. */
  datatype RawFrame = RawFrame(
    index: u8,
    yaw: u16, pitch: u16,
    xAcc: u16, yAcc: u16, zAcc: u16,
    motionIntent: u8, motionRequest: u8, rsvd: u8,
    csum: u8)

  /** The frame a new parser starts with: every field 0. */
  const ZeroFrame := RawFrame(0, 0, 0, 0, 0, 0, 0, 0, 0, 0)

  datatype State = LookingForFirstHeaderByte | LookingForSecondHeaderByte | GetFrameData

  /** What `parse` reports on a long enough view: the frame taken, if any, and the release size. */
  datatype Release = Release(frame: Option<RawFrame>, size: nat)

  /** The parser's own state, as a value. */
  datatype Snapshot = Snapshot(state: State, lastFrame: RawFrame)

  /**
   * One step of the header search on byte `b`. GetFrameData is never stepped by the
   * parser (it takes the body and stops); it is kept here so that Scan is total.
   */
  function Step(s: State, b: u8): (t: State)
    ensures s == LookingForFirstHeaderByte ==> t != GetFrameData && (t == LookingForSecondHeaderByte <==> b == 0xAA)
    ensures s == LookingForSecondHeaderByte ==> t != LookingForFirstHeaderByte && (t == GetFrameData <==> b == 0xAA)
  {
    match s
    case LookingForFirstHeaderByte =>
      if b == HeaderHighByte() then LookingForSecondHeaderByte else LookingForFirstHeaderByte
    case LookingForSecondHeaderByte =>
      // The source stays here on a mismatch rather than going back to the first byte.
      if b == HeaderLowByte() then GetFrameData else LookingForSecondHeaderByte
    case GetFrameData => GetFrameData
  }

  /** The search state after `bytes`, starting from `s`. */
  function Scan(s: State, bytes: seq<u8>): State
    decreases |bytes|
  {
    if bytes == [] then s else Step(Scan(s, bytes[..|bytes| - 1]), bytes[|bytes| - 1])
  }

  /**
   * The first position at or after `i` where the search, started in `s0` at the head of
   * `view`, stands in GetFrameData.
   */
  function FindBody(s0: State, view: seq<u8>, i: nat): (r: Option<nat>)
    requires i <= |view|
    decreases |view| - i
    ensures r.Some? ==> i <= r.value < |view| && Scan(s0, view[..r.value]) == GetFrameData
    ensures forall j :: i <= j < |view| && (r.None? || j < r.value) ==> Scan(s0, view[..j]) != GetFrameData
  {
    if i == |view| then None
    else if Scan(s0, view[..i]) == GetFrameData then Some(i)
    else FindBody(s0, view, i + 1)
  }

  /** Where the body starts in `view` for a search begun in `s`, if the header is found. */
  function BodyStart(s: State, view: seq<u8>): Option<nat>
  {
    FindBody(s, view, 0)
  }

  /** The reference definition of one `parse` call: the new parser state and what it returns. */
  function Parsed(p: Snapshot, view: seq<u8>): (out: (Snapshot, Option<Release>))
    ensures |view| < FrameSize ==> out == (p, None)
    ensures |view| >= FrameSize ==> out.1.Some? && out.1.value.size <= |view|
    ensures out.1.Some? && out.1.value.frame.Some? ==>
              out.0.state == LookingForFirstHeaderByte && out.1.value.frame.value == out.0.lastFrame
    ensures out.1.Some? && out.1.value.frame.None? ==> out.1.value.size == |view|
    ensures |view| >= FrameSize ==> (out.1.value.frame.Some? <==> BodyStart(p.state, view).Some?)
    ensures out.0.lastFrame == p.lastFrame.(index := out.0.lastFrame.index)
  {
    if |view| < FrameSize then (p, None)
    else
      match BodyStart(p.state, view)
      case None => (p.(state := Scan(p.state, view)), Some(Release(None, |view|)))
      case Some(k) =>
        if |view| - k >= BodySize then
          var f := p.lastFrame.(index := view[k]);
          (Snapshot(LookingForFirstHeaderByte, f), Some(Release(Some(f), k + BodySize)))
        else
          (p.(state := LookingForFirstHeaderByte), Some(Release(Some(p.lastFrame), |view|)))
  }

  class Parser {
    /** The read half of the shared queue. */
    const consumer: BBQueue.BBBuffer
    var lastFrame: RawFrame
    var state: State

    function Snap(): Snapshot
      reads this
    {
      Snapshot(state, lastFrame)
    }

    constructor (consumer: BBQueue.BBBuffer)
      ensures this.consumer == consumer
      ensures state == LookingForFirstHeaderByte && lastFrame == ZeroFrame
    {
      this.consumer := consumer;
      lastFrame := ZeroFrame;
      state := LookingForFirstHeaderByte;
    }

    /**
     * Reads the bytes available in the queue and parses them. The read grant is dropped
     * without a release, so no byte is ever retired; a view shorter than a frame makes
     * `parse` return None, which is unwrapped, and so panics.
     */
    method Worker() returns (c: Completion<Result<(), Error>>)
      modifies this
      ensures consumer.contents == old(consumer.contents)
      ensures consumer.contents == [] ==>
                c == Returned(Failure(BbqError(BBQueue.InsufficientSize))) && Snap() == old(Snap())
      ensures consumer.contents != [] ==>
                var out := Parsed(old(Snap()), consumer.contents);
                Snap() == out.0 && c == if out.1.None? then Panicked else Returned(Success(()))
    {
      var rgr := consumer.Read();
      match rgr {
        case Failure(e) =>
          return Returned(Failure(BbqError(e)));
        case Success(view) =>
          var parsed := Parse(view);
          if parsed.None? {
            return Panicked;
          }
          return Returned(Success(()));
      }
    }

    /**
     * Scans `view` byte by byte. `idx` is the running release counter and `remLen` the
     * bytes left from the current one; the scan stops after the first body.
     */
    method Parse(view: seq<u8>) returns (r: Option<Release>)
      modifies this
      ensures (Snap(), r) == Parsed(old(Snap()), view)
    {
      if |view| >= FrameSize {
        ghost var s0 := state;
        var remLen: nat := |view|;
        var idx: nat := 0;
        var i := 0;
        assert view[..0] == [];
        while i < |view|
          invariant 0 <= i <= |view| && remLen == |view| - i && idx == i
          invariant lastFrame == old(lastFrame)
          invariant state == Scan(s0, view[..i])
          invariant BodyStart(s0, view) == FindBody(s0, view, i)
        {
          match state {
            case LookingForFirstHeaderByte =>
              if view[i] == HeaderHighByte() {
                state := LookingForSecondHeaderByte;
              } else {
                state := LookingForFirstHeaderByte;
              }
              idx := idx + 1;
            case LookingForSecondHeaderByte =>
              if view[i] == HeaderLowByte() {
                state := GetFrameData;
              } else {
                state := LookingForSecondHeaderByte;
              }
              idx := idx + 1;
            case GetFrameData =>
              if remLen >= FrameSize - 2 {
                lastFrame := lastFrame.(index := view[i]);
                idx := idx + (FrameSize - 2);
              } else {
                idx := idx + remLen;
              }
              state := LookingForFirstHeaderByte;
              break;
          }
          assert view[..i + 1][..i] == view[..i];
          remLen := remLen - 1;
          i := i + 1;
        }
        assert i == |view| ==> view[..i] == view;
        if remLen == 0 {
          r := Some(Release(None, idx));
        } else {
          r := Some(Release(Some(lastFrame), idx));
        }
      } else {
        r := None;
      }
    }
  }
}
