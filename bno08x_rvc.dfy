/**
 * Wiring: splits the one shared queue into the sink's write half and the decoder's
 * read half.
 */
module Bno08xRvc {
  import opened Wrappers
  import opened Rvc
  import BBQueue
  import ByteSink
  import FrameParser

  /**
   * Builds the (Processor, Parser) pair over `bbuffer`, or reports that the buffer was
   * already split.
   */
  method Create(bbuffer: BBQueue.BBBuffer) returns (r: Result<(ByteSink.Processor, FrameParser.Parser), Error>)
    requires bbuffer.capacity == BufferSize && bbuffer.Valid()
    modifies bbuffer`split
    ensures bbuffer.Valid() && bbuffer.split && bbuffer.contents == old(bbuffer.contents)
    ensures r.Failure? <==> old(bbuffer.split)
    ensures r.Failure? ==> r.error == BbqError(BBQueue.AlreadySplit)
    ensures r.Success? ==>
              && fresh(r.value.0) && fresh(r.value.1)
              && r.value.0.producer == bbuffer && r.value.1.consumer == bbuffer
              && r.value.0.Valid()
              && r.value.1.Snap() == FrameParser.Snapshot(FrameParser.LookingForFirstHeaderByte, FrameParser.ZeroFrame)
  {
    var split := bbuffer.TrySplit();
    match split {
      case Success(_) =>
        var processor := new ByteSink.Processor(bbuffer);
        var parser := new FrameParser.Parser(bbuffer);
        r := Success((processor, parser));
      case Failure(e) =>
        r := Failure(BbqError(e));
    }
  }
}

/**
 * The crate's example program as a client of the model: create the pair over a fresh
 * buffer, submit the example vector, run the worker once.
 */
module Bno08xRvcExample {
  import opened Rust
  import opened Wrappers
  import opened Rvc
  import BBQueue
  import FrameParser
  import FrameParserProperties
  import ByteSink
  import Bno08xRvc

  /**
   * The worker returns normally, the parser's last frame is the zero frame with index
   * 0xDE, and every submitted byte is still in the queue, since the worker releases none.
   */
  method ExampleRun() returns (c: Completion<Result<(), Error>>, frame: FrameParser.RawFrame, held: seq<u8>)
    ensures c == Returned(Success(()))
    ensures frame == FrameParser.ZeroFrame.(index := 0xDE)
    ensures held == FrameParserProperties.ExampleBytes
  {
    var bb := new BBQueue.BBBuffer(BufferSize);
    var created := Bno08xRvc.Create(bb);
    var (processor, parser) := created.value;
    var submitted := processor.ProcessSlice(FrameParserProperties.ExampleBytes);
    assert submitted.Success?;
    FrameParserProperties.ExampleVector();
    c := parser.Worker();
    frame := parser.lastFrame;
    held := bb.contents;
  }

  /**
   * A second `create` over the same buffer fails with AlreadySplit and leaves the pair
   * built by the first one usable: the processor can still submit bytes.
   */
  method CreateTwice() returns (second: Result<(ByteSink.Processor, FrameParser.Parser), Error>, submitted: Result<(), Error>)
    ensures second == Failure(BbqError(BBQueue.AlreadySplit))
    ensures submitted.Success?
  {
    var bb := new BBQueue.BBBuffer(BufferSize);
    var first := Bno08xRvc.Create(bb);
    var (processor, _) := first.value;
    second := Bno08xRvc.Create(bb);
    submitted := processor.ProcessSlice(FrameParserProperties.ExampleBytes);
  }
}
