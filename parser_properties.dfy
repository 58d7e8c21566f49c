/**
 * Properties of the frame decoder's reference definition `Parsed` and of the header
 * search it is built on.
 */
module FrameParserProperties {
  import opened Rust
  import opened Wrappers
  import opened Rvc
  import opened FrameParser

  /** Scanning two pieces in turn is scanning their concatenation. */
  lemma {:induction false} ScanAppend(s: State, a: seq<u8>, b: seq<u8>)
    ensures Scan(s, a + b) == Scan(Scan(s, a), b)
    decreases |b|
  {
    if b == [] {
      assert a + b == a;
    } else {
      var b' := b[..|b| - 1];
      assert (a + b)[..|a + b| - 1] == a + b';
      ScanAppend(s, a, b');
    }
  }

  /** In the first-byte search every byte other than 0xAA is skipped. */
  lemma {:induction false} FirstSearchSkipsNoise(noise: seq<u8>)
    requires forall k :: 0 <= k < |noise| ==> noise[k] != 0xAA
    ensures Scan(LookingForFirstHeaderByte, noise) == LookingForFirstHeaderByte
    decreases |noise|
  {
    if noise != [] {
      FirstSearchSkipsNoise(noise[..|noise| - 1]);
    }
  }

  /**
   * Once the first header byte is seen, every byte other than 0xAA is skipped too: the
   * search never goes back to looking for the first byte.
   */
  lemma {:induction false} SecondSearchSkipsNoise(noise: seq<u8>)
    requires forall k :: 0 <= k < |noise| ==> noise[k] != 0xAA
    ensures Scan(LookingForSecondHeaderByte, noise) == LookingForSecondHeaderByte
    decreases |noise|
  {
    if noise != [] {
      SecondSearchSkipsNoise(noise[..|noise| - 1]);
    }
  }

  /** Hence 0xAA, any run of non-0xAA bytes, 0xAA is taken for a header. */
  lemma NoisyHeaderStillSyncs(noise: seq<u8>)
    requires forall k :: 0 <= k < |noise| ==> noise[k] != 0xAA
    ensures Scan(LookingForFirstHeaderByte, [0xAA] + noise + [0xAA]) == GetFrameData
  {
    ScanAppend(LookingForFirstHeaderByte, [0xAA] + noise, [0xAA]);
    ScanAppend(LookingForFirstHeaderByte, [0xAA], noise);
    assert [0xAA][..0] == [];
    SecondSearchSkipsNoise(noise);
  }

  /** The body start found by the parser is the first position where the search reaches GetFrameData. */
  lemma BodyStartIsFirst(s: State, view: seq<u8>, k: nat)
    requires k < |view| && Scan(s, view[..k]) == GetFrameData
    requires forall j :: 0 <= j < k ==> Scan(s, view[..j]) != GetFrameData
    ensures BodyStart(s, view) == Some(k)
  {
  }

  /**
   * With a full body after the first header, `parse` decodes the body's first byte into
   * `index`, reports that frame, releases exactly through the end of the body and
   * resets the search.
   */
  lemma ParseTakesFirstBody(p: Snapshot, view: seq<u8>, k: nat)
    requires |view| >= FrameSize
    requires k < |view| && Scan(p.state, view[..k]) == GetFrameData
    requires forall j :: 0 <= j < k ==> Scan(p.state, view[..j]) != GetFrameData
    requires |view| - k >= BodySize
    ensures var f := p.lastFrame.(index := view[k]);
            Parsed(p, view) == (Snapshot(LookingForFirstHeaderByte, f), Some(Release(Some(f), k + BodySize)))
  {
    BodyStartIsFirst(p.state, view, k);
  }

  /**
   * With fewer than 17 bytes after the first header, `parse` still reports a frame (the
   * unchanged last frame), releases the whole view, header included, and resets the search.
   */
  lemma ParseIncompleteBody(p: Snapshot, view: seq<u8>, k: nat)
    requires |view| >= FrameSize
    requires k < |view| && Scan(p.state, view[..k]) == GetFrameData
    requires forall j :: 0 <= j < k ==> Scan(p.state, view[..j]) != GetFrameData
    requires |view| - k < BodySize
    ensures Parsed(p, view)
         == (p.(state := LookingForFirstHeaderByte), Some(Release(Some(p.lastFrame), |view|)))
  {
    BodyStartIsFirst(p.state, view, k);
  }

  /**
   * Without a header, `parse` reports no frame, releases the whole view, keeps the last
   * frame, and leaves the search where the last byte put it.
   */
  lemma ParseWithoutHeader(p: Snapshot, view: seq<u8>)
    requires |view| >= FrameSize
    requires forall j :: 0 <= j < |view| ==> Scan(p.state, view[..j]) != GetFrameData
    ensures Parsed(p, view) == (p.(state := Scan(p.state, view)), Some(Release(None, |view|)))
  {
  }

  /**
   * At most one frame per call: once a full body has been taken, the bytes after it are
   * not looked at, so appending more bytes to the view changes nothing.
   */
  lemma ParseIgnoresBytesAfterBody(p: Snapshot, view: seq<u8>, tail: seq<u8>)
    requires |view| >= FrameSize
    requires BodyStart(p.state, view).Some? && |view| - BodyStart(p.state, view).value >= BodySize
    ensures Parsed(p, view + tail) == Parsed(p, view)
  {
    var k := BodyStart(p.state, view).value;
    forall j | 0 <= j <= k
      ensures (view + tail)[..j] == view[..j]
    {
    }
    ParseTakesFirstBody(p, view, k);
    ParseTakesFirstBody(p, view + tail, k);
  }

  /**
   * The search state is not reset when the view runs out: if a call ends right after a
   * header, the next call over the same bytes takes the view's first byte as a body.
   */
  lemma StateCarriesOver(p: Snapshot, view: seq<u8>)
    requires |view| >= FrameSize
    requires Parsed(p, view).0.state == GetFrameData
    ensures var q := Parsed(p, view).0;
            var f := q.lastFrame.(index := view[0]);
            Parsed(q, view) == (Snapshot(LookingForFirstHeaderByte, f), Some(Release(Some(f), BodySize)))
  {
    var q := Parsed(p, view).0;
    assert view[..0] == [];
    ParseTakesFirstBody(q, view, 0);
  }

  /**
   * Since the worker never releases, the next call parses the same bytes again. From the
   * first-byte search, a call that took a full body is repeated exactly: the same frame is
   * reported every time and a later frame in the queue is never reached.
   */
  lemma ParseRepeatsWithoutRelease(p: Snapshot, view: seq<u8>)
    requires |view| >= FrameSize && p.state == LookingForFirstHeaderByte
    requires BodyStart(p.state, view).Some? && |view| - BodyStart(p.state, view).value >= BodySize
    ensures Parsed(Parsed(p, view).0, view) == Parsed(p, view)
  {
    var k := BodyStart(p.state, view).value;
    ParseTakesFirstBody(p, view, k);
    ParseTakesFirstBody(Parsed(p, view).0, view, k);
  }

  /**
   * The byte vector of the crate's example program: three noise bytes, a frame whose
   * header starts at offset 3, and three trailing bytes.
   */
  const ExampleBytes: seq<u8> := [0x34, 0x45, 0x32, 0xAA, 0xAA, 0xDE, 0x01, 0x00, 0x92, 0xFF, 0x25, 0x08, 0x8D,
                                  0xFE, 0xEC, 0xFF, 0xD1, 0x03, 0x00, 0x00, 0x00, 0xE7, 0xFF, 0xBB, 0xAA]

  /** On the example vector a fresh parser takes index 0xDE and may release all but the three trailing bytes. */
  lemma ExampleVector()
    ensures var f := ZeroFrame.(index := 0xDE);
            Parsed(Snapshot(LookingForFirstHeaderByte, ZeroFrame), ExampleBytes)
              == (Snapshot(LookingForFirstHeaderByte, f), Some(Release(Some(f), |ExampleBytes| - 3)))
  {
    var view := ExampleBytes;
    var s := LookingForFirstHeaderByte;
    assert view[..1][..0] == [] && view[..2][..1] == view[..1] && view[..3][..2] == view[..2];
    assert view[..4][..3] == view[..3] && view[..5][..4] == view[..4];
    assert Scan(s, view[..1]) == LookingForFirstHeaderByte;
    assert Scan(s, view[..2]) == LookingForFirstHeaderByte;
    assert Scan(s, view[..3]) == LookingForFirstHeaderByte;
    assert Scan(s, view[..4]) == LookingForSecondHeaderByte;
    assert Scan(s, view[..5]) == GetFrameData;
    ParseTakesFirstBody(Snapshot(s, ZeroFrame), view, 5);
  }
}
