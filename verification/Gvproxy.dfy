/**
 Frames to and from the gvproxy child (crates/net/src/gvproxy.rs): a 4-byte big-endian length
 before each frame, and a receive queue that drops its oldest frame when full.
 */
module Gvproxy {
  import opened Words

  type Frame = seq<Byte>

  const RX_QUEUE_CAP: nat := 256
  const U32_MAX: nat := 0xFFFF_FFFF

  /** The four bytes of `n`, most significant first. */
  function Be4(n: nat): (b: seq<Byte>)
    requires n <= U32_MAX
    ensures |b| == 4
  {
    var q1 := n / 256;
    var q2 := q1 / 256;
    [q2 / 256, q2 % 256, q1 % 256, n % 256]
  }

  function FromBe4(b: seq<Byte>): nat
    requires |b| >= 4
  {
    256 * (256 * (256 * (b[0] as int) + b[1] as int) + b[2] as int) + b[3] as int
  }

  lemma Be4RoundTrip(n: nat, rest: seq<Byte>)
    requires n <= U32_MAX
    ensures FromBe4(Be4(n) + rest) == n
  {
    var q1 := n / 256;
    var q2 := q1 / 256;
    var b := Be4(n) + rest;
    assert b[0] == q2 / 256 && b[1] == q2 % 256 && b[2] == q1 % 256 && b[3] == n % 256;
    assert 256 * (q2 / 256) + q2 % 256 == q2;
    assert 256 * q2 + q1 % 256 == q1;
    assert 256 * q1 + n % 256 == n;
  }

  /** One frame on the wire; a length beyond 32 bits is written as the largest one. */
  function Encode(frame: Frame): seq<Byte> {
    Be4(if |frame| <= U32_MAX then |frame| else U32_MAX) + frame
  }

  function EncodeAll(frames: seq<Frame>): seq<Byte> {
    if frames == [] then [] else EncodeAll(frames[..|frames| - 1]) + Encode(frames[|frames| - 1])
  }

  /** `run_writer`. */
  method RunWriter(frames: seq<Frame>) returns (stream: seq<Byte>)
    ensures stream == EncodeAll(frames)
  {
    stream := [];
    for i := 0 to |frames|
      invariant stream == EncodeAll(frames[..i])
    {
      assert frames[..i + 1][..i] == frames[..i];
      var len := if |frames[i]| <= U32_MAX then |frames[i]| else U32_MAX;
      stream := stream + Be4(len);
      stream := stream + frames[i];
    }
    assert frames[..|frames|] == frames;
  }

  /** The frames `run_reader` takes from a stream that ends (or fails) where `stream` ends. */
  function Decode(stream: seq<Byte>, cap: nat): seq<Frame>
    decreases |stream|
  {
    if |stream| < 4 then []
    else
      var len := FromBe4(stream);
      var body := stream[4..];
      if len > cap then []
      else if len == 0 then Decode(body, cap)
      else if |body| < len then []
      else [body[..len]] + Decode(body[len..], cap)
  }

  function NonEmpty(frames: seq<Frame>): seq<Frame> {
    if frames == [] then []
    else (if frames[0] != [] then [frames[0]] else []) + NonEmpty(frames[1..])
  }

  /** The frames before the first one above the cap. */
  function UpToCap(frames: seq<Frame>, cap: nat): seq<Frame> {
    if frames == [] || |frames[0]| > cap then [] else [frames[0]] + UpToCap(frames[1..], cap)
  }

  lemma Regroup(a: seq<Byte>, b: seq<Byte>, c: seq<Byte>)
    ensures (a + b) + c == a + (b + c)
  {
  }

  lemma {:induction false} EncodeAllCons(frames: seq<Frame>)
    requires frames != []
    ensures EncodeAll(frames) == Encode(frames[0]) + EncodeAll(frames[1..])
  {
    var n := |frames| - 1;
    if n == 0 {
      assert frames[..0] == [];
    } else {
      EncodeAllCons(frames[..n]);
      assert frames[..n][1..] == frames[1..][..n - 1];
      assert frames[..n][0] == frames[0] && frames[1..][n - 1] == frames[n];
      Regroup(Encode(frames[0]), EncodeAll(frames[1..][..n - 1]), Encode(frames[n]));
    }
  }

  /** A frame whose length fits 32 bits, or is refused by the cap anyway, is read back whole. */
  lemma DecodeCons(frame: Frame, rest: seq<Byte>, cap: nat)
    requires |frame| <= U32_MAX || cap < U32_MAX
    ensures Decode(Encode(frame) + rest, cap) ==
            if |frame| > cap then []
            else (if frame != [] then [frame] else []) + Decode(rest, cap)
  {
    var len := if |frame| <= U32_MAX then |frame| else U32_MAX;
    var s := Encode(frame) + rest;
    assert s == Be4(len) + (frame + rest);
    Be4RoundTrip(len, frame + rest);
    assert s[4..] == frame + rest;
    assert (frame + rest)[..|frame|] == frame && (frame + rest)[|frame|..] == rest;
  }

  /** Any other frame is cut after 2^32 - 1 bytes, and the reader takes its tail for the next header. */
  lemma OversizedIsCut(frame: Frame, rest: seq<Byte>, cap: nat)
    requires |frame| > U32_MAX && cap >= U32_MAX
    ensures Decode(Encode(frame) + rest, cap) == [frame[..U32_MAX]] + Decode(frame[U32_MAX..] + rest, cap)
  {
    var s := Encode(frame) + rest;
    assert s == Be4(U32_MAX) + (frame + rest);
    Be4RoundTrip(U32_MAX, frame + rest);
    assert s[4..] == frame + rest;
    assert (frame + rest)[..U32_MAX] == frame[..U32_MAX] && (frame + rest)[U32_MAX..] == frame[U32_MAX..] + rest;
  }

  /** Reading what was written: the non-empty frames in order, up to the first one above the cap. */
  lemma {:induction false} RoundTrip(frames: seq<Frame>, cap: nat)
    requires cap < U32_MAX || forall i :: 0 <= i < |frames| ==> |frames[i]| <= U32_MAX
    ensures Decode(EncodeAll(frames), cap) == NonEmpty(UpToCap(frames, cap))
    decreases |frames|
  {
    if frames == [] {
    } else {
      EncodeAllCons(frames);
      DecodeCons(frames[0], EncodeAll(frames[1..]), cap);
      RoundTrip(frames[1..], cap);
    }
  }

  /** A stream cut anywhere yields a prefix of the frames, never a wrong one. */
  lemma {:induction false} CutYieldsPrefix(stream: seq<Byte>, n: nat, cap: nat)
    requires n <= |stream|
    ensures Decode(stream[..n], cap) <= Decode(stream, cap)
    decreases |stream|
  {
    if n >= 4 {
      var len, body := FromBe4(stream), stream[4..];
      assert FromBe4(stream[..n]) == len && stream[..n][4..] == body[..n - 4];
      if len == 0 {
        CutYieldsPrefix(body, n - 4, cap);
      } else if len <= cap && n - 4 >= len {
        assert body[..n - 4][..len] == body[..len];
        assert body[..n - 4][len..] == body[len..][..n - 4 - len];
        CutYieldsPrefix(body[len..], n - 4 - len, cap);
      }
    }
  }

  // ---- the receive queue -----------------------------------------------------------------------

  /** The last `n` elements, or all if there are fewer. */
  function Last<T>(s: seq<T>, n: nat): (r: seq<T>)
    ensures |r| <= n
  {
    if |s| <= n then s else s[|s| - n..]
  }

  function Push(buffer: seq<Frame>, frame: Frame): seq<Frame> {
    (if |buffer| >= RX_QUEUE_CAP then buffer[1..] else buffer) + [frame]
  }

  lemma PushIsLast(pushed: seq<Frame>, frame: Frame)
    ensures Push(Last(pushed, RX_QUEUE_CAP), frame) == Last(pushed + [frame], RX_QUEUE_CAP)
  {
  }

  class RxQueue {
    var buffer: seq<Frame>
    /** Everything pushed since the last take. */
    ghost var pushed: seq<Frame>

    ghost predicate Valid()
      reads this
    {
      buffer == Last(pushed, RX_QUEUE_CAP)
    }

    constructor ()
      ensures Valid() && pushed == []
    {
      buffer, pushed := [], [];
    }

    method Deliver(frame: Frame)
      requires Valid()
      modifies this
      ensures Valid() && pushed == old(pushed) + [frame]
    {
      PushIsLast(pushed, frame);
      if |buffer| >= RX_QUEUE_CAP {
        buffer := buffer[1..];
      }
      buffer := buffer + [frame];
      pushed := pushed + [frame];
    }

    /** `recv`: hands over at most the last 256 frames since the previous call. */
    method Recv() returns (frames: seq<Frame>)
      requires Valid()
      modifies this
      ensures Valid() && pushed == [] && buffer == []
      ensures frames == Last(old(pushed), RX_QUEUE_CAP) && |frames| <= RX_QUEUE_CAP
    {
      frames := buffer;
      buffer, pushed := [], [];
    }

    /** `run_reader` over the bytes of one connection. */
    method RunReader(stream: seq<Byte>, maxFrameBytes: nat)
      requires Valid()
      modifies this
      ensures Valid() && pushed == old(pushed) + Decode(stream, maxFrameBytes)
    {
      var rest := stream;
      while |rest| >= 4
        invariant Valid()
        invariant pushed + Decode(rest, maxFrameBytes) == old(pushed) + Decode(stream, maxFrameBytes)
        decreases |rest|
      {
        var len := FromBe4(rest);
        if len > maxFrameBytes {
          return;
        }
        rest := rest[4..];
        if len == 0 {
          continue;
        }
        if |rest| < len {
          return;
        }
        ghost var tail := Decode(rest[len..], maxFrameBytes);
        assert (pushed + [rest[..len]]) + tail == pushed + ([rest[..len]] + tail);
        Deliver(rest[..len]);
        rest := rest[len..];
      }
    }
  }
}
