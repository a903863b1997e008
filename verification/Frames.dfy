/** Length-prefixed frames, the layout of the chunk region of a V2RC record (usbvault-crypto/src/streaming.rs). */
module Frames {
  import opened Options
  import opened NumberTheory
  import opened Bytes

  /** A 32-bit little-endian length and the bytes; the cast drops higher bits of the length. */
  function Frame(b: bytes): (f: bytes)
    ensures |f| == 4 + |b|
  {
    U32Le(|b|) + b
  }

  function Join(frames: seq<bytes>): bytes {
    if frames == [] then [] else Frame(frames[0]) + Join(frames[1..])
  }

  /** The first frame of a region and the offset behind it. */
  function FirstFrame(region: bytes): (r: Option<bytes>)
    ensures r.Some? ==> 4 + |r.value| <= |region|
  {
    if |region| < 4 then None
    else
      var n := FromLittleEndian(region[..4]);
      if 4 + n > |region| then None else Some(region[4..4 + n])
  }

  /** All frames of a region, if it is walked to the end. */
  function Split(region: bytes): Option<seq<bytes>>
    decreases |region|
  {
    if region == [] then Some([])
    else
      var first := FirstFrame(region);
      if first.None? then None
      else
        var rest := Split(region[4 + |first.value|..]);
        if rest.None? then None else Some([first.value] + rest.value)
  }

  ghost predicate Framable(frames: seq<bytes>) {
    forall i :: 0 <= i < |frames| ==> |frames[i]| < TWO_32
  }

  lemma FirstFrameOfFrame(b: bytes, rest: bytes)
    requires |b| < TWO_32
    ensures FirstFrame(Frame(b) + rest) == Some(b)
    ensures (Frame(b) + rest)[4 + |b|..] == rest
  {
    hide U32Le, FromLittleEndian;
    var region := Frame(b) + rest;
    assert region[..4] == U32Le(|b|);
    U32RoundTrip(|b|);
    SmallRemainder(|b|, TWO_32);
    assert region[4..4 + |b|] == b;
  }

  lemma FrameOfFirstFrame(region: bytes)
    requires FirstFrame(region).Some?
    ensures var b := FirstFrame(region).value;
      |b| < TWO_32 && region == Frame(b) + region[4 + |b|..]
  {
    hide U32Le, FromLittleEndian;
    U32OfValue(region[..4]);
  }

  lemma {:induction false} SplitJoin(frames: seq<bytes>)
    requires Framable(frames)
    ensures Split(Join(frames)) == Some(frames)
  {
    hide Frame, FirstFrame;
    if frames != [] {
      FirstFrameOfFrame(frames[0], Join(frames[1..]));
      SplitJoin(frames[1..]);
      assert |Frame(frames[0])| >= 4;
      assert [frames[0]] + frames[1..] == frames;
    }
  }

  lemma {:induction false} JoinSplit(region: bytes)
    requires Split(region).Some?
    ensures Framable(Split(region).value) && Join(Split(region).value) == region
    decreases |region|
  {
    hide Frame, FirstFrame;
    if region != [] {
      var first := FirstFrame(region).value;
      FrameOfFirstFrame(region);
      JoinSplit(region[4 + |first|..]);
    }
  }

  /** A region is walked to the end exactly when it is the framing of those frames: there is one such
      sequence, and framing it again gives the same bytes. */
  lemma RegionIsOneSequenceOfFrames(region: bytes, frames: seq<bytes>)
    ensures Split(region) == Some(frames) <==> Framable(frames) && region == Join(frames)
  {
    if Split(region).Some? {
      JoinSplit(region);
    }
    if Framable(frames) && region == Join(frames) {
      SplitJoin(frames);
    }
  }

  lemma {:induction false} JoinAppend(frames: seq<bytes>, b: bytes)
    ensures Join(frames + [b]) == Join(frames) + Frame(b)
  {
    hide Frame;
    if frames == [] {
      assert [b][1..] == [];
      assert frames + [b] == [b];
      assert Join([b]) == Frame(b) + Join([]);
    } else {
      assert (frames + [b])[1..] == frames[1..] + [b];
      JoinAppend(frames[1..], b);
    }
  }

  function Concat(parts: seq<bytes>): bytes {
    if parts == [] then [] else parts[0] + Concat(parts[1..])
  }

  lemma {:induction false} ConcatAppend(parts: seq<bytes>, b: bytes)
    ensures Concat(parts + [b]) == Concat(parts) + b
  {
    if parts == [] {
      assert parts + [b] == [b];
      assert Concat([b]) == b + Concat([]);
    } else {
      assert (parts + [b])[1..] == parts[1..] + [b];
      ConcatAppend(parts[1..], b);
    }
  }
}
