/** The length-framed TCP decoders of DHCPv4 Leasequery (section 6.1 of RFC 6926;
    core/src/dhcpv4/dhcpv4_leasequery.cpp) and DHCPv4 failover (core/src/dhcpv4/dhcpv4_failover.cpp).

    Both read a two-octet length and then one frame, and stop there until the frame is consumed. They
    differ in whether the length counts its own two octets, in the bounds, and in the fields they keep. */
module StreamDecoder {

  type Octet = x: int | 0 <= x < 256

  /** `extra` is what a frame has beyond its length field's value: 2 if that excludes itself. */
  datatype Framing = Framing(extra: nat, minimum: nat, maximum: nat)

  const LEASEQUERY: Framing := Framing(2, 241, 65507)

  const FAILOVER: Framing := Framing(0, 12, 2048)

  /** A frame is longer than its length field. */
  predicate Proper(f: Framing) {
    f.extra + f.minimum > 2
  }

  function Length(s: seq<Octet>): nat
    requires |s| >= 2
  {
    (s[0] as int) * 256 + s[1] as int
  }

  predicate LegalLength(f: Framing, s: seq<Octet>)
    requires |s| >= 2
  {
    f.minimum <= Length(s) <= f.maximum
  }

  /** Octets of the frame that `s` begins with. */
  function FrameSize(f: Framing, s: seq<Octet>): nat
    requires |s| >= 2
  {
    Length(s) + f.extra
  }

  // ---------------------------------------------------------------- framing a whole stream

  /** Complete frames, what remains of the stream, and whether a length was illegal; then the two
      octets of that length remain. */
  datatype Framed = Framed(frames: seq<seq<Octet>>, tail: seq<Octet>, failed: bool)

  function Frames(f: Framing, s: seq<Octet>): Framed
    requires Proper(f)
    decreases |s|
  {
    if |s| < 2 then Framed([], s, false)
    else if !LegalLength(f, s) then Framed([], s[..2], true)
    else if |s| < FrameSize(f, s) then Framed([], s, false)
    else
      var rest := Frames(f, s[FrameSize(f, s)..]);
      rest.(frames := [s[..FrameSize(f, s)]] + rest.frames)
  }

  function Joined(frames: seq<seq<Octet>>): seq<Octet> {
    if frames == [] then [] else frames[0] + Joined(frames[1..])
  }

  /** Every octet is in one frame or in the remainder; only after an illegal length some are dropped. */
  lemma {:induction false} EveryOctetOnce(f: Framing, s: seq<Octet>)
    requires Proper(f)
    ensures var r := Frames(f, s);
            var kept := Joined(r.frames) + r.tail;
            kept <= s && (!r.failed ==> kept == s)
    decreases |s|
  {
    if |s| >= 2 && LegalLength(f, s) && |s| >= FrameSize(f, s) {
      var n := FrameSize(f, s);
      EveryOctetOnce(f, s[n..]);
      var rest := Frames(f, s[n..]);
      var r := Frames(f, s);
      assert r.frames[1..] == rest.frames;
      assert Joined(r.frames) + r.tail == s[..n] + (Joined(rest.frames) + rest.tail);
      assert s == s[..n] + s[n..];
    }
  }

  /** What is left over is itself an incomplete frame. */
  lemma {:induction false} TailIsIncomplete(f: Framing, s: seq<Octet>)
    requires Proper(f)
    ensures var r := Frames(f, s); Frames(f, r.tail) == Framed([], r.tail, r.failed)
    decreases |s|
  {
    if |s| >= 2 {
      if !LegalLength(f, s) {
        assert s[..2][..2] == s[..2];
      } else if |s| >= FrameSize(f, s) {
        TailIsIncomplete(f, s[FrameSize(f, s)..]);
      }
    }
  }

  function After(frames: seq<seq<Octet>>, r: Framed): Framed {
    r.(frames := frames + r.frames)
  }

  lemma AfterNothing(r: Framed)
    ensures After([], r) == r
  {
  }

  lemma AfterTwice(a: seq<seq<Octet>>, b: seq<seq<Octet>>, r: Framed)
    ensures After(a, After(b, r)) == After(a + b, r)
  {
    assert a + (b + r.frames) == (a + b) + r.frames;
  }

  predicate StartsWithFrame(f: Framing, s: seq<Octet>) {
    |s| >= 2 && LegalLength(f, s) && |s| >= FrameSize(f, s)
  }

  lemma FirstFrame(f: Framing, s: seq<Octet>)
    requires Proper(f) && StartsWithFrame(f, s)
    ensures Frames(f, s) == After([s[..FrameSize(f, s)]], Frames(f, s[FrameSize(f, s)..]))
  {
  }

  lemma NoFirstFrame(f: Framing, s: seq<Octet>)
    requires Proper(f) && !StartsWithFrame(f, s)
    ensures if |s| >= 2 && !LegalLength(f, s) then Frames(f, s) == Framed([], s[..2], true)
            else Frames(f, s) == Framed([], s, false)
  {
  }

  /** Framing can be cut anywhere: the remainder is carried into the next part. */
  lemma {:induction false} FramesOfSplit(f: Framing, s: seq<Octet>, t: seq<Octet>)
    requires Proper(f)
    ensures var r := Frames(f, s);
            Frames(f, s + t) == if r.failed then r else After(r.frames, Frames(f, r.tail + t))
    decreases |s|
  {
    hide Frames;
    assert |s| >= 2 ==> Length(s + t) == Length(s);
    if StartsWithFrame(f, s) {
      var n := FrameSize(f, s);
      hide Length, LegalLength;
      FirstFrame(f, s);
      assert (s + t)[n..] == s[n..] + t && (s + t)[..n] == s[..n];
      FirstFrame(f, s + t);
      FramesOfSplit(f, s[n..], t);
      var inner := Frames(f, s[n..]);
      AfterTwice([s[..n]], inner.frames, Frames(f, inner.tail + t));
    } else {
      NoFirstFrame(f, s);
      if |s| >= 2 && !LegalLength(f, s) {
        NoFirstFrame(f, s + t);
        assert (s + t)[..2] == s[..2];
      } else {
        AfterNothing(Frames(f, s + t));
      }
    }
  }

  // ---------------------------------------------------------------- the decoder

  datatype Decoder = Decoder(buffer: seq<Octet>, ready: bool, failed: bool)

  const FRESH: Decoder := Decoder([], false, false)

  function Min(a: nat, b: nat): nat {
    if a < b then a else b
  }

  /** The new state and the number of octets accepted. */
  function Ingest(f: Framing, d: Decoder, input: seq<Octet>): (r: (Decoder, nat))
    ensures r.1 <= |input|
  {
    if d.failed || d.ready then (d, 0)
    else
      var first := if |d.buffer| < 2 then Min(2 - |d.buffer|, |input|) else 0;
      var prefix := d.buffer + input[..first];
      if |prefix| < 2 then (Decoder(prefix, false, false), first)
      else if !LegalLength(f, prefix) then (Decoder(prefix, false, true), first)
      else if |prefix| > FrameSize(f, prefix) then (d, 0)
      else
        var second := Min(FrameSize(f, prefix) - |prefix|, |input| - first);
        var buffer := prefix + input[first..first + second];
        (Decoder(buffer, |buffer| == FrameSize(f, prefix), false), first + second)
  }

  function Consume(d: Decoder): Decoder {
    if d.ready then FRESH else d
  }

  /** States between two reads. */
  ghost predicate Idle(f: Framing, d: Decoder)
    requires Proper(f)
  {
    !d.ready && Frames(f, d.buffer) == Framed([], d.buffer, d.failed)
  }

  /** The owner's loop over one read: present the octets, dispatch and consume a ready frame, and present
      the unaccepted rest again. */
  function Feed(f: Framing, d: Decoder, input: seq<Octet>): (Decoder, seq<seq<Octet>>)
    decreases |input|
  {
    var (d1, accepted) := Ingest(f, d, input);
    if !d1.ready then (d1, [])
    else if accepted == 0 || accepted == |input| then (Consume(d1), [d1.buffer])
    else
      var (d2, frames) := Feed(f, Consume(d1), input[accepted..]);
      (d2, [d1.buffer] + frames)
  }

  /** One presentation of input to an idle decoder: it takes up to the end of the first frame. */
  lemma IngestFrames(f: Framing, d: Decoder, input: seq<Octet>)
    requires Proper(f) && Idle(f, d)
    ensures var (d1, accepted) := Ingest(f, d, input);
            var all := d.buffer + input;
            && (!d1.ready ==> Frames(f, all) == Framed([], d1.buffer, d1.failed) && Idle(f, d1))
            && (d1.ready ==> && accepted > 0 && !d1.failed
                             && |all| >= 2 && LegalLength(f, all) && |d1.buffer| == FrameSize(f, all) <= |all|
                             && d1.buffer == all[..FrameSize(f, all)] && input[accepted..] == all[FrameSize(f, all)..])
  {
    var all := d.buffer + input;
    if d.failed {
      FramesOfSplit(f, d.buffer, input);
    } else {
      hide Frames, Ingest, Length;
      if |all| < 2 {
        IngestShort(f, d, input);
        NoFirstFrame(f, all);
      } else if !LegalLength(f, all) {
        IngestIllegal(f, d, input);
        NoFirstFrame(f, all);
        PrefixLength(all[..2], all);
        NoFirstFrame(f, all[..2]);
      } else {
        IngestLegal(f, d, input);
        var n := Min(FrameSize(f, all) - |d.buffer|, |input|);
        assert all[..|all|] == all;
        assert input[n..] == all[|d.buffer| + n..];
        if |all| < FrameSize(f, all) {
          NoFirstFrame(f, all);
        }
      }
    }
  }

  lemma IngestShort(f: Framing, d: Decoder, input: seq<Octet>)
    requires !d.failed && !d.ready && |d.buffer + input| < 2
    ensures Ingest(f, d, input) == (Decoder(d.buffer + input, false, false), |input|)
  {
    assert input[..|input|] == input;
  }

  lemma IngestIllegal(f: Framing, d: Decoder, input: seq<Octet>)
    requires Proper(f) && Idle(f, d) && !d.failed && |d.buffer + input| >= 2 && !LegalLength(f, d.buffer + input)
    ensures |d.buffer| < 2 && Ingest(f, d, input) == (Decoder((d.buffer + input)[..2], false, true), 2 - |d.buffer|)
  {
    hide Frames;
    IdleBuffer(f, d);
    var all := d.buffer + input;
    if |d.buffer| < 2 {
      assert d.buffer + input[..2 - |d.buffer|] == all[..2];
    }
    PrefixLength(all[..2], all);
    SameSize(f, all[..2], all);
    if |d.buffer| >= 2 {
      PrefixLength(d.buffer, all);
    }
    hide Length;
  }

  lemma IngestLegal(f: Framing, d: Decoder, input: seq<Octet>)
    requires Proper(f) && Idle(f, d) && !d.failed && |d.buffer + input| >= 2 && LegalLength(f, d.buffer + input)
    ensures var all := d.buffer + input;
            var size := FrameSize(f, all);
            && |d.buffer| < size
            && var n := Min(size - |d.buffer|, |input|);
               Ingest(f, d, input) == (Decoder(all[..|d.buffer| + n], |d.buffer| + n == size, false), n)
  {
    hide Frames;
    IdleBuffer(f, d);
    var all := d.buffer + input;
    var first := if |d.buffer| < 2 then 2 - |d.buffer| else 0;
    var prefix := d.buffer + input[..first];
    assert prefix == all[..|prefix|];
    PrefixLength(prefix, all);
    SameSize(f, prefix, all);
    if |d.buffer| >= 2 {
      PrefixLength(d.buffer, all);
      SameSize(f, d.buffer, all);
    }
    hide Length, LegalLength, FrameSize;
    var n := Min(FrameSize(f, all) - |d.buffer|, |input|);
    assert prefix + input[first..n] == all[..|d.buffer| + n];
  }

  lemma PrefixLength(prefix: seq<Octet>, all: seq<Octet>)
    requires 2 <= |prefix| <= |all| && prefix == all[..|prefix|]
    ensures Length(prefix) == Length(all)
  {
  }

  lemma SameSize(f: Framing, a: seq<Octet>, b: seq<Octet>)
    requires |a| >= 2 && |b| >= 2 && Length(a) == Length(b)
    ensures LegalLength(f, a) == LegalLength(f, b) && FrameSize(f, a) == FrameSize(f, b)
    ensures Proper(f) && LegalLength(f, a) ==> FrameSize(f, a) > 2
  {
  }

  /** An idle decoder that has a length has a legal one, and less than the frame. */
  lemma IdleBuffer(f: Framing, d: Decoder)
    requires Proper(f) && Idle(f, d) && !d.failed
    ensures |d.buffer| >= 2 ==> LegalLength(f, d.buffer) && |d.buffer| < FrameSize(f, d.buffer)
  {
    hide Length;
    if StartsWithFrame(f, d.buffer) {
      FirstFrame(f, d.buffer);
    } else {
      NoFirstFrame(f, d.buffer);
    }
  }

  lemma IdleFresh(f: Framing)
    requires Proper(f)
    ensures Idle(f, FRESH)
  {
  }

  /** One read, whatever it contains: the owner's loop dispatches exactly the frames that the octets
      pending and read make up, and keeps exactly their remainder. */
  lemma {:induction false} FeedFrames(f: Framing, d: Decoder, input: seq<Octet>)
    requires Proper(f) && Idle(f, d)
    ensures var (d', frames) := Feed(f, d, input);
            Idle(f, d') && Frames(f, d.buffer + input) == Framed(frames, d'.buffer, d'.failed)
    decreases |input|
  {
    hide Frames, Ingest, Length;
    IngestFrames(f, d, input);
    var (d1, accepted) := Ingest(f, d, input);
    if d1.ready {
      var all := d.buffer + input;
      var n := FrameSize(f, all);
      FirstFrame(f, all);
      IdleFresh(f);
      assert FRESH.buffer + input[accepted..] == all[n..];
      if accepted == |input| {
        assert all[n..] == [];
        NoFirstFrame(f, []);
      } else {
        FeedFrames(f, FRESH, input[accepted..]);
      }
    }
  }

  /** A stream arrives in any number of reads of any sizes. */
  function FeedAll(f: Framing, d: Decoder, segments: seq<seq<Octet>>): (Decoder, seq<seq<Octet>>)
    decreases |segments|
  {
    if segments == [] then (d, [])
    else
      var (d1, frames) := Feed(f, d, segments[0]);
      var (d2, more) := FeedAll(f, d1, segments[1..]);
      (d2, frames + more)
  }

  /** However the stream is cut into reads, the frames dispatched and the state left are those of framing
      the whole stream at once. */
  lemma {:induction false} SegmentationIndependent(f: Framing, d: Decoder, segments: seq<seq<Octet>>)
    requires Proper(f) && Idle(f, d)
    ensures var (d', frames) := FeedAll(f, d, segments);
            Idle(f, d') && Frames(f, d.buffer + Joined(segments)) == Framed(frames, d'.buffer, d'.failed)
    decreases |segments|
  {
    hide Frames, Feed;
    if segments == [] {
      assert d.buffer + [] == d.buffer;
    } else {
      FeedFrames(f, d, segments[0]);
      var (d1, frames) := Feed(f, d, segments[0]);
      SegmentationIndependent(f, d1, segments[1..]);
      assert d.buffer + Joined(segments) == (d.buffer + segments[0]) + Joined(segments[1..]);
      FramesOfSplit(f, d.buffer + segments[0], Joined(segments[1..]));
      var (d2, more) := FeedAll(f, d1, segments[1..]);
      if d1.failed {
        FailedStays(f, d1, segments[1..]);
        assert frames + more == frames;
      }
    }
  }

  lemma {:induction false} FailedStays(f: Framing, d: Decoder, segments: seq<seq<Octet>>)
    requires d.failed && !d.ready
    ensures FeedAll(f, d, segments) == (d, [])
    decreases |segments|
  {
    if segments != [] {
      FailedStays(f, d, segments[1..]);
      var none: seq<seq<Octet>> := [];
      assert Feed(f, d, segments[0]) == (d, none) && none + none == none;
    }
  }

  // ---------------------------------------------------------------- encoding

  /** The frame of a message, for the framing whose length excludes itself. */
  function Encoded(f: Framing, message: seq<Octet>): seq<Octet>
    requires |message| < 65536
  {
    [|message| / 256, |message| % 256] + message
  }

  predicate Sendable(f: Framing, message: seq<Octet>) {
    f.extra == 2 && f.minimum <= |message| <= f.maximum && |message| < 65536
  }

  function Stream(f: Framing, messages: seq<seq<Octet>>): seq<seq<Octet>>
    requires forall i :: 0 <= i < |messages| ==> Sendable(f, messages[i])
  {
    if |messages| == 0 then []
    else
      assert Sendable(f, messages[0]);
      [Encoded(f, messages[0])] + Stream(f, messages[1..])
  }

  /** What is sent as a sequence of messages is received as that sequence, in any segmentation. */
  lemma {:induction false} SentIsReceived(f: Framing, messages: seq<seq<Octet>>)
    requires Proper(f) && forall i :: 0 <= i < |messages| ==> Sendable(f, messages[i])
    ensures Frames(f, Joined(Stream(f, messages))) == Framed(Stream(f, messages), [], false)
    decreases |messages|
  {
    hide Frames;
    if messages == [] {
      NoFirstFrame(f, []);
    } else {
      var first, rest := Encoded(f, messages[0]), Joined(Stream(f, messages[1..]));
      var all := first + rest;
      assert Stream(f, messages)[1..] == Stream(f, messages[1..]);
      assert Joined(Stream(f, messages)) == all;
      EncodedLength(f, messages[0], rest);
      FirstFrame(f, all);
      assert all[..|first|] == first && all[|first|..] == rest;
      SentIsReceived(f, messages[1..]);
    }
  }

  lemma EncodedLength(f: Framing, message: seq<Octet>, rest: seq<Octet>)
    requires Sendable(f, message)
    ensures StartsWithFrame(f, Encoded(f, message) + rest)
    ensures FrameSize(f, Encoded(f, message) + rest) == |Encoded(f, message)|
  {
    assert |message| / 256 * 256 + |message| % 256 == |message|;
    assert Length(Encoded(f, message) + rest) == |message|;
  }

  // ---------------------------------------------------------------- the decoders in place

  method CopyInto(storage: array<Octet>, at: nat, source: seq<Octet>)
    requires at + |source| <= storage.Length
    modifies storage
    ensures storage[..] == old(storage[..at]) + source + old(storage[at + |source|..])
  {
    var i := 0;
    while i < |source|
      invariant i <= |source|
      invariant storage[..at] == old(storage[..at]) && storage[at..at + i] == source[..i]
      invariant storage[at + i..] == old(storage[at + i..])
    {
      storage[at + i] := source[i];
      assert storage[at..at + i + 1] == storage[at..at + i] + [source[i]];
      i := i + 1;
    }
    assert storage[..] == storage[..at] + storage[at..at + |source|] + storage[at + |source|..];
  }

  lemma PrefixOf(a: seq<Octet>, b: seq<Octet>)
    requires |a| >= 2
    ensures Length(a + b) == Length(a)
  {
  }

  /** The two steps of an ingest: complete the length, then take what the frame lacks. */
  lemma FirstStep(f: Framing, d: Decoder, input: seq<Octet>, first: nat, prefix: seq<Octet>)
    requires !d.failed && !d.ready && first == (if |d.buffer| < 2 then Min(2 - |d.buffer|, |input|) else 0)
    requires prefix == d.buffer + input[..first]
    ensures |prefix| < 2 ==> Ingest(f, d, input) == (Decoder(prefix, false, false), first)
    ensures |prefix| >= 2 && !LegalLength(f, prefix) ==> Ingest(f, d, input) == (Decoder(prefix, false, true), first)
  {
    hide Length;
  }

  lemma SecondStep(
    f: Framing, d: Decoder, input: seq<Octet>, first: nat, prefix: seq<Octet>, second: nat, buffer: seq<Octet>)
    requires !d.failed && !d.ready && first == (if |d.buffer| < 2 then Min(2 - |d.buffer|, |input|) else 0)
    requires prefix == d.buffer + input[..first] && |prefix| >= 2 && LegalLength(f, prefix)
    requires |prefix| <= FrameSize(f, prefix) && second == Min(FrameSize(f, prefix) - |prefix|, |input[first..]|)
    requires buffer == prefix + input[first..][..second]
    ensures Ingest(f, d, input) == (Decoder(buffer, |buffer| == FrameSize(f, prefix), false), first + second)
    ensures Length(buffer) == Length(prefix)
  {
    PrefixOf(prefix, input[first..][..second]);
    hide Length;
    assert input[first..][..second] == input[first..first + second];
  }

  /** A state that the owner of a decoder can see: idle, or one complete frame. */
  ghost predicate Seen(f: Framing, d: Decoder)
    requires Proper(f)
  {
    if d.ready then !d.failed && |d.buffer| >= 2 && LegalLength(f, d.buffer) && |d.buffer| == FrameSize(f, d.buffer)
    else Idle(f, d)
  }

  lemma IngestIsSeen(f: Framing, d: Decoder, input: seq<Octet>)
    requires Proper(f) && Seen(f, d)
    ensures Seen(f, Ingest(f, d, input).0)
  {
    if !d.ready {
      IngestFrames(f, d, input);
      hide Frames, Ingest;
      var (d1, accepted) := Ingest(f, d, input);
      if d1.ready {
        PrefixLength(d1.buffer, d.buffer + input);
      }
    }
  }

  /** A seen state keeps within the largest frame. */
  lemma SeenFits(f: Framing, d: Decoder)
    requires Proper(f) && Seen(f, d) && f.minimum <= f.maximum
    ensures |d.buffer| <= f.maximum + f.extra
  {
    if !d.ready && !d.failed {
      IdleBuffer(f, d);
    }
    hide Length;
  }

  class LeasequeryDecoder {
    const storage: array<Octet>
    var occupied: nat
    var completeOctets: nat
    var malformed: bool

    ghost predicate Valid()
      reads this, storage
    {
      && storage.Length == LEASEQUERY.maximum + 2 && occupied <= storage.Length
      && Seen(LEASEQUERY, Value()) && (completeOctets != 0 ==> completeOctets == Length(storage[..occupied]))
    }

    ghost function Value(): Decoder
      requires occupied <= storage.Length
      reads this, storage
    {
      Decoder(storage[..occupied], completeOctets != 0, malformed)
    }

    constructor ()
      ensures Valid() && fresh(storage) && Value() == FRESH
    {
      storage := new Octet[65509];
      occupied, completeOctets, malformed := 0, 0, false;
      new;
      IdleFresh(LEASEQUERY);
      assert storage[..0] == [];
    }

    method Append(bytes: seq<Octet>)
      requires occupied + |bytes| <= storage.Length
      modifies this`occupied, storage
      ensures occupied == old(occupied) + |bytes| <= storage.Length
      ensures storage[..occupied] == old(storage[..occupied]) + bytes
    {
      CopyInto(storage, occupied, bytes);
      occupied := occupied + |bytes|;
    }

    /** Takes what the frame still lacks. */
    method TakePayload(bytes: seq<Octet>) returns (taken: nat)
      requires 2 <= occupied <= storage.Length == LEASEQUERY.maximum + 2 && completeOctets == 0
      requires LegalLength(LEASEQUERY, storage[..occupied]) && occupied <= FrameSize(LEASEQUERY, storage[..occupied])
      modifies this`occupied, this`completeOctets, storage
      ensures taken == Min(FrameSize(LEASEQUERY, old(storage[..occupied])) - old(occupied), |bytes|)
      ensures occupied == old(occupied) + taken <= storage.Length
      ensures storage[..occupied] == old(storage[..occupied]) + bytes[..taken]
      ensures completeOctets == if occupied == FrameSize(LEASEQUERY, old(storage[..occupied]))
                                then Length(old(storage[..occupied])) else 0
    {
      var length := Length(storage[..occupied]);
      hide Length;
      taken := Min(|bytes|, 2 + length - occupied);
      Append(bytes[..taken]);
      if occupied == 2 + length {
        completeOctets := length;
      }
    }

    /** Completes the length field as far as the input goes, and judges it. */
    method TakeLength(bytes: seq<Octet>) returns (accepted: nat)
      requires Valid() && !malformed && completeOctets == 0
      modifies this`occupied, this`malformed, storage
      ensures accepted <= |bytes| && occupied == old(occupied) + accepted <= storage.Length
      ensures storage[..occupied] == old(storage[..occupied]) + bytes[..accepted]
      ensures accepted == if old(occupied) < 2 then Min(2 - old(occupied), |bytes|) else 0
      ensures malformed <==> occupied >= 2 && !LegalLength(LEASEQUERY, storage[..occupied])
    {
      hide Frames, Length, FrameSize;
      IdleBuffer(LEASEQUERY, Value());
      accepted := 0;
      if occupied < 2 {
        accepted := Min(|bytes|, 2 - occupied);
        Append(bytes[..accepted]);
        malformed := occupied == 2 && !LegalLength(LEASEQUERY, storage[..occupied]);
      }
    }

    /** Accepts octets up to the end of one frame. */
    method Accept(bytes: seq<Octet>) returns (accepted: nat)
      requires Valid()
      modifies this, storage
      ensures Valid() && (Value(), accepted) == Ingest(LEASEQUERY, old(Value()), bytes)
    {
      ghost var d := Value();
      IngestIsSeen(LEASEQUERY, d, bytes);
      if malformed || completeOctets != 0 {
        return 0;
      }
      IdleBuffer(LEASEQUERY, d);
      hide Frames, Length, Idle, Seen, Ingest;
      accepted := TakeLength(bytes);
      ghost var prefix := storage[..occupied];
      FirstStep(LEASEQUERY, d, bytes, accepted, prefix);
      if occupied < 2 || malformed {
        return;
      }
      var payload := TakePayload(bytes[accepted..]);
      SecondStep(LEASEQUERY, d, bytes, accepted, prefix, payload, storage[..occupied]);
      accepted := accepted + payload;
    }

    /** Releases the frame; nothing follows it in the buffer, so the decoder starts afresh. */
    method ConsumeFrame()
      requires Valid()
      modifies this, storage
      ensures Valid() && Value() == Consume(old(Value()))
    {
      if completeOctets == 0 {
        return;
      }
      var consumed := 2 + completeOctets;
      assert occupied == consumed;
      occupied, completeOctets, malformed := occupied - consumed, 0, false;
      assert storage[..0] == [];
      IdleFresh(LEASEQUERY);
      var accepted := Accept([]);
    }
  }

  // ---------------------------------------------------------------- checkpoints

  datatype LeasequeryCheckpoint = LeasequeryCheckpoint(bytes: seq<Octet>, completeOctets: nat, malformed: bool)

  function LeasequeryState(d: Decoder): LeasequeryCheckpoint
    requires d.ready ==> |d.buffer| >= 2
  {
    LeasequeryCheckpoint(d.buffer, if d.ready then Length(d.buffer) else 0, d.failed)
  }

  predicate LeasequeryAccepts(c: LeasequeryCheckpoint) {
    && |c.bytes| <= LEASEQUERY.maximum + 2 && c.completeOctets <= LEASEQUERY.maximum
    && (c.completeOctets != 0 ==> |c.bytes| >= 2 + c.completeOctets)
    && if |c.bytes| >= 2 then
         (c.malformed || LegalLength(LEASEQUERY, c.bytes))
         && (c.completeOctets != 0 ==> Length(c.bytes) == c.completeOctets)
       else c.completeOctets == 0 && !c.malformed
  }

  function LeasequeryRestored(c: LeasequeryCheckpoint): Decoder {
    Decoder(c.bytes, c.completeOctets != 0, c.malformed)
  }

  /** A Leasequery decoder can be checkpointed and restored at any time, and is then the same. */
  lemma LeasequeryRestores(d: Decoder)
    requires Seen(LEASEQUERY, d)
    ensures (d.ready ==> |d.buffer| >= 2) && LeasequeryAccepts(LeasequeryState(d))
    ensures LeasequeryRestored(LeasequeryState(d)) == d
  {
    SeenFits(LEASEQUERY, d);
    SeenLength(LEASEQUERY, d);
    hide Frames;
  }

  /** What restore insists on: the octets fit; a complete frame is there as long as its own length says, and
      the length of anything not marked malformed is a legal one; without a length nothing can be complete or
      malformed. It does not insist that a frame which is there be marked complete. */
  lemma LeasequeryAcceptedExactly(c: LeasequeryCheckpoint)
    ensures LeasequeryAccepts(c) <==>
              && |c.bytes| <= 2 + LEASEQUERY.maximum
              && (|c.bytes| < 2 ==> c.completeOctets == 0 && !c.malformed)
              && (|c.bytes| >= 2 && !c.malformed ==>
                    LEASEQUERY.minimum <= c.bytes[0] * 256 + c.bytes[1] <= LEASEQUERY.maximum)
              && (c.completeOctets > 0 ==>
                    && 2 <= |c.bytes| && c.completeOctets == c.bytes[0] * 256 + c.bytes[1] <= LEASEQUERY.maximum
                    && 2 + c.completeOctets <= |c.bytes|)
  {
  }

  /** A failed decoder holds the illegal length; one that has a length otherwise holds a legal one. */
  lemma SeenLength(f: Framing, d: Decoder)
    requires Proper(f) && Seen(f, d)
    ensures d.failed <==> |d.buffer| >= 2 && !LegalLength(f, d.buffer)
    ensures d.failed ==> |d.buffer| == 2
    ensures |d.buffer| >= 2 && !d.failed ==> (d.ready <==> |d.buffer| == FrameSize(f, d.buffer)) && |d.buffer| <= FrameSize(f, d.buffer)
    ensures d.ready ==> |d.buffer| >= 2
  {
    hide Length;
    if !d.ready {
      if StartsWithFrame(f, d.buffer) {
        FirstFrame(f, d.buffer);
      } else {
        NoFirstFrame(f, d.buffer);
      }
    }
  }

  datatype FailoverCheckpoint = FailoverCheckpoint(bytes: seq<Octet>, expected: nat, ready: bool, failed: bool)

  function FailoverState(d: Decoder): FailoverCheckpoint {
    FailoverCheckpoint(d.buffer, if |d.buffer| < 2 then 0 else Length(d.buffer), d.ready, d.failed)
  }

  predicate FailoverAccepts(c: FailoverCheckpoint) {
    var partialPrefix := c.expected == 0 && |c.bytes| <= 1 && !c.ready;
    var body := FAILOVER.minimum <= c.expected <= FAILOVER.maximum && |c.bytes| <= c.expected
                && c.ready == (|c.bytes| == c.expected);
    (partialPrefix || body) && !(c.failed && c.ready)
  }

  function FailoverRestored(c: FailoverCheckpoint): Decoder {
    Decoder(c.bytes, c.ready, c.failed)
  }

  /** What restore insists on: before the length is known at most one octet and no message; afterwards a legal
      length, no more octets than it says, and a message that is ready exactly when all of them are there and
      the decoder has not failed. It does not compare the length with the octets. */
  lemma FailoverAcceptedExactly(c: FailoverCheckpoint)
    ensures FailoverAccepts(c) <==>
              && |c.bytes| <= (if c.expected == 0 then 1 else c.expected)
              && (c.expected > 0 ==> FAILOVER.minimum <= c.expected <= FAILOVER.maximum)
              && (c.ready <==> c.expected > 0 && |c.bytes| == c.expected)
              && (c.failed ==> !c.ready)
  {
  }

  /** A failover decoder can be restored from its own checkpoint exactly when it has not failed: after an
      illegal length the checkpoint carries that length, which restore refuses. */
  lemma FailoverRestores(d: Decoder)
    requires Seen(FAILOVER, d)
    ensures FailoverAccepts(FailoverState(d)) <==> !d.failed
    ensures FailoverRestored(FailoverState(d)) == d
  {
    SeenLength(FAILOVER, d);
    hide Frames, Length;
  }

  /** A stream that starts with the length zero fails the decoder, and its checkpoint is refused. */
  lemma FailedFailoverExample()
    ensures var (d, accepted) := Ingest(FAILOVER, FRESH, [0, 0]);
            && accepted == 2 && d == Decoder([0, 0], false, true)
            && FailoverState(d) == FailoverCheckpoint([0, 0], 0, false, true) && !FailoverAccepts(FailoverState(d))
  {
    var input: seq<Octet> := [0, 0];
    assert [] + input[..2] == input;
    assert Length(input) == 0;
  }

  // ---------------------------------------------------------------- the failover decoder in place

  class FailoverDecoder {
    const storage: array<Octet>
    var occupied: nat
    var expected: nat
    var ready: bool
    var failed: bool

    ghost predicate Valid()
      reads this, storage
    {
      && storage.Length == FAILOVER.maximum && occupied <= storage.Length && Seen(FAILOVER, Value())
      && expected == if occupied < 2 then 0 else Length(storage[..occupied])
    }

    ghost function Value(): Decoder
      requires occupied <= storage.Length
      reads this, storage
    {
      Decoder(storage[..occupied], ready, failed)
    }

    constructor ()
      ensures Valid() && fresh(storage) && Value() == FRESH
    {
      storage := new Octet[2048];
      occupied, expected, ready, failed := 0, 0, false, false;
      new;
      IdleFresh(FAILOVER);
      assert storage[..0] == [];
    }

    method Append(bytes: seq<Octet>)
      requires occupied + |bytes| <= storage.Length
      modifies this`occupied, storage
      ensures occupied == old(occupied) + |bytes| <= storage.Length
      ensures storage[..occupied] == old(storage[..occupied]) + bytes
    {
      CopyInto(storage, occupied, bytes);
      occupied := occupied + |bytes|;
    }

    method TakeLength(bytes: seq<Octet>) returns (accepted: nat)
      requires Valid() && !failed && !ready
      modifies this`occupied, this`failed, this`expected, storage
      ensures accepted <= |bytes| && occupied == old(occupied) + accepted <= storage.Length
      ensures storage[..occupied] == old(storage[..occupied]) + bytes[..accepted]
      ensures accepted == if old(occupied) < 2 then Min(2 - old(occupied), |bytes|) else 0
      ensures failed <==> occupied >= 2 && !LegalLength(FAILOVER, storage[..occupied])
      ensures expected == if occupied < 2 then 0 else Length(storage[..occupied])
    {
      hide Frames, Length, FrameSize;
      IdleBuffer(FAILOVER, Value());
      accepted := 0;
      if expected == 0 && occupied < 2 {
        accepted := Min(2 - occupied, |bytes|);
        Append(bytes[..accepted]);
        if occupied == 2 {
          expected := Length(storage[..occupied]);
          failed := expected < FAILOVER.minimum || expected > FAILOVER.maximum;
        }
      }
    }

    method TakeBody(bytes: seq<Octet>) returns (taken: nat)
      requires 2 <= occupied <= expected <= storage.Length && !ready
      modifies this`occupied, this`ready, storage
      ensures taken == Min(expected - old(occupied), |bytes|)
      ensures occupied == old(occupied) + taken <= storage.Length
      ensures storage[..occupied] == old(storage[..occupied]) + bytes[..taken]
      ensures ready == (occupied == expected)
    {
      taken := Min(expected - occupied, |bytes|);
      Append(bytes[..taken]);
      ready := occupied == expected;
    }

    /** Accepts octets up to the end of one message. */
    method Accept(input: seq<Octet>) returns (accepted: nat)
      requires Valid()
      modifies this, storage
      ensures Valid() && (Value(), accepted) == Ingest(FAILOVER, old(Value()), input)
    {
      ghost var d := Value();
      IngestIsSeen(FAILOVER, d, input);
      if failed || ready {
        return 0;
      }
      IdleBuffer(FAILOVER, d);
      hide Frames, Length, Idle, Seen, Ingest;
      accepted := TakeLength(input);
      ghost var prefix := storage[..occupied];
      FirstStep(FAILOVER, d, input, accepted, prefix);
      if occupied < 2 || failed {
        return;
      }
      var body := TakeBody(input[accepted..]);
      SecondStep(FAILOVER, d, input, accepted, prefix, body, storage[..occupied]);
      accepted := accepted + body;
    }

    method ConsumeMessage()
      requires Valid()
      modifies this
      ensures Valid() && Value() == Consume(old(Value()))
    {
      if !ready {
        return;
      }
      occupied, expected, ready := 0, 0, false;
      assert storage[..0] == [];
      IdleFresh(FAILOVER);
    }
  }
}
