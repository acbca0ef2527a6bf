/**
 The frame loop of the applet's TCP thread: one read buffer is cut into frames
 of a four-octet header, which holds the size of the rest, and that many octets.
 */
module FrameSplitter {

  type octet = x: int | 0 <= x < 256

  const HEADER: nat := 4
  const SIZE_POS: nat := 2
  const MAX_MSG_BUF: nat := 1024

  /** The length of the frame that a header announces, the header included. */
  function Announced(s: seq<octet>): nat
    requires |s| >= HEADER
  {
    HEADER + s[SIZE_POS] as int * 256 + s[SIZE_POS + 1]
  }

  /** The frames found, and whether one did not fit into the message buffer (an exception). */
  datatype Split = Split(frames: seq<seq<octet>>, overflow: bool)

  function SplitRead(s: seq<octet>): Split
  {
    if |s| < HEADER || Announced(s) > |s| then Split([], false)
    else if Announced(s) > MAX_MSG_BUF then Split([], true)
    else
      var rest := SplitRead(s[Announced(s)..]);
      Split([s[..Announced(s)]] + rest.frames, rest.overflow)
  }

  // ----- the other direction -----

  /** A frame whose header says how long it is. */
  predicate IsFrame(f: seq<octet>)
  {
    |f| >= HEADER && Announced(f) == |f| <= MAX_MSG_BUF
  }

  predicate AllFrames(fs: seq<seq<octet>>)
  {
    forall i :: 0 <= i < |fs| ==> IsFrame(fs[i])
  }

  function Stream(fs: seq<seq<octet>>): seq<octet>
  {
    if fs == [] then [] else fs[0] + Stream(fs[1..])
  }

  /** Octets that begin a frame but do not complete one. */
  predicate Incomplete(s: seq<octet>)
  {
    |s| < HEADER || Announced(s) > |s|
  }

  lemma FrameFirst(f: seq<octet>, rest: seq<octet>)
    requires IsFrame(f)
    ensures var r := SplitRead(rest); SplitRead(f + rest) == Split([f] + r.frames, r.overflow)
  {
    assert Announced(f + rest) == Announced(f);
    assert (f + rest)[..|f|] == f && (f + rest)[|f|..] == rest;
  }

  /** Every complete frame is delivered once and in order; an incomplete one behind them never is. */
  lemma {:induction false} SplitInvertsStream(fs: seq<seq<octet>>, tail: seq<octet>)
    requires AllFrames(fs) && Incomplete(tail)
    ensures SplitRead(Stream(fs) + tail) == Split(fs, false)
  {
    hide IsFrame;
    if fs == [] {
      assert [] + tail == tail;
    } else {
      SplitInvertsStream(fs[1..], tail);
      FrameFirst(fs[0], Stream(fs[1..]) + tail);
      assert Stream(fs) + tail == fs[0] + (Stream(fs[1..]) + tail);
      assert fs == [fs[0]] + fs[1..];
    }
  }

  /** What is found is no longer than what was read, and re-assembles to its beginning. */
  lemma {:induction false} SplitIsPrefix(s: seq<octet>)
    ensures AllFrames(SplitRead(s).frames)
    ensures Stream(SplitRead(s).frames) <= s
    decreases |s|
  {
    if !Incomplete(s) && Announced(s) <= MAX_MSG_BUF {
      var n := Announced(s);
      SplitIsPrefix(s[n..]);
      var rest := SplitRead(s[n..]).frames;
      var all := SplitRead(s).frames;
      assert all == [s[..n]] + rest && all[1..] == rest;
      assert s == s[..n] + s[n..];
      assert Announced(s[..n]) == n;
    }
  }

  // ----- what the server sends -----

  /** A message: two type octets, the size of the payload with the high octet first, and the payload. */
  datatype Message = Message(sourceType: octet, messageType: octet, payload: seq<octet>)

  function Sent(m: Message): (r: seq<octet>)
    requires |m.payload| < 0x1_0000
    ensures |r| == 4 + |m.payload|
  {
    [m.sourceType, m.messageType, |m.payload| / 256, |m.payload| % 256] + m.payload
  }

  predicate Fitting(ms: seq<Message>)
  {
    forall i :: 0 <= i < |ms| ==> |ms[i].payload| <= 1020
  }

  function SentEach(ms: seq<Message>): (r: seq<seq<octet>>)
    requires Fitting(ms)
    ensures |r| == |ms| && forall i :: 0 <= i < |ms| ==> r[i] == Sent(ms[i])
  {
    if ms == [] then [] else [Sent(ms[0])] + SentEach(ms[1..])
  }

  /** The splitter's frames are exactly the messages with at most 1020 octets of payload, as they are sent. */
  lemma FrameIffSent(f: seq<octet>)
    ensures IsFrame(f) <==> exists m: Message :: |m.payload| <= 1020 && f == Sent(m)
  {
    if IsFrame(f) {
      var m := Message(f[0], f[1], f[4..]);
      assert |m.payload| == f[2] as int * 256 + f[3];
      assert f == [f[0], f[1], f[2], f[3]] + f[4..];
      assert f == Sent(m);
    }
    if m: Message :| |m.payload| <= 1020 && f == Sent(m) {
      assert f[2] == |m.payload| / 256 && f[3] == |m.payload| % 256;
    }
  }

  lemma BeginningAnnounces(m: Message, s: seq<octet>, k: nat)
    requires |m.payload| < 0x1_0000 && 4 <= k <= |Sent(m)| && Sent(m)[..k] <= s
    ensures Announced(s) == 4 + |m.payload|
  {
    assert s[2] == Sent(m)[..k][2] && s[3] == Sent(m)[..k][3];
  }

  /**
   From the sender's side: messages with at most 1020 octets of payload, and
   the beginning of one more of any size, in one read.  Each complete message
   is delivered as it was sent, in order, and the beginning is not.
   */
  lemma MessagesDelivered(ms: seq<Message>, next: Message, k: nat)
    requires Fitting(ms) && |next.payload| < 0x1_0000 && k < 4 + |next.payload|
    ensures SplitRead(Stream(SentEach(ms)) + Sent(next)[..k]) == Split(SentEach(ms), false)
  {
    hide SplitRead, Stream, Announced;
    var fs, rest := SentEach(ms), Sent(next)[..k];
    forall i | 0 <= i < |fs| ensures IsFrame(fs[i]) {
      FrameIffSent(fs[i]);
    }
    if |rest| >= HEADER {
      BeginningAnnounces(next, rest, k);
    }
    SplitInvertsStream(fs, rest);
  }

  /** A complete message with more than 1020 octets of payload stops the loop behind those before it. */
  lemma {:induction false} OversizedMessageStops(ms: seq<Message>, big: Message, rest: seq<octet>)
    requires Fitting(ms) && 1020 < |big.payload| < 0x1_0000
    ensures SplitRead(Stream(SentEach(ms)) + (Sent(big) + rest)) == Split(SentEach(ms), true)
  {
    hide Announced;
    if ms == [] {
      var s := Sent(big) + rest;
      assert [] + s == s;
      assert Sent(big)[..|Sent(big)|] == Sent(big);
      BeginningAnnounces(big, s, |Sent(big)|);
    } else {
      OversizedMessageStops(ms[1..], big, rest);
      var f, more := Sent(ms[0]), Stream(SentEach(ms[1..])) + (Sent(big) + rest);
      FrameIffSent(f);
      FrameFirst(f, more);
      assert SentEach(ms)[1..] == SentEach(ms[1..]);
      assert Stream(SentEach(ms)) + (Sent(big) + rest) == f + more;
    }
  }

  // ----- a stream that arrives in several reads -----

  ghost predicate OnBoundary(fs: seq<seq<octet>>, cut: nat)
  {
    exists k :: 0 <= k <= |fs| && |Stream(fs[..k])| == cut
  }

  lemma {:induction false} StreamConcat(a: seq<seq<octet>>, b: seq<seq<octet>>)
    ensures Stream(a + b) == Stream(a) + Stream(b)
  {
    if a == [] {
      assert a + b == b;
    } else {
      assert (a + b)[1..] == a[1..] + b;
      StreamConcat(a[1..], b);
      assert Stream(a + b) == a[0] + (Stream(a[1..]) + Stream(b));
    }
  }

  lemma BoundaryAgrees(fs: seq<seq<octet>>, k: nat)
    requires AllFrames(fs) && k <= |fs|
    ensures var cut := |Stream(fs[..k])|;
            && cut <= |Stream(fs)|
            && SplitRead(Stream(fs)[..cut]) == Split(fs[..k], false)
            && SplitRead(Stream(fs)[cut..]) == Split(fs[k..], false)
            && fs[..k] + fs[k..] == fs
  {
    hide IsFrame, SplitRead, Stream;
    assert fs == fs[..k] + fs[k..];
    StreamConcat(fs[..k], fs[k..]);
    var a, b := Stream(fs[..k]), Stream(fs[k..]);
    assert Stream(fs)[..|a|] == a && Stream(fs)[|a|..] == b;
    SplitInvertsStream(fs[..k], []);
    SplitInvertsStream(fs[k..], []);
    assert a + [] == a && b + [] == b;
  }

  /** All octets of a list of reads. */
  function Join(chunks: seq<seq<octet>>): seq<octet>
  {
    if chunks == [] then [] else chunks[0] + Join(chunks[1..])
  }

  /** The thread keeps nothing between reads: the frames of each read on its own, one read after the other. */
  function Delivered(chunks: seq<seq<octet>>): seq<seq<octet>>
  {
    if chunks == [] then [] else SplitRead(chunks[0]).frames + Delivered(chunks[1..])
  }

  predicate NoOverflow(chunks: seq<seq<octet>>)
  {
    forall i :: 0 <= i < |chunks| ==> !SplitRead(chunks[i]).overflow
  }

  lemma {:induction false} JoinConcat(a: seq<seq<octet>>, b: seq<seq<octet>>)
    ensures Join(a + b) == Join(a) + Join(b) && Delivered(a + b) == Delivered(a) + Delivered(b)
  {
    hide SplitRead;
    if a == [] {
      assert a + b == b;
    } else {
      assert (a + b)[1..] == a[1..] + b;
      JoinConcat(a[1..], b);
    }
  }

  lemma {:induction false} DeliveredIsNoLonger(chunks: seq<seq<octet>>)
    ensures |Stream(Delivered(chunks))| <= |Join(chunks)|
  {
    hide SplitRead, Stream;
    if chunks == [] {
      assert Stream([]) == [] by { NoStream(); }
    } else {
      SplitIsPrefix(chunks[0]);
      DeliveredIsNoLonger(chunks[1..]);
      StreamConcat(SplitRead(chunks[0]).frames, Delivered(chunks[1..]));
    }
  }

  lemma NoStream()
    ensures Stream([]) == []
  {
  }

  /** Frames are not empty, so that a longer beginning of the stream has more of them. */
  lemma BoundariesIncrease(fs: seq<seq<octet>>, j: nat, k: nat)
    requires AllFrames(fs) && j < k <= |fs|
    ensures |Stream(fs[..j])| < |Stream(fs[..k])|
  {
    hide IsFrame, Stream;
    assert fs[..k] == fs[..j] + fs[j..k];
    StreamConcat(fs[..j], fs[j..k]);
    assert fs[j..k] == [fs[j]] + fs[j + 1..k];
    StreamConcat([fs[j]], fs[j + 1..k]);
    OneFrame(fs[j]);
  }

  lemma OneFrame(f: seq<octet>)
    requires IsFrame(f)
    ensures |Stream([f])| == |f| > 0
  {
    assert [f][1..] == [];
  }

  ghost predicate CutsOnBoundaries(fs: seq<seq<octet>>, chunks: seq<seq<octet>>)
  {
    forall k :: 0 <= k <= |chunks| ==> OnBoundary(fs, |Join(chunks[..k])|)
  }

  /** The cuts behind the first read are boundaries of what is left of the stream. */
  lemma LaterCuts(fs: seq<seq<octet>>, chunks: seq<seq<octet>>, n: nat)
    requires AllFrames(fs) && chunks != [] && CutsOnBoundaries(fs, chunks)
    requires n <= |fs| && |Stream(fs[..n])| == |chunks[0]|
    ensures CutsOnBoundaries(fs[n..], chunks[1..])
  {
    hide Stream, Join, IsFrame;
    forall k | 0 <= k <= |chunks[1..]| ensures OnBoundary(fs[n..], |Join(chunks[1..][..k])|) {
      assert chunks[..k + 1] == [chunks[0]] + chunks[1..][..k];
      JoinConcat([chunks[0]], chunks[1..][..k]);
      OneRead(chunks[0]);
      assert OnBoundary(fs, |Join(chunks[..k + 1])|);
      var j :| 0 <= j <= |fs| && |Stream(fs[..j])| == |Join(chunks[..k + 1])|;
      if j < n {
        BoundariesIncrease(fs, j, n);
      }
      assert fs[..j] == fs[..n] + fs[n..][..j - n];
      StreamConcat(fs[..n], fs[n..][..j - n]);
    }
  }

  lemma OneRead(r: seq<octet>)
    ensures Join([r]) == r && Delivered([r]) == SplitRead(r).frames
  {
    assert [r][1..] == [];
  }

  lemma {:induction false} BoundaryCutsDeliver(fs: seq<seq<octet>>, chunks: seq<seq<octet>>)
    requires AllFrames(fs) && Join(chunks) == Stream(fs) && CutsOnBoundaries(fs, chunks)
    ensures NoOverflow(chunks) && Delivered(chunks) == fs
    decreases |chunks|
  {
    hide SplitRead, Stream, IsFrame;
    if chunks == [] {
      assert fs[..|fs|] == fs;
      if fs != [] {
        BoundariesIncrease(fs, 0, |fs|);
      }
    } else {
      assert chunks[..1] == [chunks[0]];
      OneRead(chunks[0]);
      assert OnBoundary(fs, |Join(chunks[..1])|);
      var n :| 0 <= n <= |fs| && |Stream(fs[..n])| == |chunks[0]|;
      BoundaryAgrees(fs, n);
      assert Stream(fs)[..|chunks[0]|] == chunks[0] && Stream(fs)[|chunks[0]|..] == Join(chunks[1..]);
      StreamConcat(fs[..n], fs[n..]);
      LaterCuts(fs, chunks, n);
      BoundaryCutsDeliver(fs[n..], chunks[1..]);
    }
  }

  lemma DeliveryMeansBoundary(fs: seq<seq<octet>>, chunks: seq<seq<octet>>, k: nat)
    requires Join(chunks) == Stream(fs) && Delivered(chunks) == fs && k <= |chunks|
    ensures OnBoundary(fs, |Join(chunks[..k])|)
  {
    hide Stream, Join, Delivered;
    var a, b := chunks[..k], chunks[k..];
    assert chunks == a + b;
    JoinConcat(a, b);
    DeliveredIsNoLonger(a);
    DeliveredIsNoLonger(b);
    StreamConcat(Delivered(a), Delivered(b));
    assert fs[..|Delivered(a)|] == Delivered(a);
  }

  /**
   A stream that arrives in any number of reads, of any sizes, is delivered as a
   whole if and only if every cut between reads is between two frames.
   */
  lemma ReadsDeliverIff(fs: seq<seq<octet>>, chunks: seq<seq<octet>>)
    requires AllFrames(fs) && Join(chunks) == Stream(fs)
    ensures NoOverflow(chunks) && Delivered(chunks) == fs <==> CutsOnBoundaries(fs, chunks)
  {
    hide SplitRead, Stream, Join, Delivered, OnBoundary, NoOverflow;
    if CutsOnBoundaries(fs, chunks) {
      BoundaryCutsDeliver(fs, chunks);
    }
    if NoOverflow(chunks) && Delivered(chunks) == fs {
      forall k | 0 <= k <= |chunks| ensures OnBoundary(fs, |Join(chunks[..k])|) {
        DeliveryMeansBoundary(fs, chunks, k);
      }
    }
  }

  // ----- the loop -----

  /** The frames found so far and those still to be found in `rest` make up `all`. */
  ghost predicate Remains(all: Split, frames: seq<seq<octet>>, rest: seq<octet>)
  {
    all == Split(frames + SplitRead(rest).frames, SplitRead(rest).overflow)
  }

  lemma FrameTaken(all: Split, frames: seq<seq<octet>>, rest: seq<octet>)
    requires Remains(all, frames, rest) && !Incomplete(rest) && Announced(rest) <= MAX_MSG_BUF
    ensures Remains(all, frames + [rest[..Announced(rest)]], rest[Announced(rest)..])
  {
    var frame, more := rest[..Announced(rest)], SplitRead(rest[Announced(rest)..]).frames;
    assert frames + ([frame] + more) == (frames + [frame]) + more;
  }

  lemma NoFrameLeft(all: Split, frames: seq<seq<octet>>, rest: seq<octet>)
    requires Remains(all, frames, rest) && (Incomplete(rest) || Announced(rest) > MAX_MSG_BUF)
    ensures all == Split(frames, !Incomplete(rest))
    ensures Incomplete(rest) ==> Remains(all, frames, [])
  {
    assert frames + [] == frames;
  }

  /**
   One read of `readBytes` octets (-1 at the end of the stream).  `calls` are
   the message buffers as the handler sees them: the frame, and behind it
   whatever earlier messages left there.
   */
  method SplitBuffer(buf: array<octet>, readBytes: int, msg: array<octet>)
    returns (calls: seq<seq<octet>>, overflow: bool)
    requires buf != msg && msg.Length == MAX_MSG_BUF && -1 <= readBytes <= buf.Length
    modifies msg
    ensures var split := SplitRead(buf[..if readBytes < 0 then 0 else readBytes]);
            && overflow == split.overflow
            && |calls| == |split.frames|
            && forall i :: 0 <= i < |calls| ==> |calls[i]| == MAX_MSG_BUF && split.frames[i] <= calls[i]
  {
    hide SplitRead, Remains;
    ghost var s := buf[..if readBytes < 0 then 0 else readBytes];
    ghost var all, frames := SplitRead(s), [];
    assert Remains(all, frames, s) by { AtFirst(s); }
    calls, overflow := [], false;
    var index := 0;
    assert s[index..] == s;
    while index + HEADER <= readBytes
      invariant 0 <= index <= |s| && buf[..] == old(buf[..])
      invariant Remains(all, frames, s[index..])
      invariant |calls| == |frames|
      invariant forall i :: 0 <= i < |calls| ==> |calls[i]| == MAX_MSG_BUF && frames[i] <= calls[i]
      decreases readBytes - index
    {
      var size := buf[index + SIZE_POS] as int;
      size := size * 256 + buf[index + SIZE_POS + 1];
      ghost var here := s[index..];
      assert Announced(here) == HEADER + size;
      if HEADER + size <= readBytes - index {
        if HEADER + size > MAX_MSG_BUF {
          // The copy runs past the end of `msg` and throws.
          NoFrameLeft(all, frames, here);
          return calls, true;
        }
        FrameTaken(all, frames, here);
        ghost var start := index;
        for i := 0 to HEADER + size
          invariant index == start + i && buf[..] == old(buf[..])
          invariant forall k :: 0 <= k < i ==> msg[k] == buf[start + k]
        {
          msg[i] := buf[index];
          index := index + 1;
        }
        assert here[HEADER + size..] == s[index..];
        calls := calls + [msg[..]];
        frames := frames + [here[..HEADER + size]];
      } else {
        NoFrameLeft(all, frames, here);
        index := readBytes;
        assert s[index..] == [];
      }
    }
    NoFrameLeft(all, frames, s[index..]);
  }

  lemma AtFirst(s: seq<octet>)
    ensures Remains(SplitRead(s), [], s)
  {
    assert [] + SplitRead(s).frames == SplitRead(s).frames;
  }
}
