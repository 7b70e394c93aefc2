/** The interleaved writers of module WriteLock, when the bytes that they write are frames: what is on the wire at any
    moment of any run is a stream that the peer reads as module RoundTrip says. */
module LockedWire {
  import opened Masking
  import opened Frames
  import Reader
  import opened WriteLock
  import Reading
  import RoundTrip
  import WriteConn

  // The order of the data writer's frames

  /** The frames that the data writer has begun to write, in order. */
  function BegunByData(moves: seq<Move>): seq<Job> {
    if moves == [] then []
    else
      var last := moves[|moves| - 1];
      BegunByData(moves[..|moves| - 1]) + if last.p == DATA_WRITER && last.a.Begin? then [last.a.job] else []
  }

  /** The data writer's frames among those written whole. */
  function WholeOfData(whole: seq<(Pid, Job)>): seq<Job> {
    if whole == [] then []
    else
      var last := whole[|whole| - 1];
      WholeOfData(whole[..|whole| - 1]) + if last.0 == DATA_WRITER then [last.1] else []
  }

  predicate Unwritten(pc: Pc) {
    pc.Waiting? || pc.Holding? || pc.Writing?
  }

  /** The frame that the data writer has still to write whole. */
  function InHand(s: State): seq<Job>
    requires DATA_WRITER in s.pcs
  {
    if Unwritten(s.pcs[DATA_WRITER]) then [s.pcs[DATA_WRITER].job] else []
  }

  /** The data writer's whole frames are the first that it has begun; on a live connection only the one in its hand is
      missing. A Close frame is the last frame, and nothing is begun after it. */
  ghost predicate InSequence(s: State, begun: seq<Job>)
    requires DATA_WRITER in s.pcs
  {
    && WholeOfData(s.whole) <= begun
    && (Dead(s) || WholeOfData(s.whole) + InHand(s) == begun)
    && (s.current.Some? && s.current.value.0 == DATA_WRITER ==> WholeOfData(s.whole) + [s.current.value.1] <= begun)
    && (forall n :: 0 <= n < |s.whole| - 1 ==> !s.whole[n].1.isClose)
    && (s.current.Some? ==> !CloseWritten(s))
  }

  function MoreBegun(begun: seq<Job>, p: Pid, a: Action): seq<Job> {
    begun + if p == DATA_WRITER && a.Begin? then [a.job] else []
  }

  /** A dead connection begins no frame. */
  lemma DeadBeginsNone(s: State, p: Pid, a: Action)
    requires Inv(s) && Enabled(s, p, a) && Dead(s)
    ensures Do(s, p, a).current == s.current && !a.Complete?
  {
    assert At(s, p, s.pcs[p]);
    if s.writeErr.None? {
      var q :| AboutToRecord(s, q);
      assert Holds(s, q);
      if p != q {
        assert !Holds(s, p);
      }
    }
  }

  lemma DeadSequence(s: State, begun: seq<Job>, p: Pid, a: Action)
    requires Inv(s) && InSequence(s, begun) && Enabled(s, p, a) && Dead(s)
    ensures InSequence(Do(s, p, a), MoreBegun(begun, p, a))
  {
    hide Do, Enabled;
    DeadIsSilent(s, p, a);
    DeadBeginsNone(s, p, a);
    SamePids(s, p, a);
    assert begun <= MoreBegun(begun, p, a);
  }

  /** A frame is completed. */
  lemma CompleteSequence(s: State, begun: seq<Job>, p: Pid)
    requires Inv(s) && InSequence(s, begun) && Enabled(s, p, Complete) && !Dead(s)
    ensures InSequence(Do(s, p, Complete), begun)
  {
    var t, job := Do(s, p, Complete), s.pcs[p].job;
    assert t.whole[..|t.whole| - 1] == s.whole;
    assert begun + [] == begun && WholeOfData(s.whole) + [] == WholeOfData(s.whole);
    if p == DATA_WRITER {
      assert InHand(s) == [job] && InHand(t) == [];
      assert WholeOfData(t.whole) == begun;
    } else {
      assert InHand(t) == InHand(s);
    }
    forall n | 0 <= n < |t.whole| - 1
      ensures !t.whole[n].1.isClose
    {
      assert t.whole[n] == s.whole[n];
    }
  }

  lemma LiveSequence(s: State, begun: seq<Job>, p: Pid, a: Action)
    requires Inv(s) && InSequence(s, begun) && Enabled(s, p, a) && !Dead(s) && !a.Complete?
    ensures InSequence(Do(s, p, a), MoreBegun(begun, p, a))
  {
    var t, more := Do(s, p, a), MoreBegun(begun, p, a);
    hide OneToken, Octets;
    assert At(s, p, s.pcs[p]);
    assert WholeOfData(s.whole) + [] == WholeOfData(s.whole) && begun + [] == begun;
    assert begun <= more;
    assert t.whole == s.whole;
    if a.Record? || a.Fail? {
      assert Dead(t) by {
        assert a.Fail? ==> AboutToRecord(t, p);
      }
    } else if p != DATA_WRITER {
      assert InHand(t) == InHand(s);
    }
  }

  lemma SequenceStep(s: State, begun: seq<Job>, p: Pid, a: Action)
    requires Inv(s) && InSequence(s, begun) && Enabled(s, p, a)
    ensures DATA_WRITER in Do(s, p, a).pcs && InSequence(Do(s, p, a), MoreBegun(begun, p, a))
  {
    hide Do, Enabled, InSequence;
    SamePids(s, p, a);
    if Dead(s) {
      DeadSequence(s, begun, p, a);
    } else if a.Complete? {
      CompleteSequence(s, begun, p);
      assert MoreBegun(begun, p, a) == begun;
    } else {
      LiveSequence(s, begun, p, a);
    }
  }

  lemma {:induction false} RunSequence(states: seq<State>, moves: seq<Move>, i: nat)
    requires Run(states, moves) && i < |states|
    ensures DATA_WRITER in states[i].pcs && InSequence(states[i], BegunByData(moves[..i]))
  {
    hide Do, Enabled, Inv;
    RunInv(states, moves, i);
    if i == 0 {
      assert moves[..0] == [];
      StartsInSequence(states[0]);
    } else {
      var m := moves[i - 1];
      assert moves[..i] == moves[..i - 1] + [m] && moves[..i][..i - 1] == moves[..i - 1];
      RunInv(states, moves, i - 1);
      RunSequence(states, moves, i - 1);
      SequenceStep(states[i - 1], BegunByData(moves[..i - 1]), m.p, m.a);
    }
  }

  lemma StartsInSequence(s: State)
    requires Init(s)
    ensures DATA_WRITER in s.pcs && InSequence(s, [])
  {}

  // Frames

  function FramesOf(jobs: seq<Job>, frameOf: Job -> Frame): seq<Frame> {
    seq(|jobs|, i requires 0 <= i < |jobs| => frameOf(jobs[i]))
  }

  function WholeJobs(whole: seq<(Pid, Job)>): seq<Job> {
    seq(|whole|, i requires 0 <= i < |whole| => whole[i].1)
  }

  /** The frame is what process p may write: its bytes, masked as the role wants it, RSV1 only if flagged; a caller of
      WriteControl has control frames. */
  ghost predicate IsFrameOf(p: Pid, job: Job, f: Frame, isServer: bool, flagged: bool) {
    && job.bytes == Encode(f) && job.isClose == (f.opcode == CLOSE) && f.key.None? == isServer
    && (f.rsv1 ==> flagged)
    && (p != DATA_WRITER ==> IsControl(f.opcode) && f.final && !f.rsv1 && |f.payload| <= MAX_CONTROL_PAYLOAD)
  }

  ghost predicate AllFrames(whole: seq<(Pid, Job)>, frameOf: Job -> Frame, isServer: bool, flagged: bool) {
    forall n :: 0 <= n < |whole| ==> IsFrameOf(whole[n].0, whole[n].1, frameOf(whole[n].1), isServer, flagged)
  }

  /** Every process writes frames, and those of the data writer follow each other as section 5.4 of RFC 6455 wants it.
      */
  ghost predicate WritesFrames(moves: seq<Move>, frameOf: Job -> Frame, isServer: bool, flagged: bool) {
    && (forall p, job :: Begun(moves, p, job) ==> IsFrameOf(p, job, frameOf(job), isServer, flagged))
    && Assemble(NOTHING, FramesOf(BegunByData(moves), frameOf)).Assembly?
  }

  lemma {:induction false} OctetsAreEncoding(whole: seq<(Pid, Job)>, frameOf: Job -> Frame)
    requires forall n :: 0 <= n < |whole| ==> whole[n].1.bytes == Encode(frameOf(whole[n].1))
    ensures Octets(whole) == EncodeAll(FramesOf(WholeJobs(whole), frameOf))
  {
    hide Encode;
    var fs := FramesOf(WholeJobs(whole), frameOf);
    if whole == [] {
      assert fs == [];
    } else {
      var before := whole[..|whole| - 1];
      OctetsAreEncoding(before, frameOf);
      WriteConn.OneMore(FramesOf(WholeJobs(before), frameOf), frameOf(whole[|whole| - 1].1));
      assert fs == FramesOf(WholeJobs(before), frameOf) + [frameOf(whole[|whole| - 1].1)];
    }
  }

  /** The stream that all processes have written has the messages that the data writer has written. */
  ghost predicate SameMessages(a: Assembly, b: Assembly) {
    a.Assembly? && b.Assembly? && a.done == b.done && a.open == b.open
  }

  lemma SameAfter(a: Assembly, b: Assembly, f: Frame)
    requires SameMessages(a, b) && AddFrame(b, f).Assembly?
    ensures SameMessages(AddFrame(a, f), AddFrame(b, f))
  {}

  lemma ControlAfter(a: Assembly, f: Frame)
    requires a.Assembly? && IsControl(f.opcode) && f.final && !f.rsv1 && |f.payload| <= MAX_CONTROL_PAYLOAD
    ensures SameMessages(AddFrame(a, f), a)
  {}

  lemma OneFrameMore(fs: seq<Frame>, f: Frame)
    ensures Assemble(NOTHING, fs + [f]) == AddFrame(Assemble(NOTHING, fs), f)
  {
    AssembleConcat(NOTHING, fs, [f]);
    WriteConn.AssembleOne(Assemble(NOTHING, fs), f);
  }

  lemma {:induction false} PrefixAssembles(fs: seq<Frame>, n: nat)
    requires n <= |fs| && Assemble(NOTHING, fs).Assembly?
    ensures Assemble(NOTHING, fs[..n]).Assembly?
  {
    assert fs == fs[..n] + fs[n..];
    AssembleConcat(NOTHING, fs[..n], fs[n..]);
    if Assemble(NOTHING, fs[..n]).Malformed? {
      MalformedStays(fs[n..]);
    }
  }

  lemma {:induction false} MessagesOfData(whole: seq<(Pid, Job)>, frameOf: Job -> Frame, isServer: bool, flagged: bool)
    requires AllFrames(whole, frameOf, isServer, flagged)
    requires Assemble(NOTHING, FramesOf(WholeOfData(whole), frameOf)).Assembly?
    ensures SameMessages(Assemble(NOTHING, FramesOf(WholeJobs(whole), frameOf)),
                         Assemble(NOTHING, FramesOf(WholeOfData(whole), frameOf)))
  {
    hide Encode, Assemble, AddFrame;
    if whole == [] {
      assert FramesOf(WholeJobs(whole), frameOf) == FramesOf(WholeOfData(whole), frameOf) == [];
    } else {
      var before, last := whole[..|whole| - 1], whole[|whole| - 1];
      var f, all, data := frameOf(last.1), FramesOf(WholeJobs(before), frameOf), FramesOf(WholeOfData(before), frameOf);
      assert FramesOf(WholeJobs(whole), frameOf) == all + [f];
      OneFrameMore(all, f);
      if last.0 == DATA_WRITER {
        assert FramesOf(WholeOfData(whole), frameOf) == data + [f];
        OneFrameMore(data, f);
        assert (data + [f])[..|data|] == data;
        PrefixAssembles(data + [f], |data|);
        MessagesOfData(before, frameOf, isServer, flagged);
        SameAfter(Assemble(NOTHING, all), Assemble(NOTHING, data), f);
      } else {
        assert WholeOfData(whole) == WholeOfData(before) + [] == WholeOfData(before);
        MessagesOfData(before, frameOf, isServer, flagged);
        ControlAfter(Assemble(NOTHING, all), f);
      }
    }
  }

  /** The frame that is being written, or whose write has failed, is one that could come now. */
  lemma CurrentFits(s: State, begun: seq<Job>, frameOf: Job -> Frame, isServer: bool, flagged: bool)
    requires DATA_WRITER in s.pcs && InSequence(s, begun) && s.current.Some? && PartOfCurrent(s)
    requires AllFrames(s.whole, frameOf, isServer, flagged)
    requires IsFrameOf(s.current.value.0, s.current.value.1, frameOf(s.current.value.1), isServer, flagged)
    requires Assemble(NOTHING, FramesOf(begun, frameOf)).Assembly?
    requires Assemble(NOTHING, FramesOf(WholeOfData(s.whole), frameOf)).Assembly?
    ensures WriteConn.BrokenOff(FramesOf(WholeJobs(s.whole), frameOf), isServer, frameOf(s.current.value.1), s.partial)
  {
    hide Encode, Assemble;
    var p, job := s.current.value.0, s.current.value.1;
    var f, all, data := frameOf(job), FramesOf(WholeJobs(s.whole), frameOf), FramesOf(WholeOfData(s.whole), frameOf);
    MessagesOfData(s.whole, frameOf, isServer, flagged);
    if p == DATA_WRITER {
      var n := |WholeOfData(s.whole)|;
      assert FramesOf(begun, frameOf)[..n + 1] == data + [f];
      PrefixAssembles(FramesOf(begun, frameOf), n + 1);
      OneFrameMore(data, f);
      SameAfter(Assemble(NOTHING, all), Assemble(NOTHING, data), f);
    }
  }

  /** At every moment of every run of processes that write frames: the wire is the encoding of a stream of frames, with
      the messages that the data writer has written, and then some octets of a frame that may follow it, or none; a
      Close frame is the last. */
  lemma WireIsStream(states: seq<State>, moves: seq<Move>, i: nat, frameOf: Job -> Frame, isServer: bool, flagged: bool)
    requires Run(states, moves) && i < |states| && WritesFrames(moves[..i], frameOf, isServer, flagged)
    ensures var s := states[i];
            var fs, data := FramesOf(WholeJobs(s.whole), frameOf), FramesOf(WholeOfData(s.whole), frameOf);
            && s.wire == EncodeAll(fs) + s.partial && FromPeer(fs, isServer)
            && (forall f :: f in fs ==> f.rsv1 ==> flagged)
            && (s.current.Some? && frameOf(s.current.value.1).rsv1 ==> flagged)
            && data <= FramesOf(BegunByData(moves[..i]), frameOf)
            && SameMessages(Assemble(NOTHING, fs), Assemble(NOTHING, data))
            && if s.current.Some? then
                 NoClose(fs) && WriteConn.BrokenOff(fs, isServer, frameOf(s.current.value.1), s.partial)
               else s.partial == [] && (NoClose(fs) || WriteConn.ClosedLast(fs))
  {
    hide Encode, EncodeAll, Assemble, Do, Enabled, WriteConn.BrokenOff, IsFrameOf;
    var s, begun := states[i], BegunByData(moves[..i]);
    SafeAlways(states, moves, i);
    RunSequence(states, moves, i);
    forall n | 0 <= n < |s.whole|
      ensures IsFrameOf(s.whole[n].0, s.whole[n].1, frameOf(s.whole[n].1), isServer, flagged)
    {
      assert Begun(moves[..i], s.whole[n].0, s.whole[n].1);
    }
    WholeAreFrames(s.whole, frameOf, isServer, flagged);
    OctetsAreEncoding(s.whole, frameOf);
    var n := |WholeOfData(s.whole)|;
    assert FramesOf(begun, frameOf)[..n] == FramesOf(WholeOfData(s.whole), frameOf);
    PrefixAssembles(FramesOf(begun, frameOf), n);
    MessagesOfData(s.whole, frameOf, isServer, flagged);
    CloseIsLast(s, frameOf, isServer, flagged);
    if s.current.Some? {
      FlaggedOnly(s.current.value.0, s.current.value.1, frameOf(s.current.value.1), isServer, flagged);
      CurrentFits(s, begun, frameOf, isServer, flagged);
    }
  }

  lemma WholeAreFrames(whole: seq<(Pid, Job)>, frameOf: Job -> Frame, isServer: bool, flagged: bool)
    requires AllFrames(whole, frameOf, isServer, flagged)
    ensures forall n :: 0 <= n < |whole| ==> whole[n].1.bytes == Encode(frameOf(whole[n].1))
    ensures FromPeer(FramesOf(WholeJobs(whole), frameOf), isServer)
    ensures forall f :: f in FramesOf(WholeJobs(whole), frameOf) ==> f.rsv1 ==> flagged
  {
    hide Encode;
  }

  lemma FlaggedOnly(p: Pid, job: Job, f: Frame, isServer: bool, flagged: bool)
    requires IsFrameOf(p, job, f, isServer, flagged)
    ensures f.rsv1 ==> flagged
  {
    hide Encode;
  }

  lemma CloseIsLast(s: State, frameOf: Job -> Frame, isServer: bool, flagged: bool)
    requires AllFrames(s.whole, frameOf, isServer, flagged)
    requires forall n :: 0 <= n < |s.whole| - 1 ==> !s.whole[n].1.isClose
    ensures var fs := FramesOf(WholeJobs(s.whole), frameOf);
            && (!CloseWritten(s) ==> NoClose(fs))
            && (NoClose(fs) || WriteConn.ClosedLast(fs))
  {
    hide Encode;
  }

  /** The peer that reads what is on the wire at any moment of any run gets exactly the messages that the data writer
      has written whole, and after them at most the one that the frame completes that is being written or whose write
      has failed. */
  lemma PeerGets(c: Reader.Config, states: seq<State>, moves: seq<Move>, i: nat, frameOf: Job -> Frame)
    requires Run(states, moves) && i < |states| && WritesFrames(moves[..i], frameOf, !c.isServer, c.inflate)
    requires Reading.Quiet(c) && c.limit <= 0 && c.tail == Reader.EndOfFile
    ensures var s := states[i];
            var a := Assemble(NOTHING, FramesOf(WholeOfData(s.whole), frameOf));
            var current := if s.current.Some? then Some(frameOf(s.current.value.1)) else None;
            && a.Assembly?
            && Reader.Session(c, Reader.Start(s.wire)).messages == a.done + WriteConn.LateMessages(
                 Assemble(NOTHING, FramesOf(WholeJobs(s.whole), frameOf)), current, s.partial)
  {
    hide Encode, EncodeAll, Assemble, Reader.Session, WriteConn.BrokenOff, WritesFrames;
    WireIsStream(states, moves, i, frameOf, !c.isServer, c.inflate);
    var s := states[i];
    var fs := FramesOf(WholeJobs(s.whole), frameOf);
    if s.current.Some? {
      RoundTrip.BrokenStreamArrives(c, fs, frameOf(s.current.value.1), s.partial);
    } else {
      assert EncodeAll(fs) + [] == EncodeAll(fs);
      WriteConn.NothingLate(Assemble(NOTHING, fs), s.partial);
      var done := Assemble(NOTHING, fs).done;
      assert done + [] == done;
      if NoClose(fs) {
        RoundTrip.StreamArrives(c, fs);
      } else {
        RoundTrip.ClosedStreamArrives(c, fs);
      }
    }
  }
}
