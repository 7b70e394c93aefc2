/** The locking of writes (conn.go: write, WriteControl, flushFrame) as a step system: one data writer and any number
    of callers of WriteControl, interleaved at every step; the channel mu that serves as a mutex; the sticky writeErr.
    */
module WriteLock {
  import opened Frames
  import opened Masking

  type Pid = nat

  /** The process that runs flushFrame; all others run WriteControl. */
  const DATA_WRITER: Pid := 0

  /** The bytes of one frame that a process has to write. */
  datatype Job = Job(bytes: seq<byte>, isClose: bool)

  datatype Error = CloseSent | NetworkFailed

  /** Where a process is. A process waits for the token of mu, holds it, writes some bytes of its frame after the
      other, records an error, puts the token back with its result, and is done. */
  datatype Pc =
    | Idle
    | Waiting(job: Job)
    | Holding(job: Job)
    | Writing(job: Job, sent: nat)
    | Recording(job: Job, error: Error)
    | Releasing(job: Job, result: Option<Error>)
    | Finishing(result: Option<Error>)

  /** The shared state. tokens counts what is in the channel mu, of capacity 1. The wire has history: the frames
      written whole, with their writers; the frame being written or broken off, with its writer, and its octets. */
  datatype State = State(
    tokens: nat, writeErr: Option<Error>, isWriting: bool, panicked: bool, pcs: map<Pid, Pc>,
    wire: seq<byte>, whole: seq<(Pid, Job)>, current: Option<(Pid, Job)>, partial: seq<byte>)

  datatype Action =
    | Begin(job: Job)
    | Timeout
    | Acquire
    | CheckError
    | Transmit(n: nat)
    | Complete
    | Fail
    | Record
    | Release
    | End

  ghost predicate Init(s: State) {
    && s.tokens == 1 && s.writeErr == None && !s.isWriting && !s.panicked
    && s.wire == [] && s.whole == [] && s.current == None && s.partial == []
    && DATA_WRITER in s.pcs && forall p :: p in s.pcs ==> s.pcs[p] == Idle
  }

  function Goto(s: State, p: Pid, pc: Pc): State {
    s.(pcs := s.pcs[p := pc])
  }

  /** Process p may do action a. */
  predicate Enabled(s: State, p: Pid, a: Action) {
    p in s.pcs && !s.panicked &&
    var pc := s.pcs[p];
    match a
    case Begin(_) => pc.Idle?
    case Timeout => pc.Waiting? && p != DATA_WRITER
    case Acquire => pc.Waiting? && s.tokens > 0
    case CheckError => pc.Holding?
    case Transmit(n) => pc.Writing? && pc.sent + n <= |pc.job.bytes|
    case Complete => pc.Writing? && pc.sent == |pc.job.bytes|
    case Fail => pc.Writing?
    case Record => pc.Recording?
    case Release => pc.Releasing? && s.tokens < 1
    case End => pc.Finishing?
  }

  /** The step. The two checks of isWriting are those of flushFrame. */
  function Do(s: State, p: Pid, a: Action): State
    requires Enabled(s, p, a)
  {
    var pc := s.pcs[p];
    match a
    case Begin(job) =>
      if p == DATA_WRITER && s.isWriting then s.(panicked := true)
      else Goto(if p == DATA_WRITER then s.(isWriting := true) else s, p, Waiting(job))
    case Timeout =>
      Goto(s, p, Idle)
    case Acquire =>
      Goto(s.(tokens := s.tokens - 1), p, Holding(pc.job))
    case CheckError =>
      if s.writeErr.Some? then Goto(s, p, Releasing(pc.job, s.writeErr))
      else Goto(s.(current := Some((p, pc.job))), p, Writing(pc.job, 0))
    case Transmit(n) =>
      var bytes := pc.job.bytes[pc.sent..pc.sent + n];
      Goto(s.(wire := s.wire + bytes, partial := s.partial + bytes), p, Writing(pc.job, pc.sent + n))
    case Complete =>
      var t := s.(whole := s.whole + [(p, pc.job)], current := None, partial := []);
      Goto(t, p, if pc.job.isClose then Recording(pc.job, CloseSent) else Releasing(pc.job, None))
    case Fail =>
      Goto(s, p, Recording(pc.job, NetworkFailed))
    case Record =>
      Goto(if s.writeErr.None? then s.(writeErr := Some(pc.error)) else s, p,
           Releasing(pc.job, if pc.error == CloseSent then None else Some(pc.error)))
    case Release =>
      Goto(s.(tokens := s.tokens + 1), p, if p == DATA_WRITER then Finishing(pc.result) else Idle)
    case End =>
      if p == DATA_WRITER && !s.isWriting then s.(panicked := true)
      else Goto(if p == DATA_WRITER then s.(isWriting := false) else s, p, Idle)
  }

  /** A run: any process may move at any time. */
  datatype Move = Move(p: Pid, a: Action)

  ghost predicate Run(states: seq<State>, moves: seq<Move>) {
    && |states| == |moves| + 1 && Init(states[0])
    && forall i :: 0 <= i < |moves| ==> Enabled(states[i], moves[i].p, moves[i].a)
                                        && states[i + 1] == Do(states[i], moves[i].p, moves[i].a)
  }

  // Invariants

  predicate InSection(pc: Pc) {
    pc.Holding? || pc.Writing? || pc.Recording? || pc.Releasing?
  }

  /** Process p has the token. */
  predicate Holds(s: State, p: Pid) {
    p in s.pcs && InSection(s.pcs[p])
  }

  /** The token is in the channel or with exactly one process. */
  ghost predicate OneToken(s: State) {
    && s.tokens <= 1
    && (s.tokens == 1 ==> forall p :: !Holds(s, p))
    && (s.tokens == 0 ==> exists p :: Holds(s, p))
    && (forall p, q :: Holds(s, p) && Holds(s, q) ==> p == q)
  }

  /** The octets of whole frames, in the order in which they were completed. */
  function Octets(whole: seq<(Pid, Job)>): seq<byte> {
    if whole == [] then [] else Octets(whole[..|whole| - 1]) + whole[|whole| - 1].1.bytes
  }

  ghost predicate CloseWritten(s: State) {
    exists i :: 0 <= i < |s.whole| && s.whole[i].1.isClose
  }

  /** What is true while process p is at pc. */
  ghost predicate At(s: State, p: Pid, pc: Pc) {
    match pc
    case Writing(job, sent) =>
      s.writeErr.None? && s.current == Some((p, job)) && sent <= |job.bytes| && s.partial == job.bytes[..sent]
    case Recording(job, error) =>
      && s.writeErr.None?
      && (error == CloseSent ==> job.isClose && s.whole != [] && s.whole[|s.whole| - 1] == (p, job) && s.partial == [])
      && (error == NetworkFailed ==> s.current == Some((p, job)))
    case Releasing(job, result) => result.None? ==> s.whole != [] && s.whole[|s.whole| - 1] == (p, job)
    case _ => true
  }

  /** Only a writer that is about to record an error may have ended the stream without writeErr. */
  predicate AboutToRecord(s: State, p: Pid) {
    p in s.pcs && s.pcs[p].Recording?
  }

  predicate MidFrame(s: State, p: Pid) {
    p in s.pcs && (s.pcs[p].Writing? || s.pcs[p].Recording?)
  }

  /** The octets behind the whole frames are the first ones of a single frame. */
  ghost predicate PartOfCurrent(s: State) {
    if s.current.Some? then s.partial <= s.current.value.1.bytes else s.partial == []
  }

  ghost predicate Inv(s: State) {
    && OneToken(s)
    && !s.panicked && DATA_WRITER in s.pcs
    && s.isWriting == !s.pcs[DATA_WRITER].Idle?
    && s.wire == Octets(s.whole) + s.partial
    && (forall p :: p in s.pcs ==> At(s, p, s.pcs[p]))
    && (CloseWritten(s) ==> s.writeErr.Some? || exists p :: AboutToRecord(s, p))
    && (s.partial != [] ==> s.writeErr.Some? || exists p :: MidFrame(s, p))
    && PartOfCurrent(s)
  }

  lemma InitInv(s: State)
    requires Init(s)
    ensures Inv(s)
  {}

  /** The token is neither lost nor doubled, whatever the step; in particular on a timeout. */
  lemma TokenStep(s: State, p: Pid, a: Action)
    requires OneToken(s) && Enabled(s, p, a)
    ensures OneToken(Do(s, p, a))
  {
    var t := Do(s, p, a);
    assert forall q :: q != p ==> (Holds(t, q) <==> Holds(s, q));
    if a.Acquire? {
      assert Holds(t, p);
    } else if a.Release? {
      assert Holds(s, p);
    } else {
      assert Holds(t, p) <==> Holds(s, p);
    }
  }

  /** Every other process stays where it is, and what is true of it stays true: it does not hold the token. */
  lemma OthersStay(s: State, p: Pid, a: Action, q: Pid)
    requires Inv(s) && Enabled(s, p, a) && q in s.pcs && q != p
    ensures var t := Do(s, p, a); q in t.pcs && t.pcs[q] == s.pcs[q] && At(t, q, t.pcs[q])
  {
    assert At(s, q, s.pcs[q]);
    if InSection(s.pcs[q]) {
      assert Holds(s, q);
      assert !Holds(s, p);
    }
  }

  lemma MoverAt(s: State, p: Pid, a: Action)
    requires Inv(s) && Enabled(s, p, a)
    ensures var t := Do(s, p, a); !t.panicked && p in t.pcs && At(t, p, t.pcs[p])
    ensures var t := Do(s, p, a); t.isWriting == !t.pcs[DATA_WRITER].Idle?
  {
    hide Do, Octets, OneToken, CloseWritten, PartOfCurrent;
    if a.CheckError? && s.writeErr.None? {
      assert Holds(s, p);
      NothingPartial(s, p);
    }
    assert At(s, p, s.pcs[p]);
    MoverStays(s, p, a);
  }

  lemma MoverStays(s: State, p: Pid, a: Action)
    requires Enabled(s, p, a) && DATA_WRITER in s.pcs && s.isWriting == !s.pcs[DATA_WRITER].Idle? && At(s, p, s.pcs[p])
    requires a.CheckError? && s.writeErr.None? ==> s.partial == []
    ensures var t := Do(s, p, a); !t.panicked && p in t.pcs && At(t, p, t.pcs[p])
    ensures var t := Do(s, p, a); t.isWriting == !t.pcs[DATA_WRITER].Idle?
  {
    var t := Do(s, p, a);
    match a
    case Begin(job) => assert t.pcs[p] == Waiting(job);
    case Timeout => assert t.pcs[p] == Idle;
    case Acquire => assert t.pcs[p].Holding?;
    case CheckError => assert At(t, p, t.pcs[p]);
    case Transmit(n) => assert t.pcs[p] == Writing(s.pcs[p].job, s.pcs[p].sent + n);
    case Complete => assert t.whole[|t.whole| - 1] == (p, s.pcs[p].job);
    case Fail => assert t.pcs[p] == Recording(s.pcs[p].job, NetworkFailed);
    case Record => assert t.pcs[p].Releasing?;
    case Release => assert t.pcs[p].Finishing? || t.pcs[p].Idle?;
    case End => assert t.pcs[p] == Idle;
  }

  /** The process with the token is the only one in the critical section. */
  lemma Alone(s: State, p: Pid)
    requires Inv(s) && Holds(s, p)
    ensures forall q :: q in s.pcs && q != p ==> !InSection(s.pcs[q])
    ensures s.pcs[p].Writing? ==> !CloseWritten(s)
  {
    forall q | q in s.pcs && q != p
      ensures !InSection(s.pcs[q])
    {
      assert !Holds(s, q);
    }
    assert At(s, p, s.pcs[p]);
    assert s.pcs[p].Writing? ==> forall q :: !AboutToRecord(s, q);
  }

  /** A process that has the token and is not writing finds no frame half written, unless the connection is dead. */
  lemma NothingPartial(s: State, p: Pid)
    requires Inv(s) && Holds(s, p) && s.writeErr.None? && !s.pcs[p].Writing? && !s.pcs[p].Recording?
    ensures s.partial == [] && !CloseWritten(s)
  {
    Alone(s, p);
    assert forall q :: !MidFrame(s, q) && !AboutToRecord(s, q);
  }

  lemma WireStep(s: State, p: Pid, a: Action)
    requires Inv(s) && Enabled(s, p, a)
    ensures var t := Do(s, p, a); t.wire == Octets(t.whole) + t.partial
  {
    hide Octets, OneToken, CloseWritten, PartOfCurrent;
    assert At(s, p, s.pcs[p]);
    if a.Transmit? {
      assert Do(s, p, a).wire == Octets(s.whole) + Do(s, p, a).partial;
    } else if a.Complete? {
      OctetsOfOneMore(s.whole, (p, s.pcs[p].job));
      assert s.partial == s.pcs[p].job.bytes;
    }
  }

  lemma OctetsOfOneMore(whole: seq<(Pid, Job)>, last: (Pid, Job))
    ensures Octets(whole + [last]) == Octets(whole) + last.1.bytes
  {
    assert (whole + [last])[..|whole|] == whole;
  }

  lemma CloseStep(s: State, p: Pid, a: Action)
    requires Inv(s) && Enabled(s, p, a)
    ensures var t := Do(s, p, a); CloseWritten(t) ==> t.writeErr.Some? || exists q :: AboutToRecord(t, q)
  {
    var t := Do(s, p, a);
    if Holds(s, p) {
      Alone(s, p);
      assert a.Complete? && s.pcs[p].job.isClose ==> AboutToRecord(t, p);
      assert forall q :: AboutToRecord(s, q) ==> q == p;
    } else {
      assert forall q :: AboutToRecord(s, q) ==> AboutToRecord(t, q);
    }
  }

  lemma PartialStep(s: State, p: Pid, a: Action)
    requires Inv(s) && Enabled(s, p, a)
    ensures var t := Do(s, p, a); t.partial != [] ==> t.writeErr.Some? || exists q :: MidFrame(t, q)
  {
    var t := Do(s, p, a);
    if Holds(s, p) {
      Alone(s, p);
      assert a.Transmit? || a.Fail? || a.CheckError? ==> MidFrame(t, p) || s.writeErr.Some?;
      assert forall q :: MidFrame(s, q) ==> q == p;
    } else {
      assert forall q :: MidFrame(s, q) ==> MidFrame(t, q);
    }
  }

  lemma SamePids(s: State, p: Pid, a: Action)
    requires Enabled(s, p, a)
    ensures Do(s, p, a).pcs.Keys == s.pcs.Keys
  {}

  lemma CurrentStep(s: State, p: Pid, a: Action)
    requires Inv(s) && Enabled(s, p, a)
    ensures PartOfCurrent(Do(s, p, a))
  {
    hide Octets, OneToken, CloseWritten;
    assert At(s, p, s.pcs[p]);
    if a.CheckError? && s.writeErr.None? {
      assert Holds(s, p);
      NothingPartial(s, p);
    }
  }

  /** Every step of every process keeps the invariant. */
  lemma StepKeepsInv(s: State, p: Pid, a: Action)
    requires Inv(s) && Enabled(s, p, a)
    ensures Inv(Do(s, p, a))
  {
    hide Do, Enabled, At, Octets, CloseWritten, PartOfCurrent;
    var t := Do(s, p, a);
    TokenStep(s, p, a);
    MoverAt(s, p, a);
    WireStep(s, p, a);
    CurrentStep(s, p, a);
    SamePids(s, p, a);
    CloseStep(s, p, a);
    PartialStep(s, p, a);
    forall q | q in t.pcs
      ensures At(t, q, t.pcs[q])
    {
      if q != p {
        OthersStay(s, p, a, q);
      }
    }
  }

  // Main results, over all runs

  lemma {:induction false} RunInv(states: seq<State>, moves: seq<Move>, i: nat)
    requires Run(states, moves) && i < |states|
    ensures Inv(states[i])
  {
    if i == 0 {
      InitInv(states[0]);
    } else {
      RunInv(states, moves, i - 1);
      StepKeepsInv(states[i - 1], moves[i - 1].p, moves[i - 1].a);
    }
  }

  /** The stream is over: a Close frame has gone out, or a write has failed, or an error is recorded. */
  ghost predicate Dead(s: State) {
    || s.writeErr.Some?
    || CloseWritten(s)
    || exists p :: AboutToRecord(s, p)
  }

  lemma DeadIsSilent(s: State, p: Pid, a: Action)
    requires Inv(s) && Enabled(s, p, a) && Dead(s)
    ensures var t := Do(s, p, a);
            && t.wire == s.wire && t.whole == s.whole && Dead(t)
            && (s.writeErr.Some? ==> t.writeErr == s.writeErr)
  {
    var t := Do(s, p, a);
    assert At(s, p, s.pcs[p]);
    if s.writeErr.None? {
      var q :| AboutToRecord(s, q);
      assert Holds(s, q);
      if p != q {
        assert !Holds(s, p);
        assert AboutToRecord(t, q);
      }
    }
  }

  /** Once a Close frame has been written or a write has failed, no further byte is ever written, by any process, and
      the first error recorded stays. */
  lemma {:induction false} DeadForever(states: seq<State>, moves: seq<Move>, i: nat, j: nat)
    requires Run(states, moves) && i <= j < |states| && Dead(states[i])
    ensures Dead(states[j]) && states[j].wire == states[i].wire && states[j].whole == states[i].whole
    ensures states[i].writeErr.Some? ==> states[j].writeErr == states[i].writeErr
    decreases j - i
  {
    hide Do, Inv, Enabled;
    if i < j {
      DeadForever(states, moves, i, j - 1);
      RunInv(states, moves, j - 1);
      DeadIsSilent(states[j - 1], moves[j - 1].p, moves[j - 1].a);
    }
  }

  /** Process p has begun to write this frame. */
  ghost predicate Begun(moves: seq<Move>, p: Pid, job: Job) {
    Move(p, Begin(job)) in moves
  }

  predicate AtWork(pc: Pc) {
    !pc.Idle? && !pc.Finishing?
  }

  /** Whatever is on the wire, or on its way there, is the frame of a process that has begun to write it. */
  ghost predicate AllBegun(s: State, moves: seq<Move>) {
    && (forall p :: p in s.pcs && AtWork(s.pcs[p]) ==> Begun(moves, p, s.pcs[p].job))
    && (forall n :: 0 <= n < |s.whole| ==> Begun(moves, s.whole[n].0, s.whole[n].1))
    && (s.current.Some? ==> Begun(moves, s.current.value.0, s.current.value.1))
  }

  lemma BegunStep(s: State, moves: seq<Move>, p: Pid, a: Action)
    requires AllBegun(s, moves) && Enabled(s, p, a)
    ensures AllBegun(Do(s, p, a), moves + [Move(p, a)])
  {
    var t, more := Do(s, p, a), moves + [Move(p, a)];
    assert forall q, job :: Begun(moves, q, job) ==> Begun(more, q, job);
    assert Move(p, a) in more;
  }

  lemma {:induction false} RunBegun(states: seq<State>, moves: seq<Move>, i: nat)
    requires Run(states, moves) && i < |states|
    ensures AllBegun(states[i], moves[..i])
  {
    if i > 0 {
      RunBegun(states, moves, i - 1);
      assert moves[..i] == moves[..i - 1] + [moves[i - 1]];
      BegunStep(states[i - 1], moves[..i - 1], moves[i - 1].p, moves[i - 1].a);
    }
  }

  /** At every moment of every run: the token of mu is in the channel or with exactly one process; the wire is whole
      frames and then the first octets of at most one more frame, live or dead; every one of these is a frame that some
      process has begun to write, and while the connection lives the last one is of the process that is writing; neither
      check of isWriting has panicked. */
  lemma SafeAlways(states: seq<State>, moves: seq<Move>, i: nat)
    requires Run(states, moves) && i < |states|
    ensures var s := states[i];
            && (if s.tokens == 1 then forall p :: !Holds(s, p)
                else s.tokens == 0 && exists p :: Holds(s, p) && forall q :: Holds(s, q) ==> q == p)
            && s.wire == Octets(s.whole) + s.partial && PartOfCurrent(s) && AllBegun(s, moves[..i])
            && (s.partial != [] && s.writeErr.None? ==>
                  exists p :: Holds(s, p) && MidFrame(s, p) && s.current == Some((p, s.pcs[p].job)))
            && !s.panicked
  {
    hide Do, Enabled, Octets, AllBegun, CloseWritten, PartOfCurrent;
    RunInv(states, moves, i);
    RunBegun(states, moves, i);
    var s := states[i];
    if s.tokens == 0 {
      var p :| Holds(s, p);
    }
    if s.partial != [] && s.writeErr.None? {
      var p :| MidFrame(s, p);
      assert Holds(s, p) && At(s, p, s.pcs[p]);
    }
  }

  /** Putting the token back never blocks, and a write that reports success has put its frame on the wire whole: at the
      moment of its release that frame is the last one. */
  lemma ReleaseFindsRoom(states: seq<State>, moves: seq<Move>, i: nat, p: Pid)
    requires Run(states, moves) && i < |states| && p in states[i].pcs && states[i].pcs[p].Releasing?
    ensures Enabled(states[i], p, Release)
    ensures var s, pc := states[i], states[i].pcs[p];
            pc.result.None? ==> s.whole != [] && s.whole[|s.whole| - 1] == (p, pc.job)
  {
    RunInv(states, moves, i);
    assert Holds(states[i], p);
    assert At(states[i], p, states[i].pcs[p]);
  }

  // What a finished write reports

  /** The step after which the result of p's write is certain. */
  ghost predicate Decides(s: State, a: Action) {
    a.Complete? || a.Fail? || (a.CheckError? && s.writeErr.Some?)
  }

  /** What the write is to report: nothing when its frame is whole on the wire, a Close frame included; NetworkFailed
      when the transport has failed; the error that was found recorded. */
  ghost function ToReport(s: State, a: Action): Option<Error>
    requires Decides(s, a)
  {
    if a.Complete? then None else if a.Fail? then Some(NetworkFailed) else s.writeErr
  }

  /** The write of p will report this result, or has just reported it. */
  ghost predicate WillReport(pc: Pc, result: Option<Error>) {
    match pc
    case Recording(_, e) => if e == CloseSent then result == None else result == Some(e)
    case Releasing(_, r) => r == result
    case Finishing(r) => r == result
    case _ => false
  }

  /** The step ends the write of process p: for the data writer that is the end of flushFrame, for the others it is the
      release of the token. */
  predicate EndsWrite(p: Pid, m: Move) {
    m.p == p && (m.a.End? || (m.a.Release? && p != DATA_WRITER))
  }

  lemma DecidedStep(s: State, p: Pid, a: Action)
    requires Enabled(s, p, a) && Decides(s, a)
    ensures var t := Do(s, p, a); p in t.pcs && WillReport(t.pcs[p], ToReport(s, a))
  {}

  predicate Decided(pc: Pc) {
    pc.Recording? || pc.Releasing? || pc.Finishing?
  }

  lemma DecidedBefore(s: State, p: Pid, q: Pid, a: Action)
    requires Enabled(s, q, a) && !Do(s, q, a).panicked && p in Do(s, q, a).pcs && Decided(Do(s, q, a).pcs[p])
    ensures (q == p && Decides(s, a)) || (p in s.pcs && Decided(s.pcs[p]) && !EndsWrite(p, Move(q, a)))
  {}

  lemma ReportStep(s: State, p: Pid, q: Pid, a: Action, result: Option<Error>)
    requires Enabled(s, q, a) && p in s.pcs && WillReport(s.pcs[p], result)
    ensures var t := Do(s, q, a);
            && p in t.pcs
            && (WillReport(t.pcs[p], result)
                || EndsWrite(p, Move(q, a)))
  {}

  /** From the move j on until the move i, process p has not ended its write. */
  ghost predicate StillAt(moves: seq<Move>, p: Pid, j: nat, i: nat)
    requires j <= i <= |moves|
  {
    forall n :: j <= n < i ==> !EndsWrite(p, moves[n])
  }

  /** In every run: once the result of a write is certain, that is what the write reports at its release, and what the
      data writer has in hand when it goes on. */
  lemma {:induction false} ReportsOutcome(states: seq<State>, moves: seq<Move>, k: nat, i: nat)
    requires Run(states, moves) && k < i < |states| && Decides(states[k], moves[k].a)
    requires StillAt(moves, moves[k].p, k + 1, i)
    ensures var p := moves[k].p; p in states[i].pcs && WillReport(states[i].pcs[p], ToReport(states[k], moves[k].a))
    decreases i
  {
    hide Do, Enabled, WillReport;
    if i == k + 1 {
      DecidedStep(states[k], moves[k].p, moves[k].a);
    } else {
      ReportsOutcome(states, moves, k, i - 1);
      RunInv(states, moves, i);
      ReportStep(states[i - 1], moves[k].p, moves[i - 1].p, moves[i - 1].a, ToReport(states[k], moves[k].a));
    }
  }

  /** The results that are on their way have been decided by an earlier step of the same process, in the same write. */
  lemma {:induction false} ReportIsDecided(states: seq<State>, moves: seq<Move>, i: nat, p: Pid) returns (k: nat)
    requires Run(states, moves) && i < |states| && p in states[i].pcs
    requires Decided(states[i].pcs[p])
    ensures k < i && moves[k].p == p && Decides(states[k], moves[k].a) && StillAt(moves, p, k + 1, i)
    ensures WillReport(states[i].pcs[p], ToReport(states[k], moves[k].a))
    decreases i
  {
    hide Do, Enabled, WillReport, Decides, EndsWrite;
    assert i > 0 && Enabled(states[i - 1], moves[i - 1].p, moves[i - 1].a);
    var s, m := states[i - 1], moves[i - 1];
    RunInv(states, moves, i);
    DecidedBefore(s, p, m.p, m.a);
    if m.p == p && Decides(s, m.a) {
      k := i - 1;
    } else {
      k := ReportIsDecided(states, moves, i - 1, p);
    }
    ReportsOutcome(states, moves, k, i);
  }

  /** The recorded error is true: CloseSent when a Close frame is the last one on the wire, NetworkFailed when some
      write has failed. */
  ghost predicate ErrorExplained(s: State, moves: seq<Move>) {
    && (s.writeErr == Some(CloseSent) ==> s.whole != [] && s.whole[|s.whole| - 1].1.isClose)
    && (s.writeErr == Some(NetworkFailed) ==> exists p :: Move(p, Fail) in moves)
    && (forall p :: p in s.pcs && s.pcs[p].Recording? && s.pcs[p].error == NetworkFailed ==> Move(p, Fail) in moves)
  }

  lemma ExplainedStep(s: State, moves: seq<Move>, p: Pid, a: Action)
    requires Inv(s) && Enabled(s, p, a) && ErrorExplained(s, moves)
    ensures ErrorExplained(Do(s, p, a), moves + [Move(p, a)])
  {
    hide Octets, OneToken, CloseWritten, PartOfCurrent;
    assert At(s, p, s.pcs[p]);
    var more := moves + [Move(p, a)];
    assert forall q :: Move(q, Fail) in moves ==> Move(q, Fail) in more;
    assert Move(p, a) in more;
  }

  lemma {:induction false} RecordsTruth(states: seq<State>, moves: seq<Move>, i: nat)
    requires Run(states, moves) && i < |states|
    ensures ErrorExplained(states[i], moves[..i])
  {
    hide Do, Enabled, Inv;
    if i > 0 {
      RecordsTruth(states, moves, i - 1);
      RunInv(states, moves, i - 1);
      assert moves[..i] == moves[..i - 1] + [moves[i - 1]];
      ExplainedStep(states[i - 1], moves[..i - 1], moves[i - 1].p, moves[i - 1].a);
    } else {
      assert Init(states[0]);
    }
  }
}
