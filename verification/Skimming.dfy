/** Applications that do not read a message to its end, and call NextReader for the next one (conn.go). */
module Skimming {
  import opened Masking
  import opened Frames
  import opened Reader
  import opened Reading
  import ReadConn

  /** An application that reads at most plan[i] bytes of message i, and asks for as many messages as the plan has. */
  function Skim(c: Config, s: State, plan: seq<nat>): seq<Message> {
    SkimFrom(c, s.(length := 0), plan)
  }

  /** The same, from inside NextReader. */
  function SkimFrom(c: Config, s: State, plan: seq<nat>): seq<Message>
    decreases |s.input|
  {
    match NextData(c, s)
    case Failed(_, _) => []
    case Got(t, kind) =>
      if plan == [] then []
      else
        var d := ReadSome(c, t, plan[0]);
        [Message(kind, t.decompress, d.data)] + if d.broken then [] else SkimFrom(c, d.s.(length := 0), plan[1..])
  }

  function Min(a: nat, b: nat): nat {
    if a < b then a else b
  }

  /** The beginnings of the messages. */
  function Beginnings(ms: seq<Message>, plan: seq<nat>): seq<Message> {
    if ms == [] || plan == [] then []
    else [ms[0].(payload := ms[0].payload[..Min(plan[0], |ms[0].payload|)])] + Beginnings(ms[1..], plan[1..])
  }

  /** What is left, after the current frame, of the message that the frames fs continue. */
  function TailOf(final: bool, fs: seq<Frame>): seq<byte>
    decreases |fs|
  {
    if final || fs == [] then []
    else if IsControl(fs[0].opcode) then TailOf(false, fs[1..])
    else fs[0].payload + TailOf(fs[0].final, fs[1..])
  }

  /** The stream a has been read up to somewhere in its last data frame, of which the octets rest are left; then come
      the frames fs, and they end between messages. */
  ghost predicate Inside(c: Config, s: State, a: Assembly, rest: seq<byte>, fs: seq<Frame>) {
    && s.input == rest + EncodeAll(fs) && s.remaining == |rest|
    && a.Assembly? && s.final == a.open.None?
    && FollowAll(c, a, fs) && NoClose(fs)
    && Assemble(a, fs).Assembly? && Assemble(a, fs).open.None?
  }

  /** The number of messages up to the one that is being read. */
  function Count(a: Assembly): nat
    requires a.Assembly?
  {
    |a.done| + if a.open.Some? then 1 else 0
  }

  /** The next frame comes as if what is left of the current one were not there. */
  lemma SkipsRest(c: Config, s: State, rest: seq<byte>, more: seq<byte>)
    requires s.input == rest + more && s.remaining == |rest|
    ensures |more| >= 2 ==> Advance(c, s) == Advance(c, s.(input := more, remaining := 0))
    ensures |more| < 2 ==> Advance(c, s).Failed? && Advance(c, s).error == Short(c)
  {
    hide CheckOrder, HasBit, ReservedHex;
    assert (rest + more)[|rest|..] == more;
  }

  lemma FirstFrame(fs: seq<Frame>)
    requires fs != []
    ensures |EncodeAll(fs)| >= 2 && EncodeAll(fs) == Encode(fs[0]) + EncodeAll(fs[1..])
  {
    hide Header, Body;
    assert |Encode(fs[0])| >= 2;
  }

  /** One control frame, wherever it comes. */
  lemma ControlPassed(c: Config, s: State, a: Assembly, fs: seq<Frame>) returns (t: State)
    requires Quiet(c) && Inside(c, s, a, [], fs) && fs != [] && IsControl(fs[0].opcode)
    ensures Accepts(c, s, t, fs[0].opcode) && Inside(c, t, AddFrame(a, fs[0]), [], fs[1..])
    ensures Count(AddFrame(a, fs[0])) == Count(a) && AddFrame(a, fs[0]).done == a.done
    ensures Assemble(AddFrame(a, fs[0]), fs[1..]) == Assemble(a, fs)
  {
    hide Encode, Advance;
    FirstFrame(fs);
    assert [] + EncodeAll(fs) == EncodeAll(fs);
    t := ControlRead(c, s, fs[0], EncodeAll(fs[1..]));
    assert [] + EncodeAll(fs[1..]) == EncodeAll(fs[1..]);
  }

  /** The header of one data frame, with the state inside the frame. */
  lemma DataEntered(c: Config, s: State, a: Assembly, fs: seq<Frame>) returns (u: State)
    requires c.limit <= 0 && Inside(c, s, a, [], fs) && fs != [] && !IsControl(fs[0].opcode)
    ensures Accepts(c, s, u, fs[0].opcode) && u.decompress == fs[0].rsv1
    ensures Inside(c, u, AddFrame(a, fs[0]), Body(fs[0]), fs[1..]) && Unmask(c, u, Body(fs[0])) == fs[0].payload
    ensures Assemble(AddFrame(a, fs[0]), fs[1..]) == Assemble(a, fs)
    ensures if a.open.Some? then fs[0].opcode == CONTINUATION else IsData(fs[0].opcode)
  {
    hide Header, Body, Advance, Unmask;
    var f, rest := fs[0], EncodeAll(fs[1..]);
    FirstFrame(fs);
    assert [] + EncodeAll(fs) == EncodeAll(fs);
    NextHeader(s, f, rest);
    u := DataHeaderRead(c, s, f, Body(f) + rest);
    UnmaskBody(c, u, f);
  }

  /** The message that is being read, when it is complete. */
  lemma {:induction false} CurrentMessage(a: Assembly, fs: seq<Frame>)
    requires a.Assembly? && a.open.Some? && Assemble(a, fs).Assembly? && Assemble(a, fs).open.None?
    ensures var m, done := a.open.value, Assemble(a, fs).done;
            |done| > |a.done| && done[|a.done|] == m.(payload := m.payload + TailOf(false, fs))
    decreases |fs|
  {
    if fs != [] {
      var f, b, m := fs[0], AddFrame(a, fs[0]), a.open.value;
      if b.Malformed? {
        MalformedStays(fs[1..]);
      }
      assert Assemble(a, fs) == Assemble(b, fs[1..]);
      if f.final && !IsControl(f.opcode) {
        DoneStays(b, fs[1..]);
        assert m.payload + (f.payload + []) == m.payload + f.payload;
      } else {
        CurrentMessage(b, fs[1..]);
        if !IsControl(f.opcode) {
          assert m.payload + (f.payload + TailOf(false, fs[1..])) == m.payload + f.payload + TailOf(false, fs[1..]);
        }
      }
    }
  }

  lemma {:induction false} DoneStays(a: Assembly, fs: seq<Frame>)
    requires a.Assembly? && Assemble(a, fs).Assembly?
    ensures a.done <= Assemble(a, fs).done
    decreases |fs|
  {
    if fs != [] {
      var b := AddFrame(a, fs[0]);
      if b.Malformed? {
        MalformedStays(fs[1..]);
      }
      DoneStays(b, fs[1..]);
    }
  }

  lemma ReadStops(c: Config, s: State, n: nat)
    requires n == 0 || (s.remaining == 0 && s.final)
    ensures ReadSome(c, s, n) == Partly([], s, false)
  {}

  lemma ReadNextFrame(c: Config, s: State, t: State, frameType: nat, n: nat)
    requires n > 0 && s.remaining == 0 && !s.final && Accepts(c, s, t, frameType) && !IsData(frameType)
    ensures ReadSome(c, s, n) == ReadSome(c, t, n)
  {
    hide Advance;
  }

  lemma ReadRest(c: Config, s: State, rest: seq<byte>, more: seq<byte>, n: nat)
    requires n > 0 && rest != [] && s.input == rest + more && s.remaining == |rest|
    ensures var m, clear := Min(n, |rest|), Unmask(c, s, rest);
            var d := ReadSome(c, Consume(c, s, m), n - m);
            && ReadSome(c, s, n) == d.(data := clear[..m] + d.data)
            && |clear| == |rest| && Unmask(c, Consume(c, s, m), rest[m..]) == clear[m..]
            && Consume(c, s, m).input == rest[m..] + more && Consume(c, s, m).remaining == |rest[m..]|
  {
    hide Unmask, Advance;
    UnmaskPart(c, s, rest, more, Min(n, |rest|));
  }

  lemma TakeMore(clear: seq<byte>, tail: seq<byte>, n: nat)
    ensures var m, left := Min(n, |clear|), clear + tail;
            left[..Min(n, |left|)] == clear[..m] + (clear[m..] + tail)[..Min(n - m, |clear[m..] + tail|)]
  {}

  /** An application reads n bytes more of a message, of which the octets rest of the current frame, clear when
      unmasked, and the frames fs are left: it gets the next n bytes, or all that are left, and is then again inside
      the stream, at the same message. */
  lemma {:induction false} ReadsOn(c: Config, s: State, a: Assembly, rest: seq<byte>, clear: seq<byte>, fs: seq<Frame>,
                                   n: nat)
    returns (b: Assembly, rest': seq<byte>, fs': seq<Frame>)
    requires Quiet(c) && c.limit <= 0 && Inside(c, s, a, rest, fs) && Unmask(c, s, rest) == clear
    ensures var d, left := ReadSome(c, s, n), clear + TailOf(s.final, fs);
            && !d.broken && d.data == left[..Min(n, |left|)]
            && Inside(c, d.s, b, rest', fs') && Count(b) == Count(a) && Assemble(b, fs') == Assemble(a, fs)
    ensures |fs'| <= |fs|
    decreases |fs|, |rest|
  {
    hide Advance, Unmask, Encode, ReadSome, EncodeAll, FollowAll, AddFrame, Consume;
    b, rest', fs' := a, rest, fs;
    if n == 0 || (rest == [] && s.final) {
      ReadStops(c, s, n);
      UnmaskNothing(c, s);
    } else if rest != [] {
      var m := Min(n, |rest|);
      ReadRest(c, s, rest, EncodeAll(fs), n);
      StillInside(c, s, m);
      b, rest', fs' := ReadsOn(c, Consume(c, s, m), a, rest[m..], clear[m..], fs, n - m);
      TakeMore(clear, TailOf(s.final, fs), n);
    } else {
      UnmaskNothing(c, s);
      assert clear + TailOf(false, fs) == TailOf(false, fs);
      FollowAllFirst(c, a, fs);
      if IsControl(fs[0].opcode) {
        var t := ControlPassed(c, s, a, fs);
        UnmaskNothing(c, t);
        ReadNextFrame(c, s, t, fs[0].opcode, n);
        b, rest', fs' := ReadsOn(c, t, AddFrame(a, fs[0]), [], [], fs[1..], n);
        assert [] + TailOf(false, fs[1..]) == TailOf(false, fs[1..]);
      } else {
        var u := DataEntered(c, s, a, fs);
        ReadNextFrame(c, s, u, CONTINUATION, n);
        ContinuationCounts(a, fs[0]);
        b, rest', fs' := ReadsOn(c, u, AddFrame(a, fs[0]), Body(fs[0]), fs[0].payload, fs[1..], n);
      }
    }
  }

  lemma StillInside(c: Config, s: State, m: nat)
    requires m <= |s.input|
    ensures Consume(c, s, m).final == s.final
  {}

  lemma ContinuationCounts(a: Assembly, f: Frame)
    requires a.Assembly? && f.opcode == CONTINUATION && AddFrame(a, f).Assembly?
    ensures Count(AddFrame(a, f)) == Count(a) && a.open.Some? && (AddFrame(a, f).open.None? <==> f.final)
  {}

  lemma UnmaskNothing(c: Config, s: State)
    ensures Unmask(c, s, []) == []
  {}

  lemma FollowAllFirst(c: Config, a: Assembly, fs: seq<Frame>)
    requires a.Assembly? && FollowAll(c, a, fs) && Assemble(a, fs).Assembly?
    requires fs != [] || (a.open.Some? && Assemble(a, fs).open.None?)
    ensures fs != [] && Follows(c, a, fs[0])
  {}

  lemma UnmaskPart(c: Config, s: State, rest: seq<byte>, more: seq<byte>, m: nat)
    requires s.input == rest + more && m <= |rest|
    ensures var clear := Unmask(c, s, rest);
            && |clear| == |rest| && Unmask(c, s, s.input[..m]) == clear[..m]
            && Unmask(c, Consume(c, s, m), rest[m..]) == clear[m..]
            && Consume(c, s, m).input == rest[m..] + more
  {
    hide Unmask;
    ReadConn.UnmaskSplit(c, s, m, |rest|);
    assert s.input[..|rest|] == rest && s.input[m..|rest|] == rest[m..];
  }

  /** The message that a data frame begins, when it is complete. */
  lemma BeginsMessage(a: Assembly, f: Frame, fs: seq<Frame>)
    requires a.Assembly? && a.open.None? && IsData(f.opcode)
    requires Assemble(AddFrame(a, f), fs).Assembly? && Assemble(AddFrame(a, f), fs).open.None?
    ensures var done := Assemble(AddFrame(a, f), fs).done;
            |done| > |a.done| && done[|a.done|] == Message(f.opcode, f.rsv1, f.payload + TailOf(f.final, fs))
    ensures Count(AddFrame(a, f)) == |a.done| + 1
  {
    hide Assemble;
    if f.final {
      DoneStays(AddFrame(a, f), fs);
      assert f.payload + [] == f.payload;
    } else {
      CurrentMessage(AddFrame(a, f), fs);
    }
  }

  lemma BeginningsStep(ms: seq<Message>, i: nat, n: nat, plan: seq<nat>)
    requires i < |ms|
    ensures Beginnings(ms[i..], [n] + plan)
         == [ms[i].(payload := ms[i].payload[..Min(n, |ms[i].payload|)])] + Beginnings(ms[i + 1..], plan)
  {
    assert ms[i..][1..] == ms[i + 1..] && ([n] + plan)[1..] == plan;
  }

  lemma SkimStep(c: Config, s: State, u: State, kind: nat, n: nat, plan: seq<nat>)
    requires NextData(c, s) == Got(u, kind)
    ensures var d := ReadSome(c, u, n);
            SkimFrom(c, s, [n] + plan) == [Message(kind, u.decompress, d.data)]
                                          + if d.broken then [] else SkimFrom(c, d.s.(length := 0), plan)
  {
    hide NextData, ReadSome;
    assert ([n] + plan)[1..] == plan;
  }

  lemma NextFrame(c: Config, s: State, t: State, frameType: nat)
    requires Accepts(c, s, t, frameType)
    ensures NextData(c, s) == if IsData(frameType) then Got(t, frameType) else NextData(c, t)
  {
    hide Advance;
  }

  lemma SameNext(c: Config, s: State, t: State, plan: seq<nat>)
    requires NextData(c, s) == NextData(c, t)
    ensures SkimFrom(c, s, plan) == SkimFrom(c, t, plan)
  {
    hide NextData, ReadSome;
  }

  lemma NothingNext(c: Config, s: State, plan: seq<nat>)
    requires Advance(c, s).Failed?
    ensures SkimFrom(c, s, plan) == []
  {
    hide Advance;
  }

  lemma SameAdvance(c: Config, s: State, t: State)
    requires Advance(c, s) == Advance(c, t)
    ensures NextData(c, s) == NextData(c, t)
  {
    hide Advance;
  }

  /** From inside a stream, NextReader comes to the next message, whatever is left of the current one; and so on. */
  lemma {:induction false} SkimsOn(c: Config, s: State, a: Assembly, rest: seq<byte>, fs: seq<Frame>, plan: seq<nat>)
    requires Quiet(c) && c.limit <= 0 && Inside(c, s, a, rest, fs)
    ensures var done := Assemble(a, fs).done;
            Count(a) <= |done| && SkimFrom(c, s, plan) == Beginnings(done[Count(a)..], plan)
    decreases |fs|, 1
  {
    hide Advance, Encode, SkimFrom, NextData, FollowAll, AddFrame;
    if fs == [] {
      assert EncodeAll(fs) == [];
      SkipsRest(c, s, rest, []);
      NothingNext(c, s, plan);
    } else {
      hide EncodeAll;
      FirstFrame(fs);
      SkipsRest(c, s, rest, EncodeAll(fs));
      var t := s.(input := EncodeAll(fs), remaining := 0);
      assert [] + EncodeAll(fs) == EncodeAll(fs);
      SameAdvance(c, s, t);
      SkimsFrame(c, t, a, fs, plan);
      SameNext(c, s, t, plan);
    }
  }

  /** The same at a frame boundary. */
  lemma {:induction false} SkimsFrame(c: Config, s: State, a: Assembly, fs: seq<Frame>, plan: seq<nat>)
    requires Quiet(c) && c.limit <= 0 && Inside(c, s, a, [], fs) && fs != []
    ensures var done := Assemble(a, fs).done;
            Count(a) <= |done| && SkimFrom(c, s, plan) == Beginnings(done[Count(a)..], plan)
    decreases |fs|, 0
  {
    hide Advance, Encode, EncodeAll, SkimFrom, NextData, FollowAll, AddFrame, Unmask, ReadSome;
    FollowAllFirst(c, a, fs);
    var f, b := fs[0], AddFrame(a, fs[0]);
    if IsControl(f.opcode) {
      var t := ControlPassed(c, s, a, fs);
      SkimsOn(c, t, b, [], fs[1..], plan);
      NextFrame(c, s, t, f.opcode);
      SameNext(c, s, t, plan);
    } else {
      var u := DataEntered(c, s, a, fs);
      NextFrame(c, s, u, f.opcode);
      if f.opcode == CONTINUATION {
        ContinuationCounts(a, f);
        SkimsOn(c, u, b, Body(f), fs[1..], plan);
        SameNext(c, s, u, plan);
      } else {
        SkimsMessage(c, s, u, a, fs, plan);
      }
    }
  }

  /** The same where a message begins. */
  lemma {:induction false} SkimsMessage(c: Config, s: State, u: State, a: Assembly, fs: seq<Frame>, plan: seq<nat>)
    requires Quiet(c) && c.limit <= 0 && fs != [] && a.Assembly? && a.open.None?
    requires var f, b := fs[0], AddFrame(a, fs[0]);
             && IsData(f.opcode) && Inside(c, u, b, Body(f), fs[1..]) && Unmask(c, u, Body(f)) == f.payload
             && NextData(c, s) == Got(u, f.opcode) && u.decompress == f.rsv1 && Assemble(b, fs[1..]) == Assemble(a, fs)
    ensures var done := Assemble(a, fs).done;
            Count(a) <= |done| && SkimFrom(c, s, plan) == Beginnings(done[Count(a)..], plan)
    decreases |fs|, 0, 0
  {
    hide Advance, Encode, EncodeAll, SkimFrom, NextData, FollowAll, Unmask, ReadSome, Assemble, TailOf, Beginnings;
    var f, b, done := fs[0], AddFrame(a, fs[0]), Assemble(a, fs).done;
    BeginsMessage(a, f, fs[1..]);
    if plan == [] {
      AsksForNone(c, s, done[Count(a)..]);
    } else {
      var n, d := plan[0], ReadSome(c, u, plan[0]);
      assert plan == [n] + plan[1..];
      var b', rest, fs' := ReadsOn(c, u, b, Body(f), f.payload, fs[1..], n);
      assert u.final == f.final;
      SkimStep(c, s, u, f.opcode, n, plan[1..]);
      SkimsOn(c, d.s.(length := 0), b', rest, fs', plan[1..]);
      BeginningsStep(done, |a.done|, n, plan[1..]);
    }
  }

  lemma AsksForNone(c: Config, s: State, ms: seq<Message>)
    requires NextData(c, s).Got?
    ensures SkimFrom(c, s, []) == Beginnings(ms, []) == []
  {
    hide NextData;
  }

  /** An application may stop reading any message after any number of bytes: it still gets the beginning of every
      message of the stream, that long or whole, and nothing of another one. */
  lemma SkimStream(c: Config, fs: seq<Frame>, plan: seq<nat>)
    requires Quiet(c) && c.limit <= 0 && FollowAll(c, NOTHING, fs) && NoClose(fs)
    requires Assemble(NOTHING, fs).Assembly? && Assemble(NOTHING, fs).open.None?
    ensures Skim(c, Start(EncodeAll(fs)), plan) == Beginnings(Assemble(NOTHING, fs).done, plan)
  {
    hide SkimFrom, Assemble, EncodeAll, FollowAll;
    assert [] + EncodeAll(fs) == EncodeAll(fs);
    SkimsOn(c, Start(EncodeAll(fs)), NOTHING, [], fs, plan);
    var done := Assemble(NOTHING, fs).done;
    assert done[0..] == done;
  }

  // What discarding a message comes to

  /** The stream ends inside what is left of a frame that NextReader passes over: there are rest octets left of the
      current frame, then come the frames fs, and k octets of all that are there. */
  predicate EndsInRest(rest: nat, fs: seq<Frame>, k: nat)
    decreases |fs|
  {
    || k < rest
    || (&& fs != [] && !IsData(fs[0].opcode) && k - rest >= |Header(fs[0])|
        && if IsControl(fs[0].opcode) then
             k - rest >= |Encode(fs[0])| && EndsInRest(0, fs[1..], k - rest - |Encode(fs[0])|)
           else
             EndsInRest(|fs[0].payload|, fs[1..], k - rest - |Header(fs[0])|))
  }

  /** The header of the next data message is there. */
  predicate ReachesMessage(rest: nat, fs: seq<Frame>, k: nat)
    decreases |fs|
  {
    && k >= rest && fs != [] && k - rest >= |Header(fs[0])|
    && if IsData(fs[0].opcode) then true
       else if IsControl(fs[0].opcode) then
         k - rest >= |Encode(fs[0])| && ReachesMessage(0, fs[1..], k - rest - |Encode(fs[0])|)
       else
         ReachesMessage(|fs[0].payload|, fs[1..], k - rest - |Header(fs[0])|)
  }

  /** What comes of NextReader when it discards a message and the stream ends after k octets: the next message if its
      header is there; else the transport's own error, so a plain io.EOF, exactly when the end is inside what is left of
      a frame of the discarded message, and errUnexpectedEOF at any other place. */
  ghost predicate Discarded(c: Config, s: State, rest: nat, fs: seq<Frame>, k: nat) {
    var r := NextData(c, s);
    if ReachesMessage(rest, fs, k) then r.Got?
    else r.Failed? && r.error == if EndsInRest(rest, fs, k) then c.tail else Short(c)
  }

  /** The state of a discarding NextReader, when the input ends after k octets. */
  ghost predicate Cut(c: Config, s: State, a: Assembly, rest: seq<byte>, fs: seq<Frame>, k: nat) {
    && k <= |rest + EncodeAll(fs)| && s.input == (rest + EncodeAll(fs))[..k] && s.remaining == |rest|
    && a.Assembly? && s.final == a.open.None?
    && FollowAll(c, a, fs) && NoClose(fs)
  }

  lemma {:induction false} DiscardEnds(c: Config, s: State, a: Assembly, rest: seq<byte>, fs: seq<Frame>, k: nat)
    requires Quiet(c) && c.limit <= 0 && Cut(c, s, a, rest, fs, k)
    ensures Discarded(c, s, |rest|, fs, k)
    decreases |fs|, 1
  {
    hide Advance, Encode, Header, NextData, FollowAll;
    if k < |rest| {
      assert Advance(c, s) == Failed(s.(input := []), c.tail) by { Passes(c, s); }
      NextFails(c, s);
    } else {
      var more := EncodeAll(fs)[..k - |rest|];
      assert s.input == rest + more;
      SkipsRest(c, s, rest, more);
      if |more| < 2 {
        NextFails(c, s);
        HeaderSize(fs);
      } else {
        FirstFrame(fs);
        var t := s.(input := more, remaining := 0);
        assert [] + EncodeAll(fs) == EncodeAll(fs);
        SameAdvance(c, s, t);
        DiscardFrame(c, t, a, fs, k - |rest|);
        SameDiscard(rest, fs, k);
      }
    }
  }

  lemma Passes(c: Config, s: State)
    requires s.remaining > |s.input|
    ensures Advance(c, s) == Failed(s.(input := []), c.tail)
  {}

  lemma NextFails(c: Config, s: State)
    requires Advance(c, s).Failed?
    ensures NextData(c, s) == Advance(c, s)
  {
    hide Advance;
  }

  lemma HeaderSize(fs: seq<Frame>)
    ensures fs != [] ==> |Header(fs[0])| >= 2
  {}

  lemma SameDiscard(rest: seq<byte>, fs: seq<Frame>, k: nat)
    requires k >= |rest|
    ensures EndsInRest(|rest|, fs, k) == EndsInRest(0, fs, k - |rest|)
    ensures ReachesMessage(|rest|, fs, k) == ReachesMessage(0, fs, k - |rest|)
  {
    hide Header, Encode;
  }

  /** The same at a frame boundary. */
  lemma {:induction false} DiscardFrame(c: Config, s: State, a: Assembly, fs: seq<Frame>, k: nat)
    requires Quiet(c) && c.limit <= 0 && Cut(c, s, a, [], fs, k) && fs != []
    ensures Discarded(c, s, 0, fs, k)
    decreases |fs|, 0
  {
    hide Advance, Encode, Header, NextData, FollowAll, AddFrame;
    if k < |Header(fs[0])| {
      FollowsFirst(c, a, fs);
      ExpectedNext(c, s, a, fs[0]);
      CutFrame(fs, k);
      assert [] + EncodeAll(fs) == EncodeAll(fs);
      HeaderCut(c, s, fs[0], k);
      NextFails(c, s);
    } else if IsControl(fs[0].opcode) {
      DiscardControl(c, s, a, fs, k);
    } else {
      DiscardData(c, s, a, fs, k);
    }
  }

  lemma {:induction false} DiscardControl(c: Config, s: State, a: Assembly, fs: seq<Frame>, k: nat)
    requires Quiet(c) && c.limit <= 0 && Cut(c, s, a, [], fs, k) && fs != [] && |Header(fs[0])| <= k
    requires IsControl(fs[0].opcode)
    ensures Discarded(c, s, 0, fs, k)
    decreases |fs|, 0, 0
  {
    hide Advance, Encode, Header, Body, NextData, FollowAll, AddFrame, EndsInRest, ReachesMessage;
    var f, b := fs[0], AddFrame(a, fs[0]);
    FollowsFirst(c, a, fs);
    ExpectedNext(c, s, a, f);
    CutFrame(fs, k);
    assert f in fs;
    assert [] + EncodeAll(fs) == EncodeAll(fs);
    ControlSteps(fs, k);
    if k < |Encode(f)| {
      ControlCut(c, s, f, Body(f)[..k - |Header(f)|]);
      NextFails(c, s);
    } else {
      var t := ControlRead(c, s, f, EncodeAll(fs[1..])[..k - |Encode(f)|]);
      NextFrame(c, s, t, f.opcode);
      ControlKeepsOpen(a, f);
      assert [] + EncodeAll(fs[1..]) == EncodeAll(fs[1..]);
      DiscardEnds(c, t, b, [], fs[1..], k - |Encode(f)|);
    }
  }

  lemma ControlSteps(fs: seq<Frame>, k: nat)
    requires fs != [] && IsControl(fs[0].opcode) && |Header(fs[0])| <= k
    ensures var n := |Encode(fs[0])|;
            if k < n then !EndsInRest(0, fs, k) && !ReachesMessage(0, fs, k)
            else EndsInRest(0, fs, k) == EndsInRest(0, fs[1..], k - n)
                 && ReachesMessage(0, fs, k) == ReachesMessage(0, fs[1..], k - n)
  {
    hide Encode, Header;
  }

  lemma {:induction false} DiscardData(c: Config, s: State, a: Assembly, fs: seq<Frame>, k: nat)
    requires Quiet(c) && c.limit <= 0 && Cut(c, s, a, [], fs, k) && fs != [] && |Header(fs[0])| <= k
    requires !IsControl(fs[0].opcode)
    ensures Discarded(c, s, 0, fs, k)
    decreases |fs|, 0, 0
  {
    hide Advance, Encode, Header, Body, NextData, FollowAll, AddFrame, EndsInRest, ReachesMessage;
    var f, b, h := fs[0], AddFrame(a, fs[0]), |Header(fs[0])|;
    FollowsFirst(c, a, fs);
    ExpectedNext(c, s, a, f);
    CutFrame(fs, k);
    assert [] + EncodeAll(fs) == EncodeAll(fs);
    var u := DataHeaderRead(c, s, f, (Body(f) + EncodeAll(fs[1..]))[..k - h]);
    NextFrame(c, s, u, f.opcode);
    DataOpens(a, f);
    DataSteps(fs, k);
    if !IsData(f.opcode) {
      DiscardEnds(c, u, b, Body(f), fs[1..], k - h);
    }
  }

  lemma DataSteps(fs: seq<Frame>, k: nat)
    requires fs != [] && !IsControl(fs[0].opcode) && |Header(fs[0])| <= k
    ensures var f, h := fs[0], |Header(fs[0])|;
            if IsData(f.opcode) then ReachesMessage(0, fs, k)
            else EndsInRest(0, fs, k) == EndsInRest(|f.payload|, fs[1..], k - h)
                 && ReachesMessage(0, fs, k) == ReachesMessage(|f.payload|, fs[1..], k - h)
  {
    hide Encode, Header;
  }

  lemma FollowsFirst(c: Config, a: Assembly, fs: seq<Frame>)
    requires fs != [] && FollowAll(c, a, fs)
    ensures Follows(c, a, fs[0]) && FollowAll(c, AddFrame(a, fs[0]), fs[1..])
  {}

  lemma ExpectedNext(c: Config, s: State, a: Assembly, f: Frame)
    requires Follows(c, a, f) && s.remaining == 0 && s.final == a.open.None?
    ensures Expected(c, s, f)
  {}

  lemma ControlKeepsOpen(a: Assembly, f: Frame)
    requires a.Assembly? && IsControl(f.opcode) && AddFrame(a, f).Assembly?
    ensures AddFrame(a, f).open == a.open && f.final && !f.rsv1 && |f.payload| <= MAX_CONTROL_PAYLOAD
  {}

  lemma DataOpens(a: Assembly, f: Frame)
    requires a.Assembly? && !IsControl(f.opcode) && AddFrame(a, f).Assembly?
    ensures AddFrame(a, f).open.None? == f.final && (IsData(f.opcode) || f.opcode == CONTINUATION)
    ensures if f.opcode == CONTINUATION then a.open.Some? && !f.rsv1 else a.open.None?
  {}

  /** The first k octets of a stream, by its first frame. */
  lemma CutFrame(fs: seq<Frame>, k: nat)
    requires fs != [] && k <= |EncodeAll(fs)|
    ensures var f, more := fs[0], EncodeAll(fs[1..]);
            var h := |Header(f)|;
            && |Encode(f)| == h + |Body(f)| && |EncodeAll(fs)| == |Encode(f)| + |more|
            && (k < h ==> EncodeAll(fs)[..k] == Header(f)[..k])
            && (h <= k < |Encode(f)| ==> EncodeAll(fs)[..k] == Header(f) + Body(f)[..k - h])
            && (|Encode(f)| <= k ==> EncodeAll(fs)[..k] == Encode(f) + more[..k - |Encode(f)|])
            && (h <= k ==> EncodeAll(fs)[..k] == Header(f) + (Body(f) + more)[..k - h])
  {
    hide Header, Body;
    var f, more := fs[0], EncodeAll(fs[1..]);
    assert EncodeAll(fs) == Header(f) + (Body(f) + more);
  }

  /** The bytes that a discarding NextReader counts: those of the leftover frames of the message, and those of the first
      frame of the next message, when there is one. */
  function Leftover(fs: seq<Frame>): nat {
    if fs == [] then 0
    else if IsControl(fs[0].opcode) then Leftover(fs[1..])
    else |fs[0].payload| + if IsData(fs[0].opcode) then 0 else Leftover(fs[1..])
  }

  predicate HasMessage(fs: seq<Frame>) {
    exists i :: 0 <= i < |fs| && IsData(fs[i].opcode)
  }

  /** With a limit: when NextReader discards a message, ErrReadLimit strikes exactly when these bytes and those counted
      before exceed it; the next message is entered with all of them counted. */
  ghost predicate Counted(c: Config, s: State, fs: seq<Frame>) {
    var r, total := NextData(c, s), s.length + Leftover(fs);
    if total > c.limit then r.Failed? && r.error == ReadLimit
    else if HasMessage(fs) then r.Got? && r.s.length == total
    else r.Failed? && r.error == Short(c)
  }

  lemma {:induction false} DiscardCounts(c: Config, s: State, a: Assembly, rest: seq<byte>, fs: seq<Frame>)
    requires Quiet(c) && c.limit > 0 && Inside(c.(limit := 0), s, a, rest, fs)
    requires 0 <= s.length <= c.limit && s.length + Leftover(fs) < MAX_LENGTH
    ensures Counted(c, s, fs)
    decreases |fs|, 1
  {
    hide Advance, Encode, NextData, FollowAll, Assemble;
    if fs == [] {
      assert EncodeAll(fs) == [];
      SkipsRest(c, s, rest, []);
      NextFails(c, s);
    } else {
      hide EncodeAll, Leftover, HasMessage;
      FirstFrame(fs);
      SkipsRest(c, s, rest, EncodeAll(fs));
      var t := s.(input := EncodeAll(fs), remaining := 0);
      assert [] + EncodeAll(fs) == EncodeAll(fs);
      SameAdvance(c, s, t);
      DiscardCountsFrame(c, t, a, fs);
    }
  }

  lemma {:induction false} DiscardCountsFrame(c: Config, s: State, a: Assembly, fs: seq<Frame>)
    requires Quiet(c) && c.limit > 0 && Inside(c.(limit := 0), s, a, [], fs) && fs != []
    requires 0 <= s.length <= c.limit && s.length + Leftover(fs) < MAX_LENGTH
    ensures Counted(c, s, fs)
    decreases |fs|, 0
  {
    hide Advance, Encode, EncodeAll, NextData, FollowAll, AddFrame, Unmask, Leftover, HasMessage;
    var f, b, rest := fs[0], AddFrame(a, fs[0]), EncodeAll(fs[1..]);
    FollowsFirst(c.(limit := 0), a, fs);
    LeftoverStep(fs);
    FirstFrame(fs);
    assert [] + EncodeAll(fs) == EncodeAll(fs) && [] + rest == rest && f in fs;
    ExpectedNext(c.(limit := 0), s, a, f);
    InsideNext(c.(limit := 0), s, a, fs);
    if IsControl(f.opcode) {
      var t := ControlRead(c, s, f, rest);
      NextFrame(c, s, t, f.opcode);
      ControlKeepsOpen(a, f);
      DiscardCounts(c, t, b, [], fs[1..]);
    } else {
      var u := DataCounted(c, s, f, rest);
      DataOpens(a, f);
      if u.length > c.limit {
        NextFails(c, s);
      } else {
        NextFrame(c, s, u, f.opcode);
        if !IsData(f.opcode) {
          DiscardCounts(c, u, b, Body(f), fs[1..]);
        }
      }
    }
  }

  lemma LeftoverStep(fs: seq<Frame>)
    requires fs != []
    ensures var f, rest := fs[0], fs[1..];
            && Leftover(fs) == (if IsControl(f.opcode) then 0 else |f.payload|)
                               + (if IsData(f.opcode) then 0 else Leftover(rest))
            && HasMessage(fs) == (IsData(f.opcode) || HasMessage(rest))
  {
    if i :| 0 <= i < |fs| && IsData(fs[i].opcode) {
      assert i > 0 ==> IsData(fs[1..][i - 1].opcode);
    }
    if i :| 0 <= i < |fs[1..]| && IsData(fs[1..][i].opcode) {
      assert IsData(fs[i + 1].opcode);
    }
  }

  lemma InsideNext(c: Config, s: State, a: Assembly, fs: seq<Frame>)
    requires Inside(c, s, a, [], fs) && fs != []
    ensures var b := AddFrame(a, fs[0]);
            && b.Assembly? && FollowAll(c, b, fs[1..]) && NoClose(fs[1..])
            && Assemble(b, fs[1..]).Assembly? && Assemble(b, fs[1..]).open.None?
  {}

  /** The header of a data frame, with a limit. */
  lemma DataCounted(c: Config, s: State, f: Frame, more: seq<byte>) returns (u: State)
    requires Expected(c, s, f) && !IsControl(f.opcode) && s.input == Encode(f) + more
    requires c.limit > 0 && 0 <= s.length && s.length + |f.payload| < MAX_LENGTH
    ensures u.input == Body(f) + more && u.remaining == |f.payload| && u.final == f.final
    ensures u.length == s.length + |f.payload|
    ensures if u.length > c.limit then Advance(c, s).Failed? && Advance(c, s).error == ReadLimit
            else Accepts(c, s, u, f.opcode)
  {
    hide Header, Body, Advance;
    NextHeader(s, f, more);
    HeaderRead(c, s, f, Body(f) + more);
    u := AfterHeader(c, s, f, Body(f) + more);
    u := u.(length := u.length + u.remaining);
  }

  // The application at work

  /** Reading on after k bytes of a message is reading them together. */
  lemma {:induction false} ReadMore(c: Config, s: State, k: nat, n: nat)
    requires k <= n && !ReadSome(c, s, k).broken && |ReadSome(c, s, k).data| == k
    ensures var d := ReadSome(c, s, k);
            var e := ReadSome(c, d.s, n - k);
            ReadSome(c, s, n) == e.(data := d.data + e.data)
    decreases |s.input|
  {
    hide Advance, Unmask, Consume, ReadSome;
    if k == 0 {
      ReadStops(c, s, 0);
      assert [] + ReadSome(c, s, n).data == ReadSome(c, s, n).data;
    } else if s.remaining > 0 && s.input != [] {
      var all := Min(s.remaining, |s.input|);
      if k < all {
        ReadInFrame(c, s, k, n);
      } else {
        ReadFrame(c, s, k);
        ReadFrame(c, s, n);
        ReadMore(c, Consume(c, s, all), k - all, n - all);
        var first, d := Unmask(c, s, s.input[..all]), ReadSome(c, Consume(c, s, all), k - all);
        var e := ReadSome(c, d.s, n - k);
        assert first + (d.data + e.data) == first + d.data + e.data;
      }
    } else if s.remaining > 0 {
      ReadFails(c, s, k);
    } else {
      ReadAdvance(c, s, k);
      ReadAdvance(c, s, n);
      ReadMore(c, Advance(c, s).s, k, n);
    }
  }

  lemma ReadFails(c: Config, s: State, n: nat)
    requires n > 0 && s.remaining > 0 && s.input == []
    ensures ReadSome(c, s, n).broken
  {}

  lemma ReadAdvance(c: Config, s: State, n: nat)
    requires n > 0 && s.remaining <= 0
    ensures |ReadSome(c, s, n).data| > 0 ==> !s.final && Advance(c, s).Got?
    ensures !s.final && Advance(c, s).Got? && !IsData(Advance(c, s).frameType) ==>
              ReadSome(c, s, n) == ReadSome(c, Advance(c, s).s, n)
    ensures !s.final && Advance(c, s).Got? && IsData(Advance(c, s).frameType) ==> ReadSome(c, s, n).broken
  {
    hide Advance;
  }

  lemma ReadFrame(c: Config, s: State, n: nat)
    requires s.remaining > 0 && s.input != [] && Min(s.remaining, |s.input|) <= n
    ensures var all := Min(s.remaining, |s.input|);
            var d := ReadSome(c, Consume(c, s, all), n - all);
            && ReadSome(c, s, n) == d.(data := Unmask(c, s, s.input[..all]) + d.data)
            && |Unmask(c, s, s.input[..all])| == all && |Consume(c, s, all).input| < |s.input|
  {
    hide Advance, Unmask;
  }

  lemma ReadPart(c: Config, s: State, n: nat)
    requires 0 < n <= s.remaining && n <= |s.input|
    ensures ReadSome(c, s, n) == Partly(Unmask(c, s, s.input[..n]), Consume(c, s, n), false)
  {
    hide Advance, Unmask, Consume;
    ReadStops(c, Consume(c, s, n), 0);
    assert Unmask(c, s, s.input[..n]) + [] == Unmask(c, s, s.input[..n]);
  }

  lemma ReadInFrame(c: Config, s: State, k: nat, n: nat)
    requires 0 < k <= n && k < s.remaining && k < |s.input|
    ensures var d := ReadSome(c, s, k);
            var e := ReadSome(c, d.s, n - k);
            ReadSome(c, s, n) == e.(data := d.data + e.data)
  {
    hide Advance, Unmask, ReadSome, Consume;
    ReadPart(c, s, k);
    var t, m := Consume(c, s, k), Min(n, Min(s.remaining, |s.input|));
    if n == k {
      ReadStops(c, t, 0);
      var d := ReadSome(c, s, k);
      assert d.data + [] == d.data;
    } else {
      Consumed(c, s, k);
      ReadOnce(c, s, n, m);
      ReadOnce(c, t, n - k, m - k);
      ReadConn.ConsumeTwice(c, s, k, m);
      ReadConn.UnmaskSplit(c, s, k, m);
      assert t.input[..m - k] == s.input[k..m];
      var p, q := Unmask(c, s, s.input[..k]), Unmask(c, t, t.input[..m - k]);
      Associates(p, q, ReadSome(c, Consume(c, s, m), n - m).data);
    }
  }

  lemma Consumed(c: Config, s: State, k: nat)
    requires k <= |s.input|
    ensures var t := Consume(c, s, k); t.input == s.input[k..] && t.remaining == s.remaining - k
  {}

  lemma ReadOnce(c: Config, s: State, n: nat, m: nat)
    requires n > 0 && s.remaining > 0 && s.input != [] && m == Min(n, Min(s.remaining, |s.input|))
    ensures var d := ReadSome(c, Consume(c, s, m), n - m);
            ReadSome(c, s, n) == d.(data := Unmask(c, s, s.input[..m]) + d.data)
  {
    hide Advance, Unmask;
  }

  /** Read at most max bytes of a message, with buffers of any sizes. */
  method ReadUpTo(r: ReadConn.MessageReader, max: nat) returns (p: seq<byte>)
    requires r.c.Valid() && r.c.messageReader == r && r.c.readErr == None
    modifies r.c
    ensures r.c.Valid() && r.c.readLimit == old(r.c.readLimit)
    ensures var d := old(ReadSome(r.c.Cfg(), r.c.Abs(), max));
            p == d.data && r.c.Abs() == d.s && (r.c.readErr.Some? <==> d.broken)
  {
    hide ReadSome, Drain;
    var c := r.c;
    ghost var d := ReadSome(c.Cfg(), c.Abs(), max);
    p := [];
    assert [] + d.data == d.data;
    while |p| < max
      invariant c.Valid() && c.messageReader == r && c.readErr == None && c.readLimit == old(c.readLimit) && |p| <= max
      invariant var e := ReadSome(c.Cfg(), c.Abs(), max - |p|); d == e.(data := p + e.data)
      decreases max - |p|
    {
      var size :| 1 <= size <= max - |p|;
      var b := new byte[size];
      ghost var before, left := c.Abs(), max - |p|;
      var n, err := r.Read(b);
      if err.Some? {
        assert b[..n] == [];
        assert p + [] == p;
        return;
      }
      ghost var more := b[..n];
      ReadMore(c.Cfg(), before, n, left);
      ghost var e := ReadSome(c.Cfg(), c.Abs(), left - n);
      assert p + (more + e.data) == p + more + e.data;
      p := p + b[..n];
    }
    ReadStops(c.Cfg(), c.Abs(), 0);
    assert p + [] == p;
  }

  lemma SkimNext(c: Config, s: State, plan: seq<nat>)
    requires plan != []
    ensures var r := NextMessage(c, s);
            if r.Failed? then Skim(c, s, plan) == []
            else
              var d := ReadSome(c, r.s, plan[0]);
              Skim(c, s, plan) == [Message(r.frameType, r.s.decompress, d.data)]
                                  + if d.broken then [] else Skim(c, d.s, plan[1..])
  {
    hide NextData, ReadSome;
  }

  /** The application's loop over NextReader. */
  method SkimMessages(c: ReadConn.Conn, plan: seq<nat>) returns (messages: seq<(int, seq<byte>)>)
    requires c.Valid() && c.readErr == None
    modifies c
    ensures messages == ReadConn.KindsAndPayloads(old(Skim(c.Cfg(), c.Abs(), plan)))
  {
    hide Skim, NextMessage, ReadSome;
    messages := [];
    ghost var all := Skim(c.Cfg(), c.Abs(), plan);
    var i := 0;
    while i < |plan|
      invariant i <= |plan| && c.Valid() && c.readErr == None && c.readLimit == old(c.readLimit)
      invariant ReadConn.KindsAndPayloads(all)
             == messages + ReadConn.KindsAndPayloads(Skim(c.Cfg(), c.Abs(), plan[i..]))
    {
      ghost var s := c.Abs();
      SkimNext(c.Cfg(), s, plan[i..]);
      assert plan[i..][1..] == plan[i + 1..];
      var kind, r, err := c.NextReader();
      if err.Some? {
        return;
      }
      ghost var t := c.Abs();
      var p := ReadUpTo(r, plan[i]);
      ReadConn.KindsCons(Message(kind, t.decompress, p),
                         if c.readErr.Some? then [] else Skim(c.Cfg(), c.Abs(), plan[i + 1..]));
      messages := messages + [(kind, p)];
      if c.readErr.Some? {
        return;
      }
      i := i + 1;
    }
    AsksForNothing(c.Cfg(), c.Abs());
    assert plan[i..] == [];
  }

  lemma AsksForNothing(c: Config, s: State)
    ensures Skim(c, s, []) == []
  {}
}
