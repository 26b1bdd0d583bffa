/**
 Whole runs of one connection: whatever way requests arrive in chunks, files are read and the
 socket accepts bytes, the wire carries the answers to the requests, one after the other.
 */
module KeepAlive {
  import opened CText
  import Requests
  import opened Sessions
  import opened Delivery
  import opened Answers

  // ----- what was asked and what is due

  /** A request as it stood in the input buffer when it was dispatched, and the date at that time. */
  datatype Exchange = Exchange(request: string, date: string)

  function Exchanges(s: Session, h: Host, ticks: seq<Tick>): seq<Exchange>
    requires LegalRun(s, h, ticks)
  {
    if ticks == [] then []
    else
      var n := |ticks| - 1;
      var before := Run(s, h, ticks[..n]);
      Exchanges(s, h, ticks[..n]) + if Dispatches(before) then [Exchange(before.input, ticks[n].date)] else []
  }

  function HostAt(v0: VHost, answers: seq<Answer>, i: nat): VHost
    requires i <= |answers|
  {
    if i == 0 then v0 else answers[i - 1].vhost
  }

  /** Each answer is the one its request deserves on the virtual host of the answer before. */
  predicate Answered(h: Host, v0: VHost, xs: seq<Exchange>, answers: seq<Answer>)
  {
    |xs| == |answers| &&
    forall i | 0 <= i < |xs| :: AnswerTo(h, HostAt(v0, answers, i), xs[i].request, xs[i].date) == Some(answers[i])
  }

  /** The answers as the client should see them. */
  function WireOf(answers: seq<Answer>): string
  {
    if answers == [] then []
    else
      var n := |answers| - 1;
      WireOf(answers[..n]) + answers[n].head + answers[n].body
  }

  function RequestText(xs: seq<Exchange>): string
  {
    if xs == [] then [] else RequestText(xs[..|xs| - 1]) + xs[|xs| - 1].request
  }

  /** Every byte recv has delivered. */
  function Received(ticks: seq<Tick>): string
  {
    if ticks == [] then []
    else
      var n := |ticks| - 1;
      Received(ticks[..n]) + Chunk(ticks[n])
  }

  function Chunk(tick: Tick): string
  {
    match tick.poll case Readable(chunk) => chunk case _ => []
  }

  // ----- the runs

  /**
   A send that goes well: something is accepted if something is offered, a read reports 0
   only at the end of the file, and the send of that call takes all that is buffered.
   */
  predicate GoodSend(s: Session, read: nat, sent: int)
    requires LegalRead(s, read) && LegalSend(Fill(s, read), sent)
  {
    s.Transferring() ==>
      && (Fill(s, read).output != [] ==> sent > 0)
      && (|s.output| < NETWORK_BLOCK_SIZE && read == 0 ==> s.Unread() == [] && sent == |s.output|)
  }

  /** A request that has an answer, and whose head the socket accepts. */
  predicate GoodRequest(s: Session, h: Host, tick: Tick)
    requires Dispatches(s) && LegalServe(s, h, tick)
  {
    && AnswerTo(h, s.vhost, s.input, tick.date).Some?
    && AllTaken(PiecesOf(Prepare(Parse(s, h, tick.date), h), h), tick.counts)
  }

  predicate GoodTick(s: Session, h: Host, tick: Tick)
    requires LegalTick(s, h, tick)
  {
    s.active && !Finished(s) ==>
      && (Dispatches(s) ==> GoodRequest(s, h, tick))
      && (tick.poll.Writable? ==> GoodSend(Serve(s, h, tick), tick.poll.read, tick.poll.sent))
  }

  predicate GoodRun(s: Session, h: Host, ticks: seq<Tick>)
    requires LegalRun(s, h, ticks)
  {
    if ticks == [] then true
    else
      var n := |ticks| - 1;
      GoodRun(s, h, ticks[..n]) && GoodTick(Run(s, h, ticks[..n]), h, ticks[n])
  }

  // ----- the invariant

  /** The file of the last answer is under way. */
  predicate Busy(s: Session, answers: seq<Answer>)
  {
    answers != [] &&
    var n := |answers| - 1;
    && s.active && s.input == [] && s.resultCode in {0, OK} && !s.isCgi
    && Flow(s, answers[n].body, WireOf(answers[..n]) + answers[n].head)
    && (s.completed ==> s.output == [] && s.Unread() == [])
    && (s.flags.http10 || s.flags.http11) && (answers[n].keep <==> !s.flags.http10 && !s.flags.close)
  }

  /** Closed by the server after the last answer, or lost on the way. */
  predicate Gone(s: Session, answers: seq<Answer>)
  {
    && !s.active && s.wire <= WireOf(answers)
    && (s.closed ==> s.wire == WireOf(answers) && answers != [] && !answers[|answers| - 1].keep)
  }

  predicate Inv(s: Session, v0: VHost, answers: seq<Answer>)
  {
    && s.vhost == HostAt(v0, answers, |answers|)
    && (forall i | 0 <= i < |answers| - 1 :: answers[i].keep)
    && (|| Gone(s, answers)
        || (!s.closed && Busy(s, answers))
        || (!s.closed && Idle(s) && s.wire == WireOf(answers) && (answers != [] ==> answers[|answers| - 1].keep)))
  }

  lemma FlowPrefix(s: Session, answers: seq<Answer>)
    requires Busy(s, answers)
    ensures s.wire + s.output + s.Unread() == WireOf(answers)
    ensures s.wire <= WireOf(answers)
  {
    var n := |answers| - 1;
    FlowConserves(s, answers[n].body, WireOf(answers[..n]) + answers[n].head);
    assert s.wire + s.output + s.Unread() == s.wire + (s.output + s.Unread());
  }

  lemma FinishInv(s: Session, v0: VHost, answers: seq<Answer>)
    requires Inv(s, v0, answers) && Busy(s, answers) && s.completed && !s.closed
    ensures Inv(Finish(s), v0, answers)
  {
    hide Flow, WireOf;
    FlowPrefix(s, answers);
    assert s.wire + [] + [] == s.wire;
  }

  lemma SendInv(s: Session, v0: VHost, answers: seq<Answer>, read: nat, sent: int)
    requires Inv(s, v0, answers) && Busy(s, answers) && !s.closed && !s.completed
    requires LegalRead(s, read) && LegalSend(Fill(s, read), sent) && GoodSend(s, read, sent)
    ensures Inv(Send(s, read, sent), v0, answers)
  {
    var n := |answers| - 1;
    var e := Event(read, sent);
    assert s.Transferring() && |s.output| <= NETWORK_BLOCK_SIZE;
    SendFlow(s, e, answers[n].body, WireOf(answers[..n]) + answers[n].head);
    SendKeeps(s, read, sent);
    hide Flow, WireOf;
    assert Busy(Send(s, read, sent), answers);
  }

  lemma SendKeeps(s: Session, read: nat, sent: int)
    requires LegalRead(s, read) && LegalSend(Fill(s, read), sent)
    requires s.Transferring() && GoodSend(s, read, sent) && !s.completed
    ensures var s' := Send(s, read, sent);
      && s'.active == s.active && s'.closed == s.closed && s'.input == s.input && s'.flags == s.flags
      && s'.resultCode == s.resultCode && s'.isCgi == s.isCgi && s'.vhost == s.vhost
      && (s'.completed ==> s'.output == [] && s'.Unread() == [])
  {
  }

  lemma ServeInv(s: Session, v0: VHost, answers: seq<Answer>, h: Host, tick: Tick) returns (answers': seq<Answer>)
    requires Inv(s, v0, answers) && Idle(s) && !s.closed && s.wire == WireOf(answers)
    requires answers != [] ==> answers[|answers| - 1].keep
    requires Dispatches(s) && LegalServe(s, h, tick) && GoodRequest(s, h, tick)
    ensures answers' == answers + [AnswerTo(h, s.vhost, s.input, tick.date).value]
    ensures Inv(Serve(s, h, tick), v0, answers') && Busy(Serve(s, h, tick), answers') && !Serve(s, h, tick).completed
  {
    hide AnswerTo, Serve, LegalServe, AllTaken, PiecesOf, Prepare, Parse, Dispatches, Opened, Flow, Idle, WireOf;
    var a := AnswerTo(h, s.vhost, s.input, tick.date).value;
    answers' := answers + [a];
    ServeIdle(s, h, tick);
    var s' := Serve(s, h, tick);
    assert answers'[..|answers|] == answers;
    OpenedFlow(s', a.body);
    assert Busy(s', answers');
  }

  lemma ServedInv(s: Session, v0: VHost, answers: seq<Answer>, h: Host, tick: Tick) returns (answers': seq<Answer>)
    requires Inv(s, v0, answers) && s.active && !Finished(s) && LegalServe(s, h, tick)
    requires Dispatches(s) ==> GoodRequest(s, h, tick)
    ensures Dispatches(s) ==> AnswerTo(h, s.vhost, s.input, tick.date).Some?
    ensures answers' == answers + if Dispatches(s) then [AnswerTo(h, s.vhost, s.input, tick.date).value] else []
    ensures var s' := Serve(s, h, tick);
      && Inv(s', v0, answers') && s'.active && !Finished(s')
      && s'.input == if Dispatches(s) then [] else s.input
  {
    hide Flow, WireOf, AnswerTo, LegalServe, AllTaken, PiecesOf, Prepare, Parse;
    if Dispatches(s) {
      NothingComplete();
      answers' := ServeInv(s, v0, answers, h, tick);
    } else {
      answers' := answers;
    }
  }

  lemma NothingComplete()
    ensures !Requests.IsComplete([])
  {
  }

  lemma PolledInv(s: Session, v0: VHost, answers: seq<Answer>, p: Poll)
    requires Inv(s, v0, answers) && s.active && !Finished(s) && LegalPoll(s, p)
    requires p.Writable? ==> GoodSend(s, p.read, p.sent)
    ensures Inv(Polled(s, p), v0, answers)
    ensures Polled(s, p).input == s.input + match p case Readable(chunk) => chunk case _ => []
  {
    hide Flow, WireOf;
    match p {
      case Quiet =>
      case Broken =>
        if Busy(s, answers) {
          FlowPrefix(s, answers);
        }
      case Readable(chunk) =>
        BusyTransfers(s, answers);
      case Writable(read, sent) =>
        if Busy(s, answers) {
          BusyTransfers(s, answers);
          SendInv(s, v0, answers, read, sent);
          SendKeeps(s, read, sent);
        } else {
          IdleSend(s, read, sent);
        }
    }
  }

  lemma BusyTransfers(s: Session, answers: seq<Answer>)
    ensures Busy(s, answers) ==> s.Transferring()
  {
  }

  lemma IdleSend(s: Session, read: nat, sent: int)
    requires Idle(s) && LegalRead(s, read) && LegalSend(Fill(s, read), sent)
    ensures Send(s, read, sent) == s
  {
  }

  /** Every pass that goes well keeps the invariant, with one more answer if it dispatched a request. */
  lemma PassInv(s: Session, v0: VHost, answers: seq<Answer>, h: Host, tick: Tick) returns (answers': seq<Answer>)
    requires Inv(s, v0, answers) && LegalTick(s, h, tick) && GoodTick(s, h, tick)
    ensures Dispatches(s) ==> AnswerTo(h, s.vhost, s.input, tick.date).Some?
    ensures answers' == answers + if Dispatches(s) then [AnswerTo(h, s.vhost, s.input, tick.date).value] else []
    ensures Inv(Pass(s, h, tick), v0, answers')
    ensures Pass(s, h, tick).input == (if Dispatches(s) then [] else s.input) + Chunk(tick)
  {
    hide Flow, WireOf, AnswerTo, GoodRequest, Serve, LegalServe, Polled, LegalPoll, GoodSend, Requests.IsComplete;
    if !s.active {
      answers' := answers;
    } else if Finished(s) {
      answers' := answers;
      FinishInv(s, v0, answers);
    } else {
      answers' := ServedInv(s, v0, answers, h, tick);
      PolledInv(Serve(s, h, tick), v0, answers', tick.poll);
    }
  }

  /**
   Every run from accept on in which requests have answers and reads and sends go well: the
   requests dispatched are the bytes received, cut where they were complete; there is one
   answer for each, determined by its own text; and the invariant holds.
   */
  lemma {:induction false} RunInv(v0: VHost, h: Host, ticks: seq<Tick>) returns (answers: seq<Answer>)
    requires LegalRun(NewSession(v0), h, ticks) && GoodRun(NewSession(v0), h, ticks)
    ensures var s, xs := Run(NewSession(v0), h, ticks), Exchanges(NewSession(v0), h, ticks);
      && Answered(h, v0, xs, answers)
      && Inv(s, v0, answers)
      && Received(ticks) == RequestText(xs) + s.input
  {
    hide Inv, AnswerTo, Pass, LegalTick, GoodTick, Dispatches, Answered, RequestText, Chunk;
    var s0 := NewSession(v0);
    if ticks == [] {
      answers := [];
      NewInv(v0);
      NothingAnswered(h, v0);
    } else {
      var n := |ticks| - 1;
      var before := RunInv(v0, h, ticks[..n]);
      var s := Run(s0, h, ticks[..n]);
      answers := PassInv(s, v0, before, h, ticks[n]);
      InvHost(s, v0, before);
      var xs := Exchanges(s0, h, ticks[..n]);
      AnswersGrow(h, v0, xs, before, s, ticks[n].date, answers);
      Assoc(RequestText(Exchanges(s0, h, ticks)), if Dispatches(s) then [] else s.input, Chunk(ticks[n]));
    }
  }

  lemma NothingAnswered(h: Host, v0: VHost)
    ensures Answered(h, v0, [], []) && RequestText([]) == []
  {
  }

  /** A pass adds what it dispatches to the requests, and the answer to the answers. */
  lemma AnswersGrow(h: Host, v0: VHost, xs: seq<Exchange>, before: seq<Answer>, s: Session, date: string, answers: seq<Answer>)
    requires Answered(h, v0, xs, before) && s.vhost == HostAt(v0, before, |before|)
    requires Dispatches(s) ==> AnswerTo(h, s.vhost, s.input, date).Some?
    requires answers == before + if Dispatches(s) then [AnswerTo(h, s.vhost, s.input, date).value] else []
    ensures var xs' := xs + if Dispatches(s) then [Exchange(s.input, date)] else [];
      && Answered(h, v0, xs', answers)
      && RequestText(xs') + (if Dispatches(s) then [] else s.input) == RequestText(xs) + s.input
  {
    hide AnswerTo, Dispatches, Answered, HostAt;
    if Dispatches(s) {
      var x := Exchange(s.input, date);
      AnsweredSnoc(h, v0, xs, before, x, answers);
      assert (xs + [x])[..|xs|] == xs;
      assert RequestText(xs + [x]) + [] == RequestText(xs + [x]);
    } else {
      assert xs + [] == xs && before + [] == before;
    }
  }

  lemma NewInv(v0: VHost)
    ensures Inv(NewSession(v0), v0, [])
  {
  }

  lemma InvHost(s: Session, v0: VHost, answers: seq<Answer>)
    requires Inv(s, v0, answers)
    ensures s.vhost == HostAt(v0, answers, |answers|)
  {
  }

  lemma AnsweredSnoc(h: Host, v0: VHost, xs: seq<Exchange>, answers: seq<Answer>, x: Exchange, answers': seq<Answer>)
    requires Answered(h, v0, xs, answers)
    requires AnswerTo(h, HostAt(v0, answers, |answers|), x.request, x.date).Some?
    requires answers' == answers + [AnswerTo(h, HostAt(v0, answers, |answers|), x.request, x.date).value]
    ensures Answered(h, v0, xs + [x], answers')
  {
    hide AnswerTo;
    assert forall i | 0 <= i <= |answers| :: HostAt(v0, answers', i) == HostAt(v0, answers, i);
  }

  /**
   The end to end statement. Between two responses the wire holds exactly the answers so far;
   during one it holds a prefix, and the buffer and the unread file are what is missing; and
   when the server closes, everything has been sent and the last answer said so. Every answer
   but the last was one that keeps the connection.
   */
  lemma WireIsAnswers(v0: VHost, h: Host, ticks: seq<Tick>) returns (answers: seq<Answer>)
    requires LegalRun(NewSession(v0), h, ticks) && GoodRun(NewSession(v0), h, ticks)
    ensures var s, xs := Run(NewSession(v0), h, ticks), Exchanges(NewSession(v0), h, ticks);
      && Answered(h, v0, xs, answers)
      && Received(ticks) == RequestText(xs) + s.input
      && (forall i | 0 <= i < |answers| - 1 :: answers[i].keep)
      && s.wire <= WireOf(answers)
      && (s.active && !s.inProgress ==> s.wire == WireOf(answers))
      && (s.active && s.inProgress ==> s.wire + s.output + s.Unread() == WireOf(answers))
      && (s.closed ==> s.wire == WireOf(answers) && answers != [] && !answers[|answers| - 1].keep)
  {
    hide Flow, WireOf, Run, Exchanges, LegalRun, GoodRun, Answered;
    answers := RunInv(v0, h, ticks);
    var s := Run(NewSession(v0), h, ticks);
    if Busy(s, answers) {
      FlowPrefix(s, answers);
      BusyTransfers(s, answers);
    }
  }

  // ----- every answer arrives

  function Remaining(s: Session): nat
  {
    |s.output| + |s.Unread()|
  }

  lemma WritablePass(s: Session, v0: VHost, answers: seq<Answer>, h: Host, tick: Tick)
    requires Inv(s, v0, answers) && Busy(s, answers) && !s.closed
    requires LegalTick(s, h, tick) && GoodTick(s, h, tick) && tick.poll.Writable?
    ensures var s' := Pass(s, h, tick);
      && Inv(s', v0, answers) && Busy(s', answers) && !s'.closed
      && (!s'.completed ==> Remaining(s') < Remaining(s))
  {
    NothingComplete();
    var read, sent := tick.poll.read, tick.poll.sent;
    assert !Finished(s) && Serve(s, h, tick) == s;
    assert !s.completed by { BusyTransfers(s, answers); }
    SendInv(s, v0, answers, read, sent);
    SendProgress(s, Event(read, sent));
    SendKeeps(s, read, sent);
    hide Flow, WireOf, Idle;
    SendStaysBusy(s, v0, answers, read, sent);
  }

  lemma SendStaysBusy(s: Session, v0: VHost, answers: seq<Answer>, read: nat, sent: int)
    requires LegalRead(s, read) && LegalSend(Fill(s, read), sent)
    requires Inv(Send(s, read, sent), v0, answers) && s.inProgress && s.active && !s.closed
    ensures Busy(Send(s, read, sent), answers) && !Send(s, read, sent).closed
  {
    hide Flow, WireOf;
  }

  /**
   Once a response is under way, no more than one call per missing byte, and one more, can go
   by before it is finished, and then the next pass leaves the answers on the wire complete:
   the connection goes on exactly when the last answer said so.
   */
  lemma {:induction false} AnswerArrives(s: Session, v0: VHost, answers: seq<Answer>, h: Host, ticks: seq<Tick>)
    requires Inv(s, v0, answers) && Busy(s, answers) && !s.closed && !s.completed
    requires LegalRun(s, h, ticks) && GoodRun(s, h, ticks) && forall i | 0 <= i < |ticks| :: ticks[i].poll.Writable?
    ensures |ticks| <= Remaining(s) + 1
    ensures var s' := Run(s, h, ticks);
      && Inv(s', v0, answers) && Busy(s', answers) && !s'.closed
      && (!s'.completed ==> |ticks| + Remaining(s') <= Remaining(s))
      && (s'.completed ==>
          var end := Finish(s');
          && Finished(s') && end.wire == WireOf(answers) && !end.inProgress
          && (end.active <==> answers[|answers| - 1].keep))
  {
    hide Busy, Inv, Pass, LegalTick, GoodTick;
    if ticks != [] {
      var n := |ticks| - 1;
      AnswerArrives(s, v0, answers, h, ticks[..n]);
      var before := Run(s, h, ticks[..n]);
      NotFinished(before, h, ticks[n], answers);
      WritablePass(before, v0, answers, h, ticks[n]);
    }
    var s' := Run(s, h, ticks);
    if s'.completed {
      FinishAnswers(s', v0, answers);
    }
  }

  lemma NotFinished(s: Session, h: Host, tick: Tick, answers: seq<Answer>)
    requires Busy(s, answers) && LegalTick(s, h, tick) && tick.poll.Writable?
    ensures !s.completed
  {
    BusyTransfers(s, answers);
  }

  lemma FinishAnswers(s: Session, v0: VHost, answers: seq<Answer>)
    requires Inv(s, v0, answers) && Busy(s, answers) && !s.closed && s.completed
    ensures var end := Finish(s);
      && answers != [] && Finished(s) && end.wire == WireOf(answers) && !end.inProgress
      && (end.active <==> answers[|answers| - 1].keep)
  {
    hide Flow, WireOf;
    BusyTransfers(s, answers);
    FlowPrefix(s, answers);
    assert s.wire + [] + [] == s.wire;
  }

  /** A response under way is never stuck: some read and send that go well are possible. */
  lemma SendCanGoOn(s: Session, answers: seq<Answer>) returns (read: nat, sent: int)
    requires Busy(s, answers) && !s.completed
    ensures LegalPoll(s, Writable(read, sent)) && GoodSend(s, read, sent)
  {
    var room := NETWORK_BLOCK_SIZE - |s.output|;
    read := if |s.Unread()| < room then |s.Unread()| else room;
    sent := |Fill(s, read).output|;
  }

  /** Nor is a request that has an answer: with every send of its head accepted, it is served. */
  lemma ServeCanGoOn(s: Session, h: Host, date: string) returns (tick: Tick)
    requires Idle(s) && Dispatches(s) && AnswerTo(h, s.vhost, s.input, date).Some?
    ensures tick.date == date && tick.poll == Quiet
    ensures LegalServe(s, h, tick) && GoodRequest(s, h, tick) && LegalTick(s, h, tick) && GoodTick(s, h, tick)
  {
    hide AnswerTo, AnswerOn, Parse, Prepare, PiecesOf, HeadText, FileFields, Contains, Idle, PageParts, Dispatches, Serve;
    IdleNotFinished(s);
    IdleAnswer(s, h, date);
    ParseReady(s, h, date, AnswerOn(s, h, date).value);
    var pieces := PiecesOf(Prepare(Parse(s, h, date), h), h);
    tick := Tick(date, seq(|pieces|, i requires 0 <= i < |pieces| => |pieces[i]|), Quiet);
  }

  lemma IdleNotFinished(s: Session)
    requires Idle(s)
    ensures s.active && !Finished(s) && Ready(s)
  {
  }

  // ----- runs put together

  lemma RunSnoc(s: Session, h: Host, ticks: seq<Tick>, tick: Tick)
    requires LegalRun(s, h, ticks) && LegalTick(Run(s, h, ticks), h, tick)
    ensures LegalRun(s, h, ticks + [tick]) && Run(s, h, ticks + [tick]) == Pass(Run(s, h, ticks), h, tick)
    ensures Exchanges(s, h, ticks + [tick]) == Exchanges(s, h, ticks) +
            if Dispatches(Run(s, h, ticks)) then [Exchange(Run(s, h, ticks).input, tick.date)] else []
    ensures GoodRun(s, h, ticks + [tick]) <==> GoodRun(s, h, ticks) && GoodTick(Run(s, h, ticks), h, tick)
  {
    hide LegalTick, Pass, GoodTick, Dispatches;
    assert (ticks + [tick])[..|ticks|] == ticks;
  }

  // ----- chunks

  /** Passes that each receive a chunk. */
  predicate Arrivals(ticks: seq<Tick>)
  {
    forall i | 0 <= i < |ticks| ::
      ticks[i].counts == [] && ticks[i].poll.Readable? && 0 < |ticks[i].poll.chunk| <= NETWORK_BLOCK_SIZE
  }

  /**
   A request that ends at its first blank line is recognised when its last byte is there, not
   earlier, however it is cut into chunks; and the state it is dispatched in depends only on
   its text.
   */
  lemma {:induction false} ChunkingIrrelevant(s: Session, h: Host, ticks: seq<Tick>, r: string)
    requires s.active && !s.inProgress && s.input == []
    requires Arrivals(ticks) && Received(ticks) <= r && Requests.EndsAtBlankLine(r)
    ensures LegalRun(s, h, ticks)
    ensures Run(s, h, ticks) == s.(input := Received(ticks))
    ensures Dispatches(Run(s, h, ticks)) <==> Received(ticks) == r
    ensures Exchanges(s, h, ticks) == []
  {
    hide Requests.IsComplete, Requests.EndsAtBlankLine, Pass, LegalTick;
    if ticks != [] {
      var n := |ticks| - 1;
      var tick := ticks[n];
      assert Received(ticks[..n]) < Received(ticks);
      ChunkingIrrelevant(s, h, ticks[..n], r);
      ArrivalPass(Run(s, h, ticks[..n]), h, tick);
    } else {
      assert s.(input := []) == s;
    }
    OnlyWhole(Received(ticks), r);
  }

  lemma OnlyWhole(part: string, r: string)
    requires part <= r && Requests.EndsAtBlankLine(r)
    ensures Requests.IsComplete(part) <==> part == r
  {
    Requests.FramingExact(r, |part|);
    assert r[..|part|] == part && r[..|r|] == r;
  }

  lemma ArrivalPass(s: Session, h: Host, tick: Tick)
    requires s.active && !s.inProgress && !Dispatches(s)
    requires tick.counts == [] && tick.poll.Readable? && 0 < |tick.poll.chunk| <= NETWORK_BLOCK_SIZE
    ensures LegalTick(s, h, tick) && Pass(s, h, tick) == s.(input := s.input + tick.poll.chunk)
  {
  }
}
