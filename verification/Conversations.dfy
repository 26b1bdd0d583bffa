/**
 Conversations: requests that come one at a time, each in chunks of its own, and the answers to
 all of them on the wire.
 */
module Conversations {
  import opened CText
  import Requests
  import opened Sessions
  import opened Answers
  import opened Delivery
  import opened KeepAlive

  /** A request with the chunks it comes in, the pass that serves it, and the calls that send its file. */
  datatype Round = Round(request: string, arrivals: seq<Tick>, serve: Tick, sends: seq<Tick>)

  /** The last pass finds the transfer finished. */
  function TicksOf(r: Round): seq<Tick>
  {
    r.arrivals + [r.serve] + r.sends + [Tick("", [], Quiet)]
  }

  function AllTicks(rounds: seq<Round>): seq<Tick>
  {
    if rounds == [] then [] else AllTicks(rounds[..|rounds| - 1]) + TicksOf(rounds[|rounds| - 1])
  }

  function ExchangesOf(rounds: seq<Round>): seq<Exchange>
  {
    seq(|rounds|, i requires 0 <= i < |rounds| => Exchange(rounds[i].request, rounds[i].serve.date))
  }

  /** A round whose request ends at its blank line, whose passes go well, and which ends with no transfer under way. */
  ghost predicate Goes(s: Session, h: Host, r: Round)
  {
    && Requests.EndsAtBlankLine(r.request) && Arrivals(r.arrivals) && Received(r.arrivals) == r.request
    && r.serve.poll == Quiet && AllWritable(r.sends)
    && LegalRun(s, h, TicksOf(r)) && GoodRun(s, h, TicksOf(r)) && !Run(s, h, TicksOf(r)).inProgress
  }

  /** Rounds one after the other, the first on a new connection. */
  ghost predicate Talk(v0: VHost, h: Host, rounds: seq<Round>)
  {
    if rounds == [] then true
    else
      var n := |rounds| - 1;
      Talk(v0, h, rounds[..n]) && LegalRun(NewSession(v0), h, AllTicks(rounds[..n])) &&
      Goes(Run(NewSession(v0), h, AllTicks(rounds[..n])), h, rounds[n])
  }

  // ----- runs in two parts

  lemma {:induction false} RunConcat(s: Session, h: Host, a: seq<Tick>, b: seq<Tick>)
    ensures LegalRun(s, h, a + b) <==> LegalRun(s, h, a) && LegalRun(Run(s, h, a), h, b)
    ensures LegalRun(s, h, a + b) ==>
      && Run(s, h, a + b) == Run(Run(s, h, a), h, b)
      && Exchanges(s, h, a + b) == Exchanges(s, h, a) + Exchanges(Run(s, h, a), h, b)
      && (GoodRun(s, h, a + b) <==> GoodRun(s, h, a) && GoodRun(Run(s, h, a), h, b))
  {
    hide LegalTick, Pass, GoodTick, Dispatches;
    if b == [] {
      assert a + b == a;
    } else {
      var n := |b| - 1;
      RunConcat(s, h, a, b[..n]);
      assert (a + b)[..|a| + n] == a + b[..n] && (a + b)[|a| + n] == b[n];
      if LegalRun(s, h, a + b) || (LegalRun(s, h, a) && LegalRun(Run(s, h, a), h, b)) {
        RunSnoc(s, h, a + b[..n], b[n]);
        assert a + b == a + b[..n] + [b[n]];
      }
    }
  }

  // ----- one round

  /** Between two answers: nothing pending, and all answers on the wire. */
  predicate Between(s: Session, v0: VHost, answers: seq<Answer>)
  {
    && Inv(s, v0, answers) && Idle(s) && !s.closed && s.input == [] && s.wire == WireOf(answers)
    && (answers != [] ==> answers[|answers| - 1].keep)
  }

  /** The request comes in, in whatever chunks. */
  lemma RequestArrives(s: Session, v0: VHost, answers: seq<Answer>, h: Host, ticks: seq<Tick>, request: string)
    requires Between(s, v0, answers)
    requires Requests.EndsAtBlankLine(request) && Arrivals(ticks) && Received(ticks) == request
    ensures LegalRun(s, h, ticks) && GoodRun(s, h, ticks) && Exchanges(s, h, ticks) == []
    ensures Run(s, h, ticks) == s.(input := request) && Dispatches(s.(input := request))
    ensures Inv(s.(input := request), v0, answers) && Idle(s.(input := request))
  {
    ChunkingIrrelevant(s, h, ticks, request);
    ArrivalsGood(s, h, ticks);
    hide Requests.EndsAtBlankLine, WireOf, LegalRun, Run, GoodRun, Requests.IsComplete, Received, Flow;
  }

  lemma {:induction false} ArrivalsGood(s: Session, h: Host, ticks: seq<Tick>)
    requires LegalRun(s, h, ticks) && Arrivals(ticks) && Exchanges(s, h, ticks) == []
    ensures GoodRun(s, h, ticks)
  {
    hide LegalTick, Pass, Dispatches, Serve, GoodRequest;
    if ticks != [] {
      ArrivalsGood(s, h, ticks[..|ticks| - 1]);
    }
  }

  /** The request is served: its answer is under way. */
  lemma RequestServed(s: Session, v0: VHost, answers: seq<Answer>, h: Host, tick: Tick) returns (answers': seq<Answer>)
    requires Inv(s, v0, answers) && Idle(s) && !s.closed && s.wire == WireOf(answers)
    requires answers != [] ==> answers[|answers| - 1].keep
    requires Dispatches(s) && LegalTick(s, h, tick) && GoodTick(s, h, tick) && tick.poll == Quiet
    ensures AnswerTo(h, s.vhost, s.input, tick.date).Some?
    ensures answers' == answers + [AnswerTo(h, s.vhost, s.input, tick.date).value]
    ensures var s' := Pass(s, h, tick);
      Inv(s', v0, answers') && Busy(s', answers') && !s'.completed && !s'.closed
  {
    hide AnswerTo, Serve, LegalServe, AllTaken, Dispatches, WireOf;
    IdleNotFinished(s);
    answers' := ServeInv(s, v0, answers, h, tick);
    BusyIsOpen(Serve(s, h, tick), v0, answers');
  }

  lemma BusyIsOpen(s: Session, v0: VHost, answers: seq<Answer>)
    requires Inv(s, v0, answers) && Busy(s, answers)
    ensures !s.closed && s.active && s.inProgress && s.input == []
  {
    hide WireOf;
  }

  /** While the file is sent nothing is dispatched. */
  lemma {:induction false} SendsDispatchNothing(s: Session, v0: VHost, answers: seq<Answer>, h: Host, ticks: seq<Tick>)
    requires Inv(s, v0, answers) && Busy(s, answers) && !s.closed && !s.completed
    requires LegalRun(s, h, ticks) && GoodRun(s, h, ticks) && AllWritable(ticks)
    ensures Exchanges(s, h, ticks) == []
  {
    hide Inv, Busy, Pass, LegalTick, GoodTick, Dispatches;
    if ticks != [] {
      var n := |ticks| - 1;
      SendsDispatchNothing(s, v0, answers, h, ticks[..n]);
      AnswerArrives(s, v0, answers, h, ticks[..n]);
      var before := Run(s, h, ticks[..n]);
      BusyIsOpen(before, v0, answers);
      EmptyDispatchesNot(before);
    }
  }

  lemma EmptyDispatchesNot(s: Session)
    requires s.input == []
    ensures !Dispatches(s)
  {
  }

  /** The file is sent, and the pass behind it finds the transfer finished, or nothing to do. */
  lemma FileSent(s: Session, v0: VHost, answers: seq<Answer>, h: Host, ticks: seq<Tick>)
    requires Inv(s, v0, answers) && Busy(s, answers) && !s.closed && !s.completed
    requires LegalRun(s, h, ticks) && GoodRun(s, h, ticks) && AllWritable(ticks)
    ensures
      var s', last := Run(s, h, ticks), Tick("", [], Quiet);
      && LegalTick(s', h, last) && GoodTick(s', h, last) && !Dispatches(s')
      && (s'.completed <==> !Pass(s', h, last).inProgress)
      && (s'.completed ==>
          var end := Pass(s', h, last);
          && (end.active <==> answers[|answers| - 1].keep)
          && (end.active ==> Between(end, v0, answers))
          && (!end.active ==> end.closed) && end.wire == WireOf(answers))
  {
    hide Inv, Busy, LegalRun, Run, GoodRun, WireOf, Finish, Between;
    AnswerArrives(s, v0, answers, h, ticks);
    var s' := Run(s, h, ticks);
    BusyIsOpen(s', v0, answers);
    EmptyDispatchesNot(s');
    if s'.completed {
      EndsBetween(s', v0, answers);
    }
  }

  lemma EndsBetween(s: Session, v0: VHost, answers: seq<Answer>)
    requires Inv(s, v0, answers) && Busy(s, answers) && !s.closed && s.completed
    ensures var end := Finish(s);
      && !end.inProgress
      && (end.active <==> answers[|answers| - 1].keep)
      && (end.active ==> Between(end, v0, answers))
      && (!end.active ==> end.closed) && end.wire == WireOf(answers)
  {
    FinishAnswers(s, v0, answers);
    FinishInv(s, v0, answers);
    hide WireOf, Flow;
  }

  /** One round: one request, one answer, whatever the chunks and the sends. */
  lemma OneRound(s: Session, v0: VHost, answers: seq<Answer>, h: Host, r: Round) returns (answers': seq<Answer>)
    requires Between(s, v0, answers) && Goes(s, h, r)
    ensures AnswerTo(h, s.vhost, r.request, r.serve.date).Some?
    ensures answers' == answers + [AnswerTo(h, s.vhost, r.request, r.serve.date).value]
    ensures Exchanges(s, h, TicksOf(r)) == [Exchange(r.request, r.serve.date)]
    ensures var end := Run(s, h, TicksOf(r));
      && (end.active <==> answers'[|answers|].keep)
      && (end.active ==> Between(end, v0, answers'))
      && (!end.active ==> end.closed) && end.wire == WireOf(answers')
  {
    hide Inv, Busy, Idle, LegalRun, Run, GoodRun, Exchanges, WireOf, Between, LegalTick, GoodTick, Pass, Dispatches, Received, Arrivals,
      Requests.EndsAtBlankLine, AnswerTo;
    var last := Tick("", [], Quiet);
    RunConcat(s, h, r.arrivals + [r.serve] + r.sends, [last]);
    RunConcat(s, h, r.arrivals + [r.serve], r.sends);
    RunConcat(s, h, r.arrivals, [r.serve]);
    RequestArrives(s, v0, answers, h, r.arrivals, r.request);
    var s1 := s.(input := r.request);
    OneTick(s1, h, r.serve);
    BetweenKeeps(s, v0, answers);
    answers' := RequestServed(s1, v0, answers, h, r.serve);
    var s2 := Pass(s1, h, r.serve);
    SendsDispatchNothing(s2, v0, answers', h, r.sends);
    FileSent(s2, v0, answers', h, r.sends);
    OneTick(Run(s2, h, r.sends), h, last);
  }

  lemma BetweenKeeps(s: Session, v0: VHost, answers: seq<Answer>)
    requires Between(s, v0, answers)
    ensures !s.closed && s.wire == WireOf(answers) && (answers != [] ==> answers[|answers| - 1].keep)
    ensures s.vhost == HostAt(v0, answers, |answers|) && s.active
  {
    hide WireOf, Flow;
  }

  lemma OneTick(s: Session, h: Host, tick: Tick)
    ensures LegalRun(s, h, [tick]) <==> LegalTick(s, h, tick)
    ensures LegalTick(s, h, tick) ==>
      && Run(s, h, [tick]) == Pass(s, h, tick)
      && (GoodRun(s, h, [tick]) <==> GoodTick(s, h, tick))
      && Exchanges(s, h, [tick]) == if Dispatches(s) then [Exchange(s.input, tick.date)] else []
  {
    hide LegalTick, Pass, GoodTick, Dispatches;
    assert [tick][..0] == [];
  }

  // ----- whole conversations

  /** A client that is gone receives nothing. */
  lemma {:induction false} GoneReceivesNothing(s: Session, h: Host, ticks: seq<Tick>)
    requires !s.active && LegalRun(s, h, ticks)
    ensures !Run(s, h, ticks).active && Received(ticks) == []
  {
    hide LegalServe, Serve, Polled, LegalPoll;
    if ticks != [] {
      GoneReceivesNothing(s, h, ticks[..|ticks| - 1]);
    }
  }

  lemma GoesOnlyIfActive(s: Session, h: Host, r: Round)
    requires Goes(s, h, r)
    ensures s.active
  {
    if !s.active {
      RunConcat(s, h, r.arrivals + [r.serve] + r.sends, [Tick("", [], Quiet)]);
      RunConcat(s, h, r.arrivals + [r.serve], r.sends);
      RunConcat(s, h, r.arrivals, [r.serve]);
      GoneReceivesNothing(s, h, r.arrivals);
    }
  }

  /**
   k requests that have answers, one at a time, each in chunks of any kind and its answer read and
   sent in pieces of any size: the k answers are on the wire, one behind the other, every one
   determined by its own request; and the connection is there for another exactly if the last
   answer said so.
   */
  lemma {:induction false} Conversation(v0: VHost, h: Host, rounds: seq<Round>) returns (answers: seq<Answer>)
    requires Talk(v0, h, rounds)
    ensures LegalRun(NewSession(v0), h, AllTicks(rounds))
    ensures Exchanges(NewSession(v0), h, AllTicks(rounds)) == ExchangesOf(rounds)
    ensures |answers| == |rounds| && Answered(h, v0, ExchangesOf(rounds), answers)
    ensures forall i | 0 <= i < |answers| - 1 :: answers[i].keep
    ensures var end := Run(NewSession(v0), h, AllTicks(rounds));
      && end.wire == WireOf(answers)
      && (end.active <==> answers == [] || answers[|answers| - 1].keep)
      && (end.active ==> Between(end, v0, answers))
      && (!end.active ==> end.closed)
  {
    hide LegalRun, Run, Exchanges, WireOf, Between, Goes, TicksOf, Answered, AnswerTo;
    var s0 := NewSession(v0);
    if rounds == [] {
      answers := [];
      NewBetween(v0, h);
    } else {
      var n := |rounds| - 1;
      var before := Conversation(v0, h, rounds[..n]);
      var s, r := Run(s0, h, AllTicks(rounds[..n])), rounds[n];
      GoesOnlyIfActive(s, h, r);
      answers := OneRound(s, v0, before, h, r);
      BetweenKeeps(s, v0, before);
      RoundLegal(s, h, r);
      RunConcat(s0, h, AllTicks(rounds[..n]), TicksOf(r));
      AnsweredSnoc(h, v0, ExchangesOf(rounds[..n]), before, Exchange(r.request, r.serve.date), answers);
      assert ExchangesOf(rounds) == ExchangesOf(rounds[..n]) + [Exchange(r.request, r.serve.date)];
    }
  }

  lemma RoundLegal(s: Session, h: Host, r: Round)
    requires Goes(s, h, r)
    ensures LegalRun(s, h, TicksOf(r))
  {
  }

  lemma NewBetween(v0: VHost, h: Host)
    ensures LegalRun(NewSession(v0), h, []) && Run(NewSession(v0), h, []) == NewSession(v0)
    ensures Exchanges(NewSession(v0), h, []) == ExchangesOf([]) && Answered(h, v0, ExchangesOf([]), [])
    ensures Between(NewSession(v0), v0, []) && NewSession(v0).wire == WireOf([])
  {
    NewInv(v0);
  }

  // ----- every such conversation is possible

  /** A response under way can be brought to its end. */
  lemma {:induction false} SendAll(s: Session, v0: VHost, answers: seq<Answer>, h: Host) returns (sends: seq<Tick>)
    requires Inv(s, v0, answers) && Busy(s, answers) && !s.closed && !s.completed
    ensures LegalRun(s, h, sends) && GoodRun(s, h, sends) && AllWritable(sends) && Run(s, h, sends).completed
    decreases Remaining(s)
  {
    hide Inv, Busy, LegalRun, Run, GoodRun, LegalPoll, Polled, Remaining;
    var read, sent := SendCanGoOn(s, answers);
    var tick := Tick("", [], Writable(read, sent));
    BusyIsOpen(s, v0, answers);
    EmptyDispatchesNot(s);
    WritablePass(s, v0, answers, h, tick);
    OneTick(s, h, tick);
    var s' := Pass(s, h, tick);
    if s'.completed {
      sends := [tick];
    } else {
      var rest := SendAll(s', v0, answers, h);
      RunConcat(s, h, [tick], rest);
      sends := [tick] + rest;
    }
  }

  /** A request as a client may send it. */
  datatype Ask = Ask(request: string, arrivals: seq<Tick>, date: string)

  ghost predicate Asked(ask: Ask)
  {
    Requests.EndsAtBlankLine(ask.request) && Arrivals(ask.arrivals) && Received(ask.arrivals) == ask.request
  }

  function ExchangesFor(asks: seq<Ask>): seq<Exchange>
  {
    seq(|asks|, i requires 0 <= i < |asks| => Exchange(asks[i].request, asks[i].date))
  }

  /** The rounds bring these requests in these chunks. */
  predicate Brings(rounds: seq<Round>, asks: seq<Ask>)
  {
    && |rounds| == |asks|
    && forall i | 0 <= i < |asks| ::
         rounds[i].request == asks[i].request && rounds[i].arrivals == asks[i].arrivals && rounds[i].serve.date == asks[i].date
  }

  lemma RoundPossible(s: Session, v0: VHost, answers: seq<Answer>, h: Host, ask: Ask) returns (r: Round)
    requires Between(s, v0, answers) && Asked(ask) && AnswerTo(h, s.vhost, ask.request, ask.date).Some?
    ensures Goes(s, h, r) && r.request == ask.request && r.arrivals == ask.arrivals && r.serve.date == ask.date
  {
    hide Inv, Busy, Idle, LegalRun, Run, GoodRun, Exchanges, WireOf, Between, LegalTick, GoodTick, Pass, Dispatches, Received, Arrivals,
      Requests.EndsAtBlankLine, AnswerTo, LegalServe, GoodRequest;
    RequestArrives(s, v0, answers, h, ask.arrivals, ask.request);
    var s1, last := s.(input := ask.request), Tick("", [], Quiet);
    var serve := ServeCanGoOn(s1, h, ask.date);
    OneTick(s1, h, serve);
    BetweenKeeps(s, v0, answers);
    var answers' := RequestServed(s1, v0, answers, h, serve);
    var s2 := Pass(s1, h, serve);
    var sends := SendAll(s2, v0, answers', h);
    FileSent(s2, v0, answers', h, sends);
    OneTick(Run(s2, h, sends), h, last);
    r := Round(ask.request, ask.arrivals, serve, sends);
    RunConcat(s, h, ask.arrivals, [serve]);
    RunConcat(s, h, ask.arrivals + [serve], sends);
    RunConcat(s, h, ask.arrivals + [serve] + sends, [last]);
  }

  /** Every talk that brings these requests ends with their answers. */
  lemma TalkAnswers(v0: VHost, h: Host, rounds: seq<Round>, asks: seq<Ask>, answers: seq<Answer>)
    requires Talk(v0, h, rounds) && Brings(rounds, asks) && Answered(h, v0, ExchangesFor(asks), answers)
    ensures LegalRun(NewSession(v0), h, AllTicks(rounds))
    ensures var end := Run(NewSession(v0), h, AllTicks(rounds));
      end.wire == WireOf(answers) &&
      (answers == [] || answers[|answers| - 1].keep ==> Between(end, v0, answers))
  {
    hide *;
    var given := Conversation(v0, h, rounds);
    BringsExchanges(rounds, asks);
    SameAnswers(h, v0, ExchangesFor(asks), given, answers);
  }

  lemma TalkMore(v0: VHost, h: Host, rounds: seq<Round>, answers: seq<Answer>, ask: Ask) returns (r: Round)
    requires Talk(v0, h, rounds) && LegalRun(NewSession(v0), h, AllTicks(rounds))
    requires Between(Run(NewSession(v0), h, AllTicks(rounds)), v0, answers) && Asked(ask)
    requires AnswerTo(h, HostAt(v0, answers, |answers|), ask.request, ask.date).Some?
    ensures Talk(v0, h, rounds + [r])
    ensures r.request == ask.request && r.arrivals == ask.arrivals && r.serve.date == ask.date
  {
    hide LegalRun, Run, Between, Goes, AllTicks, Asked, AnswerTo;
    var s := Run(NewSession(v0), h, AllTicks(rounds));
    BetweenKeeps(s, v0, answers);
    r := RoundPossible(s, v0, answers, h, ask);
    assert (rounds + [r])[..|rounds|] == rounds;
  }

  /**
   Whatever k requests a client asks one at a time, in whatever chunks, if each has an answer and
   all but the last keep the connection: there is a run that brings them and ends with their k
   answers on the wire. By TalkAnswers every run that brings them ends like that.
   */
  lemma {:induction false} AllAnswered(v0: VHost, h: Host, asks: seq<Ask>, answers: seq<Answer>) returns (rounds: seq<Round>)
    requires forall i | 0 <= i < |asks| :: Asked(asks[i])
    requires Answered(h, v0, ExchangesFor(asks), answers) && forall i | 0 <= i < |answers| - 1 :: answers[i].keep
    ensures Brings(rounds, asks) && Talk(v0, h, rounds)
    ensures LegalRun(NewSession(v0), h, AllTicks(rounds)) && Run(NewSession(v0), h, AllTicks(rounds)).wire == WireOf(answers)
  {
    hide LegalRun, Run, WireOf, Between, Asked, AnswerTo, Answered, Talk, ExchangesFor, HostAt, AllTicks;
    if asks == [] {
      rounds := [];
      NoTalk(v0, h);
    } else {
      var n := |asks| - 1;
      AskedPrefix(h, v0, asks, answers);
      var before := AllAnswered(v0, h, asks[..n], answers[..n]);
      TalkAnswers(v0, h, before, asks[..n], answers[..n]);
      var r := TalkMore(v0, h, before, answers[..n], asks[n]);
      rounds := before + [r];
    }
    TalkAnswers(v0, h, rounds, asks, answers);
  }

  lemma NoTalk(v0: VHost, h: Host)
    ensures Talk(v0, h, [])
  {
  }

  lemma AskedPrefix(h: Host, v0: VHost, asks: seq<Ask>, answers: seq<Answer>)
    requires asks != [] && Answered(h, v0, ExchangesFor(asks), answers)
    ensures var n := |asks| - 1;
      && |answers| == n + 1 && Answered(h, v0, ExchangesFor(asks[..n]), answers[..n])
      && AnswerTo(h, HostAt(v0, answers[..n], n), asks[n].request, asks[n].date) == Some(answers[n])
  {
    hide AnswerTo, Answered, HostAt;
    AnsweredPrefix(h, v0, ExchangesFor(asks), answers);
    assert ExchangesFor(asks)[..|asks| - 1] == ExchangesFor(asks[..|asks| - 1]);
    SameLength(h, v0, ExchangesFor(asks), answers);
  }

  lemma SameLength(h: Host, v0: VHost, xs: seq<Exchange>, answers: seq<Answer>)
    requires Answered(h, v0, xs, answers)
    ensures |answers| == |xs|
  {
  }

  lemma BringsExchanges(rounds: seq<Round>, asks: seq<Ask>)
    requires Brings(rounds, asks)
    ensures ExchangesOf(rounds) == ExchangesFor(asks)
  {
  }

  lemma AnsweredPrefix(h: Host, v0: VHost, xs: seq<Exchange>, answers: seq<Answer>)
    requires xs != [] && Answered(h, v0, xs, answers)
    ensures var n := |xs| - 1;
      Answered(h, v0, xs[..n], answers[..n]) &&
      AnswerTo(h, HostAt(v0, answers[..n], n), xs[n].request, xs[n].date) == Some(answers[n])
  {
    hide AnswerTo;
    var n := |xs| - 1;
    assert forall i | 0 <= i <= n :: HostAt(v0, answers[..n], i) == HostAt(v0, answers, i);
  }

  /** The requests determine their answers. */
  lemma {:induction false} SameAnswers(h: Host, v0: VHost, xs: seq<Exchange>, a: seq<Answer>, b: seq<Answer>)
    requires Answered(h, v0, xs, a) && Answered(h, v0, xs, b)
    ensures a == b
  {
    hide AnswerTo, Answered, HostAt;
    SameLength(h, v0, xs, a);
    SameLength(h, v0, xs, b);
    if xs != [] {
      var n := |xs| - 1;
      AnsweredPrefix(h, v0, xs, a);
      AnsweredPrefix(h, v0, xs, b);
      SameAnswers(h, v0, xs[..n], a[..n], b[..n]);
      assert a == a[..n] + [a[n]] && b == b[..n] + [b[n]];
    }
  }
}
