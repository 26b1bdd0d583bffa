/**
 What plain_transfer_send delivers, over every run of calls and every outcome of the reads
 and sends they make.
 */
module Delivery {
  import opened CText
  import Requests
  import opened Sessions

  /** The counts one call's read and send report. */
  datatype Event = Event(read: nat, sent: int)

  predicate LegalEvent(s: Session, e: Event)
  {
    LegalRead(s, e.read) && LegalSend(Fill(s, e.read), e.sent)
  }

  /** Calls of plain_transfer_send until one of them marks the transfer completed. */
  predicate LegalSends(s: Session, es: seq<Event>)
    decreases |es|, 0
  {
    if es == [] then true
    else
      var n := |es| - 1;
      LegalSends(s, es[..n]) &&
      var before := Sends(s, es[..n]);
      !before.completed && LegalEvent(before, es[n])
  }

  function Sends(s: Session, es: seq<Event>): Session
    requires LegalSends(s, es)
    decreases |es|, 1
  {
    if es == [] then s
    else
      var n := |es| - 1;
      Send(Sends(s, es[..n]), es[n].read, es[n].sent)
  }

  /** A state plain_transfer_open leaves: what is due is the output already waiting, then the file. */
  predicate Opened(s: Session, due: string)
  {
    && s.pump.Some? && s.pump.value.pos == 0 && s.inProgress && !s.completed
    && |s.output| <= NETWORK_BLOCK_SIZE && due == s.output + s.pump.value.file
  }

  predicate Sane(s: Session)
  {
    s.Transferring() && s.pump.value.pos <= |s.pump.value.file|
  }

  /** Behind w0, what was sent, the buffer and the unread rest are what was due, cut in three. */
  predicate Flow(s: Session, due: string, w0: string)
  {
    && Sane(s) && |s.output| <= NETWORK_BLOCK_SIZE
    && w0 <= s.wire && s.wire + (s.output + s.Unread()) == w0 + due
  }

  /** Flow says that nothing is lost, doubled or out of order. */
  lemma FlowConserves(s: Session, due: string, w0: string)
    requires Flow(s, due, w0)
    ensures w0 <= s.wire && s.wire[|w0|..] + s.output + s.Unread() == due
    ensures s.wire + s.output + s.Unread() == w0 + due
  {
    BehindPrefix(w0, s.wire, s.output + s.Unread(), due);
    Assoc(s.wire, s.output, s.Unread());
    Assoc(s.wire[|w0|..], s.output, s.Unread());
  }

  lemma BehindPrefix(w0: string, w: string, rest: string, due: string)
    requires w0 <= w && w + rest == w0 + due
    ensures w[|w0|..] + rest == due
  {
    assert w[|w0|..] + rest == (w + rest)[|w0|..];
    assert (w0 + due)[|w0|..] == due;
  }

  /** A read moves bytes from the file to the buffer. */
  lemma FillConserves(s: Session, read: nat)
    requires Sane(s) && LegalRead(s, read) && |s.output| <= NETWORK_BLOCK_SIZE
    ensures var s' := Fill(s, read);
      && Sane(s') && s'.pump.value.file == s.pump.value.file && |s'.output| <= NETWORK_BLOCK_SIZE
      && s'.wire == s.wire && s'.output + s'.Unread() == s.output + s.Unread()
  {
    if |s.output| < NETWORK_BLOCK_SIZE && read > 0 {
      MoveOver(s.output, s.pump.value.file, s.pump.value.pos, read);
    }
  }

  lemma MoveOver(out: string, file: string, p: nat, n: nat)
    requires p + n <= |file|
    ensures (out + file[p..p + n]) + file[p + n..] == out + file[p..]
  {
    assert file[p..] == file[p..p + n] + file[p + n..];
  }

  /** A send that does not fail moves bytes from the buffer to the wire. */
  lemma DrainConserves(s: Session, sent: int)
    requires LegalSend(s, sent) && sent >= 0
    ensures var s' := Drain(s, sent);
      && s'.pump == s.pump && s'.inProgress == s.inProgress && |s'.output| <= |s.output|
      && s.wire <= s'.wire && s'.wire + (s'.output + s'.Unread()) == s.wire + (s.output + s.Unread())
  {
    if s.output != [] && sent > 0 {
      SendOver(s.wire, s.output, sent, s.Unread());
    }
  }

  lemma SendOver(w: string, out: string, n: nat, rest: string)
    requires n <= |out|
    ensures (w + out[..n]) + (out[n..] + rest) == w + (out + rest)
  {
    assert out == out[..n] + out[n..];
  }

  lemma SendFlow(s: Session, e: Event, due: string, w0: string)
    requires Flow(s, due, w0) && LegalEvent(s, e) && e.sent >= 0
    ensures Flow(Send(s, e.read, e.sent), due, w0)
  {
    hide Fill, Drain, LegalRead, LegalSend;
    FillConserves(s, e.read);
    DrainConserves(Fill(s, e.read), e.sent);
  }

  predicate NoError(es: seq<Event>)
  {
    forall i | 0 <= i < |es| :: es[i].sent >= 0
  }

  /** As long as no send fails, the client holds a prefix of what is due, and the rest is still here. */
  lemma {:induction false} SendsFlow(s: Session, es: seq<Event>, due: string)
    requires Opened(s, due) && LegalSends(s, es) && NoError(es)
    ensures Flow(Sends(s, es), due, s.wire)
  {
    hide Flow, Send, Opened;
    if es == [] {
      OpenedFlow(s, due);
    } else {
      var n := |es| - 1;
      SendsFlow(s, es[..n], due);
      SendFlow(Sends(s, es[..n]), es[n], due, s.wire);
    }
  }

  lemma OpenedFlow(s: Session, due: string)
    requires Opened(s, due)
    ensures Flow(s, due, s.wire) && !s.completed
  {
    assert s.pump.value.file[0..] == s.pump.value.file;
  }

  // ----- the block

  /** A call may read what is missing to 512 bytes and send 512, and no more. */
  lemma BlockWritten(s: Session, read: nat, sent: int)
    ensures s.Transferring() && |s.output| < 512 ==> (LegalRead(s, read) <==> |s.output| + read <= 512 && read <= |s.Unread()|)
    ensures s.Transferring() && |s.output| >= 512 ==> (LegalRead(s, read) <==> read == 0)
    ensures 0 < |s.output| < 512 ==> (LegalSend(s, sent) <==> -1 <= sent <= |s.output|)
    ensures |s.output| >= 512 ==> (LegalSend(s, sent) <==> -1 <= sent <= 512)
  {
  }

  /** A call leaves no more in the buffer than there was, or than a block holds. */
  lemma SendBound(s: Session, e: Event)
    requires LegalEvent(s, e)
    ensures var s' := Send(s, e.read, e.sent);
      |s.output| <= NETWORK_BLOCK_SIZE ==> |s'.output| <= NETWORK_BLOCK_SIZE
  {
  }

  /**
   The read of a call asks for what is missing to a block of 512 bytes, which is a negative
   number if more than that is buffered. No call of a transfer ever finds more than a block
   exactly when the transfer was opened with no more than a block waiting.
   */
  lemma {:induction false} BoundExactly(s: Session, es: seq<Event>)
    requires LegalSends(s, es)
    ensures (forall k | 0 <= k <= |es| :: LegalSends(s, es[..k]) && |Sends(s, es[..k]).output| <= NETWORK_BLOCK_SIZE) <==>
            |s.output| <= NETWORK_BLOCK_SIZE
  {
    hide Send, LegalEvent;
    assert es[..0] == [];
    if es == [] {
    } else if |s.output| <= NETWORK_BLOCK_SIZE {
      var n := |es| - 1;
      BoundExactly(s, es[..n]);
      assert es[..n][..n] == es[..n] && es[..|es|] == es;
      SendBound(Sends(s, es[..n]), es[n]);
      forall k | 0 <= k <= |es|
        ensures LegalSends(s, es[..k]) && |Sends(s, es[..k]).output| <= NETWORK_BLOCK_SIZE
      {
        if k <= n {
          assert es[..n][..k] == es[..k];
        } else {
          assert es[..k] == es;
        }
      }
    }
  }

  // ----- what a failed send costs

  /** Bytes that were delivered or still can be. */
  function Budget(s: Session): nat
  {
    |s.wire| + |s.output| + |s.Unread()|
  }

  lemma SendBudget(s: Session, e: Event)
    requires Sane(s) && LegalEvent(s, e)
    ensures var s' := Send(s, e.read, e.sent);
      && Sane(s') && s'.pump.value.file == s.pump.value.file
      && (e.sent >= 0 ==> Budget(s') == Budget(s))
      && (e.sent < 0 ==> Budget(s') < Budget(s))
  {
    hide Fill, Drain, LegalRead, LegalSend;
    FillBudget(s, e.read);
    DrainBudget(Fill(s, e.read), e.sent);
  }

  lemma FillBudget(s: Session, read: nat)
    requires Sane(s) && LegalRead(s, read)
    ensures var s' := Fill(s, read);
      Sane(s') && s'.pump.value.file == s.pump.value.file && Budget(s') == Budget(s)
  {
  }

  lemma DrainBudget(s: Session, sent: int)
    requires Sane(s) && LegalSend(s, sent)
    ensures var s' := Drain(s, sent);
      && Sane(s') && s'.pump == s.pump
      && (sent >= 0 ==> Budget(s') == Budget(s)) && (sent < 0 ==> Budget(s') < Budget(s))
  {
  }

  /** A send that fails loses the bytes that were in the buffer, for good. */
  lemma {:induction false} SendsBudget(s: Session, es: seq<Event>, due: string)
    requires Opened(s, due) && LegalSends(s, es)
    ensures Sane(Sends(s, es))
    ensures NoError(es) ==> Budget(Sends(s, es)) == |s.wire| + |due|
    ensures !NoError(es) ==> Budget(Sends(s, es)) < |s.wire| + |due|
  {
    if es != [] {
      var n := |es| - 1;
      hide Send, Budget, LegalEvent, NoError;
      SendsBudget(s, es[..n], due);
      SendBudget(Sends(s, es[..n]), es[n]);
      NoErrorSnoc(es);
    } else {
      assert NoError(es);
    }
  }

  lemma NoErrorSnoc(es: seq<Event>)
    requires es != []
    ensures NoError(es) <==> NoError(es[..|es| - 1]) && es[|es| - 1].sent >= 0
  {
  }

  /** The read of this call meets the end of the file, and its send accepts all that is buffered. */
  predicate CleanFinish(s: Session, e: Event)
  {
    |s.output| < NETWORK_BLOCK_SIZE && s.Unread() == [] && e.sent == |s.output|
  }

  /**
   A completed transfer has put all that was due on the wire exactly when no send failed and
   the call that completed it was a clean finish: the code marks the transfer completed as
   soon as a read returns 0 or a send accepts nothing, whatever is still buffered.
   */
  lemma DeliveredExactly(s: Session, es: seq<Event>, due: string)
    requires Opened(s, due) && LegalSends(s, es) && es != [] && Sends(s, es).completed
    ensures var n := |es| - 1;
      Sends(s, es).wire == s.wire + due <==> NoError(es) && CleanFinish(Sends(s, es[..n]), es[n])
  {
    hide Opened, Send, LegalEvent, Flow, CleanFinish, Sane;
    var n := |es| - 1;
    SendsBudget(s, es, due);
    if NoError(es) {
      NoErrorSnoc(es);
      SendsBudget(s, es[..n], due);
      SendsFlow(s, es, due);
      FlowWhole(Sends(s, es), due, s.wire);
      CompletedHow(Sends(s, es[..n]), es[n]);
    }
  }

  lemma FlowWhole(s: Session, due: string, w0: string)
    requires Flow(s, due, w0)
    ensures s.wire == w0 + due <==> s.output == [] && s.Unread() == []
  {
    var rest := s.output + s.Unread();
    assert |s.wire| + |rest| == |w0 + due|;
    if rest == [] {
      assert s.wire + [] == s.wire;
    }
  }

  /** Completion with nothing left is that the read met the end and the send took the rest. */
  lemma CompletedHow(s: Session, e: Event)
    requires Sane(s) && !s.completed && LegalEvent(s, e) && Send(s, e.read, e.sent).completed && e.sent >= 0
    ensures var s' := Send(s, e.read, e.sent);
      s'.output == [] && s'.Unread() == [] <==> CleanFinish(s, e)
  {
  }

  // ----- termination

  lemma SendProgress(s: Session, e: Event)
    requires Sane(s) && LegalEvent(s, e)
    ensures var s' := Send(s, e.read, e.sent);
      !s'.completed ==> |s'.output| + |s'.Unread()| < |s.output| + |s.Unread()|
  {
    hide Fill, Drain, LegalRead, LegalSend;
    FillBudget(s, e.read);
    FillOffers(s, e.read);
    DrainShortens(Fill(s, e.read), e.sent);
  }

  /** A read that does not complete the transfer leaves something to send. */
  lemma FillOffers(s: Session, read: nat)
    requires Sane(s) && LegalRead(s, read)
    ensures Fill(s, read).wire == s.wire && (Fill(s, read).output == [] ==> Fill(s, read).completed)
  {
  }

  lemma DrainShortens(s: Session, sent: int)
    requires LegalSend(s, sent)
    ensures var s' := Drain(s, sent);
      && s'.pump == s.pump && (s.completed ==> s'.completed)
      && (s.output != [] && !s'.completed ==> |s'.output| < |s.output|)
  {
  }

  /**
   Whatever the reads and sends report, a transfer is completed after at most |due| + 1
   calls: a call that does not complete it takes at least one byte out of it.
   */
  lemma {:induction false} SendsTerminate(s: Session, es: seq<Event>, due: string)
    requires Opened(s, due) && LegalSends(s, es)
    ensures !Sends(s, es).completed ==>
      |es| + |Sends(s, es).output| + |Sends(s, es).Unread()| <= |due|
    ensures |es| <= |due| + 1
  {
    hide Send, LegalEvent, Sane;
    if es != [] {
      var n := |es| - 1;
      SendsTerminate(s, es[..n], due);
      SendsBudget(s, es[..n], due);
      SendProgress(Sends(s, es[..n]), es[n]);
    }
  }

  // ----- as passes of the service loop

  predicate AllWritable(ticks: seq<Tick>)
  {
    forall i | 0 <= i < |ticks| :: ticks[i].poll.Writable?
  }

  function EventsOf(ticks: seq<Tick>): seq<Event>
    requires AllWritable(ticks)
  {
    seq(|ticks|, i requires 0 <= i < |ticks| => Event(ticks[i].poll.read, ticks[i].poll.sent))
  }

  /** While no request is complete, passes that find the client writable are the calls of a transfer. */
  lemma {:induction false} RunIsSends(s: Session, h: Host, ticks: seq<Tick>)
    requires s.active && s.Transferring() && !Requests.IsComplete(s.input)
    requires LegalRun(s, h, ticks) && AllWritable(ticks)
    ensures LegalSends(s, EventsOf(ticks)) && Run(s, h, ticks) == Sends(s, EventsOf(ticks))
    ensures var s' := Run(s, h, ticks);
      s'.active && s'.Transferring() && s'.input == s.input
  {
    hide Pass, LegalTick, Send, LegalEvent, Requests.IsComplete;
    if ticks != [] {
      var n := |ticks| - 1;
      RunIsSends(s, h, ticks[..n]);
      assert EventsOf(ticks)[..n] == EventsOf(ticks[..n]);
      PassIsSend(Run(s, h, ticks[..n]), h, ticks[n]);
    }
  }

  lemma PassIsSend(s: Session, h: Host, tick: Tick)
    requires s.active && s.Transferring() && !Requests.IsComplete(s.input)
    requires LegalTick(s, h, tick) && tick.poll.Writable?
    ensures !s.completed && LegalEvent(s, Event(tick.poll.read, tick.poll.sent))
    ensures var s' := Pass(s, h, tick);
      && s' == Send(s, tick.poll.read, tick.poll.sent)
      && s'.active && s'.Transferring() && s'.input == s.input
  {
    hide Requests.IsComplete;
  }

  // ----- Content-Length

  /** plain_transfer_open announces the file's size truthfully exactly when it fits an int. */
  lemma OpenAnnounces(s: Session, h: Host)
    requires s.path.Some? && h.regular(s.path.value).Some? && h.opens(s.path.value)
    ensures var file, s' := h.regular(s.path.value).value, Open(s, h);
      && s'.outbound[..|s.outbound|] == s.outbound && |s'.outbound| == |s.outbound| + 2
      && s'.outbound[|s.outbound| + 1].name == "Content-Length"
      && (ReadDecimal(s'.outbound[|s.outbound| + 1].value) == Some(|file|) <==> |file| < 0x8000_0000)
      && (|s.output| <= NETWORK_BLOCK_SIZE ==> Opened(s', s.output + file))
  {
    DecimalFaithful(|h.regular(s.path.value).value|);
  }

  /** After a clean transfer the bytes sent are as many as announced, up to that size. */
  lemma AnnouncedIsSent(s: Session, h: Host, es: seq<Event>)
    requires s.path.Some? && h.regular(s.path.value).Some? && h.opens(s.path.value) && s.output == []
    requires LegalSends(Open(s, h), es) && es != [] && Sends(Open(s, h), es).completed
    requires NoError(es) && CleanFinish(Sends(Open(s, h), es[..|es| - 1]), es[|es| - 1])
    ensures var end, announced := Sends(Open(s, h), es), Open(s, h).outbound[|s.outbound| + 1].value;
      ReadDecimal(announced) == Some(|end.wire| - |s.wire|) <==> |end.wire| - |s.wire| < 0x8000_0000
  {
    OpenAnnounces(s, h);
    DeliveredExactly(Open(s, h), es, s.output + h.regular(s.path.value).value);
  }
}
