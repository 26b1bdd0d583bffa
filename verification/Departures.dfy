/**
 How clients leave: a broken socket is noticed at once and for good, the end of a client's stream
 is not noticed at all.
 */
module Departures {
  import opened CText
  import Requests
  import opened Sessions
  import opened KeepAlive

  /** Nothing happens to a client that is inactive. */
  lemma {:induction false} InactiveStays(s: Session, h: Host, ticks: seq<Tick>)
    requires !s.active && LegalRun(s, h, ticks)
    ensures Run(s, h, ticks) == s && Exchanges(s, h, ticks) == []
  {
    hide LegalServe, Serve, LegalPoll, Polled;
    if ticks != [] {
      InactiveStays(s, h, ticks[..|ticks| - 1]);
    }
  }

  /**
   Once poll reports an error or a hang-up the client is inactive: over every later run nothing
   is sent to it and no request of it is served. Its transport is left to the sweep.
   */
  lemma BrokenForGood(s: Session, h: Host, tick: Tick, ticks: seq<Tick>)
    requires s.active && !Finished(s) && LegalTick(s, h, tick) && tick.poll.Broken?
    requires LegalRun(Pass(s, h, tick), h, ticks)
    ensures Exchanges(Pass(s, h, tick), h, ticks) == []
    ensures var end := Run(Pass(s, h, tick), h, ticks);
      && !end.active && end.wire == Serve(s, h, tick).wire && end.closed == Serve(s, h, tick).closed
      && end == Serve(s, h, tick).(active := false)
  {
    hide LegalServe, Serve;
    InactiveStays(Pass(s, h, tick), h, ticks);
  }

  /**
   A client that ends its stream between two responses is marked completed and nothing else: it
   stays active, and as no transfer is in progress no pass takes the mark for a finished one.
   */
  lemma EndOfStreamUnnoticed(s: Session, h: Host, tick: Tick)
    requires s.active && !s.inProgress && LegalTick(s, h, tick) && tick.poll == Readable("")
    ensures var s' := Pass(s, h, tick);
      s' == Serve(s, h, tick).(completed := true) && (!Dispatches(s) ==> s'.active && !Finished(s') && s'.input == s.input)
  {
    hide LegalServe, Requests.IsComplete;
  }

  /** A cleared connection is like a new one but for what it remembers. */
  lemma ClearedRemembers(s: Session)
    ensures Clear(s) == NewSession(s.vhost).(active := s.active, closed := s.closed, localpath := s.localpath, path := s.path,
      inProgress := s.inProgress, completed := s.completed, resultCode := s.resultCode, verb := s.verb, isCgi := s.isCgi, wire := s.wire)
  {
  }

  /** A new connection, field by field. */
  lemma NewWritten(vhost: VHost)
    ensures var s := NewSession(vhost);
      && s.active && !s.closed && !s.inProgress && !s.completed && !s.isCgi && s.resultCode == 0 && s.verb == None
      && s.input == "" && s.output == "" && s.wire == "" && s.inbound == [] && s.outbound == [] && s.flags == Flags(false, false, false)
      && s.uri == None && s.query == None && s.localpath == "" && s.path == None && s.pump == None && s.vhost == vhost
  {
  }
}
