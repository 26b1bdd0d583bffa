/**
 What a response without a transfer leaves on the connection, and what the next request makes of
 it. Only the pass that finishes a transfer clears a connection, and a directory listing, like a
 refusal decided in dispatch_request, starts none.
 */
module Leftovers {
  import opened CText
  import opened Headers
  import Requests
  import opened Sessions
  import opened Answers
  import opened Delivery
  import opened KeepAlive
  import opened Rejections
  import Listings

  // ----- until the next request

  /** Everything but the input, the buffered output, the wire and whether the client is still there. */
  predicate SameLeft(s: Session, s': Session)
  {
    && s'.flags == s.flags && s'.inbound == s.inbound && s'.outbound == s.outbound && s'.vhost == s.vhost
    && s'.verb == s.verb && s'.resultCode == s.resultCode && s'.isCgi == s.isCgi && s'.inProgress == s.inProgress
  }

  predicate NoFailedSend(ticks: seq<Tick>)
  {
    forall i | 0 <= i < |ticks| :: ticks[i].poll.Writable? ==> ticks[i].poll.sent >= 0
  }

  lemma PolledLeft(s: Session, p: Poll)
    requires !s.inProgress && LegalPoll(s, p)
    ensures SameLeft(s, Polled(s, p))
    ensures (p.Writable? ==> p.sent >= 0) ==> Polled(s, p).wire + Polled(s, p).output == s.wire + s.output
  {
    hide Send;
    PolledIs(s, p);
    if p.Writable? && p.sent >= 0 {
      Listings.OneDrain(s, p.sent);
    }
  }

  lemma QuietPass(s: Session, h: Host, tick: Tick)
    requires !s.inProgress && LegalTick(s, h, tick) && !Dispatches(s)
    ensures var s' := Pass(s, h, tick);
      && SameLeft(s, s')
      && (NoFailedSend([tick]) ==> s'.wire + s'.output == s.wire + s.output)
  {
    hide SameLeft, Polled, LegalPoll, Dispatches;
    Itself(s);
    if s.active {
      PolledLeft(s, tick.poll);
      assert NoFailedSend([tick]) ==> [tick][0].poll.Writable? ==> tick.poll.sent >= 0;
    }
  }

  lemma Itself(s: Session)
    ensures SameLeft(s, s)
  {
  }

  lemma SameLeftTwice(s: Session, s1: Session, s2: Session)
    requires SameLeft(s, s1) && SameLeft(s1, s2)
    ensures SameLeft(s, s2) && s2.inProgress == s.inProgress
  {
  }

  lemma NoFailedSnoc(ticks: seq<Tick>)
    requires ticks != [] && NoFailedSend(ticks)
    ensures NoFailedSend(ticks[..|ticks| - 1]) && NoFailedSend([ticks[|ticks| - 1]])
  {
  }

  /**
   Over every run in which no request is dispatched everything that is left over stays; and as
   long as no send fails, sent and buffered bytes are what they were, in order.
   */
  lemma {:induction false} LeftoverStays(s: Session, h: Host, ticks: seq<Tick>)
    requires !s.inProgress && LegalRun(s, h, ticks) && Exchanges(s, h, ticks) == []
    ensures SameLeft(s, Run(s, h, ticks)) && !Run(s, h, ticks).inProgress
    ensures NoFailedSend(ticks) ==> Run(s, h, ticks).wire + Run(s, h, ticks).output == s.wire + s.output
  {
    hide SameLeft, Pass, LegalTick, Dispatches, NoFailedSend;
    if ticks == [] {
      Itself(s);
    } else {
      var n := |ticks| - 1;
      var before := Run(s, h, ticks[..n]);
      LeftoverStays(s, h, ticks[..n]);
      QuietPass(before, h, ticks[n]);
      SameLeftTwice(s, before, Run(s, h, ticks));
      if NoFailedSend(ticks) {
        NoFailedSnoc(ticks);
      }
    }
  }

  /**
   Whatever opens no file, a listing or a refusal with 403, 404 or 500 decided in dispatch_request,
   leaves flags, header lines and fields to the next request, whenever that comes.
   */
  lemma UnopenedRun(s: Session, h: Host, t1: Tick, ticks: seq<Tick>)
    requires Dispatches(s) && !s.inProgress && LegalTick(s, h, t1)
    requires Parse(s, h, t1.date).resultCode == OK && !Serve(s, h, t1).inProgress
    requires LegalRun(Pass(s, h, t1), h, ticks) && Exchanges(Pass(s, h, t1), h, ticks) == []
    ensures
      var p, s2 := Parse(s, h, t1.date), Run(Pass(s, h, t1), h, ticks);
      && !s2.inProgress && s2.flags == p.flags && s2.inbound == p.inbound && s2.vhost == p.vhost
      && s2.outbound == Prepare(p, h).outbound + [ConnectionHeader(p.flags)]
      && s2.resultCode == Prepare(p, h).resultCode
  {
    hide Parse, Serve, LegalServe, Prepare, LegalPoll, Polled, LegalRun, Run, Exchanges, Dispatches;
    NotOver(s);
    NothingCleared(s, h, t1);
    PolledLeft(Serve(s, h, t1), t1.poll);
    LeftoverStays(Pass(s, h, t1), h, ticks);
  }

  lemma NotOver(s: Session)
    requires Dispatches(s)
    ensures s.active && !Finished(s)
  {
  }

  /** Of two lists of header lines one behind the other, the earlier decides every name it has. */
  lemma {:induction false} EarlierDecides(a: seq<Header>, b: seq<Header>, name: string)
    ensures Get(a + b, None, name) == if Has(a, name) then Get(a, None, name) else Get(b, None, name)
  {
    if a == [] {
      assert a + b == b;
    } else {
      assert (a + b)[1..] == a[1..] + b;
      if a[0].name != name {
        EarlierDecides(a[1..], b, name);
        assert Has(a, name) <==> Has(a[1..], name) by {
          assert forall i | 1 <= i < |a| :: a[i] == a[1..][i - 1];
        }
      }
    }
  }

  // ----- behind a listing

  /** The fields of a listing's head. */
  function ListingFields(date: string, size: nat, close: bool): seq<Header>
  {
    [Header("Server", SERVER_VERSION_STRING), Header("Date", date),
     Header("Content-type", "text/html"), Header("Content-Length", Decimal(size)),
     Header("Connection", if close then "Close" else "Keep-Alive")]
  }

  /** The header lines of the request in an input. */
  function LinesOf(input: string): seq<Header>
  {
    Requests.HeaderLines(After(CStr(input), '\n'))
  }

  function Page(p: Session, h: Host): string
    requires p.path.Some?
  {
    Concat(PageParts(h, p.vhost, p.path.value))
  }

  /** What serving a listing on an idle connection leaves. */
  lemma ServeListing(s: Session, h: Host, tick: Tick)
    requires Idle(s) && Dispatches(s) && LegalServe(s, h, tick) && Lists(Parse(s, h, tick.date), h)
    ensures
      var p, s' := Parse(s, h, tick.date), Serve(s, h, tick);
      && s'.active && !s'.inProgress && s'.input == [] && s'.output == Page(p, h) && Ready(s')
      && s'.wire == s.wire + SentPieces(PiecesOf(Prepare(p, h), h), tick.counts)
      && s'.flags == p.flags && s'.vhost == p.vhost
      && s'.inbound == LinesOf(s.input)
      && s'.outbound == ListingFields(tick.date, |Page(p, h)|, p.flags.close)
  {
    hide Parse, PiecesOf, SentPieces, LegalCounts, PageParts, Requests.HeaderLines, After, CStr, ListingFields, Begun;
    var p := Parse(s, h, tick.date);
    ParseKeeps(s, h, tick.date);
    IdleBegun(s, p, tick.date);
    PrepareListing(p, h, tick.date);
    assert [] + LinesOf(s.input) == LinesOf(s.input);
    hide Prepare, Lists;
    assert p.isCgi == false;
  }

  lemma IdleBegun(s: Session, p: Session, date: string)
    requires Idle(s) && SameTransfer(Begun(s, date), p)
    ensures p.outbound == [Header("Server", SERVER_VERSION_STRING), Header("Date", date)]
    ensures p.active && !p.inProgress && p.output == [] && p.wire == s.wire
  {
  }

  lemma PrepareListing(p: Session, h: Host, date: string)
    requires p.resultCode == OK && p.path.Some? && !p.isCgi && Lists(p, h) && p.output == []
    requires p.outbound == [Header("Server", SERVER_VERSION_STRING), Header("Date", date)]
    ensures
      && Prepare(p, h) == p.(output := Page(p, h), outbound := Prepare(p, h).outbound)
      && Prepare(p, h).outbound + [ConnectionHeader(p.flags)] == ListingFields(date, |Page(p, h)|, p.flags.close)
  {
    hide Contains, Concat, PageParts, Decimal;
    assert [] + Page(p, h) == Page(p, h);
  }

  /** A listing is answered only in a known version, so the mark for 1.1 is left set. */
  lemma ListingMarks(s: Session, h: Host, date: string)
    requires s.flags == NO_FLAGS && Parse(s, h, date).resultCode == OK
    ensures Parse(s, h, date).flags.http11
  {
    hide ParseRest, Requests.ScanLine, CStr, Before, After, Requests.CutFirst, Requests.VersionOf, VersionFlags, FindVerb;
    if LineOf(s).Some? {
      FreshFlags(s, h, date);
    }
  }

  /** s serves a listing in pass t1, and s2 is a state it reaches from there without serving another request. */
  predicate AfterListing(s: Session, h: Host, t1: Tick, ticks: seq<Tick>, p: Session, s2: Session)
  {
    && Idle(s) && Dispatches(s) && LegalTick(s, h, t1)
    && p == Parse(s, h, t1.date) && p.resultCode == OK && !p.isCgi && Lists(p, h)
    && LegalRun(Pass(s, h, t1), h, ticks) && Exchanges(Pass(s, h, t1), h, ticks) == []
    && s2 == Run(Pass(s, h, t1), h, ticks)
  }

  /** The page goes out in the order it was made, and the connection waits with the listing's leftovers. */
  lemma ListingRun(s: Session, h: Host, t1: Tick, ticks: seq<Tick>, p: Session, s2: Session)
    requires AfterListing(s, h, t1, ticks, p, s2)
    ensures s2.inbound == LinesOf(s.input) && s2.outbound == ListingFields(t1.date, |Page(p, h)|, p.flags.close)
    ensures s2.flags == p.flags && s2.vhost == p.vhost && p.flags.http11 && (s2.active ==> Ready(s2))
    ensures NoFailedSend([t1]) && NoFailedSend(ticks) ==>
      s2.wire + s2.output == s.wire + SentPieces(PiecesOf(Prepare(p, h), h), t1.counts) + Page(p, h)
  {
    hide Parse, Serve, LegalServe, Lists, PiecesOf, Prepare, SentPieces, LegalCounts, PageParts, Dispatches, LegalPoll, Polled,
      NoFailedSend, ListingFields, LinesOf, Concat;
    IdleNotFinished(s);
    ServeListing(s, h, t1);
    ListingMarks(s, h, t1.date);
    var s1 := Serve(s, h, t1);
    PolledLeft(s1, t1.poll);
    LeftoverStays(Pass(s, h, t1), h, ticks);
    OneNoFailed(t1);
  }

  lemma OneNoFailed(tick: Tick)
    ensures NoFailedSend([tick]) ==> tick.poll.Writable? ==> tick.poll.sent >= 0
  {
    assert [tick][0] == tick;
  }

  /**
   A request behind a listing is answered as if the listing's header lines stood in front of its
   own (so that its virtual host and its persistence are the earlier request's, if that had
   such lines), with the listing's fields in front of the answer's own.
   */
  lemma BehindListing(s: Session, h: Host, t1: Tick, ticks: seq<Tick>, p: Session, s2: Session, t2: Tick, a: Answer)
    requires AfterListing(s, h, t1, ticks, p, s2)
    requires Dispatches(s2) && LegalServe(s2, h, t2) && AnswerOn(s2, h, t2.date) == Some(a)
    requires AllTaken(PiecesOf(Prepare(Parse(s2, h, t2.date), h), h), t2.counts)
    ensures LineOf(s2).Some? && p.path.Some?
    ensures
      var line, fields := LineOf(s2).value, ListingFields(t1.date, |Page(p, h)|, p.flags.close);
      var lines := if Requests.VersionOf(line.proto).Http10? then [] else LinesOf(s.input) + LinesOf(s2.input);
      var own := AnswerLine(h, p.vhost, line, lines, [], t2.date);
      && AnswerLine(h, p.vhost, line, lines, fields, t2.date) == Some(a)
      && own.Some? && own.value == a.(head := own.value.head) && |own.value.head| < |a.head|
    ensures var s3 := Serve(s2, h, t2);
      && s3.wire == s2.wire + a.head && s3.output == s2.output
      && s3.pump == Some(Pump(a.body, 0)) && s3.inProgress
  {
    hide Parse, Serve, LegalServe, PiecesOf, Prepare, Dispatches, ListingFields, Page, AllTaken, AnswerLine, AnswerOn, LinesOf, Requests.VersionOf,
      LineOf;
    DispatchesActive(s2);
    ListingRun(s, h, t1, ticks, p, s2);
    ServeReady(s2, h, t2, a);
    OnIs(s2, h, t2.date, a);
    var line := LineOf(s2).value;
    var lines := if Requests.VersionOf(line.proto).Http10? then [] else LinesOf(s.input) + LinesOf(s2.input);
    ExtraFields(h, p.vhost, line, lines, s2.outbound, t2.date, a);
    FieldsMany(t1.date, |Page(p, h)|, p.flags.close);
  }

  /**
   The output waiting in front of a file is the file transfer's from the start: the transfer's
   first read asks for a positive number of bytes, or is not made, exactly when no more than a
   block was waiting when its request was served.
   */
  lemma OverfullExactly(s: Session, h: Host, tick: Tick, a: Answer)
    requires Ready(s) && Dispatches(s) && LegalServe(s, h, tick) && AnswerOn(s, h, tick.date) == Some(a)
    requires AllTaken(PiecesOf(Prepare(Parse(s, h, tick.date), h), h), tick.counts)
    ensures var s' := Serve(s, h, tick);
      s'.Transferring() && ((exists read, sent :: LegalPoll(s', Writable(read, sent))) <==> |s.output| <= NETWORK_BLOCK_SIZE)
  {
    hide AnswerOn, Parse, Serve, LegalServe, Prepare, PiecesOf, AllTaken, Dispatches, Ready;
    ServeReady(s, h, tick, a);
    if |s.output| <= NETWORK_BLOCK_SIZE {
      assert LegalPoll(Serve(s, h, tick), Writable(0, |s.output|));
    }
  }

  /**
   The second head overtakes the page: it goes on the wire when its request is served, and what
   was left of the page then goes on the wire behind it, in front of the file.
   */
  lemma Overtaken(s: Session, h: Host, t1: Tick, ticks: seq<Tick>, p: Session, s2: Session, t2: Tick, a: Answer, sends: seq<Tick>)
    requires AfterListing(s, h, t1, ticks, p, s2) && NoFailedSend([t1]) && NoFailedSend(ticks)
    requires Dispatches(s2) && LegalTick(s2, h, t2) && LegalServe(s2, h, t2) && t2.poll.Quiet?
    requires AnswerOn(s2, h, t2.date) == Some(a) && |s2.output| <= NETWORK_BLOCK_SIZE
    requires AllTaken(PiecesOf(Prepare(Parse(s2, h, t2.date), h), h), t2.counts)
    requires LegalRun(Pass(s2, h, t2), h, sends) && AllWritable(sends) && NoFailedSend(sends)
    ensures s2.wire + s2.output == s.wire + SentPieces(PiecesOf(Prepare(p, h), h), t1.counts) + Page(p, h)
    ensures var end := Run(Pass(s2, h, t2), h, sends);
      && s2.wire + a.head <= end.wire
      && end.wire + (end.output + end.Unread()) == s2.wire + a.head + (s2.output + a.body)
  {
    hide AfterListing, Parse, Serve, LegalServe, Prepare, PiecesOf, AllTaken, AnswerOn, Dispatches, Run, LegalRun, SentPieces, NoFailedSend,
      Flow, Opened, Page;
    ListingRun(s, h, t1, ticks, p, s2);
    DispatchesActive(s2);
    NotOver(s2);
    ServeReady(s2, h, t2, a);
    var s3 := Pass(s2, h, t2);
    NothingComplete();
    RunIsSends(s3, h, sends);
    EventsGood(sends);
    SendsFlow(s3, EventsOf(sends), s2.output + a.body);
    FlowIs(Run(s3, h, sends), s2.output + a.body, s3.wire);
  }

  lemma EventsGood(ticks: seq<Tick>)
    requires AllWritable(ticks) && NoFailedSend(ticks)
    ensures NoError(EventsOf(ticks))
  {
  }

  lemma FlowIs(s: Session, due: string, w0: string)
    requires Flow(s, due, w0)
    ensures w0 <= s.wire && s.wire + (s.output + s.Unread()) == w0 + due
  {
  }

  lemma DispatchesActive(s: Session)
    requires Dispatches(s)
    ensures s.active
  {
  }

  lemma FieldsMany(date: string, size: nat, close: bool)
    ensures |ListingFields(date, size, close)| == 5
  {
  }

  lemma OnIs(s: Session, h: Host, date: string, a: Answer)
    requires s.flags.http11 && AnswerOn(s, h, date) == Some(a)
    ensures LineOf(s).Some? &&
      var line := LineOf(s).value;
      var lines := if Requests.VersionOf(line.proto).Http10? then [] else s.inbound + LinesOf(s.input);
      AnswerLine(h, s.vhost, line, lines, s.outbound, date) == Some(a)
  {
    hide AnswerLine, Requests.ScanLine, Requests.HeaderLines, CStr, Before, After, Requests.VersionOf;
  }

  /** Fields in front change the head, and nothing else of the answer. */
  lemma ExtraFields(h: Host, vhost: VHost, line: Requests.RequestLine, lines: seq<Header>, extra: seq<Header>, date: string, a: Answer)
    requires AnswerLine(h, vhost, line, lines, extra, date) == Some(a)
    ensures AnswerLine(h, vhost, line, lines, [], date).Some? &&
      var own := AnswerLine(h, vhost, line, lines, [], date).value;
      own == a.(head := own.head) && |a.head| >= |own.head| + |extra|
  {
    hide HostFor, FileFor, FileFields, AsksToKeep, LocalPath, FieldText, Requests.VersionOf, Requests.FindMethod, Requests.UriOf;
    var own := AnswerLine(h, vhost, line, lines, [], date).value;
    var fields := FileFields(date, |a.body|, h.mime(LocalPath(a.vhost, Requests.UriOf(line.target))), !AsksToKeep(lines));
    assert [] + fields == fields;
    FieldTextLonger(extra, fields);
  }
}
