/**
 What a client can count on from one connection: which request gets which file, when the
 connection persists, and what happens after an error.
 */
module Connections {
  import opened CText
  import opened Headers
  import Percent
  import Requests
  import opened Sessions
  import opened Answers

  // ----- requests as a client writes them

  predicate WellFormed(l: Requests.RequestLine, hs: seq<Header>, cr: string)
  {
    && Requests.IsWord(l.verb, 20) && Requests.IsWord(l.target, 1024) && Requests.IsWord(l.proto, 20)
    && (cr == "" || cr == "\r")
    && (forall i | 0 <= i < |hs| :: Requests.Printable(hs[i]))
    && NUL !in Requests.PrintRequest(l, hs, cr)
  }

  /** The answer to a printed request, from the parts it was printed from. */
  lemma AnswerToPrinted(h: Host, vhost: VHost, l: Requests.RequestLine, hs: seq<Header>, cr: string, date: string)
    requires WellFormed(l, hs, cr)
    ensures AnswerTo(h, vhost, Requests.PrintRequest(l, hs, cr), date) == AnswerLine(h, vhost, l, hs, [], date)
  {
    hide Requests.PrintRequest, Before, After, CStr, Requests.ScanLine, Requests.HeaderLines, AnswerLine;
    var text := Requests.PrintRequest(l, hs, cr);
    CStrWhole(text);
    Requests.RequestRoundTrip(l, hs, cr);
  }

  /**
   A GET of a percent-encoded path with a query is answered with the file at that path on the
   virtual host the request is for: with the decoded path, whatever characters it is made of, as
   long as they are 7-bit, and whatever the header lines are.
   */
  lemma EncodedPathIsServed(h: Host, vhost: VHost, p: string, q: string, hs: seq<Header>, cr: string, date: string)
    requires Percent.IsCText(p) && Percent.Is7Bit(p)
    requires WellFormed(Requests.RequestLine("GET", Percent.Encode(p) + "?" + q, "HTTP/1.1"), hs, cr)
    requires HostFor(h, vhost, hs).Some? && FileFor(h, HostFor(h, vhost, hs).value, p).Some?
    ensures
      var request := Requests.PrintRequest(Requests.RequestLine("GET", Percent.Encode(p) + "?" + q, "HTTP/1.1"), hs, cr);
      var v, keep := HostFor(h, vhost, hs).value, AsksToKeep(hs);
      var file := FileFor(h, v, p).value;
      AnswerTo(h, vhost, request, date) ==
        Some(Answer(HeadText("1.1", FileFields(date, |file|, h.mime(LocalPath(v, p)), !keep)), file, keep, v))
  {
    hide Requests.PrintRequest, AnswerTo, WellFormed, HeadText, FileFields, HostFor, FileFor, LocalPath, AsksToKeep, Percent.Encode,
      Requests.UriOf, Requests.QueryOf, Requests.FindMethod, Requests.VersionOf;
    var l := Requests.RequestLine("GET", Percent.Encode(p) + "?" + q, "HTTP/1.1");
    AnswerToPrinted(h, vhost, l, hs, cr, date);
    Requests.TargetRoundTrip(p, q);
    GetIsKnown();
    var v := HostFor(h, vhost, hs).value;
    NoExtra(FileFields(date, |FileFor(h, v, p).value|, h.mime(LocalPath(v, p)), !AsksToKeep(hs)));
  }

  lemma NoExtra(fields: seq<Header>)
    ensures [] + fields == fields
  {
  }

  lemma GetIsKnown()
    ensures Requests.FindMethod(Requests.METHODS, "GET") != None
    ensures Requests.VersionOf("HTTP/1.1") == Requests.Http11
  {
    LaterMatch(Requests.METHODS, "GET", 0);
    assert "HTTP/1.1"[5..] == "1.1";
    assert "HTTP/1.1"[..5] == "HTTP/";
    assert !("1.0" <= "1.1") by { assert "1.0"[2] != "1.1"[2]; }
  }

  lemma {:induction false} LaterMatch(methods: seq<string>, name: string, i: nat)
    requires i < |methods| && EqNoCase(methods[i], name)
    ensures Requests.FindMethod(methods, name) != None
  {
    if i < |methods| - 1 {
      LaterMatch(methods[..|methods| - 1], name, i);
    }
  }

  // ----- persistence

  /**
   A connection persists behind an answered request exactly when the version is 1.1 and the
   text between the first and the second colon of the first Connection line is Keep-Alive,
   with no space and no CR around it.
   */
  lemma PersistsExactly(h: Host, vhost: VHost, l: Requests.RequestLine, hs: seq<Header>, cr: string, date: string)
    requires WellFormed(l, hs, cr) && AnswerTo(h, vhost, Requests.PrintRequest(l, hs, cr), date).Some?
    ensures AnswerTo(h, vhost, Requests.PrintRequest(l, hs, cr), date).value.keep <==>
            && Requests.VersionOf(l.proto).Http11?
            && exists i | 0 <= i < |hs| ::
                 && hs[i].name == "Connection" && EqNoCase(hs[i].value, "Keep-Alive")
                 && forall j | 0 <= j < i :: hs[j].name != "Connection"
  {
    hide Requests.PrintRequest, AnswerTo, WellFormed, HeadText, FileFields, FileFor, LocalPath, HostFor, Requests.UriOf, Requests.VersionOf,
      Requests.FindMethod, EqNoCase;
    AnswerToPrinted(h, vhost, l, hs, cr, date);
    GetIsFirst(hs, None, "Connection");
    FirstIsUnique(hs, "Connection");
  }

  lemma FirstIsUnique(hs: seq<Header>, name: string)
    ensures forall i, j | 0 <= i < |hs| && 0 <= j < |hs| && hs[i].name == name && hs[j].name == name
              && (forall k | 0 <= k < i :: hs[k].name != name) && (forall k | 0 <= k < j :: hs[k].name != name) :: i == j
  {
  }

  /**
   RFC 9112, section 9.3, makes HTTP/1.1 connections persistent unless the client says close.
   Here they close when the client says nothing, and also when it says Keep-Alive the way a
   field line is usually written, with a space behind the colon or a CR at the end.
   */
  lemma UsualSpellingsClose(h: Host, vhost: VHost, l: Requests.RequestLine, hs: seq<Header>, cr: string, date: string)
    requires WellFormed(l, hs, cr) && AnswerTo(h, vhost, Requests.PrintRequest(l, hs, cr), date).Some?
    requires Get(hs, None, "Connection") in {None, Some(" Keep-Alive"), Some("Keep-Alive\r"), Some(" Keep-Alive\r")}
    ensures !AnswerTo(h, vhost, Requests.PrintRequest(l, hs, cr), date).value.keep
  {
    hide Requests.PrintRequest, AnswerTo, WellFormed, HeadText, FileFields, FileFor, LocalPath, HostFor, Requests.UriOf, Requests.VersionOf,
      Requests.FindMethod;
    AnswerToPrinted(h, vhost, l, hs, cr, date);
    assert |"Keep-Alive"| == 10 && |" Keep-Alive"| == 11 && |"Keep-Alive\r"| == 11 && |" Keep-Alive\r"| == 12;
  }

  /** An HTTP/1.0 client that asks to keep the connection is told so in the head, and is closed. */
  lemma Http10PromisedInVain(h: Host, vhost: VHost, l: Requests.RequestLine, hs: seq<Header>, cr: string, date: string)
    requires WellFormed(l, hs, cr) && AnswerTo(h, vhost, Requests.PrintRequest(l, hs, cr), date).Some?
    requires Requests.VersionOf(l.proto).Http10? && AsksToKeep(hs)
    ensures var a := AnswerTo(h, vhost, Requests.PrintRequest(l, hs, cr), date).value;
      && !a.keep
      && a.head == HeadText("1.0", FileFields(date, |a.body|, h.mime(LocalPath(a.vhost, Requests.UriOf(l.target))), false))
  {
    hide Requests.PrintRequest, AnswerTo, WellFormed, HeadText, FileFields, FileFor, LocalPath, HostFor, Requests.UriOf, Requests.VersionOf,
      Requests.FindMethod, AsksToKeep;
    AnswerToPrinted(h, vhost, l, hs, cr, date);
    var a := AnswerLine(h, vhost, l, hs, [], date).value;
    NoExtra(FileFields(date, |a.body|, h.mime(LocalPath(a.vhost, Requests.UriOf(l.target))), false));
  }

  // ----- result codes

  /**
   The result code of a request, from its text and three things the connection remembers: its
   virtual host, whether it has ever seen a known method, and the result code so far.
   */
  function Verdict(h: Host, vhost: VHost, known: bool, prior: int, request: string): int
  {
    var text := CStr(request);
    match Requests.ScanLine(Before(text, '\n'))
    case None => 400
    case Some(line) => LineVerdict(h, vhost, known, prior, line, Requests.HeaderLines(After(text, '\n')))
  }

  function LineVerdict(h: Host, vhost: VHost, known: bool, prior: int, line: Requests.RequestLine, headers: seq<Header>): int
  {
    match Requests.VersionOf(line.proto)
    case NotHttp => 400
    case Unsupported => 505
    case _ =>
      if Requests.FindMethod(Requests.METHODS, line.verb) == None && !known then 501
      else PathCode(h, HostFor(h, vhost, headers), Requests.UriOf(line.target), prior)
  }

  /** An unknown host or a path that is not on disk is not found; otherwise an earlier code stands. */
  function PathCode(h: Host, vhost: Option<VHost>, uri: string, prior: int): int
  {
    match vhost
    case None => 404
    case Some(v) => if h.realpath(LocalPath(v, uri)) == None then 404 else if prior == 0 then 200 else prior
  }

  /** On a connection that was cleared every request gets its verdict. */
  lemma ResultCodeExact(s: Session, h: Host, date: string)
    requires s.flags == NO_FLAGS && s.inbound == []
    ensures Parse(s, h, date).resultCode == Verdict(h, s.vhost, s.verb.Some?, s.resultCode, s.input)
  {
    hide ParseLine, LineVerdict, Requests.ScanLine, CStr, Before, After, Requests.HeaderLines, Requests.CutFirst;
    var text := CStr(s.input);
    var scanned := Requests.ScanLine(Before(text, '\n'));
    if scanned.Some? {
      LineCode(Begun(s, date), h, scanned.value, After(text, '\n'));
    }
  }

  lemma LineCode(s: Session, h: Host, line: Requests.RequestLine, rest: Option<string>)
    requires s.flags == NO_FLAGS && s.inbound == []
    ensures ParseLine(s, h, line, rest).resultCode ==
            LineVerdict(h, s.vhost, s.verb.Some?, s.resultCode, line, Requests.HeaderLines(rest))
  {
    hide Requests.HeaderLines, Requests.FindMethod, Requests.VersionOf, LocalPath, Requests.UriOf, Requests.QueryOf,
      ParseRest, PathCode, KeepAliveFlags, HostFor;
    var version := Requests.VersionOf(line.proto);
    if version.Http10? || version.Http11? {
      var s1 := FindVerb(s.(flags := VersionFlags(s.flags, version)), line.verb);
      if s1.verb.Some? {
        RestCode(s1, h, line.target, rest);
      } else {
        NoVerbCode(s1, h, line.target, rest);
      }
    }
  }

  lemma NoVerbCode(s: Session, h: Host, target: string, rest: Option<string>)
    requires s.verb.None?
    ensures ParseRest(s, h, target, rest).resultCode == NOT_IMPLEMENTED
  {
  }

  lemma RestCode(s: Session, h: Host, target: string, rest: Option<string>)
    requires s.verb.Some? && s.flags.http11 && s.inbound == []
    ensures ParseRest(s, h, target, rest).resultCode ==
            PathCode(h, HostFor(h, s.vhost, Requests.HeaderLines(rest)), Requests.UriOf(target), s.resultCode)
  {
    hide Requests.HeaderLines, Requests.UriOf, Requests.QueryOf, KeepAliveFlags, HostFor, Resolve, ChooseHost;
    var headers := Requests.HeaderLines(rest);
    assert s.inbound + headers == headers;
    KeepsHttp11(s.flags, headers);
    var s1 := WithHeaders(s, headers, target);
    HostChosen(s1, h);
    ResolveCode(ChooseHost(s1, h), h);
  }

  lemma KeepsHttp11(f: Flags, headers: seq<Header>)
    ensures KeepAliveFlags(f, headers).http11 == f.http11
  {
  }

  lemma HostChosen(s: Session, h: Host)
    requires s.flags.http11
    ensures var s', v := ChooseHost(s, h), HostFor(h, s.vhost, s.inbound);
      if v == None then s'.resultCode == NOT_FOUND
      else s'.vhost == v.value && s'.resultCode == s.resultCode
  {
  }

  lemma ResolveCode(s: Session, h: Host)
    requires s.uri.Some?
    ensures Resolve(s, h).resultCode ==
            if h.realpath(LocalPath(s.vhost, s.uri.value)) == None then NOT_FOUND
            else if s.resultCode == 0 then OK else s.resultCode
  {
    hide LocalPath, Contains;
  }

  // ----- errors

  predicate Failed(s: Session)
  {
    s.resultCode != 0 && s.resultCode != OK
  }

  lemma ParseStaysFailed(s: Session, h: Host, date: string)
    requires Failed(s)
    ensures Failed(Parse(s, h, date))
  {
    hide ParseLine, Requests.ScanLine, CStr, Before, After, Requests.CutFirst;
    var text := CStr(s.input);
    var scanned := Requests.ScanLine(Before(text, '\n'));
    if scanned.Some? {
      LineStaysFailed(Begun(s, date), h, scanned.value, After(text, '\n'));
    }
  }

  lemma LineStaysFailed(s: Session, h: Host, line: Requests.RequestLine, rest: Option<string>)
    requires Failed(s)
    ensures Failed(ParseLine(s, h, line, rest))
  {
    hide VersionFlags, Requests.FindMethod, Requests.VersionOf, ParseHead, Resolve;
    var s1 := FindVerb(s.(flags := VersionFlags(s.flags, Requests.VersionOf(line.proto))), line.verb);
    HeadStaysFailed(s1, h, line.target, rest);
    ResolveStaysFailed(ParseHead(s1, h, line.target, rest), h);
  }

  lemma HeadStaysFailed(s: Session, h: Host, target: string, rest: Option<string>)
    requires Failed(s)
    ensures Failed(ParseHead(s, h, target, rest))
  {
    hide KeepAliveFlags, Requests.HeaderLines, Requests.UriOf, Requests.QueryOf, Get;
  }

  lemma ResolveStaysFailed(s: Session, h: Host)
    requires Failed(s) && s.uri.Some?
    ensures Failed(Resolve(s, h))
  {
    hide LocalPath, Contains;
  }

  lemma PrepareStaysFailed(s: Session, h: Host)
    requires Failed(s)
    ensures Prepare(s, h).resultCode == s.resultCode
  {
  }

  lemma ServeStaysFailed(s: Session, h: Host, tick: Tick)
    requires Failed(s) && LegalServe(s, h, tick)
    ensures Failed(Serve(s, h, tick))
  {
    hide Parse, Prepare, HeadPieces, Dispatches;
    ParseStaysFailed(s, h, tick.date);
    PrepareStaysFailed(Parse(s, h, tick.date), h);
  }

  lemma PolledStaysFailed(s: Session, p: Poll)
    requires Failed(s) && LegalPoll(s, p)
    ensures Failed(Polled(s, p))
  {
    hide Polled, LegalPoll;
    PolledIs(s, p);
  }

  lemma PassStaysFailed(s: Session, h: Host, tick: Tick)
    requires Failed(s) && LegalTick(s, h, tick)
    ensures Failed(Pass(s, h, tick))
  {
    hide LegalServe, Serve, LegalPoll, Polled;
    if s.active && !Finished(s) {
      ServeStaysFailed(s, h, tick);
      PolledStaysFailed(Serve(s, h, tick), tick.poll);
    }
  }

  /**
   The result code outlives the request: after one error on a connection, every later response
   on it is an error too, whatever is asked for.
   */
  lemma {:induction false} ErrorsAreForGood(s: Session, h: Host, ticks: seq<Tick>)
    requires Failed(s) && LegalRun(s, h, ticks)
    ensures Failed(Run(s, h, ticks))
    ensures forall tick :: var s' := Run(s, h, ticks);
      LegalServe(s', h, tick) && Dispatches(s') ==> Prepare(Parse(s', h, tick.date), h).resultCode !in {0, OK}
  {
    hide Parse, Pass, LegalTick;
    if ticks != [] {
      var n := |ticks| - 1;
      ErrorsAreForGood(s, h, ticks[..n]);
      PassStaysFailed(Run(s, h, ticks[..n]), h, ticks[n]);
    }
    var s' := Run(s, h, ticks);
    forall tick | LegalServe(s', h, tick) && Dispatches(s')
      ensures Prepare(Parse(s', h, tick.date), h).resultCode !in {0, OK}
    {
      ParseStaysFailed(s', h, tick.date);
      PrepareStaysFailed(Parse(s', h, tick.date), h);
    }
  }
}
