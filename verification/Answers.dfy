/**
 The answer a request deserves, as a function of its text alone, and the proof that parsing
 and dispatching it on an idle connection sends exactly that head and opens that file; and
 what it gets on a connection that still holds what an earlier request left there.
 */
module Answers {
  import opened CText
  import opened Headers
  import Requests
  import opened Sessions
  import Delivery

  /** A 200 response with a file as its body, and whether the connection outlives it. */
  datatype Answer = Answer(head: string, body: string, keep: bool, vhost: VHost)

  function FieldText(hs: seq<Header>): string
  {
    if hs == [] then []
    else
      var n := |hs| - 1;
      FieldText(hs[..n]) + (hs[n].name + ": " + hs[n].value + "\r\n")
  }

  /** Status line, fields, blank line. */
  function HeadText(version: string, fields: seq<Header>): string
  {
    "HTTP/" + version + " " + "200 " + "OK" + "\r\n" + FieldText(fields) + "\r\n"
  }

  /** The fields of a file response, in order. */
  function FileFields(date: string, size: nat, mime: string, close: bool): seq<Header>
  {
    [Header("Server", SERVER_VERSION_STRING), Header("Date", date),
     Header("Transfer-Encoding", "plain"), Header("Content-Length", Decimal(size)),
     Header("Content-Type", mime), Header("Connection", if close then "Close" else "Keep-Alive")]
  }

  /** Whether the request's first Connection line asks for a lasting connection, byte for byte. */
  predicate AsksToKeep(headers: seq<Header>)
  {
    match Get(headers, None, "Connection")
    case None => false
    case Some(v) => EqNoCase(v, "Keep-Alive")
  }

  /** The virtual host a request is for: the one it names, or the connection's present one. */
  function HostFor(h: Host, vhost: VHost, headers: seq<Header>): Option<VHost>
  {
    match Get(headers, None, "Host")
    case None => Some(vhost)
    case Some(name) => h.vhost(name)
  }

  /** The file a uri stands for on a virtual host: existing, inside its root, no script, readable. */
  function FileFor(h: Host, vhost: VHost, uri: string): Option<string>
  {
    match h.realpath(LocalPath(vhost, uri))
    case None => None
    case Some(path) =>
      if Contains(path, vhost.documentRoot) && !Contains(vhost.cgiRoot, path) && h.opens(path)
      then h.regular(path) else None
  }

  /**
   The answer to a request line that succeeds under the given header lines; None for any other.
   `extra` are fields sent in front of the answer's own.
   */
  function AnswerLine(h: Host, vhost: VHost, line: Requests.RequestLine, headers: seq<Header>,
                      extra: seq<Header>, date: string): Option<Answer>
  {
    var version := Requests.VersionOf(line.proto);
    if !(version.Http10? || version.Http11?) || Requests.FindMethod(Requests.METHODS, line.verb) == None then None
    else match HostFor(h, vhost, headers)
      case None => None
      case Some(v) =>
        var uri := Requests.UriOf(line.target);
        match FileFor(h, v, uri)
        case None => None
        case Some(file) =>
          var keep := AsksToKeep(headers);
          var fields := extra + FileFields(date, |file|, h.mime(LocalPath(v, uri)), !keep);
          Some(Answer(HeadText(if version.Http10? then "1.0" else "1.1", fields), file, version.Http11? && keep, v))
  }

  /** The answer to a request that succeeds; None for any other request. */
  function AnswerTo(h: Host, vhost: VHost, request: string, date: string): Option<Answer>
  {
    var text := CStr(request);
    match Requests.ScanLine(Before(text, '\n'))
    case None => None
    case Some(line) => AnswerLine(h, vhost, line, Requests.HeaderLines(After(text, '\n')), [], date)
  }

  /** An HTTP/1.0 request on a connection still marked 1.1 toggles the mark off, and no header is looked at. */
  function Heard(f: Flags, proto: string, headers: seq<Header>): seq<Header>
  {
    if Requests.VersionOf(proto).Http10? && f.http11 then [] else headers
  }

  /** What the request in the input gets on a connection that may hold leftovers: see ServeReady. */
  function AnswerOn(s: Session, h: Host, date: string): Option<Answer>
  {
    var text := CStr(s.input);
    match Requests.ScanLine(Before(text, '\n'))
    case None => None
    case Some(line) =>
      var headers := s.inbound + Requests.HeaderLines(After(text, '\n'));
      AnswerLine(h, s.vhost, line, Heard(s.flags, line.proto, headers), s.outbound, date)
  }

  // ----- heads

  predicate AllTaken(pieces: seq<string>, counts: seq<int>)
  {
    |counts| == |pieces| && forall i | 0 <= i < |pieces| :: counts[i] == |pieces[i]|
  }

  /** A head arrives as it was composed exactly when every one of its sends accepts everything. */
  lemma {:induction false} HeadArrives(pieces: seq<string>, counts: seq<int>)
    requires LegalCounts(pieces, counts) && forall i | 0 <= i < |pieces| :: pieces[i] != []
    ensures SentPieces(pieces, counts) == Concat(pieces) <==> AllTaken(pieces, counts)
    ensures AllTaken(pieces, counts) <==> |SentPieces(pieces, counts)| >= |Concat(pieces)|
  {
    if pieces != [] {
      var n := |pieces| - 1;
      HeadArrives(pieces[..n], counts[..n]);
      ConcatSnoc(pieces[..n], pieces[n]);
      assert pieces == pieces[..n] + [pieces[n]];
      AllTakenSnoc(pieces, counts);
      if AllTaken(pieces[..n], counts[..n]) {
        TakenWhole(pieces[..n], counts[..n]);
      }
    }
  }

  lemma AllTakenSnoc(pieces: seq<string>, counts: seq<int>)
    requires pieces != [] && |counts| == |pieces|
    ensures var n := |pieces| - 1;
      AllTaken(pieces, counts) <==> AllTaken(pieces[..n], counts[..n]) && counts[n] == |pieces[n]|
  {
  }

  lemma {:induction false} FieldPiecesText(hs: seq<Header>)
    ensures Concat(FieldPieces(hs)) == FieldText(hs)
  {
    if hs != [] {
      var n := |hs| - 1;
      FieldPiecesText(hs[..n]);
      ConcatSnoc(FieldPieces(hs[..n]), FieldPiece(hs[n]));
      assert FieldPieces(hs) == FieldPieces(hs[..n]) + [FieldPiece(hs[n])];
    }
  }

  lemma StatusText(h: Host, f: Flags)
    requires f.http10 || f.http11
    ensures Concat(StatusPieces(h, f, OK)) ==
            "HTTP/" + (if f.http10 then "1.0" else "1.1") + " " + "200 " + "OK" + "\r\n"
  {
    var v := if f.http10 then "1.0" else "1.1";
    var first := "HTTP/" + v + " ";
    assert first == if f.http10 then "HTTP/1.0 " else "HTTP/1.1 ";
    assert Decimal(OK) == "200" by { TwoHundred(); }
    var tail := ["200 ", "OK", "\r\n"];
    assert "200" + " " == "200 ";
    assert StatusPieces(h, f, OK) == [first] + tail;
    assert tail[1..] == ["OK", "\r\n"] && tail[2..] == ["\r\n"];
    assert Concat(tail) == "200 " + ("OK" + ("\r\n" + "")) by {
      assert ["OK", "\r\n"][1..] == ["\r\n"] && ["\r\n"][1..] == [];
    }
    assert ([first] + tail)[1..] == tail;
  }

  lemma TwoHundred()
    ensures Decimal(200) == "200"
  {
    SmallInt(200);
    DigitsNext(2, 0);
    DigitsNext(20, 0);
    DigitsOne(2);
    hide Digits, Int32;
    assert Digit(2) == '2' && Digit(0) == '0';
  }

  lemma SmallInt(n: nat)
    requires n < 0x8000_0000
    ensures Int32(n) == n
  {
  }

  lemma DigitsOne(n: nat)
    requires n < 10
    ensures Digits(n) == [Digit(n)]
  {
  }

  lemma DigitsNext(n: nat, d: nat)
    requires 0 < n && d < 10
    ensures Digits(10 * n + d) == Digits(n) + [Digit(d)]
  {
  }

  /** The pieces of a 200 head, put together. */
  lemma HeadPiecesText(h: Host, f: Flags, fields: seq<Header>)
    requires f.http10 || f.http11
    ensures Concat(HeadPieces(h, f, OK, fields)) == HeadText(if f.http10 then "1.0" else "1.1", fields)
  {
    hide StatusPieces, FieldPieces, FieldText;
    StatusText(h, f);
    FieldPiecesText(fields);
    ConcatAppend(StatusPieces(h, f, OK), FieldPieces(fields));
    ConcatSnoc(StatusPieces(h, f, OK) + FieldPieces(fields), "\r\n");
  }

  // ----- serving a request

  /** No transfer under way, no error so far and no script; anything else may be left over. */
  predicate Ready(s: Session)
  {
    s.active && !s.inProgress && s.resultCode in {0, OK} && !s.isCgi
  }

  /** Between two responses: nothing is left over from the one before. */
  predicate Idle(s: Session)
  {
    && Ready(s) && s.flags == NO_FLAGS
    && s.output == [] && s.inbound == [] && s.outbound == []
  }

  lemma IdleAnswer(s: Session, h: Host, date: string)
    requires Idle(s)
    ensures AnswerOn(s, h, date) == AnswerTo(h, s.vhost, s.input, date)
  {
    hide AnswerLine, Requests.ScanLine, Requests.HeaderLines, CStr, Before, After;
    var headers := Requests.HeaderLines(After(CStr(s.input), '\n'));
    assert [] + headers == headers;
  }

  /** The flags a request that has an answer ends with. */
  function AnswerFlags(f: Flags, v: Requests.Version, keep: bool): Flags
  {
    Flags(v.Http10?, v.Http11? || !f.http11, !keep)
  }

  lemma FlagsAre(f: Flags, proto: string, headers: seq<Header>)
    requires var v := Requests.VersionOf(proto); v.Http10? || v.Http11?
    ensures var v := Requests.VersionOf(proto);
      KeepAliveFlags(VersionFlags(f, v), headers) == AnswerFlags(f, v, AsksToKeep(Heard(f, proto, headers)))
  {
    hide Requests.VersionOf;
    GetDefault(headers, "Connection", "Close");
    assert !EqNoCase("Close", "Keep-Alive");
    assert EqNoCase("Close", "Close");
  }

  lemma {:induction false} GetDefault(hs: seq<Header>, name: string, d: string)
    ensures Get(hs, Some(d), name) == match Get(hs, None, name) case None => Some(d) case Some(v) => Some(v)
  {
    if hs != [] && hs[0].name != name {
      GetDefault(hs[1..], name, d);
    }
  }

  lemma HostIs(s: Session, h: Host, headers: seq<Header>)
    requires headers == if s.flags.http11 then s.inbound else []
    requires HostFor(h, s.vhost, headers).Some?
    ensures ChooseHost(s, h) == s.(vhost := HostFor(h, s.vhost, headers).value)
  {
  }

  /** What FileFor looks at. */
  predicate Serves(h: Host, vhost: VHost, path: Option<string>, file: string)
  {
    && path.Some? && Contains(path.value, vhost.documentRoot) && !Contains(vhost.cgiRoot, path.value)
    && h.opens(path.value) && h.regular(path.value) == Some(file)
  }

  lemma FileIs(h: Host, vhost: VHost, uri: string, file: string)
    ensures FileFor(h, vhost, uri) == Some(file) <==> Serves(h, vhost, h.realpath(LocalPath(vhost, uri)), file)
  {
    hide LocalPath, Contains;
  }

  /** A path that exists and is no script. */
  predicate Found(h: Host, vhost: VHost, uri: string)
  {
    var path := h.realpath(LocalPath(vhost, uri));
    path.Some? && !Contains(vhost.cgiRoot, path.value)
  }

  lemma ResolveIs(s: Session, h: Host)
    requires s.uri.Some? && Found(h, s.vhost, s.uri.value)
    requires s.resultCode in {0, OK} && !s.isCgi
    ensures var local := LocalPath(s.vhost, s.uri.value);
      Resolve(s, h) == s.(localpath := local, path := h.realpath(local), resultCode := OK, input := [])
  {
    hide LocalPath, Contains;
  }

  /** A request for a path that is found, parsed: the fields that change, and their values. */
  lemma LineIs(s: Session, h: Host, line: Requests.RequestLine, rest: Option<string>, vhost: VHost)
    requires s.resultCode in {0, OK} && !s.isCgi
    requires var v := Requests.VersionOf(line.proto); v.Http10? || v.Http11?
    requires Requests.FindMethod(Requests.METHODS, line.verb).Some?
    requires HostFor(h, s.vhost, Heard(s.flags, line.proto, s.inbound + Requests.HeaderLines(rest))) == Some(vhost)
    requires Found(h, vhost, Requests.UriOf(line.target))
    ensures
      var version, inbound, uri := Requests.VersionOf(line.proto), s.inbound + Requests.HeaderLines(rest), Requests.UriOf(line.target);
      var local := LocalPath(vhost, uri);
      ParseLine(s, h, line, rest) ==
        s.(verb := Requests.FindMethod(Requests.METHODS, line.verb), inbound := inbound,
           flags := AnswerFlags(s.flags, version, AsksToKeep(Heard(s.flags, line.proto, inbound))),
           query := Some(Requests.QueryOf(line.target)), uri := Some(uri), vhost := vhost,
           localpath := local, path := h.realpath(local), resultCode := OK, input := [])
  {
    hide LocalPath, HostFor, AsksToKeep, Requests.HeaderLines, Requests.UriOf, Requests.QueryOf,
      Requests.FindMethod, Requests.VersionOf, VersionFlags, KeepAliveFlags, Resolve, ChooseHost, Found;
    var version, inbound := Requests.VersionOf(line.proto), s.inbound + Requests.HeaderLines(rest);
    FlagsAre(s.flags, line.proto, inbound);
    var s1 := WithHeaders(FindVerb(s.(flags := VersionFlags(s.flags, version)), line.verb), inbound, line.target);
    HostIs(s1, h, Heard(s.flags, line.proto, inbound));
    ResolveIs(s1.(vhost := vhost), h);
  }

  /** What an answer was made of. */
  lemma AnswerParts(h: Host, vhost: VHost, line: Requests.RequestLine, headers: seq<Header>, extra: seq<Header>, date: string, a: Answer)
    requires AnswerLine(h, vhost, line, headers, extra, date) == Some(a)
    ensures var v := Requests.VersionOf(line.proto); v.Http10? || v.Http11?
    ensures Requests.FindMethod(Requests.METHODS, line.verb).Some? && HostFor(h, vhost, headers) == Some(a.vhost)
    ensures var uri := Requests.UriOf(line.target);
      Found(h, a.vhost, uri) && Serves(h, a.vhost, h.realpath(LocalPath(a.vhost, uri)), a.body)
  {
    hide LocalPath, Contains, HostFor, FileFor, FileFields, HeadText, AsksToKeep, Requests.UriOf, Requests.FindMethod, Requests.VersionOf;
    FileIs(h, a.vhost, Requests.UriOf(line.target), a.body);
  }

  /** The head of an answer, in terms of the flags its request ends with. */
  lemma HeadIs(h: Host, vhost: VHost, line: Requests.RequestLine, headers: seq<Header>, extra: seq<Header>, date: string,
               f: Flags, a: Answer)
    requires AnswerLine(h, vhost, line, headers, extra, date) == Some(a)
    requires f.http10 == Requests.VersionOf(line.proto).Http10? && f.close == !AsksToKeep(headers)
    ensures a.keep <==> !f.http10 && !f.close
    ensures a.head == HeadText(if f.http10 then "1.0" else "1.1",
                               extra + FileFields(date, |a.body|, h.mime(LocalPath(a.vhost, Requests.UriOf(line.target))), f.close))
  {
    hide LocalPath, Requests.UriOf, Requests.VersionOf, Requests.FindMethod, HeadText, AsksToKeep, HostFor, FileFor, FileFields;
  }

  /** A parsed request that can be answered, in terms of the answer alone. */
  lemma ParseReady(s: Session, h: Host, date: string, a: Answer)
    requires Ready(s) && AnswerOn(s, h, date) == Some(a)
    ensures
      var s' := Parse(s, h, date);
      && s' == s.(verb := s'.verb, inbound := s'.inbound, flags := s'.flags, query := s'.query, uri := s'.uri, vhost := a.vhost,
                  localpath := s'.localpath, path := s'.path, resultCode := OK, input := [],
                  outbound := s.outbound + [Header("Server", SERVER_VERSION_STRING), Header("Date", date)])
      && Serves(h, a.vhost, s'.path, a.body)
      && (a.keep <==> !s'.flags.http10 && !s'.flags.close) && (s'.flags.http10 || s'.flags.http11)
      && a.head == HeadText(if s'.flags.http10 then "1.0" else "1.1",
                            s.outbound + FileFields(date, |a.body|, h.mime(s'.localpath), s'.flags.close))
  {
    hide AnswerLine, Requests.ScanLine, Requests.HeaderLines, CStr, Before, After, ParseLine, Serves, HeadText, FileFields, LocalPath,
      Requests.VersionOf, Requests.FindMethod, Requests.UriOf, AsksToKeep, HostFor, Found, Heard, Requests.CutFirst;
    var text := CStr(s.input);
    var line, rest := Requests.ScanLine(Before(text, '\n')).value, After(text, '\n');
    var headers := Heard(s.flags, line.proto, s.inbound + Requests.HeaderLines(rest));
    AnswerParts(h, s.vhost, line, headers, s.outbound, date, a);
    LineIs(Begun(s, date), h, line, rest, a.vhost);
    HeadIs(h, s.vhost, line, headers, s.outbound, date, Parse(s, h, date).flags, a);
  }

  /**
   What is prepared for a file on a parsed request, and the pieces of its head. `extra` are
   headers that were in the outbound list before the parse.
   */
  lemma PrepareFile(s: Session, h: Host, extra: seq<Header>, date: string, file: string)
    requires s.resultCode == OK && s.path.Some? && !s.isCgi && Contains(s.path.value, s.vhost.documentRoot)
    requires h.regular(s.path.value) == Some(file) && h.opens(s.path.value)
    requires s.outbound == extra + [Header("Server", SERVER_VERSION_STRING), Header("Date", date)]
    ensures var s' := Prepare(s, h);
      && s' == s.(outbound := s'.outbound, pump := Some(Pump(file, 0)), inProgress := true, completed := false)
      && PiecesOf(s', h) == HeadPieces(h, s.flags, OK, extra + FileFields(date, |file|, h.mime(s.localpath), s.flags.close))
  {
    hide Decimal, Contains, HeadPieces;
    var s' := Prepare(s, h);
    assert s'.outbound + [ConnectionHeader(s.flags)] == extra + FileFields(date, |file|, h.mime(s.localpath), s.flags.close);
  }

  /** The head of a file response holds its own fields and no others exactly when none were left over. */
  lemma OwnHead(s: Session, h: Host, extra: seq<Header>, date: string, file: string)
    requires s.resultCode == OK && s.path.Some? && !s.isCgi && Contains(s.path.value, s.vhost.documentRoot)
    requires h.regular(s.path.value) == Some(file) && h.opens(s.path.value)
    requires s.outbound == extra + [Header("Server", SERVER_VERSION_STRING), Header("Date", date)]
    requires s.flags.http10 || s.flags.http11
    ensures
      var fields := FileFields(date, |file|, h.mime(s.localpath), s.flags.close);
      Concat(PiecesOf(Prepare(s, h), h)) == HeadText(if s.flags.http10 then "1.0" else "1.1", fields) <==> extra == []
  {
    hide FileFields, Prepare, PiecesOf, HeadPieces, FieldText;
    var fields := FileFields(date, |file|, h.mime(s.localpath), s.flags.close);
    PrepareFile(s, h, extra, date, file);
    HeadPiecesText(h, s.flags, extra + fields);
    FieldTextLonger(extra, fields);
    if extra == [] {
      assert extra + fields == fields;
    }
  }

  lemma {:induction false} FieldTextLonger(extra: seq<Header>, hs: seq<Header>)
    ensures |FieldText(extra + hs)| >= |FieldText(hs)| + |extra|
  {
    hide FieldPiece;
    if hs == [] {
      assert extra + hs == extra;
      FieldTextLength(extra);
    } else {
      var n := |hs| - 1;
      FieldTextLonger(extra, hs[..n]);
      assert (extra + hs)[..|extra| + n] == extra + hs[..n];
    }
  }

  lemma {:induction false} FieldTextLength(hs: seq<Header>)
    ensures |FieldText(hs)| >= |hs|
  {
    if hs != [] {
      FieldTextLength(hs[..|hs| - 1]);
    }
  }

  /**
   Serving a request that can be answered, whatever is left over: the head on the wire, with the
   leftover fields in front of its own; the file open at offset 0; the output as it was.
   */
  lemma ServeReady(s: Session, h: Host, tick: Tick, a: Answer)
    requires Ready(s) && Dispatches(s) && LegalServe(s, h, tick)
    requires AnswerOn(s, h, tick.date) == Some(a)
    requires AllTaken(PiecesOf(Prepare(Parse(s, h, tick.date), h), h), tick.counts)
    ensures
      var s' := Serve(s, h, tick);
      && s'.active && s'.closed == s.closed && s'.input == [] && s'.output == s.output && s'.wire == s.wire + a.head
      && s'.pump == Some(Pump(a.body, 0)) && s'.inProgress && !s'.completed
      && (|s.output| <= NETWORK_BLOCK_SIZE ==> Delivery.Opened(s', s.output + a.body))
      && s'.resultCode == OK && !s'.isCgi && s'.vhost == a.vhost
      && (s'.flags.http10 || s'.flags.http11) && (a.keep <==> !s'.flags.http10 && !s'.flags.close)
  {
    hide AnswerOn, Parse, Prepare, PiecesOf, HeadPieces, HeadText, FileFields, Contains, Ready, AllTaken;
    ParseReady(s, h, tick.date, a);
    var p := Parse(s, h, tick.date);
    PrepareFile(p, h, s.outbound, tick.date, a.body);
    HeadPiecesText(h, p.flags, s.outbound + FileFields(tick.date, |a.body|, h.mime(p.localpath), p.flags.close));
    TakenWhole(PiecesOf(Prepare(p, h), h), tick.counts);
  }

  /** On an idle connection that is the answer its text alone deserves. */
  lemma ServeIdle(s: Session, h: Host, tick: Tick)
    requires Idle(s) && Dispatches(s) && LegalServe(s, h, tick)
    requires AnswerTo(h, s.vhost, s.input, tick.date).Some?
    requires AllTaken(PiecesOf(Prepare(Parse(s, h, tick.date), h), h), tick.counts)
    ensures
      var s', a := Serve(s, h, tick), AnswerTo(h, s.vhost, s.input, tick.date).value;
      && s'.active && s'.closed == s.closed && s'.input == [] && s'.wire == s.wire + a.head
      && s'.output == [] && Delivery.Opened(s', a.body)
      && s'.resultCode == OK && !s'.isCgi && s'.vhost == a.vhost
      && (s'.flags.http10 || s'.flags.http11) && (a.keep <==> !s'.flags.http10 && !s'.flags.close)
  {
    hide AnswerTo, AnswerOn, Serve, LegalServe, Dispatches, AllTaken, PiecesOf, Prepare, Parse;
    IdleAnswer(s, h, tick.date);
    ServeReady(s, h, tick, AnswerTo(h, s.vhost, s.input, tick.date).value);
    var body := AnswerTo(h, s.vhost, s.input, tick.date).value.body;
    assert [] + body == body;
  }

  lemma {:induction false} TakenWhole(pieces: seq<string>, counts: seq<int>)
    requires LegalCounts(pieces, counts) && AllTaken(pieces, counts)
    ensures SentPieces(pieces, counts) == Concat(pieces)
  {
    if pieces != [] {
      var n := |pieces| - 1;
      TakenWhole(pieces[..n], counts[..n]);
      ConcatSnoc(pieces[..n], pieces[n]);
      assert pieces == pieces[..n] + [pieces[n]];
    }
  }

  // ----- what a response without a transfer leaves behind

  /**
   A request whose parse succeeds and that opens no file, be it answered by a listing or refused
   with 403, 404 or 500, starts no transfer, so the pass that would clear the connection never
   comes: flags, headers of the request and fields of the response are still there.
   */
  lemma NothingCleared(s: Session, h: Host, tick: Tick)
    requires Dispatches(s) && LegalServe(s, h, tick) && !s.inProgress
    requires Parse(s, h, tick.date).resultCode == OK && !Serve(s, h, tick).inProgress
    ensures
      var p, s' := Parse(s, h, tick.date), Serve(s, h, tick);
      && s'.active && !Finished(s') && s'.input == []
      && s'.flags == p.flags && s'.inbound == p.inbound && s'.vhost == p.vhost && s'.verb == p.verb && s'.isCgi == p.isCgi
      && s'.resultCode == Prepare(p, h).resultCode
      && s'.outbound == Prepare(p, h).outbound + [ConnectionHeader(p.flags)]
      && s.outbound + [Header("Server", SERVER_VERSION_STRING), Header("Date", tick.date)] <= s'.outbound
  {
    hide Parse, Prepare, PiecesOf, SentPieces, LegalCounts, SameTransfer;
    var p := Parse(s, h, tick.date);
    ParseKeeps(s, h, tick.date);
    BegunIs(s, p, tick.date);
    PrepareUnopened(p, h);
  }

  lemma BegunIs(s: Session, p: Session, date: string)
    requires SameTransfer(Begun(s, date), p)
    ensures p.outbound == s.outbound + [Header("Server", SERVER_VERSION_STRING), Header("Date", date)]
    ensures p.active == s.active && p.inProgress == s.inProgress
  {
  }

  /** What is prepared when no file is opened leaves everything but these five fields alone. */
  lemma PrepareUnopened(s: Session, h: Host)
    requires s.resultCode == OK && s.path.Some? && !s.isCgi && !s.inProgress && !Prepare(s, h).inProgress
    ensures var s' := Prepare(s, h);
      && s' == s.(outbound := s'.outbound, output := s'.output, resultCode := s'.resultCode, pump := s'.pump, completed := s'.completed)
      && s.outbound <= s'.outbound
  {
    hide Contains, Listing, Open;
    var path := s.path.value;
    if h.regular(path).Some? {
      OpenFails(s, h);
    } else {
      ListingIs(s, h, path);
    }
  }

  lemma OpenFails(s: Session, h: Host)
    requires s.path.Some? && h.regular(s.path.value).Some?
    ensures Open(s, h).inProgress ==> Open(s, h).pump.Some?
    ensures !Open(s, h).inProgress ==> Open(s, h) == s.(pump := None, inProgress := false, completed := false)
  {
    hide Decimal;
  }

  lemma ListingIs(s: Session, h: Host, dir: string)
    ensures var s' := Listing(s, h, dir);
      s' == s.(outbound := s'.outbound, output := s'.output) && s.outbound <= s'.outbound
  {
    hide Decimal, Concat, PageParts;
  }

  /** The fields a parse has no business with. */
  predicate SameTransfer(s: Session, s': Session)
  {
    && s'.outbound == s.outbound && s'.active == s.active && s'.closed == s.closed
    && s'.inProgress == s.inProgress && s'.completed == s.completed && s'.pump == s.pump
    && s'.output == s.output && s'.wire == s.wire
  }

  lemma ResolveKeeps(s: Session, h: Host)
    requires s.uri.Some?
    ensures SameTransfer(s, Resolve(s, h)) && Resolve(s, h).input == []
    ensures Resolve(s, h).inbound == s.inbound
  {
    hide LocalPath, Contains;
  }

  lemma ChooseHostKeeps(s: Session, h: Host)
    ensures SameTransfer(s, ChooseHost(s, h))
    ensures ChooseHost(s, h).inbound == s.inbound
  {
    hide Get;
  }

  lemma ParseRestKeeps(s: Session, h: Host, target: string, rest: Option<string>)
    ensures var s' := ParseRest(s, h, target, rest);
      SameTransfer(s, s') && (s'.resultCode == OK ==> s'.input == [] && s'.inbound == s.inbound + Requests.HeaderLines(rest))
  {
    hide ChooseHost, Resolve, KeepAliveFlags, Requests.HeaderLines, Requests.UriOf, Requests.QueryOf;
    ChooseHostKeeps(WithHeaders(s, s.inbound + Requests.HeaderLines(rest), target), h);
    ResolveKeeps(ParseHead(s, h, target, rest), h);
  }

  lemma ParseLineKeeps(s: Session, h: Host, line: Requests.RequestLine, rest: Option<string>)
    ensures var s' := ParseLine(s, h, line, rest);
      SameTransfer(s, s') && (s'.resultCode == OK ==> s'.input == [] && s'.inbound == s.inbound + Requests.HeaderLines(rest))
  {
    hide ParseRest, VersionFlags, Requests.FindMethod, Requests.VersionOf, Requests.HeaderLines;
    var s1 := s.(flags := VersionFlags(s.flags, Requests.VersionOf(line.proto)));
    ParseRestKeeps(FindVerb(s1, line.verb), h, line.target, rest);
  }

  /** A parse adds two fields to the response; one that succeeds takes the whole input and adds its header lines. */
  lemma ParseKeeps(s: Session, h: Host, date: string)
    ensures
      var s', rest := Parse(s, h, date), After(CStr(s.input), '\n');
      && SameTransfer(Begun(s, date), s')
      && (s'.resultCode == OK ==> s'.input == [] && s'.inbound == s.inbound + Requests.HeaderLines(rest))
  {
    hide ParseLine, Requests.ScanLine, CStr, Before, After, Requests.HeaderLines, Requests.CutFirst;
    var text := CStr(s.input);
    var scanned := Requests.ScanLine(Before(text, '\n'));
    if scanned.Some? {
      ParseLineKeeps(Begun(s, date), h, scanned.value, After(text, '\n'));
    }
  }
}
