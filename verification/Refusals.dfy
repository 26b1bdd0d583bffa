/**
 What dispatch_request makes of a parsed request, by cases on the file system and with the codes
 written out, and the heads of responses that are no 200.
 */
module Refusals {
  import opened CText
  import opened Headers
  import Requests
  import opened Sessions
  import opened Answers
  import opened Rejections

  // ----- what is dispatched

  /** A request parsed with 200: five cases, and what each leaves of the parsed state. */
  lemma DispatchCases(p: Session, h: Host)
    requires p.resultCode == 200 && p.path.Some? && !p.isCgi
    ensures
      var q, path := Prepare(p, h), p.path.value;
      if !Contains(path, p.vhost.documentRoot) then q == p.(resultCode := 403)
      else if h.regular(path).None? && !h.isDir(path) then q == p.(resultCode := 404)
      else if h.regular(path).None? then q == Listing(p, h, path)
      else if !h.opens(path) then q == p.(resultCode := 500, pump := None, inProgress := false, completed := false)
      else
        var file := h.regular(path).value;
        q == p.(pump := Some(Pump(file, 0)), inProgress := true, completed := false,
                outbound := p.outbound + [Header("Transfer-Encoding", "plain"), Header("Content-Length", Decimal(|file|)),
                                          Header("Content-Type", h.mime(p.localpath))])
  {
    hide Contains, Listing, Decimal;
    if h.regular(p.path.value).Some? {
      var file := h.regular(p.path.value).value;
      var length := [Header("Transfer-Encoding", "plain"), Header("Content-Length", Decimal(|file|))];
      assert p.outbound + length + [Header("Content-Type", h.mime(p.localpath))] ==
             p.outbound + (length + [Header("Content-Type", h.mime(p.localpath))]);
    }
  }

  // ----- heads

  function CodeText(code: int): string
  {
    match code
    case 200 => "200"
    case 400 => "400"
    case 403 => "403"
    case 404 => "404"
    case 500 => "500"
    case 501 => "501"
    case 505 => "505"
    case _ => Decimal(code)
  }

  lemma CodesWritten(code: int)
    ensures Decimal(code) == CodeText(code)
  {
    hide Decimal;
    match code
    case 200 => ThreeDigits(2, 0, 0);
    case 400 => ThreeDigits(4, 0, 0);
    case 403 => ThreeDigits(4, 0, 3);
    case 404 => ThreeDigits(4, 0, 4);
    case 500 => ThreeDigits(5, 0, 0);
    case 501 => ThreeDigits(5, 0, 1);
    case 505 => ThreeDigits(5, 0, 5);
    case _ =>
  }

  lemma ThreeDigits(a: nat, b: nat, c: nat)
    requires 0 < a < 10 && b < 10 && c < 10
    ensures Decimal(100 * a + 10 * b + c) == [(48 + a) as char, (48 + b) as char, (48 + c) as char]
  {
    SmallInt(100 * a + 10 * b + c);
    DigitsNext(10 * a + b, c);
    DigitsNext(a, b);
    DigitsOne(a);
    hide Digits, Int32;
  }

  /** A head with any status: a connection without a version bit gets no version. */
  function StatusHead(f: Flags, code: int, reason: string, fields: seq<Header>): string
  {
    (if f.http10 then "HTTP/1.0 " else if f.http11 then "HTTP/1.1 " else "")
    + CodeText(code) + " " + reason + "\r\n" + FieldText(fields) + "\r\n"
  }

  lemma StatusPiecesText(h: Host, f: Flags, code: int)
    requires code != 200
    ensures Concat(StatusPieces(h, f, code)) ==
            (if f.http10 then "HTTP/1.0 " else if f.http11 then "HTTP/1.1 " else "") + CodeText(code) + " " + h.reason(code) + "\r\n"
  {
    CodesWritten(code);
    hide Decimal, CodeText;
    var first := if f.http10 then ["HTTP/1.0 "] else if f.http11 then ["HTTP/1.1 "] else [];
    var tail := [CodeText(code) + " ", h.reason(code), "\r\n"];
    assert StatusPieces(h, f, code) == first + tail;
    ConcatAppend(first, tail);
    ConcatThree(CodeText(code) + " ", h.reason(code), "\r\n");
    assert first != [] ==> first[1..] == [];
  }

  lemma ConcatThree(a: string, b: string, c: string)
    ensures Concat([a, b, c]) == a + b + c
  {
    assert [a, b, c][1..] == [b, c];
    assert [b, c][1..] == [c];
    assert Concat([c]) == c + Concat([]);
  }

  lemma StatusHeadText(h: Host, f: Flags, code: int, fields: seq<Header>)
    requires code != 200
    ensures Concat(HeadPieces(h, f, code, fields)) == StatusHead(f, code, h.reason(code), fields)
  {
    hide StatusPieces, FieldPieces, FieldText, CodeText;
    StatusPiecesText(h, f, code);
    FieldPiecesText(fields);
    ConcatAppend(StatusPieces(h, f, code), FieldPieces(fields));
    ConcatSnoc(StatusPieces(h, f, code) + FieldPieces(fields), "\r\n");
  }

  /** The fields of a refusal decided by the parse. */
  function RefusalFields(date: string, close: bool): seq<Header>
  {
    [Header("Server", "Stoned v.1 (something spelled correctly)"), Header("Date", date), Header("Content-type", "text/html"),
     Header("Connection", if close then "Close" else "Keep-Alive")]
  }

  /** A request refused by the parse: the head that goes on the wire, and "<html>" behind the output unless it is dropped. */
  lemma RefusalSent(s: Session, h: Host, tick: Tick)
    requires Dispatches(s) && LegalServe(s, h, tick) && Parse(s, h, tick.date).resultCode != 200
    requires AllTaken(PiecesOf(Prepare(Parse(s, h, tick.date), h), h), tick.counts)
    ensures
      var p, s' := Parse(s, h, tick.date), Serve(s, h, tick);
      && s'.wire == s.wire + StatusHead(p.flags, p.resultCode, h.reason(p.resultCode), s.outbound + RefusalFields(tick.date, p.flags.close))
      && s'.output == if p.flags.http11 then [] else s.output + "<html>"
  {
    hide Parse, LegalCounts, SentPieces, HeadPieces, AllTaken, StatusHead, Dispatches, LegalServe;
    var p := Parse(s, h, tick.date);
    RefusalParsed(s, h, tick);
    var fields := s.outbound + RefusalFields(tick.date, p.flags.close);
    assert Prepare(p, h).outbound + [ConnectionHeader(p.flags)] == fields;
    StatusHeadText(h, p.flags, p.resultCode, fields);
    TakenWhole(PiecesOf(Prepare(p, h), h), tick.counts);
  }

  lemma RefusalParsed(s: Session, h: Host, tick: Tick)
    requires Dispatches(s) && LegalServe(s, h, tick)
    ensures
      var p := Parse(s, h, tick.date);
      && (p.resultCode == OK ==> !p.isCgi) && LegalCounts(PiecesOf(Prepare(p, h), h), tick.counts)
      && Serve(s, h, tick) == Dispatch(p, h, tick.counts)
      && p.outbound == s.outbound + [Header("Server", SERVER_VERSION_STRING), Header("Date", tick.date)]
      && p.wire == s.wire && p.output == s.output
  {
    hide Parse, LegalCounts, SentPieces, HeadPieces, Dispatch, Prepare, PiecesOf, PageParts, Lists;
    ParseKeeps(s, h, tick.date);
  }

  /** A request refused by dispatch_request itself, with 403, 404 or 500: no Content-type, and nothing behind the head. */
  lemma UnopenedSent(s: Session, h: Host, tick: Tick)
    requires Dispatches(s) && LegalServe(s, h, tick) && Parse(s, h, tick.date).resultCode == 200
    requires Prepare(Parse(s, h, tick.date), h).resultCode in {403, 404, 500}
    requires AllTaken(PiecesOf(Prepare(Parse(s, h, tick.date), h), h), tick.counts)
    ensures
      var p, s' := Parse(s, h, tick.date), Serve(s, h, tick);
      var code := Prepare(p, h).resultCode;
      var fields := [Header("Server", "Stoned v.1 (something spelled correctly)"), Header("Date", tick.date),
                     Header("Connection", if p.flags.close then "Close" else "Keep-Alive")];
      && s'.wire == s.wire + StatusHead(p.flags, code, h.reason(code), s.outbound + fields)
      && s'.output == s.output
  {
    hide Parse, LegalCounts, SentPieces, HeadPieces, AllTaken, StatusHead, Dispatches, LegalServe, Prepare, Listing;
    var p := Parse(s, h, tick.date);
    RefusalParsed(s, h, tick);
    DispatchCases(p, h);
    ListingKeepsCode(p, h, p.path.value);
    var q := Prepare(p, h);
    var fields := [Header("Server", "Stoned v.1 (something spelled correctly)"), Header("Date", tick.date), ConnectionHeader(p.flags)];
    assert q.outbound + [ConnectionHeader(q.flags)] == s.outbound + fields;
    StatusHeadText(h, q.flags, q.resultCode, s.outbound + fields);
    TakenWhole(PiecesOf(q, h), tick.counts);
  }

  lemma ListingKeepsCode(s: Session, h: Host, dir: string)
    ensures Listing(s, h, dir).resultCode == s.resultCode
  {
    hide Decimal, Concat, PageParts;
  }

  // ----- the flags a request ends with

  /** The flags in terms of the first line and the header lines, refused or not. */
  lemma ParsedFlags(s: Session, h: Host, date: string)
    ensures
      var p := Parse(s, h, date);
      && (LineOf(s) == None ==> p.flags == s.flags.(close := true))
      && (LineOf(s) != None && !VersionKnown(s) ==> p.flags == Flags(true, s.flags.http11, true))
      && (VersionKnown(s) && p.verb.Some? ==>
          var line := LineOf(s).value;
          var headers := s.inbound + Requests.HeaderLines(After(CStr(s.input), '\n'));
          p.flags == AnswerFlags(s.flags, Requests.VersionOf(line.proto), AsksToKeep(Heard(s.flags, line.proto, headers))))
  {
    hide ParseLine, Requests.ScanLine, CStr, Before, After, Requests.CutFirst, Requests.HeaderLines, Requests.VersionOf, AsksToKeep;
    if LineOf(s).Some? {
      LineEnds(Begun(s, date), h, LineOf(s).value, After(CStr(s.input), '\n'));
    }
  }

  lemma LineEnds(s: Session, h: Host, line: Requests.RequestLine, rest: Option<string>)
    ensures
      var s', v := ParseLine(s, h, line, rest), Requests.VersionOf(line.proto);
      && (v !in {Requests.Http10, Requests.Http11} ==> s'.flags == Flags(true, s.flags.http11, true))
      && (v in {Requests.Http10, Requests.Http11} && s'.verb.Some? ==>
          s'.flags == AnswerFlags(s.flags, v, AsksToKeep(Heard(s.flags, line.proto, s.inbound + Requests.HeaderLines(rest)))))
  {
    hide ParseRest, Requests.FindMethod, Requests.VersionOf, Requests.HeaderLines, AsksToKeep, KeepAliveFlags, AnswerFlags, Heard;
    var v := Requests.VersionOf(line.proto);
    var s1 := FindVerb(s.(flags := VersionFlags(s.flags, v)), line.verb);
    if v in {Requests.Http10, Requests.Http11} {
      RestEnds(s1, h, line.target, rest);
      FlagsAre(s.flags, line.proto, s.inbound + Requests.HeaderLines(rest));
    }
  }

  lemma RestEnds(s: Session, h: Host, target: string, rest: Option<string>)
    ensures var s' := ParseRest(s, h, target, rest);
      s'.verb == s.verb && (s.verb.Some? ==> s'.flags == KeepAliveFlags(s.flags, s.inbound + Requests.HeaderLines(rest)))
  {
    hide KeepAliveFlags, Requests.HeaderLines, Requests.UriOf, Requests.QueryOf, Resolve;
    if s.verb.Some? {
      var s1 := WithHeaders(s, s.inbound + Requests.HeaderLines(rest), target);
      HostVerb(s1, h);
      ResolveVerb(ChooseHost(s1, h), h);
      ResolveFlags(ChooseHost(s1, h), h);
    }
  }
}
