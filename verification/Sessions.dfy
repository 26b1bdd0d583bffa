/**
 One client's connection as a state machine: parse_request, dispatch_request, the sending of
 the response head, the plain transfer, and one pass of service_clients over the client.

 The environment is adversarial: every read and every send reports how much it did, and the
 machine is a function of these reports. The functions follow the code branch by branch;
 what the code is for is stated in the modules Delivery, Listings, KeepAlive and Conversations.
 */
module Sessions {
  import opened CText
  import opened Headers
  import Buffers
  import Requests

  const NETWORK_BLOCK_SIZE := 512
  const ROW_SIZE := 1024
  const SERVER_VERSION_STRING := "Stoned v.1 (something spelled correctly)"
  const OK := 200
  const BAD_REQUEST := 400
  const FORBIDDEN := 403
  const NOT_FOUND := 404
  const INTERNAL_SERVER_ERROR := 500
  const NOT_IMPLEMENTED := 501
  const VERSION_NOT_SUPPORTED := 505

  // ----- the environment

  datatype VHost = VHost(documentRoot: string, cgiRoot: string, hostname: string)

  /** The file system, the virtual hosts and the tables, none of which change during a run. */
  datatype Host = Host(
    realpath: string -> Option<string>,
    regular: string -> Option<string>,   // the contents of a regular file
    opens: string -> bool,               // whether open(path, O_RDWR) succeeds
    isDir: string -> bool,
    rows: string -> seq<string>,         // the formatted rows of a directory
    mime: string -> string,              // of the last component of a local path
    vhost: string -> Option<VHost>,
    reason: int -> string,
    port: int)

  // ----- the state

  /** The bits CONNECTION_FLAG_HTTP_1_0, CONNECTION_FLAG_HTTP_1_1 and CONNECTION_FLAG_CLOSE. */
  datatype Flags = Flags(http10: bool, http11: bool, close: bool)

  const NO_FLAGS := Flags(false, false, false)

  /** An open descriptor: the file and the offset the next read starts at. */
  datatype Pump = Pump(file: string, pos: nat)

  datatype Session = Session(
    active: bool,
    closed: bool,                  // the transport's close was called
    flags: Flags,
    input: string,
    output: string,
    inbound: seq<Header>,
    outbound: seq<Header>,
    uri: Option<string>,
    query: Option<string>,
    localpath: string,
    path: Option<string>,          // cleanlocalpath
    pump: Option<Pump>,
    inProgress: bool,
    completed: bool,
    resultCode: int,
    verb: Option<string>,          // the method's name
    isCgi: bool,
    vhost: VHost,
    wire: string)                  // everything the transport accepted
  {
    /** What the transfer has not read yet. */
    function Unread(): string
    {
      if pump.Some? && pump.value.pos <= |pump.value.file| then pump.value.file[pump.value.pos..] else []
    }

    predicate Transferring()
    {
      pump.Some? && inProgress
    }
  }

  /** create_new_client. */
  function NewSession(vhost: VHost): Session
  {
    Session(true, false, NO_FLAGS, [], [], [], [], None, None, [], None, None, false, false, 0, None, false, vhost, [])
  }

  /** clear_client: what it does not name keeps its value, the result code and the method among them. */
  function Clear(s: Session): Session
  {
    s.(uri := None, query := None, pump := None, output := [], input := [], inbound := [], outbound := [], flags := NO_FLAGS)
  }

  // ----- parse_request

  /** The version and close bits as the request line sets them; the bits are toggled, not assigned. */
  function VersionFlags(f: Flags, v: Requests.Version): Flags
  {
    var f1 := f.(close := true, http10 := true);
    match v
    case Http10 => f1.(http11 := !f1.http11)
    case Http11 => f1.(http10 := !f1.http10, http11 := true)
    case _ => f1
  }

  /** The close bit after the Connection header has been looked at. */
  function KeepAliveFlags(f: Flags, inbound: seq<Header>): Flags
  {
    if !f.http11 then f
    else match Get(inbound, Some("Close"), "Connection")
      case None => f
      case Some(v) =>
        if EqNoCase(v, "Keep-Alive") then f.(close := !f.close)
        else if EqNoCase(v, "Close") then f.(close := true)
        else f
  }

  function LocalPath(vhost: VHost, uri: string): string
  {
    var full := vhost.documentRoot + "/" + uri;
    if |full| < 1024 then full else full[..1023]
  }

  /** The state after the first two headers are added and strsep has cut the first line off the input. */
  function Begun(s: Session, date: string): Session
  {
    s.(outbound := s.outbound + [Header("Server", SERVER_VERSION_STRING), Header("Date", date)],
       input := Requests.CutFirst(s.input))
  }

  /** A line that does not hold three words. */
  function Rejected(s: Session): Session
  {
    s.(resultCode := BAD_REQUEST, flags := s.flags.(close := true))
  }

  /** Only a request whose path exists on disk can have the result 200. */
  function Parse(s: Session, h: Host, date: string): (s': Session)
    ensures s'.resultCode == OK ==> s'.path.Some?
  {
    var text := CStr(s.input);
    match Requests.ScanLine(Before(text, '\n'))
    case None => Rejected(Begun(s, date))
    case Some(line) => ParseLine(Begun(s, date), h, line, After(text, '\n'))
  }

  function ParseLine(s: Session, h: Host, line: Requests.RequestLine, rest: Option<string>): (s': Session)
    ensures s'.resultCode == OK ==> s'.path.Some?
  {
    var v := Requests.VersionOf(line.proto);
    var s1 := s.(flags := VersionFlags(s.flags, v));
    if v.NotHttp? || v.Unsupported? then
      s1.(resultCode := if v.NotHttp? then BAD_REQUEST else VERSION_NOT_SUPPORTED)
    else ParseRest(FindVerb(s1, line.verb), h, line.target, rest)
  }

  /** The search for the method; an unknown one leaves the method of the request before. */
  function FindVerb(s: Session, verb: string): Session
  {
    s.(verb := match Requests.FindMethod(Requests.METHODS, verb) case None => s.verb case Some(m) => Some(m))
  }

  function ParseRest(s: Session, h: Host, target: string, rest: Option<string>): (s': Session)
    ensures s'.resultCode == OK ==> s'.path.Some?
  {
    if s.verb.None? then s.(resultCode := NOT_IMPLEMENTED)
    else Resolve(ParseHead(s, h, target, rest), h)
  }

  /** Headers, query, uri, keep-alive and virtual host. */
  function ParseHead(s: Session, h: Host, target: string, rest: Option<string>): (s': Session)
    ensures s'.uri.Some?
  {
    ChooseHost(WithHeaders(s, s.inbound + Requests.HeaderLines(rest), target), h)
  }

  function WithHeaders(s: Session, inbound: seq<Header>, target: string): Session
  {
    s.(inbound := inbound, flags := KeepAliveFlags(s.flags, inbound),
       query := Some(Requests.QueryOf(target)), uri := Some(Requests.UriOf(target)))
  }

  /** The virtual host the Host header names; one that is not known is reported, and the old one kept. */
  function ChooseHost(s: Session, h: Host): (s': Session)
    ensures s'.uri == s.uri
  {
    var name := if s.flags.http11 then Get(s.inbound, None, "Host") else None;
    var found := if name.Some? then h.vhost(name.value) else Some(s.vhost);
    s.(vhost := if found.Some? then found.value else s.vhost,
       resultCode := if found.Some? then s.resultCode else NOT_FOUND)
  }

  /** The path on disk; one that does not exist is reported. */
  function FindPath(s: Session, h: Host): (s': Session)
    requires s.uri.Some?
    ensures s'.path.None? ==> s'.resultCode == NOT_FOUND
  {
    var local := LocalPath(s.vhost, s.uri.value);
    var path := h.realpath(local);
    s.(localpath := local, path := path,
       isCgi := s.isCgi || (path.Some? && Contains(s.vhost.cgiRoot, path.value)),
       resultCode := if path.Some? then s.resultCode else NOT_FOUND)
  }

  /** The path, the result code, and the end of the parse. */
  function Resolve(s: Session, h: Host): (s': Session)
    requires s.uri.Some?
    ensures s'.resultCode == OK ==> s'.path.Some?
  {
    var s1 := FindPath(s, h);
    s1.(resultCode := if s1.resultCode == 0 then OK else s1.resultCode, input := [])
  }

  // ----- plain_transfer_open

  function Open(s: Session, h: Host): Session
    requires s.path.Some? && h.regular(s.path.value).Some?
  {
    var file := h.regular(s.path.value).value;
    if h.opens(s.path.value) then
      s.(outbound := s.outbound + [Header("Transfer-Encoding", "plain"), Header("Content-Length", Decimal(|file|))],
         pump := Some(Pump(file, 0)), inProgress := true, completed := false)
    else s.(pump := None, inProgress := false, completed := false)
  }

  // ----- generate_dir_listing

  /** The rest of a directory's path behind the document root. */
  function Residual(dir: string, root: string): string
  {
    match FirstMatch(dir, root)
    case None => dir
    case Some(i) => dir[i + |root|..]
  }

  /** strstr. */
  function FirstMatch(s: string, t: string): (i: Option<nat>)
    ensures i.Some? ==> MatchAt(s, t, i.value)
  {
    if MatchAt(s, t, 0) then Some(0)
    else if s == [] then None
    else match FirstMatch(s[1..], t) case None => None case Some(i) => Some(i + 1)
  }

  /** The texts in front of the rows; the rule is appended with one byte less than it has. */
  function PageTop(vhost: VHost, dir: string): seq<string>
  {
    ["<html>", "<body>", "<H1>Index of " + Residual(dir, vhost.documentRoot) + "</h1><br>\n",
     "<tr colspan=3><hr></tr>",
     "<table><tr><td>Filename</td><td>Size</td><td>Last Modified</td></tr>\n"]
  }

  function PageBottom(h: Host, vhost: VHost): seq<string>
  {
    ["</table>\n",
     SERVER_VERSION_STRING + " Server at " + vhost.hostname + " on port " + Decimal(h.port) + "<br>\n",
     "</body>", "</html>"]
  }

  function PageParts(h: Host, vhost: VHost, dir: string): seq<string>
  {
    PageTop(vhost, dir) + h.rows(dir) + PageBottom(h, vhost)
  }

  function Listing(s: Session, h: Host, dir: string): Session
  {
    var output := s.output + Concat(PageParts(h, s.vhost, dir));
    s.(output := output,
       outbound := s.outbound + [Header("Content-type", "text/html"), Header("Content-Length", Decimal(|output|))])
  }

  // ----- the response head

  /** The calls of the transport's send for the status line. */
  function StatusPieces(h: Host, f: Flags, code: int): seq<string>
  {
    (if f.http10 then ["HTTP/1.0 "] else if f.http11 then ["HTTP/1.1 "] else [])
    + [Decimal(code) + " ", Reason(h, code), "\r\n"]
  }

  function Reason(h: Host, code: int): string
  {
    if code == OK then "OK" else h.reason(code)
  }

  function FieldPiece(hd: Header): string
  {
    hd.name + ": " + hd.value + "\r\n"
  }

  function FieldPieces(hs: seq<Header>): seq<string>
  {
    seq(|hs|, i requires 0 <= i < |hs| => FieldPiece(hs[i]))
  }

  function ConnectionHeader(f: Flags): Header
  {
    Header("Connection", if f.close then "Close" else "Keep-Alive")
  }

  function HeadPieces(h: Host, f: Flags, code: int, outbound: seq<Header>): seq<string>
  {
    StatusPieces(h, f, code) + FieldPieces(outbound) + ["\r\n"]
  }

  /** What send accepts of a piece when it returns a count; -1 is an error. */
  function Taken(piece: string, count: int): (t: string)
    requires -1 <= count <= |piece|
    ensures t <= piece
  {
    if count < 0 then [] else piece[..count]
  }

  predicate LegalCounts(pieces: seq<string>, counts: seq<int>)
  {
    |counts| == |pieces| && forall i | 0 <= i < |pieces| :: -1 <= counts[i] <= |pieces[i]|
  }

  /** The head is sent piece by piece and the counts are not looked at. */
  function SentPieces(pieces: seq<string>, counts: seq<int>): string
    requires LegalCounts(pieces, counts)
  {
    if pieces == [] then []
    else
      var n := |pieces| - 1;
      SentPieces(pieces[..n], counts[..n]) + Taken(pieces[n], counts[n])
  }

  /** client_send_response_code and client_send_headers. */
  function SendHead(s: Session, h: Host, counts: seq<int>): Session
    requires LegalCounts(PiecesOf(s, h), counts)
  {
    s.(outbound := s.outbound + [ConnectionHeader(s.flags)], wire := s.wire + SentPieces(PiecesOf(s, h), counts))
  }

  function PiecesOf(s: Session, h: Host): seq<string>
  {
    HeadPieces(h, s.flags, s.resultCode, s.outbound + [ConnectionHeader(s.flags)])
  }

  // ----- dispatch_request

  /** The state in which the head is sent. */
  function Prepare(s: Session, h: Host): Session
    requires s.resultCode == OK ==> s.path.Some? && !s.isCgi
  {
    if s.resultCode != OK then s.(outbound := s.outbound + [Header("Content-type", "text/html")])
    else
      var path := s.path.value;
      if !Contains(path, s.vhost.documentRoot) then s.(resultCode := FORBIDDEN)
      else if h.regular(path).Some? then
        var s1 := Open(s, h);
        if s1.pump.Some? then s1.(outbound := s1.outbound + [Header("Content-Type", h.mime(s1.localpath))])
        else s1.(resultCode := INTERNAL_SERVER_ERROR)
      else if h.isDir(path) then Listing(s, h, path)
      else s.(resultCode := NOT_FOUND)
  }

  function Dispatch(s: Session, h: Host, counts: seq<int>): Session
    requires s.resultCode == OK ==> s.path.Some? && !s.isCgi
    requires LegalCounts(PiecesOf(Prepare(s, h), h), counts)
  {
    var s1 := SendHead(Prepare(s, h), h, counts);
    if s.resultCode == OK then s1
    else
      var s2 := s1.(output := s1.output + "<html>");
      if s2.flags.http11 then Clear(s2)
      else if s2.flags.http10 then s2.(active := false, closed := true)
      else s2
  }

  // ----- plain_transfer_send and plain_transfer_recv

  /** The read: at most what is missing to a full block, and 0 is taken for the end of the file. */
  function Fill(s: Session, read: nat): Session
    requires LegalRead(s, read)
  {
    if s.Transferring() && |s.output| < NETWORK_BLOCK_SIZE then
      if read > 0 then
        var p := s.pump.value;
        s.(output := s.output + p.file[p.pos..p.pos + read], pump := Some(p.(pos := p.pos + read)))
      else s.(completed := true)
    else s
  }

  /** The send: at most a block; 0 ends the transfer, and -1 clears the buffer. */
  function Drain(s: Session, sent: int): Session
    requires LegalSend(s, sent)
  {
    if s.output == [] then s
    else if sent != 0 then
      s.(wire := s.wire + Taken(s.output, sent), output := Buffers.Trim(s.output, sent))
    else s.(completed := true)
  }

  predicate LegalRead(s: Session, read: nat)
  {
    if s.Transferring() && |s.output| < NETWORK_BLOCK_SIZE
    then |s.output| + read <= NETWORK_BLOCK_SIZE && read <= |s.Unread()|
    else read == 0
  }

  predicate LegalSend(s: Session, sent: int)
  {
    if s.output == [] then sent == 0
    else -1 <= sent <= (if |s.output| < NETWORK_BLOCK_SIZE then |s.output| else NETWORK_BLOCK_SIZE)
  }

  function Send(s: Session, read: nat, sent: int): Session
    requires LegalRead(s, read) && LegalSend(Fill(s, read), sent)
  {
    Drain(Fill(s, read), sent)
  }

  /** recv outside a transfer; an empty chunk is the peer's end of stream. */
  function Recv(s: Session, chunk: string): Session
  {
    if chunk == [] then s.(completed := true) else s.(input := s.input + chunk)
  }

  // ----- one pass of service_clients

  /** What poll reports for the client, and what the call it leads to reports. */
  datatype Poll = Quiet | Broken | Readable(chunk: string) | Writable(read: nat, sent: int)

  /** The clock, the counts of the sends of a head, if one is sent, and the poll. */
  datatype Tick = Tick(date: string, counts: seq<int>, poll: Poll)

  predicate Finished(s: Session)
  {
    s.inProgress && s.completed
  }

  predicate Dispatches(s: Session)
  {
    s.active && !Finished(s) && Requests.IsComplete(s.input)
  }

  /** plain_transfer_close, then close or reuse the connection. */
  function Finish(s: Session): Session
  {
    var s1 := s.(pump := None, inProgress := false, completed := false);
    if s1.flags.http10 || s1.flags.close then s1.(active := false, closed := true)
    else if s1.flags.http11 then Clear(s1)
    else s1
  }

  function Polled(s: Session, p: Poll): Session
    requires LegalPoll(s, p)
  {
    match p
    case Quiet => s
    case Broken => s.(active := false)
    case Readable(chunk) => Recv(s, chunk)
    case Writable(read, sent) => Send(s, read, sent)
  }

  /**
   recv is modelled outside a transfer only. A send during a transfer with more than a block
   buffered would read a negative number of bytes: Delivery.BoundExactly and
   Leftovers.OverfullExactly say when that comes up, Witnesses.ListingThenFile that it does.
   */
  predicate LegalPoll(s: Session, p: Poll)
  {
    match p
    case Quiet => true
    case Broken => true
    case Readable(chunk) => !s.Transferring() && |chunk| <= NETWORK_BLOCK_SIZE
    case Writable(read, sent) =>
      && (s.Transferring() ==> |s.output| <= NETWORK_BLOCK_SIZE)
      && LegalRead(s, read) && LegalSend(Fill(s, read), sent)
  }

  /**
   After a refusal dispatch_request logs the name of the method, and a connection that never had
   one holds a null pointer there: Rejections.ReadsNullExactly says for which requests.
   */
  predicate ReadsNull(s: Session)
  {
    s.resultCode != OK && s.verb.None?
  }

  /** The first half of a pass: a complete request is parsed and dispatched. Scripts are not modelled. */
  predicate LegalServe(s: Session, h: Host, tick: Tick)
  {
    if Dispatches(s) then
      var s1 := Parse(s, h, tick.date);
      && (s1.resultCode == OK ==> !s1.isCgi) && !ReadsNull(s1)
      && (Lists(s1, h) ==> forall part | part in PageParts(h, s1.vhost, s1.path.value) :: |part| < ROW_SIZE)
      && LegalCounts(PiecesOf(Prepare(s1, h), h), tick.counts)
    else tick.counts == []
  }

  predicate Lists(s: Session, h: Host)
    requires s.resultCode == OK ==> s.path.Some? && !s.isCgi
  {
    && s.resultCode == OK && Contains(s.path.value, s.vhost.documentRoot)
    && h.regular(s.path.value).None? && h.isDir(s.path.value)
  }

  function Serve(s: Session, h: Host, tick: Tick): Session
    requires LegalServe(s, h, tick)
  {
    if Dispatches(s) then Dispatch(Parse(s, h, tick.date), h, tick.counts) else s
  }

  predicate LegalTick(s: Session, h: Host, tick: Tick)
  {
    if !s.active || Finished(s) then tick.counts == [] && tick.poll.Quiet?
    else LegalServe(s, h, tick) && LegalPoll(Serve(s, h, tick), tick.poll)
  }

  /** One pass over the client; a client whose transfer is finished is not polled in that pass. */
  function Pass(s: Session, h: Host, tick: Tick): Session
    requires LegalTick(s, h, tick)
  {
    if !s.active then s
    else if Finished(s) then Finish(s)
    else Polled(Serve(s, h, tick), tick.poll)
  }

  /** A call of plain_transfer_send has business with four fields. */
  lemma SendIs(s: Session, read: nat, sent: int)
    requires LegalRead(s, read) && LegalSend(Fill(s, read), sent)
    ensures var s' := Send(s, read, sent);
      s' == s.(output := s'.output, pump := s'.pump, completed := s'.completed, wire := s'.wire)
  {
    hide LegalRead, LegalSend, Buffers.Trim, Taken;
    var s1 := Fill(s, read);
    assert s1 == s.(output := s1.output, pump := s1.pump, completed := s1.completed);
    DrainIs(s1, sent);
  }

  lemma DrainIs(s: Session, sent: int)
    requires LegalSend(s, sent)
    ensures var s' := Drain(s, sent);
      s' == s.(output := s'.output, completed := s'.completed, wire := s'.wire)
  {
    hide Buffers.Trim, Taken;
  }

  /** What poll leads to has business with six. */
  lemma PolledIs(s: Session, p: Poll)
    requires LegalPoll(s, p)
    ensures var s' := Polled(s, p);
      s' == s.(active := s'.active, input := s'.input, output := s'.output, pump := s'.pump, completed := s'.completed, wire := s'.wire)
  {
    hide Send;
    if p.Writable? {
      SendIs(s, p.read, p.sent);
    }
  }

  // ----- runs

  predicate LegalRun(s: Session, h: Host, ticks: seq<Tick>)
    decreases |ticks|, 0
  {
    if ticks == [] then true
    else
      var n := |ticks| - 1;
      LegalRun(s, h, ticks[..n]) && LegalTick(Run(s, h, ticks[..n]), h, ticks[n])
  }

  function Run(s: Session, h: Host, ticks: seq<Tick>): Session
    requires LegalRun(s, h, ticks)
    decreases |ticks|, 1
  {
    if ticks == [] then s
    else
      var n := |ticks| - 1;
      Pass(Run(s, h, ticks[..n]), h, ticks[n])
  }
}
