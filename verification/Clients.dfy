/**
 The client record and the procedures that update it (client.c, transfer.c, main.c), proved
 to take exactly the steps of the state machine in module Sessions.

 What a foreign call reports comes in as a parameter; `wire` records what the transport
 accepted and `closed` that its close was called.
 */
module Clients {
  import opened CText
  import opened Headers
  import opened Buffers
  import Requests
  import opened Sessions

  class Client {
    var active: bool
    var flags: Flags
    var inputbuffer: Buffer
    var outputbuffer: Buffer
    var inboundHeaders: HeaderList
    var outboundHeaders: HeaderList
    var uri: Option<string>
    var query: Option<string>
    var localpath: string
    var cleanlocalpath: Option<string>
    var pumpFd: Option<Pump>
    var transferInProgress: bool
    var transferCompleted: bool
    var resultCode: int
    var verb: Option<string>
    var isCgiRequest: bool
    var vhost: VHost
    var next: Client?         // in the server's list
    ghost var closes: nat     // calls of the transport's close
    ghost var wire: string

    ghost function Repr(): set<object>
      reads `inputbuffer, `outputbuffer, `inboundHeaders, `outboundHeaders
      reads inputbuffer, outputbuffer, inboundHeaders, outboundHeaders
    {
      {this} + inputbuffer.Repr + outputbuffer.Repr + inboundHeaders.Repr + outboundHeaders.Repr
    }

    /** The four parts are in order and share no memory. */
    ghost predicate Valid()
      reads `inputbuffer, `outputbuffer, `inboundHeaders, `outboundHeaders
      reads inputbuffer, outputbuffer, inboundHeaders, outboundHeaders
      reads inputbuffer.Repr, outputbuffer.Repr, inboundHeaders.Repr, outboundHeaders.Repr
    {
      && inputbuffer.Valid() && outputbuffer.Valid() && inboundHeaders.Valid() && outboundHeaders.Valid()
      && {this} !! inputbuffer.Repr !! outputbuffer.Repr !! inboundHeaders.Repr !! outboundHeaders.Repr
    }

    /** Everything but the place in the list. */
    ghost function View(): Session
      reads `active, `flags, `inputbuffer, `outputbuffer, `inboundHeaders, `outboundHeaders, `uri, `query, `localpath, `cleanlocalpath
      reads `pumpFd, `transferInProgress, `transferCompleted, `resultCode, `verb, `isCgiRequest, `vhost, `closes, `wire
      reads inputbuffer, outputbuffer, inboundHeaders, outboundHeaders
    {
      Session(active, closes > 0, flags, inputbuffer.Contents, outputbuffer.Contents,
              inboundHeaders.Contents, outboundHeaders.Contents,
              uri, query, localpath, cleanlocalpath, pumpFd, transferInProgress, transferCompleted,
              resultCode, verb, isCgiRequest, vhost, wire)
    }

    /** create_new_client: calloc leaves everything else at zero. */
    constructor (vhost: VHost)
      ensures Valid() && fresh(Repr()) && View() == NewSession(vhost) && next == null && closes == 0
    {
      hide Buffer.Valid, HeaderList.Valid;
      active, flags, uri, query, localpath, cleanlocalpath := true, NO_FLAGS, None, None, [], None;
      pumpFd, transferInProgress, transferCompleted, resultCode, verb, isCgiRequest := None, false, false, 0, None, false;
      this.vhost := vhost;
      next, closes, wire := null, 0, [];
      var i, o := NewBuffers();
      var hi, ho := NewHeaderLists();
      inputbuffer, outputbuffer, inboundHeaders, outboundHeaders := i, o, hi, ho;
    }

    /** The record is no part of its parts. */
    lemma Own()
      requires Valid()
      ensures this in Repr()
      ensures this !in inputbuffer.Repr && this !in outputbuffer.Repr && this !in inboundHeaders.Repr && this !in outboundHeaders.Repr
      ensures inputbuffer in inputbuffer.Repr && outputbuffer in outputbuffer.Repr
      ensures inboundHeaders in inboundHeaders.Repr && outboundHeaders in outboundHeaders.Repr
    {
    }

    /** What is outside the record is no part of it. */
    lemma Outside(o: object)
      requires Valid() && (o == this || o !in Repr())
      ensures o !in inputbuffer.Repr && o !in outputbuffer.Repr && o !in inboundHeaders.Repr && o !in outboundHeaders.Repr
      ensures o != inputbuffer && o != outputbuffer && o != inboundHeaders && o != outboundHeaders
    {
    }

    // ----- one part at a time

    method AppendOutput(data: string)
      requires Valid()
      modifies Repr()
      ensures Valid() && fresh(Repr() - old(Repr())) && next == old(next)
      ensures View() == old(View()).(output := old(View()).output + data)
    {
      hide Buffer.Valid, HeaderList.Valid;
      outputbuffer.Append(data);
    }

    method TrimOutput(count: int)
      requires Valid()
      modifies Repr()
      ensures Valid() && fresh(Repr() - old(Repr())) && next == old(next)
      ensures View() == old(View()).(output := Trim(old(View()).output, count))
    {
      hide Buffer.Valid, HeaderList.Valid, Trim;
      outputbuffer.Ltrim(count);
    }

    method ClearBuffers()
      requires Valid()
      modifies Repr()
      ensures Valid() && Repr() == old(Repr()) && next == old(next) && closes == old(closes)
      ensures View() == old(View()).(input := [], output := [])
    {
      hide Buffer.Valid, HeaderList.Valid;
      outputbuffer.Clear();
      inputbuffer.Clear();
    }

    method DelHeaders()
      requires Valid()
      modifies Repr()
      ensures Valid() && Repr() == old(Repr()) && next == old(next) && closes == old(closes)
      ensures View() == old(View()).(inbound := [], outbound := [])
    {
      hide Buffer.Valid, HeaderList.Valid;
      inboundHeaders.DelAll();
      outboundHeaders.DelAll();
    }

    method AddOutbound(name: string, value: string)
      requires Valid()
      modifies Repr()
      ensures Valid() && fresh(Repr() - old(Repr())) && next == old(next)
      ensures View() == old(View()).(outbound := old(View()).outbound + [Header(name, value)])
    {
      hide Buffer.Valid, HeaderList.Valid;
      outboundHeaders.Add(name, value);
    }

    method AddTwoOutbound(x: Header, y: Header)
      requires Valid()
      modifies Repr()
      ensures Valid() && fresh(Repr() - old(Repr())) && next == old(next)
      ensures View() == old(View()).(outbound := old(View()).outbound + [x, y])
    {
      hide Buffer.Valid, HeaderList.Valid;
      outboundHeaders.Add(x.name, x.value);
      outboundHeaders.Add(y.name, y.value);
    }

    method ForgetTarget()
      requires Valid()
      modifies Repr()
      ensures Valid() && Repr() == old(Repr()) && next == old(next) && closes == old(closes)
      ensures View() == old(View()).(uri := None, query := None)
    {
      hide Valid, Repr;
      Own();
      uri, query := None, None;
    }

    method ForgetPump()
      requires Valid()
      modifies Repr()
      ensures Valid() && Repr() == old(Repr()) && next == old(next) && closes == old(closes)
      ensures View() == old(View()).(pump := None, flags := NO_FLAGS)
    {
      hide Valid, Repr;
      Own();
      pumpFd, flags := None, NO_FLAGS;
    }

    method SetPumpFd(pump: Option<Pump>)
      requires Valid()
      modifies Repr()
      ensures Valid() && Repr() == old(Repr()) && next == old(next)
      ensures View() == old(View()).(pump := pump)
    {
      hide Valid, Repr;
      Own();
      pumpFd := pump;
    }

    method SetTransfer(inProgress: bool, completed: bool)
      requires Valid()
      modifies Repr()
      ensures Valid() && Repr() == old(Repr()) && next == old(next)
      ensures View() == old(View()).(inProgress := inProgress, completed := completed)
    {
      hide Valid, Repr;
      Own();
      transferInProgress, transferCompleted := inProgress, completed;
    }

    method SetPump(pump: Option<Pump>, inProgress: bool, completed: bool)
      requires Valid()
      modifies Repr()
      ensures Valid() && Repr() == old(Repr()) && next == old(next)
      ensures View() == old(View()).(pump := pump, inProgress := inProgress, completed := completed)
    {
      hide Valid, Repr, View;
      SetPumpFd(pump);
      SetTransfer(inProgress, completed);
    }

    // ----- client.c

    /** clear_client. */
    method ClearClient()
      requires Valid()
      modifies Repr()
      ensures Valid() && Repr() == old(Repr()) && next == old(next) && closes == old(closes)
      ensures View() == Clear(old(View()))
    {
      hide Buffer.Valid, HeaderList.Valid, Valid, Repr;
      ForgetTarget();
      ForgetPump();
      ClearBuffers();
      DelHeaders();
    }

    // ----- transfer.c

    /** plain_transfer_send. `read` and `sent` are what read and send report, if they are called. */
    method PlainTransferSend(read: nat, sent: int)
      requires Valid() && (View().Transferring() ==> |View().output| <= NETWORK_BLOCK_SIZE)
      requires LegalRead(View(), read) && LegalSend(Fill(View(), read), sent)
      modifies Repr()
      ensures Valid() && fresh(Repr() - old(Repr())) && next == old(next)
      ensures View() == Send(old(View()), read, sent)
    {
      hide Buffer.Valid, HeaderList.Valid, Valid;
      FillBuffer(read);
      DrainBuffer(sent);
    }

    method FillBuffer(read: nat)
      requires Valid() && (View().Transferring() ==> |View().output| <= NETWORK_BLOCK_SIZE)
      requires LegalRead(View(), read)
      modifies Repr()
      ensures Valid() && fresh(Repr() - old(Repr())) && next == old(next)
      ensures View() == Fill(old(View()), read)
    {
      hide Buffer.Valid, HeaderList.Valid;
      if pumpFd.Some? && transferInProgress {
        var s := NETWORK_BLOCK_SIZE - outputbuffer.len;
        if s != 0 {
          var l := read;
          if l != 0 {
            var p := pumpFd.value;
            AppendOutput(p.file[p.pos..p.pos + l]);
            pumpFd := Some(Pump(p.file, p.pos + l));
          } else {
            transferCompleted := true;
          }
        }
      }
    }

    method DrainBuffer(sent: int)
      requires Valid() && LegalSend(View(), sent)
      modifies Repr()
      ensures Valid() && fresh(Repr() - old(Repr())) && next == old(next)
      ensures View() == Drain(old(View()), sent)
    {
      hide Buffer.Valid, HeaderList.Valid;
      if outputbuffer.len != 0 {
        var l := sent;
        if l != 0 {
          wire := wire + Taken(outputbuffer.Contents, l);
          TrimOutput(l);
        } else {
          transferCompleted := true;
        }
      }
    }

    /** plain_transfer_recv, while no transfer is in progress. */
    method PlainTransferRecv(chunk: string)
      requires Valid() && !View().Transferring()
      modifies Repr()
      ensures Valid() && fresh(Repr() - old(Repr())) && next == old(next)
      ensures View() == Recv(old(View()), chunk)
    {
      hide Buffer.Valid, HeaderList.Valid;
      if |chunk| != 0 {
        inputbuffer.Append(chunk);
      } else {
        transferCompleted := true;
      }
    }

    /** The two headers of a file, and the transfer at its start. */
    method BeginTransfer(file: string)
      requires Valid()
      modifies Repr()
      ensures Valid() && fresh(Repr() - old(Repr())) && next == old(next)
      ensures View() == old(View()).(outbound := old(View()).outbound +
        [Header("Transfer-Encoding", "plain"), Header("Content-Length", Decimal(|file|))],
        pump := Some(Pump(file, 0)), inProgress := true, completed := false)
    {
      hide Valid, View, Decimal;
      AddTwoOutbound(Header("Transfer-Encoding", "plain"), Header("Content-Length", Decimal(|file|)));
      SetPump(Some(Pump(file, 0)), true, false);
    }

    /** plain_transfer_open. */
    method PlainTransferOpen(h: Host) returns (ok: bool)
      requires Valid() && View().path.Some? && h.regular(View().path.value).Some?
      modifies Repr()
      ensures Valid() && fresh(Repr() - old(Repr())) && next == old(next)
      ensures View() == Open(old(View()), h) && ok == View().pump.Some?
    {
      hide Valid, Decimal;
      assert View().path == cleanlocalpath;
      hide View;
      if h.opens(cleanlocalpath.value) {
        BeginTransfer(h.regular(cleanlocalpath.value).value);
        ok := true;
      } else {
        SetPump(None, false, false);
        ok := false;
      }
    }

    /** plain_transfer_close. */
    method PlainTransferClose()
      requires Valid()
      modifies Repr()
      ensures Valid() && Repr() == old(Repr()) && next == old(next)
      ensures View() == old(View()).(pump := None, inProgress := false, completed := false)
    {
      hide Buffer.Valid, HeaderList.Valid;
      SetPump(None, false, false);
    }

    // ----- one field at a time

    method SetFlags(f: Flags)
      requires Valid()
      modifies Repr()
      ensures Valid() && Repr() == old(Repr()) && next == old(next)
      ensures View() == old(View()).(flags := f)
    {
      hide Valid, Repr;
      Own();
      flags := f;
    }

    method SetResult(code: int)
      requires Valid()
      modifies Repr()
      ensures Valid() && Repr() == old(Repr()) && next == old(next)
      ensures View() == old(View()).(resultCode := code)
    {
      hide Valid, Repr;
      Own();
      resultCode := code;
    }

    method SetVerb(v: Option<string>)
      requires Valid()
      modifies Repr()
      ensures Valid() && Repr() == old(Repr()) && next == old(next)
      ensures View() == old(View()).(verb := v)
    {
      hide Valid, Repr;
      Own();
      verb := v;
    }

    method SetTarget(u: string, q: string)
      requires Valid()
      modifies Repr()
      ensures Valid() && Repr() == old(Repr()) && next == old(next)
      ensures View() == old(View()).(uri := Some(u), query := Some(q))
    {
      hide Valid, Repr;
      Own();
      uri, query := Some(u), Some(q);
    }

    method SetVHost(v: VHost)
      requires Valid()
      modifies Repr()
      ensures Valid() && Repr() == old(Repr()) && next == old(next)
      ensures View() == old(View()).(vhost := v)
    {
      hide Valid, Repr;
      Own();
      vhost := v;
    }

    method SetPath(local: string, path: Option<string>)
      requires Valid()
      modifies Repr()
      ensures Valid() && Repr() == old(Repr()) && next == old(next)
      ensures View() == old(View()).(localpath := local, path := path)
    {
      hide Valid, Repr;
      Own();
      localpath, cleanlocalpath := local, path;
    }

    method SetCgi(cgi: bool)
      requires Valid()
      modifies Repr()
      ensures Valid() && Repr() == old(Repr()) && next == old(next)
      ensures View() == old(View()).(isCgi := cgi)
    {
      hide Valid, Repr;
      Own();
      isCgiRequest := cgi;
    }

    method ClearInput()
      requires Valid()
      modifies Repr()
      ensures Valid() && Repr() == old(Repr()) && next == old(next)
      ensures View() == old(View()).(input := [])
    {
      hide Buffer.Valid, HeaderList.Valid;
      inputbuffer.Clear();
    }

    // ----- parse_request

    /** The method table search: the last entry that matches stays. */
    method FindVerb(name: string)
      requires Valid()
      modifies Repr()
      ensures Valid() && Repr() == old(Repr()) && next == old(next)
      ensures View() == Sessions.FindVerb(old(View()), name)
    {
      hide Valid, Repr, EqNoCase;
      var found := None;
      for i := 0 to |Requests.METHODS|
        invariant found == Requests.FindMethod(Requests.METHODS[..i], name)
      {
        assert Requests.METHODS[..i + 1][..i] == Requests.METHODS[..i];
        if EqNoCase(Requests.METHODS[i], name) {
          found := Some(Requests.METHODS[i]);
        }
      }
      assert Requests.METHODS[..|Requests.METHODS|] == Requests.METHODS;
      if found.Some? {
        SetVerb(found);
      }
    }

    /** The version and close bits, toggled one after the other. */
    method VersionBits(proto: string)
      requires Valid()
      modifies Repr()
      ensures Valid() && Repr() == old(Repr()) && next == old(next)
      ensures View() == old(View()).(flags := VersionFlags(old(View()).flags, Requests.VersionOf(proto)))
    {
      hide Valid, Repr, EqNoCase;
      var f := flags;
      f := f.(close := true);
      f := f.(http10 := true);
      if |proto| >= 5 && EqNoCase(proto[..5], "HTTP/") {
        if "1.0" <= proto[5..] {
          f := f.(http11 := !f.http11);
          f := f.(http10 := true, close := true);
        } else if "1.1" <= proto[5..] {
          f := f.(http10 := !f.http10);
          f := f.(http11 := true);
        }
      }
      SetFlags(f);
    }

    /** Header lines, cut out of the input buffer's block, which holds cut text until it is cleared. */
    method ReadHeaders(cursor: Option<nat>)
      requires Valid() && View().input != [] && (cursor.Some? ==> cursor.value <= |View().input|)
      modifies Repr()
      ensures Valid() && fresh(Repr() - old(Repr())) && next == old(next)
      ensures View() == old(View()).(input := View().input, inbound := old(View()).inbound +
        Requests.HeaderLines(Requests.TextAt(old(View()).input, cursor)))
    {
      hide Buffer.Valid, HeaderList.Valid, Requests.HeaderLines, Requests.TextAt;
      Requests.ParseHeaderLines(inputbuffer, cursor, inboundHeaders);
    }

    method Lookup(default: Option<string>, name: string) returns (value: Option<string>)
      requires Valid()
      ensures value == Get(View().inbound, default, name)
    {
      hide Buffer.Valid, HeaderList.Valid, Get;
      value := inboundHeaders.GetValue(default, name);
    }

    /** The Connection header, looked at in the list. */
    method KeepAliveBit()
      requires Valid()
      modifies Repr()
      ensures Valid() && Repr() == old(Repr()) && next == old(next)
      ensures View() == old(View()).(flags := KeepAliveFlags(old(View()).flags, old(View()).inbound))
    {
      hide Repr, Valid, EqNoCase, Get;
      var f := flags;
      if f.http11 {
        var keepalive := Lookup(Some("Close"), "Connection");
        if keepalive.Some? && EqNoCase(keepalive.value, "Keep-Alive") {
          f := f.(close := !f.close);
        } else if keepalive.Some? && EqNoCase(keepalive.value, "Close") {
          f := f.(close := true);
        }
      }
      SetFlags(f);
    }

    method ChooseHost(h: Host)
      requires Valid()
      modifies Repr()
      ensures Valid() && Repr() == old(Repr()) && next == old(next)
      ensures View() == Sessions.ChooseHost(old(View()), h)
    {
      hide Repr, Valid, Get;
      var vhoststr := Lookup(None, "Host");
      if vhoststr.Some? && flags.http11 {
        var vhptr := h.vhost(vhoststr.value);
        if vhptr.Some? {
          SetVHost(vhptr.value);
        } else {
          SetResult(NOT_FOUND);
        }
      }
    }

    method FindPath(h: Host)
      requires Valid() && View().uri.Some?
      modifies Repr()
      ensures Valid() && Repr() == old(Repr()) && next == old(next)
      ensures View() == Sessions.FindPath(old(View()), h)
    {
      hide Repr, Valid, Contains, LocalPath;
      var local := LocalPath(vhost, uri.value);
      var path := h.realpath(local);
      SetPath(local, path);
      if path.Some? {
        if Contains(vhost.cgiRoot, path.value) {
          SetCgi(true);
        }
      } else {
        SetResult(NOT_FOUND);
      }
    }

    /** The path on disk and the final result code. */
    method Resolve(h: Host)
      requires Valid() && View().uri.Some?
      modifies Repr()
      ensures Valid() && Repr() == old(Repr()) && next == old(next)
      ensures View() == Sessions.Resolve(old(View()), h)
    {
      hide Repr, Valid, Sessions.FindPath;
      FindPath(h);
      if resultCode == 0 {
        SetResult(OK);
      }
      ClearInput();
    }

    /** Headers, query, uri and the close bit. */
    method ReadHead(target: string, cursor: Option<nat>, scan0: char)
      requires Valid() && View().input != [] && (cursor.Some? ==> cursor.value <= |View().input|)
      requires NUL !in target && Requests.NoSpace(target) && |target| <= 1024
      modifies Repr()
      ensures Valid() && fresh(Repr() - old(Repr())) && next == old(next)
      ensures View() == WithHeaders(old(View()), old(View()).inbound + Requests.HeaderLines(Requests.TextAt(old(View()).input, cursor)),
                                    target).(input := View().input)
    {
      hide Valid, View, Requests.HeaderLines, Requests.TextAt, Requests.UriOf, Requests.QueryOf, KeepAliveFlags;
      ReadHeaders(cursor);
      var query, path := SplitUri(target, scan0);
      SetTarget(path, query);
      KeepAliveBit();
    }

    /** What follows the request line, once the method is known. */
    method ParseRest(h: Host, target: string, cursor: Option<nat>, scan0: char)
      requires Valid() && View().input != [] && (cursor.Some? ==> cursor.value <= |View().input|)
      requires NUL !in target && Requests.NoSpace(target) && |target| <= 1024
      modifies Repr()
      ensures Valid() && fresh(Repr() - old(Repr())) && next == old(next)
      ensures View() == Sessions.ParseRest(old(View()), h, target, Requests.TextAt(old(View()).input, cursor))
    {
      hide Valid, Requests.HeaderLines, Requests.TextAt, Requests.UriOf, Requests.QueryOf, KeepAliveFlags, Sessions.ChooseHost, Sessions.Resolve;
      ghost var s := View();
      assert s.verb == verb;
      hide View;
      if verb.None? {
        SetResult(NOT_IMPLEMENTED);
      } else {
        ReadHead(target, cursor, scan0);
        ghost var cut := View().input;
        ChooseHost(h);
        Resolve(h);
        CutUnseen(WithHeaders(s, s.inbound + Requests.HeaderLines(Requests.TextAt(s.input, cursor)), target), cut, h);
      }
    }

    method ParseLine(h: Host, line: Requests.RequestLine, cursor: Option<nat>, scan0: char)
      requires Valid() && View().input != [] && (cursor.Some? ==> cursor.value <= |View().input|)
      requires NUL !in line.target && Requests.NoSpace(line.target) && |line.target| <= 1024
      modifies Repr()
      ensures Valid() && fresh(Repr() - old(Repr())) && next == old(next)
      ensures View() == Sessions.ParseLine(old(View()), h, line, Requests.TextAt(old(View()).input, cursor))
    {
      hide Valid, Requests.TextAt, VersionFlags, Sessions.ParseRest, Requests.FindMethod, Requests.VersionOf;
      var version := Requests.VersionOf(line.proto);
      VersionBits(line.proto);
      if version.NotHttp? {
        SetResult(BAD_REQUEST);
      } else if version.Unsupported? {
        SetResult(VERSION_NOT_SUPPORTED);
      } else {
        FindVerb(line.verb);
        ParseRest(h, line.target, cursor, scan0);
      }
    }

    /**
     parse_request, in the input buffer's own block; it is called for a complete request only,
     so the buffer is not empty. scan0 is what percent_decode's scan variable happens to hold.
     */
    method ParseRequest(h: Host, date: string, scan0: char)
      requires Valid() && View().input != []
      modifies Repr()
      ensures Valid() && fresh(Repr() - old(Repr())) && next == old(next)
      ensures View() == Parse(old(View()), h, date)
    {
      hide Valid, Before, After, Requests.ScanLine, Requests.TextAt, Sessions.ParseLine, Begun, Rejected, CStr;
      var line, cursor := BeginParse(date);
      var scanned := Requests.ScanLine(line);
      if scanned.None? {
        RejectLine();
      } else {
        TargetIsText(line, scanned.value);
        ParseLine(h, scanned.value, cursor, scan0);
      }
    }

    method BeginParse(date: string) returns (line: string, cursor: Option<nat>)
      requires Valid() && View().input != []
      modifies Repr()
      ensures Valid() && fresh(Repr() - old(Repr())) && next == old(next)
      ensures View() == Begun(old(View()), date) && View().input != []
      ensures line == Before(CStr(old(View()).input), '\n') && NUL !in line
      ensures cursor.Some? ==> cursor.value <= |View().input|
      ensures After(CStr(old(View()).input), '\n') == Requests.TextAt(View().input, cursor)
    {
      hide Valid, Before, After, Requests.TextAt, Requests.CutFirst, CStr;
      AddTwoOutbound(Header("Server", SERVER_VERSION_STRING), Header("Date", date));
      line, cursor := CutRequestLine();
    }

    /** The first line, cut off the input where it stands. */
    method CutRequestLine() returns (line: string, cursor: Option<nat>)
      requires Valid() && View().input != []
      modifies Repr()
      ensures Valid() && Repr() == old(Repr()) && next == old(next)
      ensures View() == old(View()).(input := Requests.CutFirst(old(View()).input))
      ensures line == Before(CStr(old(View()).input), '\n') && NUL !in line
      ensures cursor.Some? ==> cursor.value <= |View().input|
      ensures After(CStr(old(View()).input), '\n') == Requests.TextAt(View().input, cursor)
    {
      hide Buffer.Valid, HeaderList.Valid, Sep, Before, After, CStr;
      FirstCut(inputbuffer.Contents);
      BeforeIsText(CStr(inputbuffer.Contents));
      var headertoken;
      headertoken, cursor := inputbuffer.Strsep(Some(0), '\n');
      var token := inputbuffer.ReadStr(headertoken);
      line := token.value;
    }

    method ReadInput() returns (s: string)
      requires Valid()
      ensures s == View().input
    {
      hide Buffer.Valid, HeaderList.Valid;
      s := inputbuffer.Read();
    }

    /** A line that does not hold three words. */
    method RejectLine()
      requires Valid()
      modifies Repr()
      ensures Valid() && Repr() == old(Repr()) && next == old(next)
      ensures View() == Rejected(old(View()))
    {
      hide Valid, Repr;
      Own();
      resultCode := BAD_REQUEST;
      flags := flags.(close := true);
    }

    // ----- the response head

    /** One call of the transport's send, whose count nobody looks at. */
    method SendPiece(piece: string, ghost pieces: seq<string>, ghost counts: seq<int>, ghost k: nat, ghost w0: string)
      requires LegalCounts(pieces, counts) && k < |pieces| && pieces[k] == piece
      requires wire == w0 + SentPieces(pieces[..k], counts[..k])
      modifies `wire
      ensures wire == w0 + SentPieces(pieces[..k + 1], counts[..k + 1])
    {
      assert pieces[..k + 1][..k] == pieces[..k] && counts[..k + 1][..k] == counts[..k];
      wire := wire + Taken(piece, counts[k]);
      assert wire == w0 + (SentPieces(pieces[..k], counts[..k]) + Taken(piece, counts[k]));
    }

    /** client_send_response_code. */
    method SendResponseCode(h: Host, ghost pieces: seq<string>, ghost counts: seq<int>, ghost w0: string)
      requires LegalCounts(pieces, counts) && StatusPieces(h, flags, resultCode) <= pieces
      requires wire == w0
      modifies `wire
      ensures var k := |StatusPieces(h, flags, resultCode)|;
        wire == w0 + SentPieces(pieces[..k], counts[..k])
    {
      hide SentPieces, Decimal, Reason;
      ghost var status := StatusPieces(h, flags, resultCode);
      ghost var k := 0;
      NothingSent(pieces, counts, w0);
      if flags.http10 {
        assert status[0] == "HTTP/1.0 ";
        SendPiece("HTTP/1.0 ", pieces, counts, 0, w0);
        k := 1;
      } else if flags.http11 {
        assert status[0] == "HTTP/1.1 ";
        SendPiece("HTTP/1.1 ", pieces, counts, 0, w0);
        k := 1;
      }
      assert status[k] == Decimal(resultCode) + " " && status[k + 1] == Reason(h, resultCode) && status[k + 2] == "\r\n";
      SendPiece(Decimal(resultCode) + " ", pieces, counts, k, w0);
      SendPiece(Reason(h, resultCode), pieces, counts, k + 1, w0);
      SendPiece("\r\n", pieces, counts, k + 2, w0);
    }

    /** The walk over the list, node by node, and the blank line. */
    method SendFields(ghost pieces: seq<string>, ghost counts: seq<int>, ghost k0: nat, ghost w0: string)
      requires outboundHeaders.Valid() && LegalCounts(pieces, counts)
      requires k0 <= |pieces| && pieces[k0..] == FieldPieces(outboundHeaders.Contents) + ["\r\n"]
      requires wire == w0 + SentPieces(pieces[..k0], counts[..k0])
      modifies `wire
      ensures wire == w0 + SentPieces(pieces, counts)
    {
      hide SentPieces, FieldPiece;
      var ptr := outboundHeaders.head;
      ghost var i := 0;
      ghost var hs := outboundHeaders.Contents;
      while ptr != null
        invariant 0 <= i <= |hs| == |outboundHeaders.nodes|
        invariant ptr == if i < |hs| then outboundHeaders.nodes[i] else null
        invariant wire == w0 + SentPieces(pieces[..k0 + i], counts[..k0 + i])
        decreases |hs| - i
      {
        assert pieces[k0 + i] == pieces[k0..][i] == FieldPiece(hs[i]);
        SendPiece(FieldPiece(Header(ptr.name, ptr.value)), pieces, counts, k0 + i, w0);
        ptr := ptr.next;
        i := i + 1;
      }
      assert pieces[k0 + i] == pieces[k0..][i] == "\r\n";
      SendPiece("\r\n", pieces, counts, k0 + i, w0);
      assert pieces[..k0 + i + 1] == pieces && counts[..k0 + i + 1] == counts;
    }

    /** client_send_headers. */
    method SendHeaders(ghost pieces: seq<string>, ghost counts: seq<int>, ghost k0: nat, ghost w0: string)
      requires Valid() && LegalCounts(pieces, counts)
      requires k0 <= |pieces| && pieces[k0..] == FieldPieces(View().outbound + [ConnectionHeader(flags)]) + ["\r\n"]
      requires wire == w0 + SentPieces(pieces[..k0], counts[..k0])
      modifies Repr()
      ensures Valid() && fresh(Repr() - old(Repr())) && next == old(next)
      ensures View() == old(View()).(outbound := old(View()).outbound + [ConnectionHeader(old(flags))],
                                     wire := w0 + SentPieces(pieces, counts))
    {
      hide Buffer.Valid, HeaderList.Valid, FieldPieces, SentPieces;
      AddOutbound("Connection", if flags.close then "Close" else "Keep-Alive");
      SendFields(pieces, counts, k0, w0);
    }

    /** client_send_response_code, then client_send_headers. */
    method SendHead(h: Host, ghost counts: seq<int>)
      requires Valid() && LegalCounts(PiecesOf(View(), h), counts)
      modifies Repr()
      ensures Valid() && fresh(Repr() - old(Repr())) && next == old(next)
      ensures View() == Sessions.SendHead(old(View()), h, counts)
    {
      hide Buffer.Valid, HeaderList.Valid, StatusPieces, FieldPieces, SentPieces;
      ghost var pieces, w0 := PiecesOf(View(), h), wire;
      ghost var status := StatusPieces(h, flags, resultCode);
      assert pieces == status + (FieldPieces(View().outbound + [ConnectionHeader(flags)]) + ["\r\n"]);
      SendResponseCode(h, pieces, counts, w0);
      SendHeaders(pieces, counts, |status|, w0);
    }

    // ----- generate_dir_listing

    /** Parts of the page in a row: the fixed ones, and the rows the directory is read into. */
    method AppendParts(parts: seq<string>)
      requires Valid()
      modifies Repr()
      ensures Valid() && fresh(Repr() - old(Repr())) && next == old(next)
      ensures View() == old(View()).(output := old(View()).output + Concat(parts))
    {
      hide Buffer.Valid, HeaderList.Valid, Valid, Concat;
      ghost var v := View();
      NothingYet(parts, v.output);
      for i := 0 to |parts|
        invariant Valid() && fresh(Repr() - old(Repr())) && next == old(next)
        invariant View() == v.(output := v.output + Concat(parts[..i]))
      {
        PartNext(parts, i, v.output);
        AppendOutput(parts[i]);
      }
      assert parts[..|parts|] == parts;
    }

    method AppendPage(h: Host, dir: string)
      requires Valid()
      modifies Repr()
      ensures Valid() && fresh(Repr() - old(Repr())) && next == old(next)
      ensures View() == old(View()).(output := old(View()).output + Concat(PageParts(h, old(View()).vhost, dir)))
    {
      hide Buffer.Valid, HeaderList.Valid, Valid, Concat, PageTop, PageBottom;
      ghost var out0, v := View().output, vhost;
      AppendParts(PageTop(vhost, dir));
      AppendParts(h.rows(dir));
      AppendParts(PageBottom(h, vhost));
      PartsInOrder(out0, PageTop(v, dir), h.rows(dir), PageBottom(h, v));
    }

    /** generate_dir_listing. */
    method GenerateDirListing(h: Host, dir: string)
      requires Valid()
      modifies Repr()
      ensures Valid() && fresh(Repr() - old(Repr())) && next == old(next)
      ensures View() == Listing(old(View()), h, dir)
    {
      hide Buffer.Valid, HeaderList.Valid, Valid, Concat, PageParts, Decimal;
      AppendPage(h, dir);
      AnnounceListing();
    }

    /** The two headers of a listing. */
    method AnnounceListing()
      requires Valid()
      modifies Repr()
      ensures Valid() && fresh(Repr() - old(Repr())) && next == old(next)
      ensures View() == old(View()).(outbound := old(View()).outbound +
        [Header("Content-type", "text/html"), Header("Content-Length", Decimal(|old(View()).output|))])
    {
      hide Buffer.Valid, HeaderList.Valid, Decimal;
      AddTwoOutbound(Header("Content-type", "text/html"), Header("Content-Length", Decimal(outputbuffer.len)));
    }

    // ----- dispatch_request

    /** What is decided and opened before the head is sent. */
    method Prepare(h: Host)
      requires Valid() && (View().resultCode == OK ==> View().path.Some? && !View().isCgi)
      modifies Repr()
      ensures Valid() && fresh(Repr() - old(Repr())) && next == old(next)
      ensures View() == Sessions.Prepare(old(View()), h)
    {
      hide Buffer.Valid, HeaderList.Valid, Valid, Contains, Listing, Open;
      if resultCode != OK {
        AddOutbound("Content-type", "text/html");
      } else if !Contains(cleanlocalpath.value, vhost.documentRoot) {
        SetResult(FORBIDDEN);
      } else if h.regular(cleanlocalpath.value).Some? {
        OpenFile(h);
      } else if h.isDir(cleanlocalpath.value) {
        GenerateDirListing(h, cleanlocalpath.value);
      } else {
        SetResult(NOT_FOUND);
      }
    }

    /** Opening the file, and what follows from whether that succeeds. */
    method OpenFile(h: Host)
      requires Valid() && View().path.Some? && h.regular(View().path.value).Some?
      modifies Repr()
      ensures Valid() && fresh(Repr() - old(Repr())) && next == old(next)
      ensures View() ==
        var s1 := Open(old(View()), h);
        if s1.pump.Some? then s1.(outbound := s1.outbound + [Header("Content-Type", h.mime(s1.localpath))])
        else s1.(resultCode := INTERNAL_SERVER_ERROR)
    {
      hide Buffer.Valid, HeaderList.Valid, Valid, Open;
      var ok := PlainTransferOpen(h);
      if ok {
        AddOutbound("Content-Type", h.mime(localpath));
      } else {
        SetResult(INTERNAL_SERVER_ERROR);
      }
    }

    /** The transport's close, on a client that is to be removed. */
    method Close()
      requires Valid()
      modifies this
      ensures Valid() && Repr() == old(Repr()) && next == old(next) && closes == old(closes) + 1
      ensures View() == old(View()).(active := false, closed := true)
    {
      hide Valid, Repr;
      Own();
      active := false;
      closes := closes + 1;
    }

    /** close_connect. */
    method CloseConnect()
      requires Valid()
      modifies this
      ensures Valid() && Repr() == old(Repr()) && next == old(next)
      ensures View() == old(View()).(active := false)
    {
      hide Valid, Repr;
      Own();
      active := false;
    }

    /** dispatch_request. */
    method DispatchRequest(h: Host, ghost counts: seq<int>)
      requires Valid() && (View().resultCode == OK ==> View().path.Some? && !View().isCgi)
      requires LegalCounts(PiecesOf(Sessions.Prepare(View(), h), h), counts) && !ReadsNull(View())
      modifies Repr()
      ensures Valid() && fresh(Repr() - old(Repr())) && next == old(next)
      ensures View() == Dispatch(old(View()), h, counts)
    {
      hide Valid, Sessions.Prepare, Sessions.SendHead, PiecesOf, Clear, LegalCounts;
      if resultCode == OK {
        Prepare(h);
        SendHead(h, counts);
      } else {
        Refuse(h, counts);
      }
    }

    /** The branch for a result other than 200. */
    method Refuse(h: Host, ghost counts: seq<int>)
      requires Valid() && View().resultCode != OK && View().verb.Some?
      requires LegalCounts(PiecesOf(Sessions.Prepare(View(), h), h), counts)
      modifies Repr()
      ensures Valid() && fresh(Repr() - old(Repr())) && next == old(next)
      ensures View() == Dispatch(old(View()), h, counts)
    {
      hide Valid, View, Sessions.Prepare, Sessions.SendHead, PiecesOf, Clear, LegalCounts;
      DispatchKeepsVerb(View(), h, counts);
      Prepare(h);
      SendHead(h, counts);
      EndWithError();
      var name := LogName();
    }

    /** What the log call behind a refusal reads: the name of the method, through the pointer to it. */
    method LogName() returns (name: string)
      requires View().verb.Some?
      ensures Some(name) == View().verb
    {
      name := verb.value;
    }

    method EndWithError()
      requires Valid()
      modifies Repr()
      ensures Valid() && fresh(Repr() - old(Repr())) && next == old(next)
      ensures View() ==
        var s := old(View()).(output := old(View()).output + "<html>");
        if s.flags.http11 then Clear(s) else if s.flags.http10 then s.(active := false, closed := true) else s
    {
      hide Buffer.Valid, HeaderList.Valid, Valid, Clear;
      AppendOutput("<html>");
      if flags.http11 {
        ClearClient();
      } else if flags.http10 {
        Close();
      }
    }

    // ----- service_clients

    /** The pass over one client: finish a transfer, or serve a complete request and poll. */
    method Service(h: Host, tick: Tick, scan0: char)
      requires Valid() && View().active && LegalTick(View(), h, tick)
      modifies Repr()
      ensures Valid() && fresh(Repr() - old(Repr())) && next == old(next)
      ensures View() == Pass(old(View()), h, tick)
      ensures tick.poll.Broken? ==> !active
    {
      hide Buffer.Valid, HeaderList.Valid, Valid, LegalServe, LegalPoll, Serve, Polled, Finish;
      if transferInProgress && transferCompleted {
        FinishTransfer();
      } else {
        ServeRequest(h, tick, scan0);
        Poll(tick.poll);
      }
    }

    method FinishTransfer()
      requires Valid()
      modifies Repr()
      ensures Valid() && fresh(Repr() - old(Repr())) && next == old(next)
      ensures View() == Finish(old(View()))
    {
      hide Buffer.Valid, HeaderList.Valid, Valid, Clear;
      PlainTransferClose();
      if flags.http10 || flags.close {
        Close();
      } else if flags.http11 {
        ClearClient();
      }
    }

    method ServeRequest(h: Host, tick: Tick, scan0: char)
      requires Valid() && View().active && !Finished(View()) && LegalServe(View(), h, tick)
      modifies Repr()
      ensures Valid() && fresh(Repr() - old(Repr())) && next == old(next)
      ensures View() == Serve(old(View()), h, tick)
    {
      hide Valid, Parse, Dispatch, Sessions.Prepare, PiecesOf, LegalCounts, LegalServe, Serve, Requests.IsComplete, View;
      ghost var s := View();
      ServeIs(s, h, tick);
      var input := ReadInput();
      if Requests.IsComplete(input) {
        CompleteNonempty(input);
        ParseRequest(h, tick.date, scan0);
        DispatchRequest(h, tick.counts);
      }
    }

    method Poll(p: Poll)
      requires Valid() && LegalPoll(View(), p)
      modifies Repr()
      ensures Valid() && fresh(Repr() - old(Repr())) && next == old(next)
      ensures View() == Polled(old(View()), p) && (p.Broken? ==> !active)
    {
      hide Buffer.Valid, HeaderList.Valid, Valid, Recv, Send;
      match p {
        case Quiet =>
        case Broken => CloseConnect();
        case Readable(chunk) => PlainTransferRecv(chunk);
        case Writable(read, sent) => PlainTransferSend(read, sent);
      }
    }
  }

  lemma PartsInOrder(out0: string, a: seq<string>, b: seq<string>, c: seq<string>)
    ensures out0 + Concat(a + b + c) == out0 + Concat(a) + Concat(b) + Concat(c)
  {
    ConcatAppend(a + b, c);
    ConcatAppend(a, b);
    Assoc(out0, Concat(a), Concat(b));
    Assoc(out0, Concat(a) + Concat(b), Concat(c));
  }

  lemma PartNext(parts: seq<string>, i: nat, out0: string)
    requires i < |parts|
    ensures out0 + Concat(parts[..i + 1]) == out0 + Concat(parts[..i]) + parts[i]
  {
    ConcatSnoc(parts[..i], parts[i]);
    assert parts[..i + 1] == parts[..i] + [parts[i]];
    Assoc(out0, Concat(parts[..i]), parts[i]);
  }

  lemma NothingYet(parts: seq<string>, out0: string)
    ensures out0 + Concat(parts[..0]) == out0
  {
  }

  lemma NothingSent(pieces: seq<string>, counts: seq<int>, w0: string)
    requires LegalCounts(pieces, counts)
    ensures w0 + SentPieces(pieces[..0], counts[..0]) == w0
  {
  }

  /** The words scanned from a C string hold no NUL. */
  lemma TargetIsText(line: string, l: Requests.RequestLine)
    requires NUL !in line && Requests.ScanLine(line) == Some(l)
    ensures NUL !in l.target && Requests.NoSpace(l.target) && |l.target| <= 1024
  {
    var s1 := Requests.SkipSpace(line);
    SkipsIn(line);
    var rest := s1[|Requests.Word(s1, 20)|..];
    SkipsIn(rest);
    assert NUL !in Requests.SkipSpace(rest);
  }

  lemma {:induction false} SkipsIn(s: string)
    ensures forall c | c in Requests.SkipSpace(s) :: c in s
  {
    if s != [] {
      SkipsIn(s[1..]);
    }
  }

  /** Serving, as the two calls the code makes. */
  lemma ServeIs(s: Session, h: Host, tick: Tick)
    requires s.active && !Finished(s) && LegalServe(s, h, tick)
    ensures !Requests.IsComplete(s.input) ==> Serve(s, h, tick) == s
    ensures Requests.IsComplete(s.input) ==>
      var p := Parse(s, h, tick.date);
      && (p.resultCode == OK ==> !p.isCgi) && !ReadsNull(p) && LegalCounts(PiecesOf(Sessions.Prepare(p, h), h), tick.counts)
      && Serve(s, h, tick) == Dispatch(p, h, tick.counts)
  {
    hide Parse, Dispatch, Sessions.Prepare, PiecesOf, LegalCounts, Requests.IsComplete, PageParts, Lists;
  }

  lemma DispatchKeepsVerb(s: Session, h: Host, counts: seq<int>)
    requires s.resultCode != OK && LegalCounts(PiecesOf(Sessions.Prepare(s, h), h), counts)
    ensures Dispatch(s, h, counts).verb == s.verb
  {
    hide LegalCounts, SentPieces, HeadPieces;
  }

  lemma CompleteNonempty(input: string)
    requires Requests.IsComplete(input)
    ensures input != []
  {
  }

  /** What the parse leaves in the input does not matter to the rest of it, which clears the input. */
  lemma CutUnseen(s: Session, cut: string, h: Host)
    requires s.uri.Some?
    ensures Sessions.Resolve(Sessions.ChooseHost(s.(input := cut), h), h) == Sessions.Resolve(Sessions.ChooseHost(s, h), h)
  {
    hide LocalPath, Contains, Get;
  }

  /** The cut of the first line, in terms of the text from the start of the block. */
  lemma FirstCut(m: string)
    ensures var (m', next) := Sep(m, 0, '\n');
      StrAt(m', 0) == Before(CStr(m), '\n') && After(CStr(m), '\n') == Requests.TextAt(m', next)
  {
    hide Sep, CStr;
    assert m[0..] == m;
    SepExact(m, 0, '\n');
  }

  lemma BeforeIsText(text: string)
    requires NUL !in text
    ensures NUL !in Before(text, '\n')
  {
  }

  /** The target in the array sscanf filled: split, and decoded in place. */
  method SplitUri(target: string, scan0: char) returns (query: string, path: string)
    requires NUL !in target && Requests.NoSpace(target) && |target| <= 1024
    ensures query == Requests.QueryOf(target) && path == Requests.UriOf(target)
  {
    hide Requests.QueryOf, Requests.UriOf;
    var uri := new char[1025];
    forall k | 0 <= k < |target| {
      uri[k] := target[k];
    }
    uri[|target|] := NUL;
    assert uri[..][..|target|] == target && uri[..][|target|] == NUL;
    IndexOfIs(uri[..], NUL, |target|);
    query, path := Requests.SplitTarget(uri, scan0);
  }

  method NewBuffers() returns (a: Buffer, b: Buffer)
    ensures a.Valid() && b.Valid() && fresh(a.Repr) && fresh(b.Repr) && a.Repr !! b.Repr
    ensures a.Contents == [] && b.Contents == []
  {
    a := new Buffer();
    b := new Buffer();
  }

  method NewHeaderLists() returns (a: HeaderList, b: HeaderList)
    ensures a.Valid() && b.Valid() && fresh(a.Repr) && fresh(b.Repr) && a.Repr !! b.Repr
    ensures a.Contents == [] && b.Contents == []
  {
    a := new HeaderList();
    b := new HeaderList();
  }
}
