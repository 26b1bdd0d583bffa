/**
 Inputs on which the server does not do what it is meant to, one for each of the ways that need
 a whole run to show: files and replies on one small host.
 */
module Witnesses {
  import opened CText
  import opened Headers
  import Percent
  import Requests
  import ClientLists
  import opened Sessions
  import opened Delivery
  import opened Answers
  import opened KeepAlive
  import opened Connections
  import opened Conversations
  import opened Rejections
  import opened Leftovers

  // ----- transfers

  /** A send that accepts nothing completes the transfer: none of the file has arrived. */
  lemma NothingArrives(s: Session, file: string)
    requires Opened(s, file) && s.output == [] && 0 < |file| <= NETWORK_BLOCK_SIZE
    ensures var es := [Event(|file|, 0)];
      LegalSends(s, es) && Sends(s, es).completed && Sends(s, es).wire == s.wire != s.wire + file
  {
  }

  /** A last send that accepts a part completes it too: the rest stays in the buffer. */
  lemma TailIsLost(s: Session, file: string)
    requires Opened(s, file) && s.output == [] && 2 < |file| <= NETWORK_BLOCK_SIZE
    ensures var es := [Event(|file|, 1), Event(0, 1)];
      LegalSends(s, es) && NoError(es) && Sends(s, es).completed && Sends(s, es).wire == s.wire + file[..2]
  {
    var es := [Event(|file|, 1), Event(0, 1)];
    FirstPart(s, file);
    hide Send, LegalEvent;
    OneSend(s, es[0]);
    assert es[..1] == [es[0]];
    SecondPart(Sends(s, es[..1]), file, s.wire);
  }

  lemma OneSend(s: Session, e: Event)
    requires !s.completed && LegalEvent(s, e)
    ensures LegalSends(s, [e]) && Sends(s, [e]) == Send(s, e.read, e.sent)
  {
    assert [e][..0] == [];
  }

  lemma FirstPart(s: Session, file: string)
    requires Opened(s, file) && s.output == [] && 2 < |file| <= NETWORK_BLOCK_SIZE
    ensures LegalEvent(s, Event(|file|, 1))
    ensures var s' := Send(s, |file|, 1);
      s' == s.(wire := s.wire + file[..1], output := file[1..], pump := Some(Pump(file, |file|)))
  {
    assert [] + s.pump.value.file == s.pump.value.file;
    assert [] + file[0..0 + |file|] == file;
  }

  lemma SecondPart(s: Session, file: string, w0: string)
    requires 2 < |file| <= NETWORK_BLOCK_SIZE && s.inProgress && s.pump == Some(Pump(file, |file|))
    requires s.output == file[1..] && s.wire == w0 + file[..1]
    ensures LegalEvent(s, Event(0, 1))
    ensures Send(s, 0, 1).completed && Send(s, 0, 1).wire == w0 + file[..2]
  {
    assert file[..1] + file[1..][..1] == file[..2];
    Assoc(w0, file[..1], file[1..][..1]);
  }

  // ----- the client list

  /** Of two clients the second is closed and stays in the list after a sweep. */
  lemma SweepLeavesOne()
    ensures var r := ClientLists.Run([ClientLists.Accept, ClientLists.Accept, ClientLists.Close(1), ClientLists.Sweep]);
      r.list == [0, 1] && 1 !in r.active
  {
    var accept := [ClientLists.Accept];
    var two := accept + [ClientLists.Accept];
    var closed := two + [ClientLists.Close(1)];
    assert closed + [ClientLists.Sweep] == [ClientLists.Accept, ClientLists.Accept, ClientLists.Close(1), ClientLists.Sweep];
    assert [] + accept == accept;
    ClientLists.RunSnoc([], ClientLists.Accept);
    ClientLists.RunSnoc(accept, ClientLists.Accept);
    ClientLists.RunSnoc(two, ClientLists.Close(1));
    ClientLists.RunSnoc(closed, ClientLists.Sweep);
    var list, active := [0, 1], {0};
    assert ClientLists.Run(closed).list == list && ClientLists.Run(closed).active == active;
    assert list[..1] == [0] && list[..1][..0] == [];
    assert ClientLists.Actives(list[..1], active) == [0];
  }

  // ----- a host with a file and a directory

  const ROOT := VHost("/w", "/c", "localhost")

  /** A row of 600 characters, formatted. */
  function Row(): string
  {
    seq(600, _ => 'x')
  }

  function SmallHost(): Host
  {
    Host(local => if local == "/w//f.c" then Some("/w/f.c") else if local == "/w//d" then Some("/w/d") else None,
         path => if path == "/w/f.c" then Some("hello") else None,
         _ => true, path => path == "/w/d", _ => [Row()], _ => "text/plain", _ => None, _ => "Not Found", 80)
  }

  /** The line of "GET <target> HTTP/1.1". */
  function Get11(target: string): Requests.RequestLine
  {
    Requests.RequestLine("GET", target, "HTTP/1.1")
  }

  function RequestFor(target: string): string
  {
    Requests.PrintRequest(Get11(target), [], "")
  }

  /** A short target that is not split or decoded. */
  predicate Plain(target: string)
  {
    && 2 <= |target| <= 100
    && forall i | 0 <= i < |target| :: target[i] !in {'?', '%', NUL} && !Percent.IsSpace(target[i])
  }

  lemma PlainUri(target: string)
    requires Plain(target)
    ensures Requests.UriOf(target) == target && Requests.IsWord(target, 1024) && NUL !in target
  {
    NoSplit(target, '?');
    NoEscape(target);
    CStrWhole(target);
  }

  lemma Targets()
    ensures Plain("/f.c") && Plain("/d") && Plain("/m")
  {
  }

  lemma {:induction false} NoEscape(s: string)
    requires '%' !in s
    ensures Percent.Decode(s, NUL) == s
  {
    if s != [] {
      NoEscape(s[1..]);
    }
  }

  /** The request as text: it is complete, and its line and its (no) headers come back. */
  lemma RequestIs(target: string)
    requires Plain(target)
    ensures var text := RequestFor(target);
      && WellFormed(Get11(target), [], "") && |text| <= NETWORK_BLOCK_SIZE && text != []
      && CStr(text) == text && Requests.IsComplete(text)
      && Requests.ScanLine(Before(text, '\n')) == Some(Get11(target)) && LinesOf(text) == []
  {
    hide Plain, Requests.IsWord, Requests.IsComplete, CStr, Requests.PrintRequest, Requests.ScanLine, Before, Requests.HeaderLines, After;
    var l := Get11(target);
    PlainUri(target);
    Words();
    RequestText(target);
    CStrWhole(RequestFor(target));
    Requests.RequestRoundTrip(l, [], "");
  }

  lemma RequestText(target: string)
    requires Plain(target) && NUL !in target
    ensures var text := RequestFor(target);
      NUL !in text && 0 < |text| <= NETWORK_BLOCK_SIZE && Requests.IsComplete(text)
  {
    hide Plain, CStr;
    PlainLength(target);
    var text := RequestFor(target);
    var line := "GET" + " " + target + " " + "HTTP/1.1";
    assert text == line + "\n\n";
    CStrWhole(text);
    assert MatchAt(text, Requests.LF_BLANK, |text| - 2);
  }

  lemma PlainLength(target: string)
    requires Plain(target)
    ensures 2 <= |target| <= 100
  {
  }

  lemma Paths()
    ensures LocalPath(ROOT, "/f.c") == "/w//f.c" && LocalPath(ROOT, "/d") == "/w//d" && LocalPath(ROOT, "/m") == "/w//m"
    ensures Contains("/w/f.c", "/w") && !Contains("/c", "/w/f.c") && Contains("/w/d", "/w") && !Contains("/c", "/w/d")
    ensures Found(SmallHost(), ROOT, "/f.c") && Found(SmallHost(), ROOT, "/d")
    ensures FileFor(SmallHost(), ROOT, "/f.c") == Some("hello")
    ensures SmallHost().realpath("/w//m") == None
  {
    assert "/w" + "/" + "/f.c" == "/w//f.c" && "/w" + "/" + "/d" == "/w//d" && "/w" + "/" + "/m" == "/w//m";
    assert MatchAt("/w/f.c", "/w", 0) && MatchAt("/w/d", "/w", 0);
    assert "/w//f.c" != "/w//d" && "/w//m" != "/w//d" && "/w//m" != "/w//f.c" by {
      assert "/w//f.c"[4] == 'f' && "/w//d"[4] == 'd' && "/w//m"[4] == 'm';
    }
  }

  /** A request for a path that is found, parsed on a connection that holds no header lines. */
  lemma ParsedAt(s: Session, target: string, date: string)
    requires Plain(target) && s.input == RequestFor(target) && s.vhost == ROOT && s.inbound == []
    requires s.resultCode in {0, OK} && !s.isCgi && Found(SmallHost(), ROOT, target)
    ensures var p := Parse(s, SmallHost(), date);
      && p.resultCode == OK && !p.isCgi && p.vhost == ROOT && p.path == SmallHost().realpath(LocalPath(ROOT, target))
  {
    hide SmallHost, Found, Requests.CutFirst, RequestFor, Plain, CStr, Before, After, Requests.ScanLine, LocalPath, Requests.FindMethod,
      Requests.HeaderLines, ParseLine, Requests.VersionOf, Requests.UriOf, AsksToKeep, AnswerFlags, WellFormed, Requests.IsComplete;
    RequestIs(target);
    PlainUri(target);
    GetIsKnown();
    assert [] + LinesOf(s.input) == [];
    LineIs(Begun(s, date), SmallHost(), Get11(target), After(CStr(s.input), '\n'), ROOT);
  }

  /** The request for the file has an answer wherever it is made, as long as no header lines are left over. */
  lemma FileAnswered(s: Session, date: string)
    requires s.input == RequestFor("/f.c") && s.vhost == ROOT && s.inbound == []
    ensures AnswerTo(SmallHost(), ROOT, s.input, date).Some? && AnswerTo(SmallHost(), ROOT, s.input, date).value.body == "hello"
    ensures AnswerOn(s, SmallHost(), date).Some? && AnswerOn(s, SmallHost(), date).value.body == "hello"
  {
    hide SmallHost, Requests.CutFirst, RequestFor, CStr, Before, After, Requests.ScanLine, LocalPath, Requests.FindMethod,
      Requests.HeaderLines, Requests.VersionOf, Requests.UriOf, AsksToKeep, WellFormed, Requests.IsComplete, HeadText, FileFields, FileFor;
    RequestIs("/f.c");
    PlainUri("/f.c");
    GetIsKnown();
    Paths();
    assert [] + LinesOf(s.input) == [];
  }

  /** Every send of a head accepts everything. */
  function FullCounts(pieces: seq<string>): (counts: seq<int>)
    ensures LegalCounts(pieces, counts) && AllTaken(pieces, counts)
  {
    seq(|pieces|, i requires 0 <= i < |pieces| => |pieces[i]|)
  }

  /** A pass on an idle machine that takes a request in. */
  lemma Arrives(s: Session, target: string)
    requires s.active && !s.inProgress && s.input == [] && Plain(target)
    ensures var tick := Tick("", [], Readable(RequestFor(target)));
      && LegalTick(s, SmallHost(), tick)
      && Pass(s, SmallHost(), tick) == s.(input := RequestFor(target)) && !Dispatches(s)
  {
    hide SmallHost, RequestFor, CStr, WellFormed, Requests.ScanLine, LinesOf;
    RequestIs(target);
    NothingComplete();
    assert [] + RequestFor(target) == RequestFor(target);
    ArrivalPass(s, SmallHost(), Tick("", [], Readable(RequestFor(target))));
  }

  // ----- errors for good

  lemma MissingCode(s: Session, date: string)
    requires s.input == RequestFor("/m") && s.vhost == ROOT && s.inbound == [] && s.flags == NO_FLAGS && s.resultCode == 0
    ensures Parse(s, SmallHost(), date).resultCode == NOT_FOUND
    ensures LineOf(s) == Some(Get11("/m"))
  {
    hide SmallHost, RequestFor, CStr, Before, After, Requests.ScanLine, LocalPath, Requests.FindMethod, Requests.HeaderLines,
      Requests.VersionOf, Requests.UriOf, WellFormed, Requests.IsComplete, Parse;
    RequestIs("/m");
    PlainUri("/m");
    GetIsKnown();
    Paths();
    ResultCodeExact(s, SmallHost(), date);
  }

  /**
   A request for a path that is not there is answered with 404 and the connection is kept; the
   request that then arrives on it is one that has an answer, and gets an error.
   */
  lemma FailedIsReachable() returns (ticks: seq<Tick>)
    ensures LegalRun(NewSession(ROOT), SmallHost(), ticks)
    ensures var s := Run(NewSession(ROOT), SmallHost(), ticks);
      && s.active && !s.inProgress && Failed(s) && Dispatches(s)
      && AnswerTo(SmallHost(), ROOT, s.input, "").Some?
      && forall date :: Parse(s, SmallHost(), date).resultCode !in {0, OK}
  {
    hide SmallHost, RequestFor, Parse, AnswerTo, Pass, LegalTick, Dispatches;
    var h, s0 := SmallHost(), NewSession(ROOT);
    Arrives(s0, "/m");
    var t0 := Tick("", [], Readable(RequestFor("/m")));
    RunSnoc(s0, h, [], t0);
    var t1 := NotFoundPass(Pass(s0, h, t0));
    RunSnoc(s0, h, [] + [t0], t1);
    ticks := [] + [t0] + [t1];
    var s := Run(s0, h, ticks);
    FileAnswered(s.(vhost := ROOT, inbound := []), "");
    forall date
      ensures Parse(s, h, date).resultCode !in {0, OK}
    {
      ParseStaysFailed(s, h, date);
    }
  }

  /** The refusal, and the next request behind it. */
  lemma NotFoundPass(s: Session) returns (tick: Tick)
    requires s == NewSession(ROOT).(input := RequestFor("/m"))
    ensures LegalTick(s, SmallHost(), tick)
    ensures var s' := Pass(s, SmallHost(), tick);
      && s'.active && !s'.inProgress && Failed(s') && s'.input == RequestFor("/f.c") && Dispatches(s')
  {
    hide SmallHost, RequestFor, Requests.IsComplete, LegalServe, Serve, Plain, CStr, WellFormed, Requests.ScanLine, LinesOf, Before, Get11;
    Targets();
    RequestIs("/f.c");
    tick := NotFoundServed(s);
    ChunkIn(Serve(s, SmallHost(), tick), RequestFor("/f.c"));
  }

  lemma NotFoundServed(s: Session) returns (tick: Tick)
    requires s == NewSession(ROOT).(input := RequestFor("/m"))
    ensures tick.poll == Readable(RequestFor("/f.c")) && LegalServe(s, SmallHost(), tick)
    ensures var s' := Serve(s, SmallHost(), tick);
      s'.active && !s'.inProgress && Failed(s') && s'.input == []
  {
    hide SmallHost, RequestFor, CStr, WellFormed, Requests.ScanLine, LinesOf, Requests.IsComplete, Parse, Prepare, PiecesOf, Serve,
      LineOf, Requests.VersionOf, Requests.FindMethod, Stuck, PageParts;
    var h := SmallHost();
    RequestIs("/m");
    MissingCode(s, "");
    GetIsKnown();
    assert MethodKnown(s);
    ReadsNullExactly(s, h, "");
    tick := Tick("", FullCounts(PiecesOf(Prepare(Parse(s, h, ""), h), h)), Readable(RequestFor("/f.c")));
    RefusalExactly(s, h, tick);
    RefusedKeeps(s, h, tick);
  }

  lemma RefusedKeeps(s: Session, h: Host, tick: Tick)
    requires Dispatches(s) && LegalServe(s, h, tick) && !s.inProgress && Parse(s, h, tick.date).resultCode != OK
    ensures Serve(s, h, tick).resultCode == Parse(s, h, tick.date).resultCode && !Serve(s, h, tick).inProgress
  {
    hide Parse, Prepare, PiecesOf, LegalCounts, Dispatch;
    ParseStays(s, h, tick.date);
    Refused(Parse(s, h, tick.date), h, tick.counts);
  }

  // ----- a listing and a file behind it

  lemma ListsAt(s: Session, date: string)
    requires s.input == RequestFor("/d") && s.vhost == ROOT && s.inbound == [] && s.resultCode in {0, OK} && !s.isCgi
    ensures var p := Parse(s, SmallHost(), date);
      && p.resultCode == OK && !p.isCgi && Lists(p, SmallHost()) && p.vhost == ROOT && p.path == Some("/w/d")
  {
    hide Parse, RequestFor, Contains;
    Paths();
    ParsedAt(s, "/d", date);
    assert "/w//d" != "/w//f.c" && "/w/d" != "/w/f.c" by {
      assert "/w//d"[4] != "/w//f.c"[4] && "/w/d"[3] != "/w/f.c"[3];
    }
  }

  /** The parts of the page fit the server's block, and the page is longer than a block of the network. */
  lemma PageFits(p: Session)
    requires p.vhost == ROOT && p.path == Some("/w/d")
    ensures forall part | part in PageParts(SmallHost(), ROOT, "/w/d") :: |part| < ROW_SIZE
    ensures |Page(p, SmallHost())| > NETWORK_BLOCK_SIZE
  {
    hide Decimal, Residual;
    var h := SmallHost();
    ResidualShort("/w/d", "/w");
    DecimalShort();
    var top, bottom := PageTop(ROOT, "/w/d"), PageBottom(h, ROOT);
    ConcatAppend(top + [Row()], bottom);
    ConcatAppend(top, [Row()]);
    assert Concat([Row()]) == Row() + Concat([]);
    assert PageParts(h, ROOT, "/w/d") == top + [Row()] + bottom;
  }

  lemma ResidualShort(dir: string, root: string)
    ensures |Residual(dir, root)| <= |dir|
  {
  }

  lemma DecimalShort()
    ensures |Decimal(80)| == 2
  {
    SmallInt(80);
    DigitsNext(8, 0);
    DigitsOne(8);
    hide Digits, Int32;
  }

  /** A connection on which the listing was served, none of its page sent, and the request for the file has come in. */
  predicate Waiting(s: Session, size: nat, close: bool)
  {
    && Ready(s) && Dispatches(s) && s.input == RequestFor("/f.c") && s.vhost == ROOT && s.flags.http11
    && s.inbound == [] && s.outbound == ListingFields("", size, close) && |s.output| > NETWORK_BLOCK_SIZE
  }

  lemma ListingPass(s: Session) returns (tick: Tick, size: nat, close: bool)
    requires s == NewSession(ROOT).(input := RequestFor("/d"))
    ensures LegalTick(s, SmallHost(), tick) && tick.date == "" && Waiting(Pass(s, SmallHost(), tick), size, close)
  {
    hide SmallHost, RequestFor, Requests.IsComplete, LegalServe, Serve, ListingFields, Plain, CStr, WellFormed, Requests.ScanLine, LinesOf,
      Before, Get11;
    Targets();
    RequestIs("/f.c");
    tick, size, close := ListingServed(s);
    ChunkIn(Serve(s, SmallHost(), tick), RequestFor("/f.c"));
  }

  /** A chunk behind an empty input. */
  lemma ChunkIn(s: Session, chunk: string)
    requires s.input == [] && !s.inProgress && 0 < |chunk| <= NETWORK_BLOCK_SIZE
    ensures LegalPoll(s, Readable(chunk)) && Polled(s, Readable(chunk)) == s.(input := chunk)
  {
    assert [] + chunk == chunk;
  }

  lemma ListingServed(s: Session) returns (tick: Tick, size: nat, close: bool)
    requires s == NewSession(ROOT).(input := RequestFor("/d"))
    ensures tick.poll == Readable(RequestFor("/f.c")) && tick.date == "" && LegalServe(s, SmallHost(), tick)
    ensures var s' := Serve(s, SmallHost(), tick);
      && Ready(s') && s'.input == [] && s'.vhost == ROOT && s'.flags.http11 && s'.inbound == []
      && s'.outbound == ListingFields("", size, close) && |s'.output| > NETWORK_BLOCK_SIZE
  {
    hide SmallHost, RequestFor, CStr, WellFormed, Requests.ScanLine, LinesOf, Requests.IsComplete, Parse, Prepare, PiecesOf, Serve, Page,
      ListingFields, Contains, PageParts, Plain;
    var h := SmallHost();
    Targets();
    RequestIs("/d");
    ListsAt(s, "");
    var p := Parse(s, h, "");
    PageFits(p);
    tick := Tick("", FullCounts(PiecesOf(Prepare(p, h), h)), Readable(RequestFor("/f.c")));
    ServeListing(s, h, tick);
    ListingMarks(s, h, "");
    size, close := |Page(p, h)|, p.flags.close;
  }

  /** The request for the file, behind the listing. */
  lemma FilePass(s: Session, h: Host) returns (tick: Tick, a: Answer)
    requires Ready(s) && Dispatches(s) && AnswerOn(s, h, "").Some?
    ensures AnswerOn(s, h, "") == Some(a) && tick.poll.Quiet? && tick.date == ""
    ensures LegalTick(s, h, tick) && LegalServe(s, h, tick) && Pass(s, h, tick) == Serve(s, h, tick)
    ensures AllTaken(PiecesOf(Prepare(Parse(s, h, ""), h), h), tick.counts)
  {
    hide AnswerOn, Parse, Prepare, PiecesOf, Contains, HeadText, FileFields, Requests.IsComplete;
    a := AnswerOn(s, h, "").value;
    ParseReady(s, h, "", a);
    tick := Tick("", FullCounts(PiecesOf(Prepare(Parse(s, h, ""), h), h)), Quiet);
  }

  /** What the request for the file gets, and what it would get by itself. */
  lemma LeftoverAnswer(s: Session, size: nat, close: bool)
    requires Waiting(s, size, close)
    ensures AnswerOn(s, SmallHost(), "").Some? && AnswerTo(SmallHost(), ROOT, s.input, "").Some?
    ensures
      var a := AnswerOn(s, SmallHost(), "");
      && |AnswerTo(SmallHost(), ROOT, s.input, "").value.head| < |a.value.head|
      && AnswerLine(SmallHost(), ROOT, Get11("/f.c"), [], ListingFields("", size, close), "") == a
  {
    hide SmallHost, AnswerLine, RequestFor, CStr, Requests.ScanLine, WellFormed, Requests.IsComplete, Requests.HeaderLines,
      ListingFields, Requests.VersionOf, Before, After;
    RequestIs("/f.c");
    FileAnswered(s, "");
    GetIsKnown();
    assert [] + LinesOf(s.input) == [];
    FieldsMany("", size, close);
    ExtraFields(SmallHost(), ROOT, Get11("/f.c"), [], s.outbound, "", AnswerOn(s, SmallHost(), "").value);
  }

  /**
   A request for a directory and one for a file that comes in before the page is sent: the file's
   head goes out with the listing's five fields in front of its own, and its transfer is opened
   with more than a block in the buffer, so that none of its calls can be a legal one.
   */
  lemma ListingThenFile() returns (ticks: seq<Tick>, last: Tick, size: nat, close: bool, a: Answer)
    ensures LegalRun(NewSession(ROOT), SmallHost(), ticks) && LegalRun(NewSession(ROOT), SmallHost(), ticks + [last])
    ensures Exchanges(NewSession(ROOT), SmallHost(), ticks + [last]) ==
            [Exchange(RequestFor("/d"), ""), Exchange(RequestFor("/f.c"), "")]
    ensures AnswerLine(SmallHost(), ROOT, Get11("/f.c"), [], ListingFields("", size, close), "") == Some(a)
    ensures AnswerTo(SmallHost(), ROOT, RequestFor("/f.c"), "").Some?
    ensures |AnswerTo(SmallHost(), ROOT, RequestFor("/f.c"), "").value.head| < |a.head|
    ensures
      var before, s := Run(NewSession(ROOT), SmallHost(), ticks), Run(NewSession(ROOT), SmallHost(), ticks + [last]);
      && s.wire == before.wire + a.head && s.Transferring() && |s.output| > NETWORK_BLOCK_SIZE
      && !exists read, sent :: LegalPoll(s, Writable(read, sent))
  {
    hide SmallHost, RequestFor, Parse, AnswerTo, AnswerLine, AnswerOn, Pass, Serve, LegalServe, LegalTick, Dispatches, ListingFields,
      PiecesOf, Prepare, AllTaken;
    var h, s0 := SmallHost(), NewSession(ROOT);
    ticks, size, close := ToListing();
    var s := Run(s0, h, ticks);
    LeftoverAnswer(s, size, close);
    last, a := FilePass(s, h);
    RunSnoc(s0, h, ticks, last);
    ServeReady(s, h, last, a);
    OverfullExactly(s, h, last, a);
  }

  lemma ToListing() returns (ticks: seq<Tick>, size: nat, close: bool)
    ensures LegalRun(NewSession(ROOT), SmallHost(), ticks)
    ensures Exchanges(NewSession(ROOT), SmallHost(), ticks) == [Exchange(RequestFor("/d"), "")]
    ensures Waiting(Run(NewSession(ROOT), SmallHost(), ticks), size, close)
  {
    hide SmallHost, RequestFor, Pass, LegalTick, Dispatches, Waiting, Requests.IsComplete;
    var h, s0 := SmallHost(), NewSession(ROOT);
    Arrives(s0, "/d");
    var t0 := Tick("", [], Readable(RequestFor("/d")));
    RunSnoc(s0, h, [], t0);
    var s1 := Pass(s0, h, t0);
    DispatchesAt(s1, "/d");
    var t1;
    t1, size, close := ListingPass(s1);
    RunSnoc(s0, h, [] + [t0], t1);
    ticks := [] + [t0] + [t1];
  }

  lemma DispatchesAt(s: Session, target: string)
    requires s.active && !s.inProgress && s.input == RequestFor(target) && Plain(target)
    ensures Dispatches(s)
  {
    RequestIs(target);
  }

  // ----- a line that is no request

  const BLANK_LINES := "\n\n\n\n\n"

  /** Five empty lines are a complete request, and the first of them is no request line. */
  lemma BlankLinesAre(s: Session)
    requires s.input == BLANK_LINES
    ensures Requests.IsComplete(s.input) && LineOf(s) == None
  {
    CStrWhole(BLANK_LINES);
    assert MatchAt(BLANK_LINES, Requests.LF_BLANK, 0);
    assert "" + ['\n'] + "\n\n\n\n" == BLANK_LINES;
    SplitAt("", '\n', "\n\n\n\n");
  }

  /** On a new connection they lead through the null pointer: no pass that serves them is a legal one. */
  lemma BlankLines()
    ensures var s := NewSession(ROOT).(input := BLANK_LINES);
      && Dispatches(s) && (forall date :: ReadsNull(Parse(s, SmallHost(), date)))
      && forall tick :: !LegalServe(s, SmallHost(), tick)
  {
    hide Parse, SmallHost, LineOf, Requests.IsComplete, Prepare, PiecesOf, LegalCounts;
    var s := NewSession(ROOT).(input := BLANK_LINES);
    BlankLinesAre(s);
    forall date
      ensures ReadsNull(Parse(s, SmallHost(), date))
    {
      ReadsNullExactly(s, SmallHost(), date);
    }
  }

  const KEEP := [Header("Connection", "Keep-Alive")]

  /** A GET of the file that keeps the connection. */
  function KeptRequest(): string
  {
    Requests.PrintRequest(Get11("/f.c"), KEEP, "")
  }

  /** Text without the characters that end lines and strings. */
  predicate OneLine(s: string)
  {
    forall i | 0 <= i < |s| :: s[i] !in {NUL, '\n', '\r'}
  }

  lemma OneLineConcat(a: string, b: string)
    requires OneLine(a) && OneLine(b)
    ensures OneLine(a + b)
  {
  }

  lemma Begins(s: string, t: string, i: nat)
    requires MatchAt(s, t, i) && |t| >= 2
    ensures s[i] == t[0] && s[i + 1] == t[1]
  {
    assert s[i..i + |t|][0] == s[i] && s[i..i + |t|][1] == s[i + 1];
  }

  /** Two lines and a blank one: there is no other place for a blank line. */
  lemma OneBlankLine(a: string, b: string)
    requires OneLine(a) && OneLine(b) && |a| > 2 && b != []
    ensures Requests.EndsAtBlankLine(a + "\n" + b + "\n\n")
  {
    var r := a + "\n" + b + "\n\n";
    assert Requests.EndsWith(r, Requests.LF_BLANK);
    forall i | 0 <= i < |r|
      ensures r[i] != NUL && r[i] != '\r' && (r[i] == '\n' ==> i == |a| || i >= |a| + 1 + |b|)
    {
      if i < |a| {
        assert r[i] == a[i];
      } else if |a| < i < |a| + 1 + |b| {
        assert r[i] == b[i - |a| - 1];
      }
    }
    forall i: nat, t | t in {Requests.LF_BLANK, Requests.CRLF_BLANK} && MatchAt(r, t, i)
      ensures i + |t| == |r|
    {
      Begins(r, t, i);
    }
  }

  /** A request with one header line, printed. */
  lemma PrintedOnce(l: Requests.RequestLine, h: Header)
    ensures Requests.PrintRequest(l, [h], "") == l.verb + " " + l.target + " " + l.proto + "\n" + (h.name + ":" + h.value) + "\n\n"
  {
    assert Requests.PrintHeaders([h]) == h.name + ":" + h.value + "\n" + "" by {
      assert [h][1..] == [] && Requests.PrintHeaders([]) == "";
    }
    Glue(l.verb + " " + l.target + " " + l.proto, h.name + ":" + h.value);
  }

  lemma Glue(x: string, y: string)
    ensures x + "" + "\n" + (y + "\n" + "" + "\n") == x + "\n" + y + "\n\n"
  {
  }

  lemma KeptIs()
    ensures var text := KeptRequest();
      && Requests.EndsAtBlankLine(text) && 0 < |text| <= NETWORK_BLOCK_SIZE
      && WellFormed(Get11("/f.c"), KEEP, "")
  {
    hide Requests.EndsAtBlankLine, KeptRequest, WellFormed, Requests.IsWord, Plain;
    KeptText();
    Targets();
    PlainUri("/f.c");
    Words();
    NoNulIn(KeptRequest());
    FormedOnce(Get11("/f.c"), KEEP[0]);
  }

  lemma KeptText()
    ensures Requests.EndsAtBlankLine(KeptRequest()) && 0 < |KeptRequest()| <= NETWORK_BLOCK_SIZE
    ensures KeptRequest() == Requests.PrintRequest(Get11("/f.c"), [KEEP[0]], "") && KEEP == [KEEP[0]]
  {
    hide Requests.EndsAtBlankLine, Requests.PrintRequest, OneLine;
    var l, h := Get11("/f.c"), KEEP[0];
    var a, b := l.verb + " " + l.target + " " + l.proto, h.name + ":" + h.value;
    PrintedOnce(l, h);
    LinesPlain();
    OneBlankLine(a, b);
    assert KEEP == [h];
  }

  lemma FormedOnce(l: Requests.RequestLine, h: Header)
    requires Requests.IsWord(l.verb, 20) && Requests.IsWord(l.target, 1024) && Requests.IsWord(l.proto, 20)
    requires Requests.Printable(h) && NUL !in Requests.PrintRequest(l, [h], "")
    ensures WellFormed(l, [h], "")
  {
    hide Requests.PrintRequest, Requests.IsWord;
  }

  lemma Words()
    ensures Requests.IsWord("GET", 20) && Requests.IsWord("HTTP/1.1", 20) && Requests.Printable(KEEP[0])
  {
  }

  lemma LinesPlain()
    ensures OneLine("GET" + " " + "/f.c" + " " + "HTTP/1.1") && OneLine("Connection" + ":" + "Keep-Alive")
  {
    OneLineConcat("GET", " ");
    OneLineConcat("GET" + " ", "/f.c");
    OneLineConcat("GET" + " " + "/f.c", " ");
    OneLineConcat("GET" + " " + "/f.c" + " ", "HTTP/1.1");
    OneLineConcat("Connection", ":");
    OneLineConcat("Connection" + ":", "Keep-Alive");
  }

  lemma NoNulIn(r: string)
    requires Requests.EndsAtBlankLine(r)
    ensures NUL !in r
  {
  }

  /** The kept GET has an answer, and it keeps the connection. */
  lemma KeptAnswered()
    ensures var a := AnswerTo(SmallHost(), ROOT, KeptRequest(), "");
      a.Some? && a.value.keep
  {
    hide SmallHost, Requests.PrintRequest, WellFormed, AnswerTo, HeadText, FileFields, FileFor, LocalPath, Requests.UriOf, Requests.FindMethod,
      Requests.VersionOf, Found, Plain;
    KeptIs();
    Targets();
    PlainUri("/f.c");
    GetIsKnown();
    Paths();
    AnswerToPrinted(SmallHost(), ROOT, Get11("/f.c"), KEEP, "", "");
    KeepHeard();
  }

  lemma KeepHeard()
    ensures AsksToKeep(KEEP) && Get(KEEP, None, "Host") == None
  {
    assert KEEP[1..] == [];
    assert "Connection" != "Host" by { assert |"Connection"| == 10 && |"Host"| == 4; }
  }

  /** One round of that request on a new connection, and the state behind it. */
  lemma KeptRound() returns (ticks: seq<Tick>)
    ensures LegalRun(NewSession(ROOT), SmallHost(), ticks)
    ensures Exchanges(NewSession(ROOT), SmallHost(), ticks) == [Exchange(KeptRequest(), "")]
    ensures var s := Run(NewSession(ROOT), SmallHost(), ticks);
      Idle(s) && !s.closed && s.input == [] && s.verb.Some?
  {
    hide SmallHost, KeptRequest, AnswerTo, LegalRun, Run, Exchanges, Requests.EndsAtBlankLine, TicksOf, Goes, WireOf, Inv;
    var h := SmallHost();
    KeptIs();
    KeptAnswered();
    var ask := Ask(KeptRequest(), [Tick("", [], Readable(KeptRequest()))], "");
    var a := AnswerTo(h, ROOT, KeptRequest(), "").value;
    OneArrival(KeptRequest());
    var rounds := AllAnswered(ROOT, h, [ask], [a]);
    TalkAnswers(ROOT, h, rounds, [ask], [a]);
    var given := Conversation(ROOT, h, rounds);
    BringsExchanges(rounds, [ask]);
    assert ExchangesFor([ask]) == [Exchange(KeptRequest(), "")];
    ticks := AllTicks(rounds);
    ServedHasMethod(NewSession(ROOT), h, ticks);
  }

  lemma OneArrival(text: string)
    requires 0 < |text| <= NETWORK_BLOCK_SIZE
    ensures var ticks := [Tick("", [], Readable(text))];
      Arrivals(ticks) && Received(ticks) == text
  {
    var ticks := [Tick("", [], Readable(text))];
    assert ticks[..0] == [] && [] + text == text;
  }

  /**
   A GET that is kept, then five empty lines: they are answered with 400, the connection stays
   open, and nothing that comes later on it is ever served.
   */
  lemma KeptThenMalformed() returns (ticks: seq<Tick>)
    ensures LegalRun(NewSession(ROOT), SmallHost(), ticks)
    ensures Exchanges(NewSession(ROOT), SmallHost(), ticks) == [Exchange(KeptRequest(), ""), Exchange(BLANK_LINES, "")]
    ensures var s := Run(NewSession(ROOT), SmallHost(), ticks);
      && s.active && !s.closed && s.resultCode == BAD_REQUEST
      && forall more | LegalRun(s, SmallHost(), more) ::
           Exchanges(s, SmallHost(), more) == [] && !Run(s, SmallHost(), more).closed
  {
    hide SmallHost, KeptRequest, LegalRun, Run, Exchanges, Pass, LegalTick, Dispatches, Stuck;
    var h, s0 := SmallHost(), NewSession(ROOT);
    var kept := KeptRound();
    var t0, s := Tick("", [], Readable(BLANK_LINES)), Run(s0, h, kept);
    BlanksArrive(s);
    RunSnoc(s0, h, kept, t0);
    var t1 := MalformedServed(Pass(s, h, t0));
    RunSnoc(s0, h, kept + [t0], t1);
    ticks := kept + [t0] + [t1];
    var s' := Run(s0, h, ticks);
    forall more | LegalRun(s', h, more)
      ensures Exchanges(s', h, more) == [] && !Run(s', h, more).closed
    {
      StuckForGood(s', h, more);
    }
  }

  lemma BlanksArrive(s: Session)
    requires Idle(s) && s.input == []
    ensures var tick := Tick("", [], Readable(BLANK_LINES));
      LegalTick(s, SmallHost(), tick) && Pass(s, SmallHost(), tick) == s.(input := BLANK_LINES) && !Dispatches(s)
  {
    NothingComplete();
    hide Requests.IsComplete;
    assert [] + BLANK_LINES == BLANK_LINES;
  }

  lemma MalformedServed(s: Session) returns (tick: Tick)
    requires s.active && !s.inProgress && !s.closed && s.input == BLANK_LINES && s.flags == NO_FLAGS && s.verb.Some?
    ensures LegalTick(s, SmallHost(), tick) && Dispatches(s) && tick.date == ""
    ensures var s' := Pass(s, SmallHost(), tick);
      s'.active && Stuck(s') && !s'.closed && s'.resultCode == BAD_REQUEST
  {
    hide SmallHost, LineOf, Requests.IsComplete, Parse, Prepare, PiecesOf, Stuck, Serve;
    var h := SmallHost();
    BlankLinesAre(s);
    ReadsNullExactly(s, h, "");
    MalformedCode(s, h, "");
    tick := Tick("", FullCounts(PiecesOf(Prepare(Parse(s, h, ""), h), h)), Quiet);
    MalformedExactly(s, h, tick);
    MalformedOpen(s, h, tick);
    RefusedKeeps(s, h, tick);
  }

  lemma MalformedCode(s: Session, h: Host, date: string)
    requires LineOf(s) == None
    ensures Parse(s, h, date).resultCode == BAD_REQUEST
  {
    hide Requests.ScanLine, CStr, Before, Requests.CutFirst;
  }
}
