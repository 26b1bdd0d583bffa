/**
 Which file which request gets, stated on texts as clients write them: targets, versions and
 methods letter by letter, with every line ended by CR and LF.
 */
module Served {
  import opened CText
  import opened Headers
  import Percent
  import Requests
  import opened RequestTexts
  import opened Sessions
  import opened Answers
  import opened Connections
  import opened KeepAlive
  import opened Conversations

  // ----- printed with CR and LF

  function HeaderLine(h: Header): string
  {
    h.name + ":" + h.value
  }

  /** Lines, each ended by CR and LF, and a blank one. */
  function CrlfText(lines: seq<string>): string
  {
    if lines == [] then "\r\n" else lines[0] + "\r\n" + CrlfText(lines[1..])
  }

  function LineText(l: Requests.RequestLine): string
  {
    l.verb + " " + l.target + " " + l.proto
  }

  function HeaderTexts(hs: seq<Header>): seq<string>
  {
    seq(|hs|, i requires 0 <= i < |hs| => HeaderLine(hs[i]))
  }

  /** A request as section 2.1 of RFC 9112 has it. */
  function PrintCrlf(l: Requests.RequestLine, hs: seq<Header>): string
  {
    LineText(l) + "\r\n" + CrlfText(HeaderTexts(hs))
  }

  /** The server keeps the CR of a header line with its value. */
  function WithCr(hs: seq<Header>): seq<Header>
  {
    seq(|hs|, i requires 0 <= i < |hs| => Header(hs[i].name, hs[i].value + "\r"))
  }

  lemma {:induction false} CrlfHeaders(hs: seq<Header>)
    requires forall i | 0 <= i < |hs| :: Requests.Printable(hs[i])
    ensures Requests.HeaderLines(Some(CrlfText(HeaderTexts(hs)))) == WithCr(hs)
  {
    hide Requests.HeaderLines;
    if hs == [] {
      BlankCr();
    } else {
      CrlfHeaders(hs[1..]);
      assert HeaderTexts(hs)[1..] == HeaderTexts(hs[1..]);
      var h := Header(hs[0].name, hs[0].value + "\r");
      Requests.HeaderThenRest(h, CrlfText(HeaderTexts(hs[1..])));
      EndOfLine(hs[0].name, hs[0].value, CrlfText(HeaderTexts(hs[1..])));
      assert WithCr(hs) == [h] + WithCr(hs[1..]);
    }
  }

  lemma EndOfLine(name: string, value: string, rest: string)
    ensures (name + ":" + value) + "\r\n" + rest == name + ":" + (value + "\r") + "\n" + rest
  {
  }

  lemma BlankCr()
    ensures Requests.HeaderLines(Some(CrlfText([]))) == []
  {
    assert "\r\n" == "\r" + ['\n'] + "";
    SplitAt("\r", '\n', "");
    NoSplit("\r", ':');
    Requests.HeaderLinesStep("\r\n");
    NoSplit("", '\n');
    NoSplit("", ':');
    Requests.HeaderLinesStep("");
    Requests.HeaderLinesEnd();
  }

  /** Scanning such a text gives back its line, and its headers with a CR behind each value. */
  lemma CrlfRoundTrip(l: Requests.RequestLine, hs: seq<Header>)
    requires Requests.IsWord(l.verb, 20) && Requests.IsWord(l.target, 1024) && Requests.IsWord(l.proto, 20)
    requires forall i | 0 <= i < |hs| :: Requests.Printable(hs[i])
    ensures var text := PrintCrlf(l, hs);
      && Requests.ScanLine(Before(text, '\n')) == Some(l)
      && Requests.HeaderLines(After(text, '\n')) == WithCr(hs)
  {
    hide Requests.ScanLine, Before, After, Requests.HeaderLines, CrlfText;
    var line := LineText(l) + "\r";
    Requests.NoNewline(l.verb);
    Requests.NoNewline(l.target);
    Requests.NoNewline(l.proto);
    assert '\n' !in line;
    assert PrintCrlf(l, hs) == line + ['\n'] + CrlfText(HeaderTexts(hs));
    SplitAt(line, '\n', CrlfText(HeaderTexts(hs)));
    Requests.ScanPrinted(l, "\r");
    CrlfHeaders(hs);
  }

  /** What every request needs to be one: words, printable headers, no NUL and no CR of its own. */
  predicate Clean(l: Requests.RequestLine, hs: seq<Header>)
  {
    && Requests.IsWord(l.verb, 20) && Requests.IsWord(l.target, 1024) && Requests.IsWord(l.proto, 20)
    && OneLine(LineText(l))
    && forall i | 0 <= i < |hs| :: Requests.Printable(hs[i]) && OneLine(HeaderLine(hs[i]))
  }

  predicate OneLine(s: string)
  {
    forall i | 0 <= i < |s| :: s[i] !in {NUL, '\n', '\r'}
  }

  /** The answer to a request with CR and LF, from the parts it was printed from. */
  lemma AnswerToCrlf(h: Host, vhost: VHost, l: Requests.RequestLine, hs: seq<Header>, date: string)
    requires Clean(l, hs)
    ensures AnswerTo(h, vhost, PrintCrlf(l, hs), date) == AnswerLine(h, vhost, l, WithCr(hs), [], date)
  {
    hide PrintCrlf, Before, After, CStr, Requests.ScanLine, Requests.HeaderLines, AnswerLine, Requests.IsWord, OneLine;
    CrlfFrames(l, hs);
    CStrWhole(PrintCrlf(l, hs));
    CrlfRoundTrip(l, hs);
  }

  /** It ends at its blank line, and there is no other. */
  lemma CrlfFrames(l: Requests.RequestLine, hs: seq<Header>)
    requires Clean(l, hs)
    ensures Requests.EndsAtBlankLine(PrintCrlf(l, hs)) && NUL !in PrintCrlf(l, hs)
  {
    hide Requests.IsWord;
    var lines := [LineText(l)] + HeaderTexts(hs);
    assert lines[1..] == HeaderTexts(hs);
    assert PrintCrlf(l, hs) == CrlfText(lines);
    LinesFrame(lines);
  }

  /** Where blank lines can stand in such a text: at its end. */
  lemma {:induction false} LinesFrame(lines: seq<string>)
    requires forall i | 0 <= i < |lines| :: lines[i] != "" && OneLine(lines[i])
    ensures var r := CrlfText(lines);
      && |r| >= 2 && NUL !in r && r[|r| - 2..] == "\r\n"
      && (lines != [] ==> |r| > 4 && r[0] !in {'\r', '\n'} && Requests.EndsAtBlankLine(r))
  {
    if lines != [] {
      LinesFrame(lines[1..]);
      LineInFront(lines[0], CrlfText(lines[1..]), lines[1..] == []);
    }
  }

  lemma LineInFront(line: string, rest: string, last: bool)
    requires line != "" && OneLine(line) && NUL !in rest && |rest| >= 2 && rest[|rest| - 2..] == "\r\n"
    requires if last then rest == "\r\n" else |rest| > 4 && rest[0] !in {'\r', '\n'} && Requests.EndsAtBlankLine(rest)
    ensures var r := line + "\r\n" + rest;
      && NUL !in r && |r| > 4 && r[|r| - 2..] == "\r\n" && r[0] !in {'\r', '\n'} && Requests.EndsAtBlankLine(r)
  {
    hide OneLine, Requests.EndsAtBlankLine;
    var r := line + "\r\n" + rest;
    NoNul(line, rest);
    Ending(line, rest, last);
    forall i: nat, t | t in {Requests.CRLF_BLANK, Requests.LF_BLANK} && MatchAt(r, t, i)
      ensures i + |t| == |r|
    {
      if i < |line| + 2 {
        MatchInFront(line, rest, last, t, i);
      } else {
        MatchBehind(line, rest, last, t, i);
      }
    }
    EndsThere(r);
  }

  lemma EndsThere(r: string)
    requires |r| > 4 && NUL !in r
    requires Requests.EndsWith(r, Requests.CRLF_BLANK) || Requests.EndsWith(r, Requests.LF_BLANK)
    requires forall i: nat, t | t in {Requests.CRLF_BLANK, Requests.LF_BLANK} && MatchAt(r, t, i) :: i + |t| == |r|
    ensures Requests.EndsAtBlankLine(r)
  {
    hide MatchAt;
    assert Requests.CRLF_BLANK in {Requests.CRLF_BLANK, Requests.LF_BLANK} && Requests.LF_BLANK in {Requests.CRLF_BLANK, Requests.LF_BLANK};
  }

  lemma NoNul(line: string, rest: string)
    requires line != "" && OneLine(line) && NUL !in rest && |rest| >= 2 && rest[|rest| - 2..] == "\r\n"
    ensures var r := line + "\r\n" + rest;
      NUL !in r && |r| > 4 && r[|r| - 2..] == "\r\n" && r[0] !in {'\r', '\n'}
  {
    var r := line + "\r\n" + rest;
    assert r[|r| - 2..] == rest[|rest| - 2..];
    assert r[0] == line[0] && NUL !in line;
  }

  /** No blank line begins in a line, and behind its end only the last one. */
  lemma MatchInFront(line: string, rest: string, last: bool, t: string, i: nat)
    requires OneLine(line) && |rest| >= 2 && i < |line| + 2
    requires if last then rest == "\r\n" else rest[0] !in {'\r', '\n'}
    requires t in {Requests.CRLF_BLANK, Requests.LF_BLANK} && MatchAt(line + "\r\n" + rest, t, i)
    ensures i + |t| == |line + "\r\n" + rest|
  {
    var r := line + "\r\n" + rest;
    assert forall j | 0 <= j < |line| :: r[j] == line[j];
    FirstTwo(r, t, i);
    hide MatchAt;
    assert r[|line|] == '\r' && r[|line| + 1] == '\n' && r[|line| + 2] == rest[0];
  }

  lemma MatchBehind(line: string, rest: string, last: bool, t: string, i: nat)
    requires i >= |line| + 2 && (if last then rest == "\r\n" else Requests.EndsAtBlankLine(rest))
    requires t in {Requests.CRLF_BLANK, Requests.LF_BLANK} && MatchAt(line + "\r\n" + rest, t, i)
    ensures i + |t| == |line + "\r\n" + rest|
  {
    var r, k := line + "\r\n" + rest, i - (|line| + 2);
    assert r[i..i + |t|] == rest[k..k + |t|];
    assert MatchAt(rest, t, k);
    NoBlankYet(t, k);
  }

  lemma NoBlankYet(t: string, k: nat)
    requires t in {Requests.CRLF_BLANK, Requests.LF_BLANK}
    ensures !MatchAt("\r\n", t, k)
  {
    if |t| == 2 && k == 0 {
      assert "\r\n"[0..2][0] == '\r';
    }
  }

  lemma Ending(line: string, rest: string, last: bool)
    requires if last then rest == "\r\n" else Requests.EndsAtBlankLine(rest)
    ensures var r := line + "\r\n" + rest;
      Requests.EndsWith(r, Requests.CRLF_BLANK) || Requests.EndsWith(r, Requests.LF_BLANK)
  {
    var r := line + "\r\n" + rest;
    if last {
      assert r[|r| - 4..] == "\r\n\r\n";
    } else if Requests.EndsWith(rest, Requests.CRLF_BLANK) {
      assert r[|r| - 4..] == rest[|rest| - 4..];
    } else {
      assert r[|r| - 2..] == rest[|rest| - 2..];
    }
  }

  lemma FirstTwo(s: string, t: string, i: nat)
    requires MatchAt(s, t, i) && t in {Requests.CRLF_BLANK, Requests.LF_BLANK}
    ensures s[i] in {'\r', '\n'} && s[i + 1] == '\n' && (s[i] == '\r' ==> |t| == 4 && s[i + 2] == '\r' && s[i + 3] == '\n')
  {
    assert s[i..i + |t|][0] == s[i] && s[i..i + |t|][1] == s[i + 1];
    if |t| == 4 {
      assert s[i..i + |t|][2] == s[i + 2] && s[i..i + |t|][3] == s[i + 3];
    }
  }

  /**
   A request with CR and LF that has an answer is recognised at its last byte and served, in
   whatever chunks it comes: there is a run that ends with its answer on the wire.
   */
  lemma CrlfIsServed(v0: VHost, h: Host, l: Requests.RequestLine, hs: seq<Header>, arrivals: seq<Tick>, date: string)
    returns (ticks: seq<Tick>)
    requires Clean(l, hs) && Arrivals(arrivals) && Received(arrivals) == PrintCrlf(l, hs)
    requires AnswerLine(h, v0, l, WithCr(hs), [], date).Some?
    ensures LegalRun(NewSession(v0), h, ticks)
    ensures Exchanges(NewSession(v0), h, ticks) == [Exchange(PrintCrlf(l, hs), date)]
    ensures var a := AnswerLine(h, v0, l, WithCr(hs), [], date).value;
      Run(NewSession(v0), h, ticks).wire == a.head + a.body
  {
    hide AnswerLine, AnswerTo, LegalRun, Run, Exchanges, Clean, PrintCrlf, Arrivals, Received, Requests.EndsAtBlankLine, Goes, TicksOf, Between;
    var a := AnswerLine(h, v0, l, WithCr(hs), [], date).value;
    AnswerToCrlf(h, v0, l, hs, date);
    FramesClean(l, hs);
    var ask := Ask(PrintCrlf(l, hs), arrivals, date);
    var rounds := AllAnswered(v0, h, [ask], [a]);
    var given := Conversation(v0, h, rounds);
    BringsExchanges(rounds, [ask]);
    assert ExchangesFor([ask]) == [Exchange(PrintCrlf(l, hs), date)];
    ticks := AllTicks(rounds);
    OneAnswer(a);
  }

  lemma FramesClean(l: Requests.RequestLine, hs: seq<Header>)
    requires Clean(l, hs)
    ensures Requests.EndsAtBlankLine(PrintCrlf(l, hs))
  {
    CrlfFrames(l, hs);
  }

  lemma OneAnswer(a: Answer)
    ensures WireOf([a]) == a.head + a.body
  {
    assert [a][..0] == [] && [] + a.head == a.head;
  }

  // ----- which file

  /** The answer to a GET of a target under known versions, if its file exists. */
  function FileAnswer(h: Host, v: VHost, uri: string, version: string, headers: seq<Header>, date: string): Option<Answer>
  {
    match FileFor(h, v, uri)
    case None => None
    case Some(file) =>
      var keep := AsksToKeep(headers);
      Some(Answer(HeadText(version, FileFields(date, |file|, h.mime(LocalPath(v, uri)), !keep)), file, version == "1.1" && keep, v))
  }

  /** A request is answered by its method's and version's letters and the file its target stands for. */
  lemma AnswerWritten(h: Host, vhost: VHost, l: Requests.RequestLine, headers: seq<Header>, date: string)
    requires exists m :: IsMethod(m) && EqNoCase(m, l.verb)
    requires |l.proto| >= 8 && EqNoCase(l.proto[..5], "HTTP/") && l.proto[5] == '1' && l.proto[6] == '.' && l.proto[7] in {'0', '1'}
    requires HostFor(h, vhost, headers).Some?
    ensures AnswerLine(h, vhost, l, headers, [], date) ==
            FileAnswer(h, HostFor(h, vhost, headers).value, Requests.UriOf(l.target), if l.proto[7] == '0' then "1.0" else "1.1", headers, date)
  {
    hide FileFor, HostFor, LocalPath, HeadText, FileFields, AsksToKeep, Requests.UriOf, Requests.VersionOf, Requests.FindMethod, EqNoCase;
    var m :| IsMethod(m) && EqNoCase(m, l.verb);
    MethodExactly(l.verb, m);
    VersionExactly(l.proto);
    var v, uri := HostFor(h, vhost, headers).value, Requests.UriOf(l.target);
    if FileFor(h, v, uri).Some? {
      NoExtra(FileFields(date, |FileFor(h, v, uri).value|, h.mime(LocalPath(v, uri)), !AsksToKeep(headers)));
    }
    assert |"1.0"| == 3 && "1.0"[2] == '0' && "1.1"[2] == '1';
  }

  /** A GET of "/" gets index.html of the document root, with or without a query and under any header lines. */
  lemma RootIsIndex(h: Host, vhost: VHost, q: string, hs: seq<Header>, date: string)
    requires Clean(GetLine("/"), hs) && Clean(GetLine("/?" + q), hs) && HostFor(h, vhost, WithCr(hs)).Some?
    ensures var v := HostFor(h, vhost, WithCr(hs)).value;
      && AnswerTo(h, vhost, PrintCrlf(GetLine("/"), hs), date) == FileAnswer(h, v, "index.html", "1.1", WithCr(hs), date)
      && AnswerTo(h, vhost, PrintCrlf(GetLine("/?" + q), hs), date) == FileAnswer(h, v, "index.html", "1.1", WithCr(hs), date)
  {
    hide AnswerTo, AnswerLine, Clean, PrintCrlf, FileAnswer, HostFor, Requests.UriOf;
    RootUri(q);
    GetWritten(h, vhost, "/", hs, date);
    GetWritten(h, vhost, "/?" + q, hs, date);
  }

  /** GET with HTTP/1.1. */
  function GetLine(target: string): Requests.RequestLine
  {
    Requests.RequestLine("GET", target, "HTTP/1.1")
  }

  lemma GetWritten(h: Host, vhost: VHost, target: string, hs: seq<Header>, date: string)
    requires Clean(GetLine(target), hs) && HostFor(h, vhost, WithCr(hs)).Some?
    ensures AnswerTo(h, vhost, PrintCrlf(GetLine(target), hs), date) ==
            FileAnswer(h, HostFor(h, vhost, WithCr(hs)).value, Requests.UriOf(target), "1.1", WithCr(hs), date)
  {
    hide AnswerTo, AnswerLine, Clean, PrintCrlf, FileAnswer, HostFor, Requests.UriOf;
    AnswerToCrlf(h, vhost, GetLine(target), hs, date);
    GetLetters();
    AnswerWritten(h, vhost, GetLine(target), WithCr(hs), date);
  }

  lemma GetLetters()
    ensures IsMethod("GET") && EqNoCase("GET", "GET")
    ensures |"HTTP/1.1"| == 8 && EqNoCase("HTTP/1.1"[..5], "HTTP/")
    ensures "HTTP/1.1"[5] == '1' && "HTTP/1.1"[6] == '.' && "HTTP/1.1"[7] == '1'
  {
    assert "HTTP/1.1"[..5] == "HTTP/";
  }

  /**
   A GET of any other path, with any of its characters escaped in either letter case, gets the
   file at the path that is written.
   */
  lemma EscapesAreServed(h: Host, vhost: VHost, ks: seq<Percent.Token>, q: string, hs: seq<Header>, date: string)
    requires forall i | 0 <= i < |ks| :: Percent.IsToken(ks[i])
    requires Percent.PrintTokens(ks) != "/" && '?' !in Percent.PrintTokens(ks)
    requires Clean(GetLine(Percent.PrintTokens(ks) + "?" + q), hs) && HostFor(h, vhost, WithCr(hs)).Some?
    ensures AnswerTo(h, vhost, PrintCrlf(GetLine(Percent.PrintTokens(ks) + "?" + q), hs), date) ==
            FileAnswer(h, HostFor(h, vhost, WithCr(hs)).value, CStr(Percent.TextOf(ks)), "1.1", WithCr(hs), date)
  {
    hide AnswerTo, Clean, PrintCrlf, FileAnswer, HostFor, Requests.UriOf, Percent.PrintTokens, Percent.TextOf;
    TokensUri(ks, q);
    GetWritten(h, vhost, Percent.PrintTokens(ks) + "?" + q, hs, date);
  }

  /**
   The path on disk is the document root, a slash and the uri, if these are at most 1023
   characters; a longer one is cut there, so that another file may be served for it.
   */
  lemma PathWritten(h: Host, v: VHost, uri: string)
    ensures |v.documentRoot + "/" + uri| <= 1023 ==>
      FileFor(h, v, uri) == FileAt(h, v, h.realpath(v.documentRoot + "/" + uri))
    ensures |v.documentRoot + "/" + uri| > 1023 ==>
      FileFor(h, v, uri) == FileAt(h, v, h.realpath((v.documentRoot + "/" + uri)[..1023]))
  {
    hide Contains;
  }

  /** A regular file that can be opened, inside the document root, and no script. */
  function FileAt(h: Host, v: VHost, path: Option<string>): Option<string>
  {
    if path.Some? && Contains(path.value, v.documentRoot) && !Contains(v.cgiRoot, path.value) && h.opens(path.value)
    then h.regular(path.value) else None
  }

  /**
   The test for a script looks for the path in the script directory's name and not the other way
   round, so no file inside that directory is a script: it is served as it stands.
   */
  lemma ScriptsAreServed(h: Host, v: VHost, name: string)
    requires var path := v.cgiRoot + "/" + name; Contains(path, v.documentRoot) && h.opens(path)
    ensures FileAt(h, v, Some(v.cgiRoot + "/" + name)) == h.regular(v.cgiRoot + "/" + name)
  {
    var path := v.cgiRoot + "/" + name;
    assert |path| > |v.cgiRoot|;
    forall i: nat
      ensures !MatchAt(v.cgiRoot, path, i)
    {
    }
  }

  /** What is a script, once a request is parsed: the mark of an earlier one stays. */
  lemma ScriptMark(s: Session, h: Host)
    requires s.uri.Some? && Resolve(s, h).path.Some?
    ensures Resolve(s, h).isCgi <==> s.isCgi || Contains(s.vhost.cgiRoot, Resolve(s, h).path.value)
  {
    hide LocalPath, Contains;
  }
}
