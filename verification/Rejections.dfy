/**
 What becomes of a connection whose request is refused. A line that does not hold three words is
 refused before the input is cleared, and strsep has left a NUL in it; what dispatch_request does
 then depends on version bits that such a line does not set.
 */
module Rejections {
  import opened CText
  import Requests
  import opened Sessions
  import opened Answers
  import opened KeepAlive

  // ----- a cut input

  /** Once the first line is cut off a text, nothing that arrives behind it makes it complete again. */
  lemma CutIsIncomplete(text: string, more: string)
    requires '\n' in CStr(text)
    ensures CStr(Requests.CutFirst(text) + more) == Before(CStr(text), '\n')
    ensures NUL in Requests.CutFirst(text) && !Requests.IsComplete(Requests.CutFirst(text) + more)
  {
    var k := IndexOf(CStr(text), '\n');
    assert text[0..] == text;
    CutHead(text, k);
    assert Requests.CutFirst(text) == text[k := NUL];
    CStrStays(text[k := NUL], more);
    NeedsNewline(text[k := NUL] + more);
  }

  /** What arrives behind a NUL is not part of the C string. */
  lemma CStrStays(a: string, b: string)
    requires NUL in a
    ensures CStr(a + b) == CStr(a)
  {
    var i := IndexOf(a, NUL);
    assert (a + b)[..i] == a[..i];
    IndexOfIs(a + b, NUL, i);
  }

  lemma MatchHasNewline(s: string, t: string, i: nat)
    requires MatchAt(s, t, i) && |t| >= 2 && t[1] == '\n'
    ensures '\n' in s
  {
    assert s[i + 1] == s[i..i + |t|][1];
  }

  lemma CompleteHasNewline(input: string)
    requires Requests.IsComplete(input)
    ensures '\n' in CStr(input)
  {
    hide CStr;
    var s := CStr(input);
    var t := if Contains(s, Requests.CRLF_BLANK) then Requests.CRLF_BLANK else Requests.LF_BLANK;
    var i: nat :| i <= |s| && MatchAt(s, t, i);
    MatchHasNewline(s, t, i);
  }

  lemma NeedsNewline(input: string)
    requires '\n' !in CStr(input)
    ensures !Requests.IsComplete(input)
  {
    if Requests.IsComplete(input) {
      CompleteHasNewline(input);
    }
  }

  // ----- a connection that holds one

  /** No transfer is under way, and the input begins with a line that is cut off behind itself. */
  predicate Stuck(s: Session)
  {
    !s.inProgress && NUL in s.input && '\n' !in CStr(s.input)
  }

  lemma StuckPolled(s: Session, p: Poll)
    requires Stuck(s) && LegalPoll(s, p)
    ensures var s' := Polled(s, p);
      Stuck(s') && s'.closed == s.closed && |s'.wire| + |s'.output| <= |s.wire| + |s.output|
  {
    hide CStr;
    match p {
      case Quiet =>
      case Broken =>
      case Readable(chunk) => CStrStays(s.input, chunk);
      case Writable(read, sent) =>
    }
  }

  lemma StuckPass(s: Session, h: Host, tick: Tick)
    requires Stuck(s) && LegalTick(s, h, tick)
    ensures var s' := Pass(s, h, tick);
      && !Dispatches(s) && Stuck(s') && s'.closed == s.closed
      && |s'.wire| + |s'.output| <= |s.wire| + |s.output|
  {
    hide Requests.IsComplete, CStr, LegalPoll, Polled;
    NeedsNewline(s.input);
    if s.active {
      StuckPolled(s, tick.poll);
    }
  }

  /** Such a connection is never served again, and the server does not close it either. */
  lemma {:induction false} StuckForGood(s: Session, h: Host, ticks: seq<Tick>)
    requires Stuck(s) && LegalRun(s, h, ticks)
    ensures Exchanges(s, h, ticks) == []
    ensures var s' := Run(s, h, ticks);
      Stuck(s') && s'.closed == s.closed && |s'.wire| + |s'.output| <= |s.wire| + |s.output|
  {
    hide Stuck, Pass, LegalTick, Dispatches;
    if ticks != [] {
      var n := |ticks| - 1;
      StuckForGood(s, h, ticks[..n]);
      StuckPass(Run(s, h, ticks[..n]), h, ticks[n]);
    }
  }

  // ----- which refusals lead there

  /** The first line of the input, scanned. */
  function LineOf(s: Session): Option<Requests.RequestLine>
  {
    Requests.ScanLine(Before(CStr(s.input), '\n'))
  }

  /** Whether the first line is one that gets as far as the search for its method. */
  predicate VersionKnown(s: Session)
  {
    LineOf(s).Some? && Requests.VersionOf(LineOf(s).value.proto) in {Requests.Http10, Requests.Http11}
  }

  predicate MethodKnown(s: Session)
  {
    VersionKnown(s) && Requests.FindMethod(Requests.METHODS, LineOf(s).value.verb).Some?
  }

  // ----- refusals that read through a null pointer

  lemma RestVerb(s: Session, h: Host, target: string, rest: Option<string>)
    ensures var s' := ParseRest(s, h, target, rest);
      && s'.verb == s.verb
      && (s.verb.None? ==> s'.resultCode == NOT_IMPLEMENTED)
      && (s.verb.Some? ==> s'.resultCode in {OK, NOT_FOUND, s.resultCode})
  {
    hide KeepAliveFlags, Requests.HeaderLines, Requests.UriOf, Requests.QueryOf, ChooseHost, Resolve;
    if s.verb.Some? {
      var s1 := WithHeaders(s, s.inbound + Requests.HeaderLines(rest), target);
      HostVerb(s1, h);
      ResolveVerb(ChooseHost(s1, h), h);
    }
  }

  lemma HostVerb(s: Session, h: Host)
    ensures var s' := ChooseHost(s, h);
      s'.verb == s.verb && s'.resultCode in {NOT_FOUND, s.resultCode}
  {
  }

  lemma ResolveVerb(s: Session, h: Host)
    requires s.uri.Some?
    ensures var s' := Resolve(s, h);
      s'.verb == s.verb && s'.resultCode in {OK, NOT_FOUND, s.resultCode}
  {
    hide LocalPath, Contains;
  }

  lemma LineVerb(s: Session, h: Host, line: Requests.RequestLine, rest: Option<string>)
    ensures
      var s', version, m := ParseLine(s, h, line, rest), Requests.VersionOf(line.proto), Requests.FindMethod(Requests.METHODS, line.verb);
      if version in {Requests.Http10, Requests.Http11} then
        && s'.verb == (if m.Some? then m else s.verb)
        && (if s'.verb.None? then s'.resultCode == NOT_IMPLEMENTED else s'.resultCode in {OK, NOT_FOUND, s.resultCode})
      else s'.verb == s.verb && s'.resultCode in {BAD_REQUEST, VERSION_NOT_SUPPORTED}
  {
    hide ParseRest, VersionFlags, Requests.FindMethod, Requests.VersionOf;
    var s1 := s.(flags := VersionFlags(s.flags, Requests.VersionOf(line.proto)));
    RestVerb(FindVerb(s1, line.verb), h, line.target, rest);
  }

  /**
   The dispatch of a request reads the name of a method through a null pointer exactly when the
   connection has had no method so far and the request's first line names none either: it does
   not hold three words, or its version is not 1.0 or 1.1, or its method is unknown.
   */
  lemma ReadsNullExactly(s: Session, h: Host, date: string)
    ensures ReadsNull(Parse(s, h, date)) <==> s.verb.None? && !MethodKnown(s)
    ensures Parse(s, h, date).verb.None? <==> s.verb.None? && !MethodKnown(s)
  {
    hide ParseLine, Requests.ScanLine, CStr, Before, After, Requests.CutFirst, Requests.VersionOf, Requests.FindMethod;
    if LineOf(s).Some? {
      LineVerb(Begun(s, date), h, LineOf(s).value, After(CStr(s.input), '\n'));
    }
  }

  /** Every new 501 does: it is only given when there is no method. */
  lemma NotImplementedReadsNull(s: Session, h: Host, date: string)
    requires s.resultCode != NOT_IMPLEMENTED && Parse(s, h, date).resultCode == NOT_IMPLEMENTED
    ensures ReadsNull(Parse(s, h, date))
  {
    hide ParseLine, Requests.ScanLine, CStr, Before, After, Requests.CutFirst, Requests.VersionOf, Requests.FindMethod;
    if LineOf(s).Some? {
      LineVerb(Begun(s, date), h, LineOf(s).value, After(CStr(s.input), '\n'));
    }
  }

  lemma ServeVerb(s: Session, h: Host, tick: Tick)
    requires LegalServe(s, h, tick)
    ensures s.verb.Some? || Dispatches(s) ==> Serve(s, h, tick).verb.Some?
  {
    hide Parse, Prepare, PiecesOf, LegalCounts, SentPieces, Dispatches, Clear;
    if Dispatches(s) {
      ReadsNullExactly(s, h, tick.date);
      DispatchVerb(Parse(s, h, tick.date), h, tick.counts);
    }
  }

  lemma DispatchVerb(s: Session, h: Host, counts: seq<int>)
    requires s.resultCode == OK ==> s.path.Some? && !s.isCgi
    requires LegalCounts(PiecesOf(Prepare(s, h), h), counts)
    ensures Dispatch(s, h, counts).verb == s.verb
  {
    hide Prepare, PiecesOf, LegalCounts, SentPieces;
    PrepareVerb(s, h);
  }

  lemma PrepareVerb(s: Session, h: Host)
    requires s.resultCode == OK ==> s.path.Some? && !s.isCgi
    ensures Prepare(s, h).verb == s.verb
  {
    hide Contains, Open, Listing;
    if s.resultCode == OK {
      var path := s.path.value;
      if h.regular(path).Some? {
        OpenVerb(s, h);
      } else {
        ListingIs(s, h, path);
      }
    }
  }

  lemma OpenVerb(s: Session, h: Host)
    requires s.path.Some? && h.regular(s.path.value).Some?
    ensures Open(s, h).verb == s.verb
  {
    hide Decimal;
  }

  lemma PassVerb(s: Session, h: Host, tick: Tick)
    requires LegalTick(s, h, tick)
    ensures s.verb.Some? || Dispatches(s) ==> Pass(s, h, tick).verb.Some?
  {
    hide LegalServe, Serve, LegalPoll, Polled, Requests.IsComplete;
    if s.active && !Finished(s) {
      ServeVerb(s, h, tick);
      PolledIs(Serve(s, h, tick), tick.poll);
    }
  }

  /** So only the first request of a connection can: whatever was served has left a method. */
  lemma {:induction false} ServedHasMethod(s: Session, h: Host, ticks: seq<Tick>)
    requires LegalRun(s, h, ticks) && (s.verb.Some? || Exchanges(s, h, ticks) != [])
    ensures Run(s, h, ticks).verb.Some?
    ensures forall date :: !ReadsNull(Parse(Run(s, h, ticks), h, date))
  {
    hide Pass, LegalTick, Dispatches, Parse, MethodKnown;
    if ticks != [] {
      var n := |ticks| - 1;
      if s.verb.Some? || Exchanges(s, h, ticks[..n]) != [] {
        ServedHasMethod(s, h, ticks[..n]);
      }
      PassVerb(Run(s, h, ticks[..n]), h, ticks[n]);
    }
    forall date
      ensures !ReadsNull(Parse(Run(s, h, ticks), h, date))
    {
      ReadsNullExactly(Run(s, h, ticks), h, date);
    }
  }

  // ----- refusals with a method

  /** What dispatch_request does when the parse did not end with 200. */
  lemma Refused(s: Session, h: Host, counts: seq<int>)
    requires s.resultCode != OK && LegalCounts(PiecesOf(Prepare(s, h), h), counts)
    ensures var s' := Dispatch(s, h, counts);
      && s'.wire == s.wire + SentPieces(PiecesOf(Prepare(s, h), h), counts) && s'.inProgress == s.inProgress
      && s'.resultCode == s.resultCode
      && (s.flags.http11 ==> s'.input == [] && s'.flags == NO_FLAGS && s'.active == s.active)
      && (!s.flags.http11 ==> s'.input == s.input)
      && (!s.flags.http11 && s.flags.http10 ==> !s'.active && s'.closed)
      && (!s.flags.http11 && !s.flags.http10 ==> s'.active == s.active && s'.closed == s.closed)
  {
    hide LegalCounts, SentPieces, HeadPieces;
  }

  lemma CutIsStuck(s: Session)
    requires !s.inProgress && exists text :: '\n' in CStr(text) && s.input == Requests.CutFirst(text)
    ensures Stuck(s)
  {
    var text :| '\n' in CStr(text) && s.input == Requests.CutFirst(text);
    hide Requests.CutFirst, Before, CStr;
    CutIsIncomplete(text, []);
    assert Requests.CutFirst(text) + [] == Requests.CutFirst(text);
    NoDelimiter(CStr(text), '\n');
  }

  lemma NoDelimiter(s: string, c: char)
    ensures c !in Before(s, c)
  {
  }

  /**
   On a connection that has had a method a line that does not hold three words is answered with
   400, and then the connection is kept but can never be served again exactly when no earlier
   request has left a version bit.
   */
  lemma MalformedExactly(s: Session, h: Host, tick: Tick)
    requires s.verb.Some?
    requires Dispatches(s) && LegalServe(s, h, tick) && !s.inProgress && LineOf(s) == None
    ensures Parse(s, h, tick.date).resultCode == BAD_REQUEST
    ensures var s' := Serve(s, h, tick);
      && (s'.active && Stuck(s') <==> !s.flags.http10 && !s.flags.http11)
      && (s'.active && !Stuck(s') <==> s.flags.http11)
  {
    hide Prepare, PiecesOf, LegalCounts, Requests.CutFirst, CStr, Requests.IsComplete, Dispatch, Stuck;
    var p := Parse(s, h, tick.date);
    CompleteHasNewline(s.input);
    Refused(p, h, tick.counts);
    var s' := Serve(s, h, tick);
    if s.flags.http11 {
      EmptyIsNotStuck(s');
    } else {
      assert s'.input == Requests.CutFirst(s.input);
      CutIsStuck(s');
    }
  }

  /** Then that request is the last: over every run it is answered once, and the connection stays open. */
  lemma {:induction false} AnsweredOnce(s: Session, h: Host, ticks: seq<Tick>)
    requires s.active && !s.inProgress && Requests.IsComplete(s.input) && LineOf(s) == None
    requires s.verb.Some? && !s.flags.http10 && !s.flags.http11
    requires ticks != [] && LegalRun(s, h, ticks)
    ensures Exchanges(s, h, ticks) == [Exchange(s.input, ticks[0].date)]
    ensures Stuck(Run(s, h, ticks)) && Run(s, h, ticks).closed == s.closed
  {
    hide Stuck, Pass, LegalTick, Dispatches, LineOf;
    var n := |ticks| - 1;
    if n == 0 {
      assert ticks[..0] == [];
      MalformedPass(s, h, ticks[0]);
    } else {
      AnsweredOnce(s, h, ticks[..n]);
      StuckPass(Run(s, h, ticks[..n]), h, ticks[n]);
    }
  }

  lemma MalformedPass(s: Session, h: Host, tick: Tick)
    requires s.active && !s.inProgress && Requests.IsComplete(s.input) && LineOf(s) == None && LegalTick(s, h, tick)
    requires s.verb.Some? && !s.flags.http10 && !s.flags.http11
    ensures Dispatches(s) && Stuck(Pass(s, h, tick)) && Pass(s, h, tick).closed == s.closed
  {
    hide Stuck, Serve, LegalServe, Polled, LegalPoll, LineOf, Requests.IsComplete, Parse;
    MalformedExactly(s, h, tick);
    MalformedOpen(s, h, tick);
    StuckPolled(Serve(s, h, tick), tick.poll);
  }

  lemma MalformedOpen(s: Session, h: Host, tick: Tick)
    requires Dispatches(s) && LegalServe(s, h, tick) && !s.inProgress && LineOf(s) == None
    requires !s.flags.http10 && !s.flags.http11
    ensures Serve(s, h, tick).closed == s.closed
  {
    hide Prepare, PiecesOf, LegalCounts, Requests.CutFirst, CStr, Requests.IsComplete, Dispatch;
    Refused(Parse(s, h, tick.date), h, tick.counts);
  }

  lemma EmptyIsNotStuck(s: Session)
    requires s.input == []
    ensures !Stuck(s)
  {
  }

  lemma LineFlags(s: Session, h: Host, line: Requests.RequestLine, rest: Option<string>)
    ensures var f, f' := VersionFlags(s.flags, Requests.VersionOf(line.proto)), ParseLine(s, h, line, rest).flags;
      f'.http10 == f.http10 && f'.http11 == f.http11
  {
    hide Requests.VersionOf, VersionFlags, FindVerb, ParseRest;
    var s1 := s.(flags := VersionFlags(s.flags, Requests.VersionOf(line.proto)));
    VerbFlags(s1, line.verb);
    RestFlags(FindVerb(s1, line.verb), h, line.target, rest);
  }

  lemma VerbFlags(s: Session, verb: string)
    ensures FindVerb(s, verb).flags == s.flags
  {
  }

  lemma RestFlags(s: Session, h: Host, target: string, rest: Option<string>)
    ensures var f := ParseRest(s, h, target, rest).flags;
      f.http10 == s.flags.http10 && f.http11 == s.flags.http11
  {
    hide ParseHead, Resolve;
    HeadFlags(s, h, target, rest);
    ResolveFlags(ParseHead(s, h, target, rest), h);
  }

  lemma HeadFlags(s: Session, h: Host, target: string, rest: Option<string>)
    ensures var f := ParseHead(s, h, target, rest).flags;
      f.http10 == s.flags.http10 && f.http11 == s.flags.http11
  {
    hide Requests.HeaderLines, Requests.UriOf, Requests.QueryOf;
  }

  lemma ResolveFlags(s: Session, h: Host)
    requires s.uri.Some?
    ensures Resolve(s, h).flags == s.flags
  {
    hide LocalPath, Contains;
  }

  /** The version bits a request line leaves on a cleared connection. */
  lemma FreshFlags(s: Session, h: Host, date: string)
    requires s.flags == NO_FLAGS && LineOf(s).Some?
    ensures var f, v := Parse(s, h, date).flags, Requests.VersionOf(LineOf(s).value.proto);
      && (f.http11 <==> v.Http10? || v.Http11?)
      && (f.http10 <==> !v.Http11?)
  {
    hide Requests.VersionOf, ParseLine, Requests.ScanLine, CStr, Before, After, Requests.CutFirst;
    LineFlags(Begun(s, date), h, LineOf(s).value, After(CStr(s.input), '\n'));
  }

  lemma ParseStays(s: Session, h: Host, date: string)
    ensures var p := Parse(s, h, date);
      p.active == s.active && p.closed == s.closed && p.inProgress == s.inProgress
  {
    hide Parse, Begun;
    ParseKeeps(s, h, date);
    assert Begun(s, date).active == s.active && Begun(s, date).closed == s.closed && Begun(s, date).inProgress == s.inProgress by {
      BegunStays(s, date);
    }
  }

  lemma BegunStays(s: Session, date: string)
    ensures var b := Begun(s, date);
      b.active == s.active && b.closed == s.closed && b.inProgress == s.inProgress
  {
  }

  /**
   On a cleared connection a refused request ends in one of three ways, decided by its first line:
   kept and never served again for a malformed one, closed for a version that is not 1.0 or
   1.1, and cleared for the next request otherwise. The connection or the line has a method, or
   ReadsNullExactly applies.
   */
  lemma RefusalExactly(s: Session, h: Host, tick: Tick)
    requires s.verb.Some? || MethodKnown(s)
    requires Dispatches(s) && LegalServe(s, h, tick) && !s.inProgress && s.flags == NO_FLAGS
    requires Parse(s, h, tick.date).resultCode != OK
    ensures
      var s', known := Serve(s, h, tick), VersionKnown(s);
      && (s'.active && Stuck(s') <==> LineOf(s) == None)
      && (!s'.active && s'.closed <==> LineOf(s) != None && !known)
      && (s'.active && s'.input == [] && s'.flags == NO_FLAGS <==> known)
  {
    hide Parse, Prepare, PiecesOf, LegalCounts, LineOf, Requests.VersionOf, Requests.IsComplete, Dispatch, Stuck, Requests.FindMethod;
    var p, s' := Parse(s, h, tick.date), Serve(s, h, tick);
    Refused(p, h, tick.counts);
    ParseStays(s, h, tick.date);
    if LineOf(s) == None {
      MalformedExactly(s, h, tick);
    } else {
      FreshFlags(s, h, tick.date);
    }
    if s'.input == [] {
      EmptyIsNotStuck(s');
    }
  }
}
