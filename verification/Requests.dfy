/**
 Request text: when a request is complete, how its first line is scanned, how its header
 lines are cut up in place, and how its target is split and decoded (parse_request and
 is_client_request_complete in main.c).
 */
module Requests {
  import opened CText
  import opened Buffers
  import opened Headers
  import Percent

  const DEFAULT_FILENAME := "index.html"

  const CRLF_BLANK := "\r\n\r\n"
  const LF_BLANK := "\n\n"

  // ----- framing

  /** is_client_request_complete: strstr sees the buffer as a C string. */
  predicate IsComplete(input: string)
  {
    |input| > 4 && (Contains(CStr(input), CRLF_BLANK) || Contains(CStr(input), LF_BLANK))
  }

  /** Once a request is recognised, more input does not change that. */
  lemma CompleteMonotone(a: string, b: string)
    requires IsComplete(a)
    ensures IsComplete(a + b)
  {
    CStrAppend(a, b);
    var x, y := CStr(a), CStr(a + b);
    var rest := y[|x|..];
    assert y == x + rest;
    if Contains(x, CRLF_BLANK) {
      ContainsAppend(x, rest, CRLF_BLANK);
    } else {
      ContainsAppend(x, rest, LF_BLANK);
    }
  }

  predicate EndsWith(s: string, t: string)
  {
    |t| <= |s| && MatchAt(s, t, |s| - |t|)
  }

  /** A request that ends where its first blank line ends. */
  ghost predicate EndsAtBlankLine(r: string)
  {
    && |r| > 4 && NUL !in r
    && (EndsWith(r, CRLF_BLANK) || EndsWith(r, LF_BLANK))
    && OnlyAtEnd(r, CRLF_BLANK) && OnlyAtEnd(r, LF_BLANK)
  }

  ghost predicate OnlyAtEnd(r: string, t: string)
  {
    forall i: nat | MatchAt(r, t, i) :: i + |t| == |r|
  }

  lemma CutOff(r: string, k: nat, t: string)
    requires k < |r| && OnlyAtEnd(r, t)
    ensures !Contains(r[..k], t)
  {
    forall i: nat | MatchAt(r[..k], t, i)
      ensures false
    {
      assert r[i..i + |t|] == r[..k][i..i + |t|];
      assert MatchAt(r, t, i);
    }
  }

  /** Of the ways to cut such a request short, none is recognised, and the whole is. */
  lemma FramingExact(r: string, k: nat)
    requires EndsAtBlankLine(r) && k <= |r|
    ensures IsComplete(r[..k]) <==> k == |r|
  {
    CStrWhole(r[..k]);
    if k < |r| {
      CutOff(r, k, CRLF_BLANK);
      CutOff(r, k, LF_BLANK);
    } else {
      assert r[..k] == r;
    }
  }

  // ----- the request line

  function SkipSpace(s: string): string
  {
    if s != [] && Percent.IsSpace(s[0]) then SkipSpace(s[1..]) else s
  }

  /** The characters "%<width>s" stores. */
  function Word(s: string, width: nat): (w: string)
    ensures w <= s && |w| <= width && NoSpace(w)
  {
    if s == [] || width == 0 || Percent.IsSpace(s[0]) then []
    else [s[0]] + Word(s[1..], width - 1)
  }

  predicate NoSpace(s: string)
  {
    forall i | 0 <= i < |s| :: !Percent.IsSpace(s[i])
  }

  datatype RequestLine = RequestLine(verb: string, target: string, proto: string)

  /** sscanf(line, "%20s %1024s %20s"), when it stores all three words. */
  function ScanLine(line: string): Option<RequestLine>
  {
    var s1 := SkipSpace(line);
    var verb := Word(s1, 20);
    var s2 := SkipSpace(s1[|verb|..]);
    var target := Word(s2, 1024);
    var s3 := SkipSpace(s2[|target|..]);
    var proto := Word(s3, 20);
    if proto == "" then None else Some(RequestLine(verb, target, proto))
  }

  predicate IsWord(s: string, width: nat)
  {
    0 < |s| <= width && NoSpace(s)
  }

  lemma {:induction false} WordThen(w: string, width: nat, rest: string)
    requires IsWord(w, width) && (rest == "" || Percent.IsSpace(rest[0]))
    ensures SkipSpace(w + rest) == w + rest
    ensures Word(w + rest, width) == w && (w + rest)[|w|..] == rest
  {
    if |w| > 1 {
      WordThen(w[1..], width - 1, rest);
    }
    assert (w + rest)[1..] == w[1..] + rest;
    assert w == [w[0]] + w[1..];
  }

  /** A line made of three words with single spaces scans to these words, with or without a CR. */
  lemma ScanPrinted(l: RequestLine, cr: string)
    requires IsWord(l.verb, 20) && IsWord(l.target, 1024) && IsWord(l.proto, 20)
    requires cr == "" || cr == "\r"
    ensures ScanLine(l.verb + " " + l.target + " " + l.proto + cr) == Some(l)
  {
    hide Word, SkipSpace, IsWord;
    var r3 := cr;
    var r2 := [' '] + (l.proto + r3);
    var r1 := [' '] + (l.target + r2);
    assert l.verb + " " + l.target + " " + l.proto + cr == l.verb + r1;
    WordThen(l.verb, 20, r1);
    SkipOne(l.target + r2);
    WordThen(l.target, 1024, r2);
    SkipOne(l.proto + r3);
    WordThen(l.proto, 20, r3);
    Nonempty(l.proto, 20);
  }

  lemma SkipOne(s: string)
    ensures SkipSpace([' '] + s) == SkipSpace(s)
  {
    assert ([' '] + s)[1..] == s;
  }

  lemma Nonempty(s: string, width: nat)
    requires IsWord(s, width)
    ensures s != ""
  {
  }

  datatype Version = NotHttp | Http10 | Http11 | Unsupported

  /** strncasecmp(proto, "HTTP/", 5), then strncmp with "1.0" and "1.1". */
  function VersionOf(proto: string): Version
  {
    if |proto| < 5 || !EqNoCase(proto[..5], "HTTP/") then NotHttp
    else if "1.0" <= proto[5..] then Http10
    else if "1.1" <= proto[5..] then Http11
    else Unsupported
  }

  const METHODS: seq<string> := ["GET", "PUT", "POST", "PUT", "DELETE", "TRACE", "CONNECT", "HEAD", "OPTIONS"]

  /** The table entry the loop over METHOD_HANDLERS ends with: the last that matches. */
  function FindMethod(methods: seq<string>, name: string): Option<string>
  {
    if methods == [] then None
    else
      var m := methods[|methods| - 1];
      if EqNoCase(m, name) then Some(m) else FindMethod(methods[..|methods| - 1], name)
  }

  // ----- header lines

  /** A line with a colon gives a header; its value ends at the second colon. */
  function HeaderOf(line: string): seq<Header>
  {
    match After(line, ':')
    case None => []
    case Some(rest) => [Header(Before(line, ':'), Before(rest, ':'))]
  }

  /** The strsep loop over what follows the request line. */
  function HeaderLines(text: Option<string>): seq<Header>
    decreases match text case None => 0 case Some(t) => |t| + 1
  {
    match text
    case None => []
    case Some(t) => HeaderOf(Before(t, '\n')) + HeaderLines(After(t, '\n'))
  }

  lemma HeaderLinesStep(t: string)
    ensures HeaderLines(Some(t)) == HeaderOf(Before(t, '\n')) + HeaderLines(After(t, '\n'))
    ensures After(t, '\n').Some? ==> |After(t, '\n').value| < |t|
  {
  }

  lemma HeaderLinesEnd()
    ensures HeaderLines(None) == []
  {
  }

  /** The lines of a text: what stands between its newlines. */
  function Join(lines: seq<string>): string
    requires lines != []
  {
    if |lines| == 1 then lines[0] else lines[0] + ['\n'] + Join(lines[1..])
  }

  function HeadersOf(lines: seq<string>): seq<Header>
  {
    if lines == [] then [] else HeaderOf(lines[0]) + HeadersOf(lines[1..])
  }

  /** On any text the loop adds a header for each of its lines that has a colon, in order. */
  lemma {:induction false} HeaderLinesExact(lines: seq<string>)
    requires lines != [] && forall i | 0 <= i < |lines| :: '\n' !in lines[i]
    ensures HeaderLines(Some(Join(lines))) == HeadersOf(lines)
  {
    if |lines| == 1 {
      NoSplit(lines[0], '\n');
      assert HeadersOf(lines[1..]) == [];
    } else {
      SplitAt(lines[0], '\n', Join(lines[1..]));
      HeaderLinesExact(lines[1..]);
    }
  }

  /** Every text has such lines. */
  lemma {:induction false} LinesExist(text: string) returns (lines: seq<string>)
    ensures lines != [] && (forall i | 0 <= i < |lines| :: '\n' !in lines[i]) && Join(lines) == text
    decreases |text|
  {
    match After(text, '\n') {
      case None =>
        assert Before(text, '\n') == text by { NoSplit(text, '\n'); }
        lines := [text];
      case Some(rest) =>
        var more := LinesExist(rest);
        lines := [Before(text, '\n')] + more;
        assert lines[1..] == more;
    }
  }

  /** The name stands before the first colon, the value between the first and the second. */
  lemma HeaderOfExact(line: string)
    ensures ':' !in line ==> HeaderOf(line) == []
    ensures ':' in line ==>
      |HeaderOf(line)| == 1 &&
      var h := HeaderOf(line)[0];
      && ':' !in h.name && ':' !in h.value && h.name + ":" + h.value <= line
      && (line == h.name + ":" + h.value || h.name + ":" + h.value + ":" <= line)
  {
    hide Before, After;
    if ':' in line {
      var rest := After(line, ':').value;
      var name, value := Before(line, ':'), Before(rest, ':');
      assert line == name + ":" + rest;
      if ':' in rest {
        assert line == name + ":" + value + ":" + After(rest, ':').value;
      } else {
        NoSplit(rest, ':');
      }
    }
  }

  predicate Printable(h: Header)
  {
    ':' !in h.name && '\n' !in h.name && ':' !in h.value && '\n' !in h.value
  }

  function PrintHeaders(hs: seq<Header>): string
  {
    if hs == [] then "" else hs[0].name + ":" + hs[0].value + "\n" + PrintHeaders(hs[1..])
  }

  /** Printed headers, closed by a blank line, come back as they were. */
  lemma {:induction false} HeadersRoundTrip(hs: seq<Header>)
    requires forall i | 0 <= i < |hs| :: Printable(hs[i])
    ensures HeaderLines(Some(PrintHeaders(hs) + "\n")) == hs
  {
    if hs == [] {
      BlankTail();
    } else {
      var h, rest := hs[0], PrintHeaders(hs[1..]) + "\n";
      HeadersRoundTrip(hs[1..]);
      PrintHeadersStep(hs);
      HeaderThenRest(h, rest);
    }
  }

  lemma PrintHeadersStep(hs: seq<Header>)
    requires hs != []
    ensures PrintHeaders(hs) + "\n" == hs[0].name + ":" + hs[0].value + "\n" + (PrintHeaders(hs[1..]) + "\n")
  {
  }

  lemma HeaderThenRest(h: Header, rest: string)
    requires Printable(h)
    ensures HeaderLines(Some(h.name + ":" + h.value + "\n" + rest)) == [h] + HeaderLines(Some(rest))
  {
    hide Before, After, HeaderLines;
    var line := h.name + [':'] + h.value;
    SplitAt(line, '\n', rest);
    HeaderLinesStep(line + ['\n'] + rest);
    SplitAt(h.name, ':', h.value);
    NoSplit(h.value, ':');
  }

  lemma BlankTail()
    ensures HeaderLines(Some("\n")) == []
  {
    assert "\n" == [] + ['\n'] + [];
    SplitAt([], '\n', []);
    NoSplit([], '\n');
    NoSplit([], ':');
  }

  /** The strsep call on the first line. */
  function CutFirst(input: string): (cut: string)
    ensures |cut| == |input|
  {
    Sep(input, 0, '\n').0
  }

  /** The text at a cursor: what strsep left of the input, if anything. */
  function TextAt(m: string, cursor: Option<nat>): Option<string>
    requires cursor.Some? ==> cursor.value <= |m|
  {
    if cursor.None? then None else Some(StrAt(m, cursor.value))
  }

  /**
   The loop that cuts the input up in place: each strsep writes a NUL into the buffer's block,
   and the name and the value are read as C strings out of it.
   */
  method ParseHeaderLines(input: Buffer, start: Option<nat>, headers: HeaderList)
    requires input.Valid() && headers.Valid() && input.Repr !! headers.Repr
    requires input.Contents != [] && (start.Some? ==> start.value <= |input.Contents|)
    modifies input.Repr, headers.Repr
    ensures input.Valid() && input.Repr == old(input.Repr) && |input.Contents| == |old(input.Contents)|
    ensures headers.Valid() && fresh(headers.Repr - old(headers.Repr))
    ensures headers.Contents == old(headers.Contents) + HeaderLines(TextAt(old(input.Contents), start))
  {
    hide HeaderLines, HeaderOf, Before, After, StrAt, Buffer.Valid, HeaderList.Valid;
    var cursor: Option<nat> := start;
    ghost var added: seq<Header> := [];
    ghost var rest := TextAt(input.Contents, start);
    ghost var all := HeaderLines(rest);
    HeaderLinesEnd();
    while cursor != None
      invariant input.Valid() && input.Repr == old(input.Repr) && |input.Contents| == |old(input.Contents)|
      invariant cursor.Some? ==> cursor.value <= |input.Contents|
      invariant rest == TextAt(input.Contents, cursor)
      invariant headers.Valid() && fresh(headers.Repr - old(headers.Repr)) && input.Repr !! headers.Repr
      invariant headers.Contents == old(headers.Contents) + added
      invariant all == added + HeaderLines(rest)
      decreases if rest.None? then 0 else |rest.value| + 1
    {
      HeaderLinesStep(rest.value);
      ghost var more;
      rest := After(rest.value, '\n');
      cursor, more := ParseHeaderLine(input, cursor.value, headers);
      added := added + more;
    }
  }

  /** One round of the loop. */
  method ParseHeaderLine(input: Buffer, p: nat, headers: HeaderList)
    returns (next: Option<nat>, ghost added: seq<Header>)
    requires input.Valid() && headers.Valid() && input.Repr !! headers.Repr
    requires input.Contents != [] && p <= |input.Contents|
    modifies input.Repr, headers.Repr
    ensures input.Valid() && input.Repr == old(input.Repr) && |input.Contents| == |old(input.Contents)|
    ensures headers.Valid() && fresh(headers.Repr - old(headers.Repr)) && input.Repr !! headers.Repr
    ensures added == HeaderOf(Before(StrAt(old(input.Contents), p), '\n'))
    ensures headers.Contents == old(headers.Contents) + added
    ensures next.Some? ==> next.value <= |input.Contents|
    ensures After(StrAt(old(input.Contents), p), '\n') == TextAt(input.Contents, next)
  {
    hide Before, After, StrAt, Buffer.Valid, HeaderList.Valid;
    var name, value;
    name, value, next := CutLine(input, p);
    added := [];
    if name.Some? && value.Some? {
      headers.Add(name.value, value.value);
      added := [Header(name.value, value.value)];
    }
  }

  /** The three strsep calls of a round, and the strings the name and value pointers then denote. */
  method CutLine(input: Buffer, p: nat) returns (name: Option<string>, value: Option<string>, next: Option<nat>)
    requires input.Valid() && input.Contents != [] && p <= |input.Contents|
    modifies input.Repr
    ensures input.Valid() && input.Repr == old(input.Repr) && |input.Contents| == |old(input.Contents)|
    ensures var line := Before(StrAt(old(input.Contents), p), '\n');
      && name == Some(Before(line, ':'))
      && value == (match After(line, ':') case None => None case Some(rest) => Some(Before(rest, ':')))
    ensures next.Some? ==> next.value <= |input.Contents|
    ensures After(StrAt(old(input.Contents), p), '\n') == TextAt(input.Contents, next)
  {
    CutExact(input.Contents, p);
    hide Sep, StrAt, Before, After, Buffer.Valid;
    var headertoken, nametoken, valuetoken, valuetokenstr;
    headertoken, next := input.Strsep(Some(p), '\n');
    nametoken, valuetokenstr := input.Strsep(headertoken, ':');
    valuetoken, valuetokenstr := input.Strsep(valuetokenstr, ':');
    name := input.ReadStr(nametoken);
    value := input.ReadStr(valuetoken);
  }

  /** A cut inside one string leaves a string in front of it or behind it alone. */
  lemma SepElsewhere(m: string, p: nat, delim: char, q: nat)
    requires p <= |m| && q <= |m| && delim != NUL
    requires q + |StrAt(m, q)| < p || p + |StrAt(m, p)| < q
    ensures StrAt(Sep(m, p, delim).0, q) == StrAt(m, q)
  {
    hide StrAt, IndexOf;
    var k := IndexOf(StrAt(m, p), delim);
    if k < |StrAt(m, p)| {
      WriteElsewhere(m, q, p + k, NUL);
    }
  }

  /** The three calls leave name, value and the rest of the text as three strings in one block. */
  lemma CutExact(m: string, p: nat)
    requires p <= |m|
    ensures
      var (m1, next) := Sep(m, p, '\n');
      var (m2, v) := Sep(m1, p, ':');
      var m3 := if v.None? then m2 else Sep(m2, v.value, ':').0;
      var line := Before(StrAt(m, p), '\n');
      && StrAt(m3, p) == Before(line, ':')
      && (v.None? <==> After(line, ':') == None)
      && (v.Some? ==> StrAt(m3, v.value) == Before(After(line, ':').value, ':'))
      && After(StrAt(m, p), '\n') == TextAt(m3, next)
  {
    hide Sep, StrAt, Before, After;
    var (m1, next) := Sep(m, p, '\n');
    SepExact(m, p, '\n');
    var (m2, v) := Sep(m1, p, ':');
    SepExact(m1, p, ':');
    if next.Some? {
      SepElsewhere(m1, p, ':', next.value);
    }
    if v.Some? {
      SepExact(m2, v.value, ':');
      SepElsewhere(m2, v.value, ':', p);
      if next.Some? {
        SepElsewhere(m2, v.value, ':', next.value);
      }
    }
  }

  // ----- the target

  function QueryOf(target: string): string
  {
    target[IndexOf(target, '?')..]
  }

  /** The path is "index.html" for "/", and otherwise what is in front of '?', decoded. */
  function UriOf(target: string): string
  {
    var path := Before(target, '?');
    if path == "/" then DEFAULT_FILENAME else CStr(Percent.Decode(path, NUL))
  }

  /** On text without white space no scan reaches the end of the string, so what t held is not seen. */
  lemma {:induction false} DecodeNoSpace(s: string, t1: char, t2: char)
    requires NoSpace(s)
    ensures Percent.Decode(s, t1) == Percent.Decode(s, t2)
    decreases |s|
  {
    if s != [] {
      DecodeNoSpace(s[1..], t1, t2);
      if |s| >= 2 {
        assert !Percent.IsSpace(s[1]);
        assert Percent.ScanHex(s[1..], t1) == Percent.ScanHex(s[1..], t2);
      }
    }
  }

  /** The query split and the decoding, both in the array the request line was scanned into. */
  method SplitTarget(uri: array<char>, scan0: char) returns (query: string, path: string)
    requires NUL in uri[..] && NoSpace(CStr(uri[..]))
    modifies uri
    ensures query == QueryOf(old(CStr(uri[..])))
    ensures path == UriOf(old(CStr(uri[..])))
    ensures Before(old(CStr(uri[..])), '?') == "/" ==> path == "index.html"
  {
    ghost var target := CStr(uri[..]);
    var queryptr := IndexOf(CStr(uri[..]), '?');
    query := CStr(uri[..])[queryptr..];
    if queryptr < |CStr(uri[..])| {
      CutHead(uri[..], queryptr);
      uri[queryptr] := NUL;
    }
    assert CStr(uri[..]) == Before(target, '?');
    if CStr(uri[..]) == "/" {
      path := DEFAULT_FILENAME;
    } else {
      ghost var text := CStr(uri[..]);
      DecodeNoSpace(text, scan0, NUL);
      assert NUL in uri[..];
      var i := Percent.PercentDecode(uri, uri, scan0);
      ghost var out := Percent.Decode(text, NUL);
      uri[i] := NUL;
      assert uri[..i] == out;
      CutHeadAt(uri[..], out);
      path := CStr(uri[..]);
    }
  }

  lemma CutHeadAt(m: string, out: string)
    requires |out| < |m| && m[..|out|] == out && m[|out|] == NUL
    ensures CStr(m) == CStr(out)
  {
    var n := IndexOf(out, NUL);
    assert m[..n] == out[..n];
    IndexOfIs(m, NUL, n);
  }

  /**
   A path that is sent percent-encoded arrives as it was, whatever characters it is made of,
   exactly when it is 7-bit text; the query arrives untouched.
   */
  lemma TargetRoundTrip(p: string, q: string)
    requires Percent.IsCText(p)
    ensures var target := Percent.Encode(p) + "?" + q;
      && QueryOf(target) == "?" + q
      && (UriOf(target) == p <==> Percent.Is7Bit(p))
  {
    hide Percent.Encode, Percent.Decode, Percent.Images, Percent.IsCText, Percent.Is7Bit, IndexOf, CStr, NoSpace;
    var e := Percent.Encode(p);
    var target := e + ['?'] + q;
    EncodePlain(p);
    SplitAt(e, '?', q);
    QueryAt(e, q);
    Percent.DecodeEncode(p, NUL);
    Percent.ImagesExact(p);
    ImagesNoNul(p);
    CStrWhole(Percent.Images(p));
  }

  lemma QueryAt(e: string, q: string)
    requires '?' !in e
    ensures QueryOf(e + ['?'] + q) == ['?'] + q
  {
    var target := e + ['?'] + q;
    assert target[..|e|] == e && target[|e|..] == ['?'] + q;
    IndexOfIs(target, '?', |e|);
  }

  lemma {:induction false} ImagesNoNul(p: string)
    requires Percent.IsCText(p)
    ensures NUL !in Percent.Images(p)
  {
    if p != [] {
      ImagesNoNul(p[1..]);
    }
  }

  /** An encoding is a word: it holds no white space, no question mark, and is never "/". */
  lemma {:induction false} EncodePlain(p: string)
    requires Percent.IsCText(p)
    ensures '?' !in Percent.Encode(p) && NoSpace(Percent.Encode(p)) && Percent.Encode(p) != "/"
  {
    if p != [] {
      EncodePlain(p[1..]);
      EncodeCharPlain(p[0]);
    }
  }

  lemma EncodeCharPlain(c: char)
    requires c as nat < 256
    ensures var e := Percent.EncodeChar(c);
      '?' !in e && NoSpace(e) && |e| >= 3
  {
    HexPlain(c as nat / 16);
    HexPlain(c as nat % 16);
  }

  lemma HexPlain(n: nat)
    requires n < 16
    ensures Percent.HexDigit(n) != '?' && !Percent.IsSpace(Percent.HexDigit(n))
  {
  }

  // ----- a whole request

  function PrintRequest(l: RequestLine, hs: seq<Header>, cr: string): string
  {
    l.verb + " " + l.target + " " + l.proto + cr + "\n" + (PrintHeaders(hs) + "\n")
  }

  /** Printing a request and scanning it gives back its line and its headers in order. */
  lemma RequestRoundTrip(l: RequestLine, hs: seq<Header>, cr: string)
    requires IsWord(l.verb, 20) && IsWord(l.target, 1024) && IsWord(l.proto, 20)
    requires cr == "" || cr == "\r"
    requires forall i | 0 <= i < |hs| :: Printable(hs[i])
    ensures var text := PrintRequest(l, hs, cr);
      && ScanLine(Before(text, '\n')) == Some(l)
      && HeaderLines(After(text, '\n')) == hs
  {
    hide ScanLine, Before, After, HeaderLines;
    var line := l.verb + " " + l.target + " " + l.proto + cr;
    NoNewline(l.verb);
    NoNewline(l.target);
    NoNewline(l.proto);
    assert '\n' !in line;
    SplitAt(line, '\n', PrintHeaders(hs) + "\n");
    ScanPrinted(l, cr);
    HeadersRoundTrip(hs);
  }

  lemma NoNewline(w: string)
    requires NoSpace(w)
    ensures '\n' !in w
  {
  }
}
