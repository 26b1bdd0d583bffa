/**
 Requests character by character: what ends a request, which words its first line may be made
 of, which versions and methods there are, and which path a target stands for.
 */
module RequestTexts {
  import opened CText
  import Percent
  import opened Requests

  // ----- what ends a request

  /** A blank line, with or without carriage returns. */
  predicate BlankAt(s: string, i: nat)
  {
    || (i + 4 <= |s| && s[i] == '\r' && s[i + 1] == '\n' && s[i + 2] == '\r' && s[i + 3] == '\n')
    || (i + 2 <= |s| && s[i] == '\n' && s[i + 1] == '\n')
  }

  /** A request is complete exactly when it has more than four characters and a blank line before any NUL. */
  lemma CompleteExactly(input: string)
    ensures IsComplete(input) <==> |input| > 4 && exists i: nat | i < |input| :: BlankAt(input, i) && NUL !in input[..i]
  {
    var s := CStr(input);
    if IsComplete(input) {
      var t := if Contains(s, CRLF_BLANK) then CRLF_BLANK else LF_BLANK;
      var i: nat :| i <= |s| && MatchAt(s, t, i);
      MatchIsBlank(input, i);
    }
    if |input| > 4 && exists i: nat | i < |input| :: BlankAt(input, i) && NUL !in input[..i] {
      var i: nat :| i < |input| && BlankAt(input, i) && NUL !in input[..i];
      BlankIsMatch(input, i);
    }
  }

  lemma MatchIsBlank(input: string, i: nat)
    requires i <= |CStr(input)| && (MatchAt(CStr(input), CRLF_BLANK, i) || MatchAt(CStr(input), LF_BLANK, i))
    ensures i < |input| && BlankAt(input, i) && NUL !in input[..i]
  {
    var s := CStr(input);
    assert input[..i] == s[..i];
    if MatchAt(s, CRLF_BLANK, i) {
      assert s[i..i + 4] == ['\r', '\n', '\r', '\n'];
      assert s[i..i + 4][0] == input[i] && s[i..i + 4][1] == input[i + 1] && s[i..i + 4][2] == input[i + 2] && s[i..i + 4][3] == input[i + 3];
    } else {
      assert s[i..i + 2] == ['\n', '\n'];
      assert s[i..i + 2][0] == input[i] && s[i..i + 2][1] == input[i + 1];
    }
  }

  lemma BlankIsMatch(input: string, i: nat)
    requires i < |input| && BlankAt(input, i) && NUL !in input[..i]
    ensures MatchAt(CStr(input), CRLF_BLANK, i) || MatchAt(CStr(input), LF_BLANK, i)
    ensures i <= |CStr(input)|
  {
    var n := |CStr(input)|;
    assert forall j | 0 <= j < i :: input[j] == input[..i][j];
    FirstNul(input, i);
    if input[i] == '\r' {
      assert n >= i + 4 by { FirstNul(input, i + 4); }
      assert CStr(input)[i..i + 4] == ['\r', '\n', '\r', '\n'];
    } else {
      assert n >= i + 2 by { FirstNul(input, i + 2); }
      assert CStr(input)[i..i + 2] == ['\n', '\n'];
    }
  }

  lemma FirstNul(input: string, k: nat)
    requires k <= |input| && forall j | 0 <= j < k :: input[j] != NUL
    ensures |CStr(input)| >= k
  {
  }

  // ----- the three words

  predicate AllSpace(s: string)
  {
    forall i | 0 <= i < |s| :: s[i] as nat in {9, 10, 11, 12, 13, 32}
  }

  predicate IsText(w: string)
  {
    w != "" && forall i | 0 <= i < |w| :: NotSpace(w[i])
  }

  predicate NotSpace(c: char)
  {
    c as nat !in {9, 10, 11, 12, 13, 32}
  }

  function Cut(w: string, width: nat): string
  {
    if |w| <= width then w else w[..width]
  }

  /** What may stand behind a word. */
  predicate EndsWord(rest: string)
  {
    rest == "" || rest[0] as nat in {9, 10, 11, 12, 13, 32}
  }

  lemma {:induction false} SkipAll(sp: string, r: string)
    requires AllSpace(sp)
    ensures SkipSpace(sp + r) == SkipSpace(r)
  {
    if sp == [] {
      assert sp + r == r;
    } else {
      assert (sp + r)[1..] == sp[1..] + r;
      SkipAll(sp[1..], r);
    }
  }

  lemma {:induction false} WordCut(w: string, rest: string, width: nat)
    requires IsText(w) && EndsWord(rest) && width > 0
    ensures Word(w + rest, width) == Cut(w, width)
  {
    hide Word, EndsWord;
    WordStep(w[0], w[1..] + rest, width);
    assert w + rest == [w[0]] + (w[1..] + rest);
    if |w| == 1 {
      WordEnds(rest, width - 1);
      assert w[1..] + rest == rest && [w[0]] + [] == w;
    } else if width == 1 {
      WordEnds(w[1..] + rest, 0);
      assert [w[0]] + [] == w[..1];
    } else {
      WordCut(w[1..], rest, width - 1);
      assert [w[0]] + Cut(w[1..], width - 1) == Cut(w, width);
    }
  }

  lemma WordStep(c: char, s: string, width: nat)
    requires NotSpace(c) && width > 0
    ensures Word([c] + s, width) == [c] + Word(s, width - 1)
  {
    assert ([c] + s)[1..] == s;
  }

  lemma WordEnds(s: string, width: nat)
    requires EndsWord(s) || width == 0
    ensures Word(s, width) == []
  {
  }

  /** One conversion of the scan: the white space in front, the word as far as its width goes, what is left. */
  lemma NextWord(sp: string, w: string, rest: string, width: nat)
    requires AllSpace(sp) && IsText(w) && EndsWord(rest) && width > 0
    ensures SkipSpace(sp + (w + rest)) == w + rest
    ensures Word(w + rest, width) == Cut(w, width)
    ensures (w + rest)[|Cut(w, width)|..] == w[|Cut(w, width)|..] + rest
  {
    SkipAll(sp, w + rest);
    assert (w + rest)[0] == w[0];
    WordCut(w, rest, width);
  }

  /** Three words with any white space around them; at most 20 characters of the last count. */
  lemma ScanWords(s0: string, verb: string, s1: string, target: string, s2: string, proto: string, rest: string)
    requires AllSpace(s0) && AllSpace(s1) && AllSpace(s2) && s1 != "" && s2 != "" && EndsWord(rest)
    requires IsText(verb) && IsText(target) && IsText(proto) && |verb| <= 20 && |target| <= 1024
    ensures ScanLine(s0 + (verb + (s1 + (target + (s2 + (proto + rest)))))) == Some(RequestLine(verb, target, Cut(proto, 20)))
  {
    hide SkipSpace, Word, AllSpace, IsText;
    var r2 := s2 + (proto + rest);
    var r1 := s1 + (target + r2);
    Starts(s1, target + r2);
    Starts(s2, proto + rest);
    NextWord(s0, verb, r1, 20);
    NextWord(s1, target, r2, 1024);
    NextWord(s2, proto, rest, 20);
    assert verb[|verb|..] + r1 == r1 && target[|target|..] + r2 == r2;
    Nonempty(proto);
  }

  lemma Starts(sp: string, r: string)
    requires AllSpace(sp) && sp != ""
    ensures EndsWord(sp + r)
  {
  }

  lemma Nonempty(w: string)
    requires IsText(w)
    ensures Cut(w, 20) != "" && w != ""
  {
  }

  /** A target of more than 1024 characters is cut there, and its rest is taken for the version. */
  lemma ScanLongTarget(s0: string, verb: string, s1: string, target: string, rest: string)
    requires AllSpace(s0) && AllSpace(s1) && s1 != "" && EndsWord(rest)
    requires IsText(verb) && IsText(target) && |verb| <= 20 && |target| > 1024
    ensures ScanLine(s0 + (verb + (s1 + (target + rest)))) == Some(RequestLine(verb, target[..1024], Cut(target[1024..], 20)))
  {
    hide SkipSpace, Word, AllSpace, IsText;
    var r1 := s1 + (target + rest);
    Starts(s1, target + rest);
    NextWord(s0, verb, r1, 20);
    NextWord(s1, target, rest, 1024);
    TailIsText(target, 1024);
    NextWord("", target[1024..], rest, 20);
    NoSpaces();
    assert verb[|verb|..] + r1 == r1 && "" + (target[1024..] + rest) == target[1024..] + rest;
    Nonempty(target[1024..]);
  }

  lemma TailIsText(w: string, k: nat)
    requires IsText(w) && k < |w|
    ensures IsText(w[k..])
  {
  }

  lemma NoSpaces()
    ensures AllSpace("")
  {
  }

  /** A method of more than 20 characters is cut there, and its rest is taken for the target. */
  lemma ScanLongVerb(s0: string, verb: string, s1: string, target: string, rest: string)
    requires AllSpace(s0) && AllSpace(s1) && s1 != "" && EndsWord(rest)
    requires IsText(verb) && IsText(target) && 20 < |verb| <= 1044
    ensures ScanLine(s0 + (verb + (s1 + (target + rest)))) == Some(RequestLine(verb[..20], verb[20..], Cut(target, 20)))
  {
    hide SkipSpace, Word, AllSpace, IsText;
    var r1 := s1 + (target + rest);
    Starts(s1, target + rest);
    NextWord(s0, verb, r1, 20);
    TailIsText(verb, 20);
    NoSpaces();
    NextWord("", verb[20..], r1, 1024);
    NextWord(s1, target, rest, 20);
    assert "" + (verb[20..] + r1) == verb[20..] + r1 && verb[20..][|verb[20..]|..] + r1 == r1;
    Nonempty(target);
  }

  /** Two words are not enough. */
  lemma ScanTooFew(s0: string, verb: string, s1: string, target: string, s2: string)
    requires AllSpace(s0) && AllSpace(s1) && AllSpace(s2) && s1 != ""
    requires IsText(verb) && IsText(target) && |verb| <= 20 && |target| <= 1024
    ensures ScanLine(s0 + (verb + (s1 + (target + s2)))) == None
  {
    hide SkipSpace, Word, IsText;
    var r1 := s1 + (target + s2);
    Starts(s1, target + s2);
    NextWord(s0, verb, r1, 20);
    NextWord(s1, target, s2, 1024);
    assert verb[|verb|..] + r1 == r1 && target[|target|..] + s2 == s2;
    SkipAll(s2, "");
    assert s2 + "" == s2;
    NothingLeft();
  }

  lemma NothingLeft()
    ensures SkipSpace("") == "" && Word("", 20) == ""
  {
  }

  // ----- versions and methods

  /** The version is decided by "HTTP/" in any letter case and the three characters behind it. */
  lemma VersionExactly(proto: string)
    ensures VersionOf(proto).NotHttp? <==> !(|proto| >= 5 && EqNoCase(proto[..5], ['H', 'T', 'T', 'P', '/']))
    ensures VersionOf(proto).Http10? <==>
      && |proto| >= 8 && EqNoCase(proto[..5], ['H', 'T', 'T', 'P', '/'])
      && proto[5] == '1' && proto[6] == '.' && proto[7] == '0'
    ensures VersionOf(proto).Http11? <==>
      && |proto| >= 8 && EqNoCase(proto[..5], ['H', 'T', 'T', 'P', '/'])
      && proto[5] == '1' && proto[6] == '.' && proto[7] == '1'
  {
    hide EqNoCase;
    assert "HTTP/" == ['H', 'T', 'T', 'P', '/'];
    if |proto| >= 5 {
      ThreeOf(proto[5..], "1.0");
      ThreeOf(proto[5..], "1.1");
    }
  }

  lemma ThreeOf(s: string, t: string)
    requires |t| == 3
    ensures t <= s <==> |s| >= 3 && s[0] == t[0] && s[1] == t[1] && s[2] == t[2]
  {
  }

  predicate IsMethod(m: string)
  {
    m in {"GET", "PUT", "POST", "DELETE", "TRACE", "CONNECT", "HEAD", "OPTIONS"}
  }

  /** A method is found exactly when it is one of these, in any letter case. */
  lemma MethodExactly(name: string, m: string)
    ensures FindMethod(METHODS, name) == Some(m) <==> IsMethod(m) && EqNoCase(m, name)
  {
    hide EqNoCase, FindMethod;
    FindsLast(METHODS, name);
    MethodsAre();
    if IsMethod(m) && EqNoCase(m, name) {
      var found := FindMethod(METHODS, name);
      assert m in METHODS;
      SameName(found.value, m, name);
    }
  }

  lemma MethodsAre()
    ensures forall m :: m in METHODS <==> IsMethod(m)
  {
    assert METHODS == ["GET", "PUT", "POST", "PUT", "DELETE", "TRACE", "CONNECT", "HEAD", "OPTIONS"];
  }

  lemma {:induction false} FindsLast(methods: seq<string>, name: string)
    ensures var found := FindMethod(methods, name);
      && (found.Some? ==> found.value in methods && EqNoCase(found.value, name))
      && (found.None? ==> forall m | m in methods :: !EqNoCase(m, name))
  {
    hide EqNoCase;
    if methods != [] {
      var n := |methods| - 1;
      FindsLast(methods[..n], name);
      assert methods == methods[..n] + [methods[n]];
    }
  }

  /** No two methods differ in letter case only. */
  lemma SameName(a: string, b: string, name: string)
    requires IsMethod(a) && IsMethod(b) && EqNoCase(a, name) && EqNoCase(b, name)
    ensures a == b
  {
    assert Lower(a[0]) == Lower(name[0]) == Lower(b[0]) && |a| == |b|;
    assert "GET"[0] == 'G' && "PUT"[0] == 'P' && "POST"[0] == 'P' && "HEAD"[0] == 'H' && "CONNECT"[0] == 'C' && "OPTIONS"[0] == 'O';
  }

  // ----- targets

  /** "/" stands for index.html, with or without a query. */
  lemma RootUri(q: string)
    ensures UriOf("/") == "index.html" && QueryOf("/") == ""
    ensures UriOf("/?" + q) == "index.html" && QueryOf("/?" + q) == "?" + q
  {
    NoSplit("/", '?');
    IndexOfIs("/", '?', 1);
    assert "/?" + q == "/" + ['?'] + q;
    SplitAt("/", '?', q);
    QueryAt("/", q);
  }

  /**
   Any other target stands for the text its path part is written for, whatever is escaped and in
   whichever letter case, up to the first NUL; a target without a question mark has no query.
   */
  lemma TokensUri(ks: seq<Percent.Token>, q: string)
    requires forall i | 0 <= i < |ks| :: Percent.IsToken(ks[i])
    requires Percent.PrintTokens(ks) != "/" && '?' !in Percent.PrintTokens(ks)
    ensures var path, text := Percent.PrintTokens(ks), CStr(Percent.TextOf(ks));
      && UriOf(path) == text && QueryOf(path) == ""
      && UriOf(path + "?" + q) == text && QueryOf(path + "?" + q) == "?" + q
  {
    hide Percent.PrintTokens, Percent.TextOf, Percent.Decode, CStr;
    var path := Percent.PrintTokens(ks);
    Percent.DecodeTokens(ks, NUL);
    NoSplit(path, '?');
    IndexOfIs(path, '?', |path|);
    SplitAt(path, '?', q);
    QueryAt(path, q);
  }
}
