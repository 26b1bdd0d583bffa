/**
 C strings and the library calls the server makes on them: strchr, strstr, strsep,
 strcasecmp, and printf's "%d".

 A `char` stands for one C character, so its code is below 256 wherever that matters.
 A block of memory is a sequence or an array of characters, and the C string it holds
 is what comes before its first NUL.
 */
module CText {

  datatype Option<+T> = None | Some(value: T)

  const NUL: char := '\0'

  /** The index strchr finds, or |s| when the character is absent. */
  function IndexOf(s: string, c: char): (i: nat)
    ensures i <= |s|
    ensures c !in s[..i]
    ensures i < |s| ==> s[i] == c
  {
    if s == [] || s[0] == c then 0 else 1 + IndexOf(s[1..], c)
  }

  lemma IndexOfIs(s: string, c: char, i: nat)
    requires i <= |s| && c !in s[..i]
    requires i < |s| ==> s[i] == c
    ensures IndexOf(s, c) == i
  {
    if i > 0 {
      assert s[..i] == [s[0]] + s[1..][..i - 1];
      IndexOfIs(s[1..], c, i - 1);
    }
  }

  /** The C string at the start of a block. */
  function CStr(s: string): (t: string)
    ensures NUL !in t
    ensures t <= s
  {
    s[..IndexOf(s, NUL)]
  }

  lemma CStrWhole(s: string)
    requires NUL !in s
    ensures CStr(s) == s
  {
    IndexOfIs(s, NUL, |s|);
  }

  lemma CStrAppend(a: string, b: string)
    ensures CStr(a) <= CStr(a + b)
    ensures NUL !in a ==> CStr(a + b) == a + CStr(b)
  {
    if NUL in a {
      var i := IndexOf(a, NUL);
      assert i < |a|;
      assert (a + b)[..i] == a[..i];
      IndexOfIs(a + b, NUL, i);
    } else {
      var i := |a| + IndexOf(b, NUL);
      assert (a + b)[..i] == a + b[..IndexOf(b, NUL)];
      IndexOfIs(a + b, NUL, i);
      CStrWhole(a);
    }
  }

  /** What strsep returns, and what it leaves in the pointer it is given. */
  function Before(s: string, c: char): (t: string)
    ensures c !in t && t <= s
  {
    s[..IndexOf(s, c)]
  }

  function After(s: string, c: char): (t: Option<string>)
    ensures t.Some? <==> c in s
    ensures t.Some? ==> s == Before(s, c) + [c] + t.value
  {
    var i := IndexOf(s, c);
    if i < |s| then Some(s[i + 1..]) else None
  }

  lemma SplitAt(a: string, c: char, b: string)
    requires c !in a
    ensures Before(a + [c] + b, c) == a
    ensures After(a + [c] + b, c) == Some(b)
  {
    var s := a + [c] + b;
    assert s[..|a|] == a;
    IndexOfIs(s, c, |a|);
  }

  lemma NoSplit(a: string, c: char)
    requires c !in a
    ensures Before(a, c) == a && After(a, c) == None
  {
    IndexOfIs(a, c, |a|);
  }

  // ----- strsep on memory

  /** The C string that starts at a position of a block; the byte behind the block counts as NUL. */
  function StrAt(m: string, p: nat): (s: string)
    requires p <= |m|
    ensures p + |s| <= |m|
  {
    CStr(m[p..])
  }

  /** A NUL put inside the C string of a block ends it there. */
  lemma CutHead(m: string, k: nat)
    requires k < |CStr(m)|
    ensures NUL in m[k := NUL] && CStr(m[k := NUL]) == CStr(m)[..k]
  {
    assert m[k := NUL][..k] == CStr(m)[..k] && m[k := NUL][k] == NUL;
    IndexOfIs(m[k := NUL], NUL, k);
  }

  /** What follows an inner character of the C string of a block is the string's own tail. */
  lemma CutTail(m: string, k: nat)
    requires k < |CStr(m)|
    ensures CStr(m[k + 1..]) == CStr(m)[k + 1..]
  {
    var n := IndexOf(m, NUL);
    assert m[k + 1..][..n - k - 1] == m[..n][k + 1..];
    IndexOfIs(m[k + 1..], NUL, n - k - 1);
  }

  lemma SliceWrite(m: string, p: nat, k: nat, c: char)
    requires p + k < |m|
    ensures m[p + k := c][p..] == m[p..][k := c] && m[p + k := c][p + k + 1..] == m[p..][k + 1..]
  {
  }

  /** Writing NUL at distance k into a string cuts it there; what follows is a string of its own. */
  lemma CutAt(m: string, p: nat, k: nat)
    requires p <= |m| && k < |StrAt(m, p)|
    ensures var m' := m[p + k := NUL];
      StrAt(m', p) == StrAt(m, p)[..k] && StrAt(m', p + k + 1) == StrAt(m, p)[k + 1..]
  {
    SliceWrite(m, p, k, NUL);
    CutHead(m[p..], k);
    CutTail(m[p..], k);
  }

  /** A string is not changed by a write in front of it or behind its terminator. */
  lemma WriteElsewhere(m: string, p: nat, j: nat, c: char)
    requires p <= |m| && j < |m| && (j < p || p + |StrAt(m, p)| < j)
    ensures StrAt(m[j := c], p) == StrAt(m, p)
  {
    if j < p {
      assert m[j := c][p..] == m[p..];
    } else {
      SliceWrite(m, p, j - p, c);
      WriteBehind(m[p..], j - p, c);
    }
  }

  lemma WriteBehind(m: string, j: nat, c: char)
    requires |CStr(m)| < j < |m|
    ensures CStr(m[j := c]) == CStr(m)
  {
    var n := |CStr(m)|;
    assert m[j := c][..n] == m[..n];
    IndexOfIs(m[j := c], NUL, n);
  }

  /** strsep on the image of a block: the image after it, and where the cursor then stands. */
  function Sep(m: string, p: nat, delim: char): (r: (string, Option<nat>))
    requires p <= |m| && delim != NUL
    ensures |r.0| == |m| && (r.1.Some? ==> r.1.value <= |m|)
  {
    var k := IndexOf(StrAt(m, p), delim);
    if k == |StrAt(m, p)| then (m, None) else (m[p + k := NUL], Some(p + k + 1))
  }

  /** strsep leaves the text before the delimiter at p, and the text after it at the cursor. */
  lemma SepExact(m: string, p: nat, delim: char)
    requires p <= |m| && delim != NUL
    ensures var (m', next) := Sep(m, p, delim);
      && StrAt(m', p) == Before(StrAt(m, p), delim)
      && (next.Some? ==> next.value == p + |StrAt(m', p)| + 1)
      && After(StrAt(m, p), delim) == if next.None? then None else Some(StrAt(m', next.value))
  {
    hide StrAt, IndexOf;
    var s := StrAt(m, p);
    var k := IndexOf(s, delim);
    if k < |s| {
      CutAt(m, p, k);
    }
  }

  /** strsep: overwrites the first delimiter with NUL and moves the cursor past it. */
  method Strsep(a: array<char>, start: Option<nat>, delim: char) returns (token: Option<nat>, next: Option<nat>)
    requires start.Some? ==> start.value <= a.Length
    requires delim != NUL
    modifies a
    ensures token == start
    ensures start.None? ==> next.None? && a[..] == old(a[..])
    ensures start.Some? ==> (a[..], next) == Sep(old(a[..]), start.value, delim)
  {
    token := start;
    if start.None? {
      return token, None;
    }
    hide Sep, StrAt;
    ghost var m := a[..];
    var k := Span(a, start.value, delim);
    SepAt(m, start.value, delim, k - start.value);
    if k == a.Length || a[k] == NUL {
      next := None;
    } else {
      a[k] := NUL;
      next := Some(k + 1);
      assert a[..] == m[k := NUL];
    }
  }

  /** The position of the first delimiter, or of the terminator. */
  method Span(a: array<char>, p: nat, delim: char) returns (k: nat)
    requires p <= a.Length && delim != NUL
    ensures var s := StrAt(a[..], p);
      && p <= k <= p + |s|
      && (forall i | 0 <= i < k - p :: s[i] != delim)
      && (k < p + |s| ==> a[k] == s[k - p] == delim)
      && (k == p + |s| ==> k == a.Length || a[k] == NUL)
  {
    hide StrAt;
    ghost var s := StrAt(a[..], p);
    StrChars(a[..], p);
    k := p;
    while k < a.Length && a[k] != delim && a[k] != NUL
      invariant p <= k <= p + |s|
      invariant forall i | 0 <= i < k - p :: s[i] != delim
      decreases p + |s| - k
    {
      assert k < p + |s|;
      k := k + 1;
    }
    assert k < p + |s| ==> a[k] == s[k - p] != NUL;
  }

  lemma StrChars(m: string, p: nat)
    requires p <= |m|
    ensures var s := StrAt(m, p);
      && (p + |s| == |m| || m[p + |s|] == NUL)
      && forall i | 0 <= i < |s| :: m[p + i] == s[i] && s[i] != NUL
  {
    var s := StrAt(m, p);
    assert p + |s| < |m| ==> m[p..][|s|] == m[p + |s|];
    assert forall i | 0 <= i < |s| :: s[i] == m[p..][i] && s[i] in s;
  }

  lemma SepAt(m: string, p: nat, delim: char, k: nat)
    requires p <= |m| && delim != NUL
    requires k <= |StrAt(m, p)| && forall i | 0 <= i < k :: StrAt(m, p)[i] != delim
    requires k < |StrAt(m, p)| ==> StrAt(m, p)[k] == delim
    ensures Sep(m, p, delim) == if k == |StrAt(m, p)| then (m, None) else (m[p + k := NUL], Some(p + k + 1))
  {
    var s := StrAt(m, p);
    hide StrAt, IndexOf;
    assert delim !in s[..k];
    IndexOfIs(s, delim, k);
  }

  // ----- strstr

  predicate MatchAt(s: string, t: string, i: nat)
  {
    i + |t| <= |s| && s[i..i + |t|] == t
  }

  predicate Contains(s: string, t: string)
  {
    exists i: nat | i <= |s| :: MatchAt(s, t, i)
  }

  lemma ContainsAppend(a: string, b: string, t: string)
    requires Contains(a, t)
    ensures Contains(a + b, t)
  {
    var i: nat :| i <= |a| && MatchAt(a, t, i);
    assert (a + b)[i..i + |t|] == a[i..i + |t|];
    assert MatchAt(a + b, t, i);
  }

  // ----- strcasecmp

  function Lower(c: char): char
  {
    if 'A' <= c <= 'Z' then c - 'A' + 'a' else c
  }

  predicate EqNoCase(a: string, b: string)
  {
    |a| == |b| && forall i | 0 <= i < |a| :: Lower(a[i]) == Lower(b[i])
  }

  /** Letters match across case, and no other two characters do. */
  lemma CaseWritten(c: char, d: char)
    ensures EqNoCase([c], [d]) <==>
            || c == d
            || (65 <= c as nat <= 90 && d as nat == c as nat + 32)
            || (65 <= d as nat <= 90 && c as nat == d as nat + 32)
  {
    assert EqNoCase([c], [d]) <==> Lower(c) == Lower(d) by {
      if EqNoCase([c], [d]) {
        assert Lower([c][0]) == Lower([d][0]);
      }
    }
  }

  lemma CaseEach(a: string, b: string)
    ensures EqNoCase(a, b) <==> |a| == |b| && forall i | 0 <= i < |a| :: EqNoCase([a[i]], [b[i]])
  {
    if EqNoCase(a, b) {
      forall i | 0 <= i < |a|
        ensures EqNoCase([a[i]], [b[i]])
      {
      }
    } else if |a| == |b| {
      var i :| 0 <= i < |a| && Lower(a[i]) != Lower(b[i]);
      assert [a[i]][0] == a[i] && [b[i]][0] == b[i];
    }
  }

  // ----- printf "%d"

  function Digit(n: nat): char
    requires n < 10
  {
    n as char + '0'
  }

  function Digits(n: nat): (s: string)
    ensures s != []
    decreases n
  {
    if n < 10 then [Digit(n)] else Digits(n / 10) + [Digit(n % 10)]
  }

  /** The low 32 bits of a number, read as a signed int. */
  function Int32(n: int): (r: int)
    ensures -0x8000_0000 <= r < 0x8000_0000
    ensures (r - n) % 0x1_0000_0000 == 0
  {
    (n + 0x8000_0000) % 0x1_0000_0000 - 0x8000_0000
  }

  /** printf("%d", n): the argument is read as a 32-bit signed int. */
  function Decimal(n: int): string
  {
    var i := Int32(n);
    if i < 0 then ['-'] + Digits(-i) else Digits(i)
  }

  /** The number a decimal numeral denotes, if it is one; the recipient's side of Content-Length. */
  function ReadDecimal(s: string): (r: Option<nat>)
  {
    if s == [] || !('0' <= s[|s| - 1] <= '9') then None
    else
      var d := s[|s| - 1] as int - '0' as int;
      if |s| == 1 then Some(d)
      else match ReadDecimal(s[..|s| - 1])
        case None => None
        case Some(r) => Some(10 * r + d)
  }

  lemma {:induction false} ReadDigits(n: nat)
    ensures ReadDecimal(Digits(n)) == Some(n)
    decreases n
  {
    if n >= 10 {
      ReadDigits(n / 10);
      var s := Digits(n);
      assert s[..|s| - 1] == Digits(n / 10);
    }
  }

  /** "%d" shows a length faithfully exactly when it fits a signed 32-bit int. */
  lemma DecimalFaithful(n: nat)
    ensures ReadDecimal(Decimal(n)) == Some(n) <==> n < 0x8000_0000
  {
    if n < 0x8000_0000 {
      assert Int32(n) == n;
      ReadDigits(n);
    } else {
      var i := Int32(n);
      if i >= 0 {
        ReadDigits(i);
      } else {
        SignIsNoDigit(Digits(-i));
      }
    }
  }

  lemma {:induction false} SignIsNoDigit(s: string)
    ensures ReadDecimal(['-'] + s) == None
    decreases |s|
  {
    var t := ['-'] + s;
    if s != [] {
      SignIsNoDigit(s[..|s| - 1]);
      assert t[..|t| - 1] == ['-'] + s[..|s| - 1];
    }
  }

  // ----- concatenation

  function Concat(parts: seq<string>): string
  {
    if parts == [] then [] else parts[0] + Concat(parts[1..])
  }

  lemma {:induction false} ConcatAppend(a: seq<string>, b: seq<string>)
    ensures Concat(a + b) == Concat(a) + Concat(b)
  {
    if a == [] {
      assert a + b == b;
      assert Concat(b) == "" + Concat(b);
    } else {
      ConcatAppend(a[1..], b);
      assert (a + b)[1..] == a[1..] + b;
      Assoc(a[0], Concat(a[1..]), Concat(b));
    }
  }

  lemma Assoc(x: string, y: string, z: string)
    ensures x + (y + z) == (x + y) + z
  {
  }

  lemma ConcatSnoc(a: seq<string>, x: string)
    ensures Concat(a + [x]) == Concat(a) + x
  {
    ConcatAppend(a, [x]);
    assert Concat([x]) == x + Concat([]);
  }
}
