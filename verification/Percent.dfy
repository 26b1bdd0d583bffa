/**
 Percent coding of URIs (percent.c), with the sscanf("%02x") it relies on.

 Encoding writes every character as an escape. It formats a plain `char`, which is
 signed: a character with code 128 or more is widened to a negative int and comes out
 with eight digits. Decoding may read and write the same array.
 */
module Percent {
  import opened CText

  // ----- digits

  function HexDigit(n: nat): char
    requires n < 16
  {
    if n < 10 then n as char + '0' else (n - 10) as char + 'a'
  }

  function HexValue(c: char): Option<nat>
  {
    if '0' <= c <= '9' then Some(c as nat - '0' as nat)
    else if 'a' <= c <= 'f' then Some(c as nat - 'a' as nat + 10)
    else if 'A' <= c <= 'F' then Some(c as nat - 'A' as nat + 10)
    else None
  }

  predicate IsSpace(c: char)
  {
    c == ' ' || '\t' as nat <= c as nat <= '\r' as nat
  }

  // ----- sscanf(s, "%02x", &t)

  /** NoMatch: sscanf returned 0. Truthy: it returned nonzero and left this character in t. */
  datatype Scan = NoMatch | Truthy(t: char)

  /**
   The conversion of C17 7.21.6.2: white space is skipped, then at most two characters
   make up an optional sign and digits; "0x" with nothing after it is no number. At the
   end of the string sscanf returns EOF, which is not zero, and leaves t as it was.
   */
  function ScanHex(s: string, t: char): Scan
  {
    if s == [] then Truthy(t)
    else if IsSpace(s[0]) then ScanHex(s[1..], t)
    else if s[0] == '+' || s[0] == '-' then
      match if |s| > 1 then HexValue(s[1]) else None
      case None => NoMatch
      case Some(v) => Truthy((if s[0] == '-' then (256 - v) % 256 else v) as char)
    else
      match HexValue(s[0])
      case None => NoMatch
      case Some(h) =>
        match if |s| > 1 then HexValue(s[1]) else None
        case Some(l) => Truthy((16 * h + l) as char)
        case None =>
          if h == 0 && |s| > 1 && (s[1] == 'x' || s[1] == 'X') then NoMatch else Truthy(h as char)
  }

  // ----- percent_decode

  /** The text left to decode after the escape that starts s has been consumed. */
  function AfterEscape(s: string): string
  {
    if |s| <= 3 then [] else s[3..]
  }

  /** What decoding yields, t being what the scan variable holds. */
  function Decode(s: string, t: char): (out: string)
    ensures |out| <= |s|
    decreases |s|
  {
    if s == [] then []
    else if s[0] != '%' then [s[0]] + Decode(s[1..], t)
    else if |s| < 2 then Decode(s[1..], t)
    else match ScanHex(s[1..], t)
      case NoMatch => Decode(s[1..], t)
      case Truthy(t') => [t'] + Decode(AfterEscape(s), t')
  }

  /** What is left of s from index i on, nothing when i has run past the end. */
  function From(s: string, i: nat): string
  {
    if i <= |s| then s[i..] else []
  }

  /** One call of sscanf from index i: whether it returned nonzero, and the scan variable after it. */
  method Sscanf(inp: array<char>, ghost s: string, i: nat, ll: nat, t0: char) returns (ok: bool, t: char)
    requires i <= ll == |s| <= inp.Length
    requires forall k | i <= k < ll :: inp[k] == s[k]
    ensures ScanHex(s[i..], t0) == if ok then Truthy(t) else NoMatch
    ensures !ok ==> t == t0
  {
    assert inp[i..ll] == s[i..];
    match ScanHex(inp[i..ll], t0) {
      case NoMatch => return false, t0;
      case Truthy(t') => return true, t';
    }
  }

  /** The three ways a round of the loop can go. */
  lemma DecodeStep(s: string, i: nat, t: char)
    requires i < |s|
    ensures s[i] != '%' ==> Decode(From(s, i), t) == [s[i]] + Decode(From(s, i + 1), t)
    ensures s[i] == '%' && |s| < i + 2 ==> Decode(From(s, i), t) == Decode(From(s, i + 1), t)
    ensures s[i] == '%' && |s| >= i + 2 ==>
      Decode(From(s, i), t) ==
      match ScanHex(s[i + 1..], t)
      case NoMatch => Decode(From(s, i + 1), t)
      case Truthy(t') => [t'] + Decode(From(s, i + 3), t')
  {
    var rest := s[i..];
    assert rest[1..] == s[i + 1..] == From(s, i + 1);
    assert |s| >= i + 2 ==> AfterEscape(rest) == From(s, i + 3);
  }

  /**
   percent_decode(in, out). The arrays may be the same one: the write index never passes
   the read index, so what is still to be read stays as it was.
   */
  method PercentDecode(inp: array<char>, out: array<char>, t0: char) returns (o: nat)
    requires NUL in inp[..]
    requires |CStr(inp[..])| <= out.Length
    modifies out
    ensures o == |Decode(old(CStr(inp[..])), t0)| <= |old(CStr(inp[..]))|
    ensures out[..o] == Decode(old(CStr(inp[..])), t0)
    ensures out[o..] == old(out[o..])
  {
    var ll := Strlen(inp);
    ghost var s := inp[..ll];
    assert s == CStr(inp[..]);
    o := DecodeLoop(inp, out, ll, s, t0);
  }

  method DecodeLoop(inp: array<char>, out: array<char>, ll: nat, ghost s: string, t0: char) returns (o: nat)
    requires ll == |s| <= inp.Length && ll <= out.Length
    requires forall k | 0 <= k < ll :: inp[k] == s[k]
    modifies out
    ensures o <= out.Length && out[..o] == Decode(s, t0)
    ensures out[o..] == old(out[o..])
  {
    hide Decode, ScanHex, From;
    var i, t := 0, t0;
    o := 0;
    ghost var done: string := [];
    FromEnds(s, t);
    while i < ll
      invariant 0 <= o <= i <= ll + 1 && o <= ll
      invariant forall k | i <= k < ll :: inp[k] == s[k]
      invariant forall k | o <= k < out.Length :: out[k] == old(out[k])
      invariant |done| == o && forall k | 0 <= k < o :: out[k] == done[k]
      invariant Decode(s, t0) == done + Decode(From(s, i), t)
      decreases ll + 1 - i
    {
      ghost var c;
      i, o, t, c := DecodeRound(inp, out, ll, s, i, o, t);
      done := done + c;
    }
    FromEnds(s, t);
  }

  /** One round: what it emits, if anything, goes to index o0. */
  method DecodeRound(inp: array<char>, out: array<char>, ll: nat, ghost s: string, i0: nat, o0: nat, t0: char)
    returns (i: nat, o: nat, t: char, ghost c: string)
    requires o0 <= i0 < ll == |s| <= inp.Length && ll <= out.Length
    requires forall k | i0 <= k < ll :: inp[k] == s[k]
    modifies out
    ensures i0 < i <= ll + 1 && o == o0 + |c| && |c| <= 1 && o <= i && o <= ll
    ensures forall k | i <= k < ll :: inp[k] == s[k]
    ensures forall k | 0 <= k < out.Length && !(o0 <= k < o) :: out[k] == old(out[k])
    ensures c != [] ==> out[o0] == c[0]
    ensures Decode(From(s, i0), t0) == c + Decode(From(s, i), t)
  {
    hide Decode, ScanHex, From;
    i, o, t, c := i0, o0, t0, [];
    DecodeStep(s, i, t);
    if inp[i] == '%' {
      if ll >= i + 2 {
        var ok;
        ok, t := Sscanf(inp, s, i + 1, ll, t);
        if ok {
          out[o] := t;
          o, c := o + 1, [t];
          i := i + 2;
        }
      }
    } else {
      out[o] := inp[i];
      o, c := o + 1, [s[i]];
    }
    i := i + 1;
  }

  lemma FromEnds(s: string, t: char)
    ensures From(s, 0) == s
    ensures forall i: nat | i >= |s| :: Decode(From(s, i), t) == []
  {
  }

  method Strlen(a: array<char>) returns (n: nat)
    requires NUL in a[..]
    ensures n == |CStr(a[..])| && n < a.Length && a[n] == NUL
  {
    n := 0;
    while a[n] != NUL
      invariant n < a.Length && NUL !in a[..n]
      decreases a.Length - n
    {
      n := n + 1;
      assert n < a.Length by { assert a[..a.Length] == a[..]; }
    }
    IndexOfIs(a[..], NUL, n);
  }

  // ----- percent_encode

  /** sprintf("%02x") of a code below 256. */
  function Hex2(n: nat): string
    requires n < 256
  {
    [HexDigit(n / 16), HexDigit(n % 16)]
  }

  /** sprintf("%%%02x", c): a code of 128 or more is a negative char, printed as a 32-bit int. */
  function EncodeChar(c: char): string
    requires c as nat < 256
  {
    if c as nat < 128 then ['%'] + Hex2(c as nat) else "%ffffff" + Hex2(c as nat)
  }

  /** The strings percent_encode can be given: C characters, none of them NUL. */
  predicate IsCText(s: string)
  {
    forall i | 0 <= i < |s| :: 0 < s[i] as nat < 256
  }

  predicate Is7Bit(s: string)
  {
    forall i | 0 <= i < |s| :: s[i] as nat < 128
  }

  function Encode(s: string): (out: string)
    requires IsCText(s)
    ensures NUL !in out
  {
    if s == [] then [] else EncodeChar(s[0]) + Encode(s[1..])
  }

  /** percent_encode: one sprintf and one strcat for each character. */
  method PercentEncode(inp: array<char>) returns (outbuf: string)
    requires NUL in inp[..] && IsCText(CStr(inp[..]))
    ensures outbuf == Encode(CStr(inp[..]))
  {
    var ll := Strlen(inp);
    hide Encode, EncodeChar;
    ghost var s := CStr(inp[..]);
    outbuf := "";
    EncodeEnds(s);
    for i := 0 to ll
      invariant Encode(s) == outbuf + Encode(s[i..])
    {
      EncodeNext(s, i, outbuf);
      assert inp[i] == s[i];
      outbuf := outbuf + EncodeChar(inp[i]);
    }
  }

  lemma EncodeEnds(s: string)
    requires IsCText(s)
    ensures s[0..] == s && Encode(s[|s|..]) == []
  {
  }

  lemma EncodeNext(s: string, i: nat, done: string)
    requires IsCText(s) && i < |s|
    ensures done + Encode(s[i..]) == done + EncodeChar(s[i]) + Encode(s[i + 1..])
  {
    assert s[i..][1..] == s[i + 1..];
    Assoc(done, EncodeChar(s[i]), Encode(s[i + 1..]));
  }

  // ----- round trip

  /** What comes back when the encoding of one character is decoded. */
  function Image(c: char): string
    requires c as nat < 256
  {
    if c as nat < 128 then [c] else [255 as char] + "ffff" + Hex2(c as nat)
  }

  lemma ScanHex2(n: nat, r: string, t: char)
    requires n < 256
    ensures ScanHex(Hex2(n) + r, t) == Truthy(n as char)
  {
    var h, l := HexDigit(n / 16), HexDigit(n % 16);
    assert HexValue(h) == Some(n / 16) && HexValue(l) == Some(n % 16);
    assert (Hex2(n) + r)[0] == h && (Hex2(n) + r)[1] == l;
  }

  /** An escape with two hexadecimal digits decodes to the character it names. */
  lemma DecodeEscape(n: nat, r: string, t: char)
    requires n < 256
    ensures Decode(['%'] + Hex2(n) + r, t) == [n as char] + Decode(r, n as char)
  {
    var e := ['%'] + Hex2(n) + r;
    assert e[1..] == Hex2(n) + r;
    ScanHex2(n, r, t);
    assert AfterEscape(e) == r;
  }

  lemma {:induction false} DecodePlain(a: string, r: string, t: char)
    requires '%' !in a
    ensures Decode(a + r, t) == a + Decode(r, t)
  {
    if a == [] {
      assert a + r == r;
    } else {
      assert (a + r)[1..] == a[1..] + r;
      DecodePlain(a[1..], r, t);
    }
  }

  /** The escape of a signed character is read as 0xff; its other six digits stay as text. */
  lemma DecodeHigh(n: nat, r: string, t: char)
    requires n < 256
    ensures Decode("%ffffff" + Hex2(n) + r, t) == [255 as char] + "ffff" + Hex2(n) + Decode(r, 255 as char)
  {
    hide Decode, ScanHex;
    var tail := "ffff" + Hex2(n);
    var e := ['%'] + Hex2(255);
    assert "%ffffff" + Hex2(n) + r == e + (tail + r) by {
      assert Hex2(255) == "ff";
      assert "%ffffff" == "%ff" + "ffff";
    }
    DecodeEscape(255, tail + r, t);
    assert '%' !in tail;
    DecodePlain(tail, r, 255 as char);
  }

  lemma DecodeImage(c: char, r: string, t: char) returns (t': char)
    requires c as nat < 256
    ensures Decode(EncodeChar(c) + r, t) == Image(c) + Decode(r, t')
  {
    hide Decode;
    if c as nat < 128 {
      DecodeEscape(c as nat, r, t);
      t' := c;
    } else {
      DecodeHigh(c as nat, r, t);
      t' := 255 as char;
    }
  }

  function Images(s: string): string
    requires IsCText(s)
  {
    if s == [] then [] else Image(s[0]) + Images(s[1..])
  }

  lemma {:induction false} DecodeEncode(s: string, t: char)
    requires IsCText(s)
    ensures Decode(Encode(s), t) == Images(s)
  {
    if s != [] {
      var t' := DecodeImage(s[0], Encode(s[1..]), t);
      DecodeEncode(s[1..], t');
    }
  }

  lemma {:induction false} ImagesExact(s: string)
    requires IsCText(s)
    ensures Is7Bit(s) ==> Images(s) == s && |Encode(s)| == 3 * |s|
    ensures |Images(s)| >= |s| && |Encode(s)| >= 3 * |s|
    ensures !Is7Bit(s) ==> |Images(s)| > |s| && |Encode(s)| > 3 * |s|
  {
    if s != [] {
      ImagesExact(s[1..]);
      assert Is7Bit(s) <==> s[0] as nat < 128 && Is7Bit(s[1..]) by {
        assert forall i | 1 <= i < |s| :: s[i] == s[1..][i - 1];
      }
    }
  }

  /**
   percent_encode allocates three bytes for each character of its input. The result with its
   terminator never fits: it is one byte longer exactly for 7-bit text, and else longer still.
   */
  lemma BlockTooSmall(s: string)
    requires IsCText(s)
    ensures |Encode(s)| + 1 > 3 * |s|
    ensures |Encode(s)| + 1 == 3 * |s| + 1 <==> Is7Bit(s)
  {
    ImagesExact(s);
  }

  /** Decoding undoes encoding exactly on 7-bit text, and that is where an escape has three characters. */
  lemma RoundTrip(s: string, t: char)
    requires IsCText(s)
    ensures Decode(Encode(s), t) == s <==> Is7Bit(s)
    ensures |Encode(s)| == 3 * |s| <==> Is7Bit(s)
  {
    DecodeEncode(s, t);
    ImagesExact(s);
  }

  // ----- decoding in pieces

  /** Text whose every '%' starts an escape of two hexadecimal digits inside the text. */
  predicate Whole(s: string)
    decreases |s|
  {
    s == [] ||
    if s[0] != '%' then Whole(s[1..])
    else |s| >= 3 && HexValue(s[1]).Some? && HexValue(s[2]).Some? && Whole(s[3..])
  }

  /** The scan variable after decoding whole text. */
  function LastScan(s: string, t: char): char
    requires Whole(s)
    decreases |s|
  {
    if s == [] then t
    else if s[0] != '%' then LastScan(s[1..], t)
    else LastScan(s[3..], PairValue(s))
  }

  /** Decoding distributes over concatenation wherever no escape is cut in two. */
  lemma {:induction false} DecodeConcat(a: string, b: string, t: char)
    requires Whole(a)
    ensures Decode(a + b, t) == Decode(a, t) + Decode(b, LastScan(a, t))
    decreases |a|
  {
    if a == [] {
      assert a + b == b;
    } else if a[0] != '%' {
      DecodeConcat(a[1..], b, t);
      PlainConcat(a, b, t, Decode(b, LastScan(a, t)));
    } else {
      DecodeConcat(a[3..], b, PairValue(a));
      PairConcat(a, b, t, Decode(b, LastScan(a, t)));
    }
  }

  /** The character the escape at the start of a text names. */
  function PairValue(a: string): char
    requires |a| >= 3 && HexValue(a[1]).Some? && HexValue(a[2]).Some?
  {
    (16 * HexValue(a[1]).value + HexValue(a[2]).value) as char
  }

  lemma PlainConcat(a: string, b: string, t: char, y: string)
    requires a != [] && a[0] != '%' && Decode(a[1..] + b, t) == Decode(a[1..], t) + y
    ensures Decode(a + b, t) == Decode(a, t) + y
  {
    DecodeChar(a[0], a[1..] + b, t);
    DecodeChar(a[0], a[1..], t);
    hide Decode;
    assert a == [a[0]] + a[1..] && a + b == [a[0]] + (a[1..] + b);
    Assoc([a[0]], Decode(a[1..], t), y);
  }

  lemma PairConcat(a: string, b: string, t: char, y: string)
    requires |a| >= 3 && a[0] == '%' && HexValue(a[1]).Some? && HexValue(a[2]).Some?
    requires Decode(a[3..] + b, PairValue(a)) == Decode(a[3..], PairValue(a)) + y
    ensures Decode(a + b, t) == Decode(a, t) + y
  {
    DecodePair(a[1], a[2], a[3..] + b, t);
    DecodePair(a[1], a[2], a[3..], t);
    hide Decode, HexValue, PairValue;
    ThreeOff(a, b);
    Assoc([PairValue(a)], Decode(a[3..], PairValue(a)), y);
  }

  lemma ThreeOff(a: string, b: string)
    requires |a| >= 3
    ensures a == [a[0], a[1], a[2]] + a[3..] && a + b == [a[0], a[1], a[2]] + (a[3..] + b)
  {
  }

  lemma DecodeChar(c: char, r: string, t: char)
    requires c != '%'
    ensures Decode([c] + r, t) == [c] + Decode(r, t)
  {
    assert ([c] + r)[1..] == r;
  }

  lemma DecodePair(x: char, y: char, r: string, t: char)
    requires HexValue(x).Some? && HexValue(y).Some?
    ensures var v := (16 * HexValue(x).value + HexValue(y).value) as char;
      Decode(['%', x, y] + r, t) == [v] + Decode(r, v)
  {
    var e := ['%', x, y] + r;
    assert e[1..] == [x, y] + r && AfterEscape(e) == r;
  }

  /** Encoded 7-bit text can be decoded separately from whatever follows it. */
  lemma {:induction false} EncodeWhole(s: string)
    requires IsCText(s) && Is7Bit(s)
    ensures Whole(Encode(s))
  {
    if s != [] {
      var n := s[0] as nat;
      EncodeWhole(s[1..]);
      assert HexValue(HexDigit(n / 16)) == Some(n / 16) && HexValue(HexDigit(n % 16)) == Some(n % 16);
      assert Encode(s)[3..] == Encode(s[1..]);
    }
  }

  // ----- the characters, written out

  const SMALL_DIGITS := "0123456789abcdef"
  const CAPITAL_DIGITS := "0123456789ABCDEF"

  /** Digits are read in both letter cases, and printed small. */
  lemma DigitsWritten(n: nat)
    requires n < 16
    ensures HexValue("0123456789abcdef"[n]) == Some(n) && HexValue("0123456789ABCDEF"[n]) == Some(n)
    ensures HexDigit(n) == "0123456789abcdef"[n]
  {
    var s, c := "0123456789abcdef", "0123456789ABCDEF";
    if n < 10 {
      assert s[0] == '0' && s[1] == '1' && s[2] == '2' && s[3] == '3' && s[4] == '4';
      assert s[5] == '5' && s[6] == '6' && s[7] == '7' && s[8] == '8' && s[9] == '9';
      assert c[0] == '0' && c[1] == '1' && c[2] == '2' && c[3] == '3' && c[4] == '4';
      assert c[5] == '5' && c[6] == '6' && c[7] == '7' && c[8] == '8' && c[9] == '9';
    } else {
      assert s[10] == 'a' && s[11] == 'b' && s[12] == 'c' && s[13] == 'd' && s[14] == 'e' && s[15] == 'f';
      assert c[10] == 'A' && c[11] == 'B' && c[12] == 'C' && c[13] == 'D' && c[14] == 'E' && c[15] == 'F';
    }
  }

  /** And nothing else is a digit. */
  lemma NoOtherDigit(c: char)
    ensures HexValue(c).Some? <==>
            || 48 <= c as nat <= 57 || 65 <= c as nat <= 70 || 97 <= c as nat <= 102
  {
  }

  /** What white space is, what a sign does, and what is no number. */
  lemma ScanWritten(r: string, t: char, c: char)
    ensures IsSpace(c) <==> c as nat in {9, 10, 11, 12, 13, 32}
    ensures IsSpace(c) ==> ScanHex([c] + r, t) == ScanHex(r, t)
    ensures ScanHex("", t) == Truthy(t)
    ensures ScanHex("+7" + r, t) == Truthy(7 as char) && ScanHex("-7" + r, t) == Truthy(249 as char)
    ensures ScanHex("-0" + r, t) == Truthy(0 as char)
    ensures ScanHex("0x" + r, t) == NoMatch && ScanHex("0X" + r, t) == NoMatch
    ensures ScanHex("+g" + r, t) == NoMatch && ScanHex("g" + r, t) == NoMatch
    ensures ScanHex("7g" + r, t) == Truthy(7 as char) && ScanHex("7", t) == Truthy(7 as char)
  {
    assert ([c] + r)[1..] == r;
  }

  predicate IsDigit(c: char)
  {
    48 <= c as nat <= 57 || 65 <= c as nat <= 70 || 97 <= c as nat <= 102
  }

  /** A lone '%' is dropped; one in front of no number too; one digit makes an escape that swallows the character behind it. */
  lemma BadEscapes(x: char, y: char, r: string, t: char)
    ensures Decode("%", t) == []
    ensures !IsDigit(x) && x as nat !in {9, 10, 11, 12, 13, 32, 43, 45} ==> Decode(['%', x] + r, t) == Decode([x] + r, t)
    ensures IsDigit(x) && !IsDigit(y) && !(x == '0' && y in {'x', 'X'}) ==>
      HexValue(x).Some? && Decode(['%', x, y] + r, t) == [HexValue(x).value as char] + Decode(r, HexValue(x).value as char)
  {
    assert (['%', x] + r)[1..] == [x] + r;
    var e := ['%', x, y] + r;
    assert e[1..] == [x, y] + r && AfterEscape(e) == r;
  }

  /** A character of a text, or an escape with digits of either letter case. */
  datatype Token = Plain(c: char) | Escape(n: nat, capitalHigh: bool, capitalLow: bool)

  predicate IsToken(k: Token)
  {
    match k case Plain(c) => c != '%' case Escape(n, _, _) => n < 256
  }

  function DigitAs(n: nat, capital: bool): char
    requires n < 16
  {
    if capital then CAPITAL_DIGITS[n] else SMALL_DIGITS[n]
  }

  function PrintToken(k: Token): string
    requires IsToken(k)
  {
    match k
    case Plain(c) => [c]
    case Escape(n, high, low) => ['%', DigitAs(n / 16, high), DigitAs(n % 16, low)]
  }

  function PrintTokens(ks: seq<Token>): string
    requires forall i | 0 <= i < |ks| :: IsToken(ks[i])
  {
    if ks == [] then [] else PrintToken(ks[0]) + PrintTokens(ks[1..])
  }

  function TokenChar(k: Token): char
    requires IsToken(k)
  {
    match k case Plain(c) => c case Escape(n, _, _) => n as char
  }

  function TextOf(ks: seq<Token>): string
    requires forall i | 0 <= i < |ks| :: IsToken(ks[i])
  {
    if ks == [] then [] else [TokenChar(ks[0])] + TextOf(ks[1..])
  }

  /** Section 2.1 of RFC 3986: whatever is escaped, and in whichever letter case, decoding gives the text. */
  lemma {:induction false} DecodeTokens(ks: seq<Token>, t: char)
    requires forall i | 0 <= i < |ks| :: IsToken(ks[i])
    ensures Decode(PrintTokens(ks), t) == TextOf(ks)
  {
    hide Decode, HexValue;
    if ks == [] {
      NothingDecoded(t);
    } else {
      match ks[0] {
        case Plain(c) =>
          DecodeChar(c, PrintTokens(ks[1..]), t);
          DecodeTokens(ks[1..], t);
        case Escape(n, high, low) =>
          DigitsWritten(n / 16);
          DigitsWritten(n % 16);
          DecodePair(DigitAs(n / 16, high), DigitAs(n % 16, low), PrintTokens(ks[1..]), t);
          DecodeTokens(ks[1..], n as char);
      }
    }
  }

  lemma NothingDecoded(t: char)
    ensures Decode([], t) == []
  {
  }

  /** The encoder of the RFC: every character with two capital digits. */
  function EncodeCapital(s: string): string
    requires forall i | 0 <= i < |s| :: s[i] as nat < 256
  {
    if s == [] then []
    else ['%', "0123456789ABCDEF"[s[0] as nat / 16], "0123456789ABCDEF"[s[0] as nat % 16]] + EncodeCapital(s[1..])
  }

  /** What it writes decodes to what it was given, 7-bit or not. */
  lemma {:induction false} CapitalRoundTrip(s: string, t: char)
    requires forall i | 0 <= i < |s| :: s[i] as nat < 256
    ensures Decode(EncodeCapital(s), t) == s
  {
    hide Decode, HexValue;
    if s == [] {
      NothingDecoded(t);
    } else {
      var n := s[0] as nat;
      DigitsWritten(n / 16);
      DigitsWritten(n % 16);
      DecodePair("0123456789ABCDEF"[n / 16], "0123456789ABCDEF"[n % 16], EncodeCapital(s[1..]), t);
      CapitalRoundTrip(s[1..], s[0]);
    }
  }
}
