/**
 Directory listings: the page is put into the output buffer as a whole and sent by calls of
 plain_transfer_send with no transfer in progress.
 */
module Listings {
  import opened CText
  import opened Headers
  import opened Sessions

  lemma ReadDecimalIs(n: nat, k: nat)
    ensures ReadDecimal(Decimal(n)) == Some(k) <==> Int32(n) == k
  {
    var i := Int32(n);
    if i >= 0 {
      ReadDigits(i);
    } else {
      SignIsNoDigit(Digits(-i));
    }
  }

  /**
   The announced length is that of the page exactly when the page fits an int and the buffer
   was empty before it: what is announced is the length of the whole buffer.
   */
  lemma ListingAnnounces(s: Session, h: Host, dir: string)
    ensures var page, s' := Concat(PageParts(h, s.vhost, dir)), Listing(s, h, dir);
      && s'.output == s.output + page
      && s'.outbound[..|s.outbound|] == s.outbound && |s'.outbound| == |s.outbound| + 2
      && s'.outbound[|s.outbound| + 1].name == "Content-Length"
      && (ReadDecimal(s'.outbound[|s.outbound| + 1].value) == Some(|page|) <==>
          |page| < 0x8000_0000 && |s.output| % 0x1_0000_0000 == 0)
  {
    var page := Concat(PageParts(h, s.vhost, dir));
    var n := |s.output + page|;
    ReadDecimalIs(n, |page|);
    Int32Is(|s.output|, |page|);
  }

  lemma Int32Is(a: nat, k: nat)
    ensures Int32(a + k) == k <==> k < 0x8000_0000 && a % 0x1_0000_0000 == 0
  {
    var q, r := a / 0x1_0000_0000, a % 0x1_0000_0000;
    var x := r + k + 0x8000_0000;
    Shift(q, x);
    assert a + k + 0x8000_0000 == q * 0x1_0000_0000 + x;
    if k < 0x8000_0000 && r != 0 {
      Below(r, k);
    }
  }

  lemma Shift(q: nat, x: nat)
    ensures (q * 0x1_0000_0000 + x) % 0x1_0000_0000 == x % 0x1_0000_0000
  {
    if q > 0 {
      Shift(q - 1, x);
      assert q * 0x1_0000_0000 + x == ((q - 1) * 0x1_0000_0000 + x) + 0x1_0000_0000;
    }
  }

  lemma Below(r: nat, k: nat)
    requires 0 < r < 0x1_0000_0000 && k < 0x8000_0000
    ensures (r + k + 0x8000_0000) % 0x1_0000_0000 != k + 0x8000_0000
  {
  }

  // ----- the page

  /** What is in front of the rows; the rule comes without its newline. */
  function TopText(residual: string): string
  {
    "<html>" + "<body>" + ("<H1>Index of " + residual + "</h1><br>\n") + "<tr colspan=3><hr></tr>"
    + "<table><tr><td>Filename</td><td>Size</td><td>Last Modified</td></tr>\n"
  }

  /** What is behind them. */
  function BottomText(hostname: string, port: int): string
  {
    "</table>\n"
    + ("Stoned v.1 (something spelled correctly)" + " Server at " + hostname + " on port " + Decimal(port) + "<br>\n")
    + "</body>" + "</html>"
  }

  /** The page: its fixed top with the path inside the document root, the rows in order, its fixed bottom. */
  lemma PageText(s: Session, h: Host, dir: string)
    ensures
      var s' := Listing(s, h, dir);
      && s'.output == s.output + (TopText(Residual(dir, s.vhost.documentRoot)) + Concat(h.rows(dir)) + BottomText(s.vhost.hostname, h.port))
      && s'.outbound == s.outbound + [Header("Content-type", "text/html"), Header("Content-Length", Decimal(|s'.output|))]
  {
    hide Decimal, Concat, PageTop, PageBottom, TopText, BottomText;
    TopIs(s.vhost, dir);
    BottomIs(h, s.vhost);
    ConcatAppend(PageTop(s.vhost, dir) + h.rows(dir), PageBottom(h, s.vhost));
    ConcatAppend(PageTop(s.vhost, dir), h.rows(dir));
  }

  lemma TopIs(vhost: VHost, dir: string)
    ensures Concat(PageTop(vhost, dir)) == TopText(Residual(dir, vhost.documentRoot))
  {
    hide Residual;
    var r := Residual(dir, vhost.documentRoot);
    FiveParts("<html>", "<body>", "<H1>Index of " + r + "</h1><br>\n", "<tr colspan=3><hr></tr>",
              "<table><tr><td>Filename</td><td>Size</td><td>Last Modified</td></tr>\n");
  }

  lemma BottomIs(h: Host, vhost: VHost)
    ensures Concat(PageBottom(h, vhost)) == BottomText(vhost.hostname, h.port)
  {
    hide Decimal;
    FourParts("</table>\n", SERVER_VERSION_STRING + " Server at " + vhost.hostname + " on port " + Decimal(h.port) + "<br>\n",
              "</body>", "</html>");
  }

  lemma FourParts(a: string, b: string, c: string, d: string)
    ensures Concat([a, b, c, d]) == a + b + c + d
  {
    assert [a, b, c, d][1..] == [b, c, d] && [b, c, d][1..] == [c, d] && [c, d][1..] == [d] && [d][1..] == [];
    assert Concat([d]) == d + Concat([]);
    assert Concat([c, d]) == c + d;
  }

  lemma FiveParts(a: string, b: string, c: string, d: string, e: string)
    ensures Concat([a, b, c, d, e]) == a + b + c + d + e
  {
    assert [a, b, c, d, e][1..] == [b, c, d, e] && [b, c, d, e][1..] == [c, d, e] && [c, d, e][1..] == [d, e];
    assert [d, e][1..] == [e] && [e][1..] == [];
    assert Concat([e]) == e + Concat([]);
    assert Concat([d, e]) == d + e;
    assert Concat([c, d, e]) == c + (d + e);
  }

  /** The path shown is what stands behind the first occurrence of the document root, or the whole path without one. */
  lemma ResidualExactly(dir: string, root: string)
    ensures Residual(root + dir, root) == dir
    ensures !Contains(dir, root) ==> Residual(dir, root) == dir
    ensures forall i: nat | i <= |dir| && MatchAt(dir, root, i) && (forall j: nat | j < i :: !MatchAt(dir, root, j)) ::
      Residual(dir, root) == dir[i + |root|..]
  {
    hide FirstMatch;
    ResidualBehindRoot(dir, root);
    FirstMatchLeast(dir, root);
    if FirstMatch(dir, root).Some? {
      var i := FirstMatch(dir, root).value;
      assert MatchAt(dir, root, i) && Contains(dir, root);
    }
  }

  lemma ResidualBehindRoot(dir: string, root: string)
    ensures Residual(root + dir, root) == dir
  {
    assert MatchAt(root + dir, root, 0);
    assert (root + dir)[|root|..] == dir;
  }

  lemma {:induction false} FirstMatchLeast(s: string, t: string)
    ensures match FirstMatch(s, t)
      case None => forall j: nat :: !MatchAt(s, t, j)
      case Some(i) => MatchAt(s, t, i) && forall j: nat | j < i :: !MatchAt(s, t, j)
  {
    if !MatchAt(s, t, 0) && s != [] {
      FirstMatchLeast(s[1..], t);
      forall j: nat | j > 0
        ensures MatchAt(s, t, j) == MatchAt(s[1..], t, j - 1)
      {
        MatchBehind(s, t, j);
      }
    }
  }

  lemma MatchBehind(s: string, t: string, j: nat)
    requires s != [] && j > 0
    ensures MatchAt(s, t, j) == MatchAt(s[1..], t, j - 1)
  {
    if j + |t| <= |s| {
      assert s[j..j + |t|] == s[1..][j - 1..j - 1 + |t|];
    }
  }

  // ----- sending the page

  /** Calls of plain_transfer_send with no transfer in progress; a send of nothing stops nobody. */
  predicate LegalDrains(s: Session, sents: seq<int>)
    decreases |sents|, 0
  {
    if sents == [] then true
    else
      var n := |sents| - 1;
      LegalDrains(s, sents[..n]) &&
      var before := Drains(s, sents[..n]);
      LegalRead(before, 0) && LegalSend(Fill(before, 0), sents[n])
  }

  function Drains(s: Session, sents: seq<int>): Session
    requires LegalDrains(s, sents)
    decreases |sents|, 1
  {
    if sents == [] then s
    else
      var n := |sents| - 1;
      Send(Drains(s, sents[..n]), 0, sents[n])
  }

  /** Whatever part has been sent, sent and buffered bytes make up the page, in order. */
  lemma {:induction false} DrainConserves(s: Session, sents: seq<int>)
    requires !s.Transferring() && LegalDrains(s, sents)
    requires !Negative(sents)
    ensures var s' := Drains(s, sents);
      !s'.Transferring() && s'.wire + s'.output == s.wire + s.output && s'.outbound == s.outbound
  {
    if sents != [] {
      var n := |sents| - 1;
      hide Send;
      DrainConserves(s, sents[..n]);
      OneDrain(Drains(s, sents[..n]), sents[n]);
    }
  }

  /** Every send on a nonempty buffer accepts at least a byte. */
  predicate Progressing(s: Session, sents: seq<int>)
    requires LegalDrains(s, sents)
  {
    if sents == [] then true
    else
      var n := |sents| - 1;
      Progressing(s, sents[..n]) && (Drains(s, sents[..n]).output != [] ==> sents[n] > 0)
  }

  /** Then |output| calls are enough to put the whole page on the wire. */
  lemma {:induction false} DrainTerminates(s: Session, sents: seq<int>)
    requires !s.Transferring() && LegalDrains(s, sents) && Progressing(s, sents)
    ensures !Negative(sents)
    ensures |Drains(s, sents).output| <= (if |sents| < |s.output| then |s.output| - |sents| else 0)
    ensures |sents| >= |s.output| ==> Drains(s, sents).wire == s.wire + s.output
  {
    hide Send, Negative, LegalRead, LegalSend;
    if sents == [] {
      NoneNegative();
    } else {
      var n := |sents| - 1;
      DrainTerminates(s, sents[..n]);
      DrainConserves(s, sents[..n]);
      ShorterBy(Drains(s, sents[..n]), sents[n]);
      NegativeSnoc(sents);
    }
    DrainConserves(s, sents);
    if Drains(s, sents).output == [] {
      assert Drains(s, sents).wire + [] == Drains(s, sents).wire;
    }
  }

  lemma NoneNegative()
    ensures !Negative([])
  {
  }

  /** A send outside a transfer that does not stall takes a byte off the buffer. */
  lemma ShorterBy(s: Session, sent: int)
    requires !s.Transferring() && LegalRead(s, 0) && LegalSend(Fill(s, 0), sent)
    requires s.output != [] ==> sent > 0
    ensures sent >= 0 && |Send(s, 0, sent).output| <= (if s.output == [] then 0 else |s.output| - 1)
  {
  }

  predicate Negative(sents: seq<int>)
  {
    exists i | 0 <= i < |sents| :: sents[i] < 0
  }

  lemma NegativeSnoc(sents: seq<int>)
    requires sents != []
    ensures Negative(sents) <==> Negative(sents[..|sents| - 1]) || sents[|sents| - 1] < 0
  {
    var init := sents[..|sents| - 1];
    assert forall i | 0 <= i < |init| :: init[i] == sents[i];
  }

  lemma OneDrain(s: Session, sent: int)
    requires !s.Transferring() && LegalRead(s, 0) && LegalSend(Fill(s, 0), sent)
    ensures var s' := Send(s, 0, sent);
      && !s'.Transferring() && s'.outbound == s.outbound
      && (sent >= 0 ==> s'.wire + s'.output == s.wire + s.output)
      && (sent < 0 ==> |s'.wire| + |s'.output| < |s.wire| + |s.output|)
  {
    if s.output != [] && sent > 0 {
      assert s.output == s.output[..sent] + s.output[sent..];
    }
  }

  lemma {:induction false} DrainBudget(s: Session, sents: seq<int>)
    requires !s.Transferring() && LegalDrains(s, sents)
    ensures !Drains(s, sents).Transferring()
    ensures |Drains(s, sents).wire| + |Drains(s, sents).output| <= |s.wire| + |s.output|
    ensures Negative(sents) ==>
      |Drains(s, sents).wire| + |Drains(s, sents).output| < |s.wire| + |s.output|
  {
    if sents != [] {
      var n := |sents| - 1;
      hide Send, Negative, LegalRead, LegalSend;
      DrainBudget(s, sents[..n]);
      OneDrain(Drains(s, sents[..n]), sents[n]);
      NegativeSnoc(sents);
    }
  }

  /** A page that has left the buffer has arrived whole exactly when no send failed. */
  lemma PageDeliveredExactly(s: Session, sents: seq<int>)
    requires !s.Transferring() && LegalDrains(s, sents) && Drains(s, sents).output == []
    ensures Drains(s, sents).wire == s.wire + s.output <==> !Negative(sents)
  {
    DrainBudget(s, sents);
    if !Negative(sents) {
      DrainConserves(s, sents);
      assert Drains(s, sents).wire + [] == Drains(s, sents).wire;
    }
  }
}
