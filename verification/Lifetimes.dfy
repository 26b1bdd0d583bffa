/**
 The life of a client: the record is created and serviced pass by pass, and what its
 transport has accepted are the answers to its requests.
 */
module Lifetimes {
  import opened Sessions
  import opened Answers
  import opened KeepAlive
  import L = ClientLists
  import opened Clients

  lemma {:induction false} PrefixLegal(s: Session, h: Host, ticks: seq<Tick>, k: nat)
    requires k < |ticks| && LegalRun(s, h, ticks)
    ensures LegalRun(s, h, ticks[..k + 1]) && LegalRun(s, h, ticks[..k])
    ensures LegalTick(Run(s, h, ticks[..k]), h, ticks[k])
    ensures Run(s, h, ticks[..k + 1]) == Pass(Run(s, h, ticks[..k]), h, ticks[k])
    decreases |ticks|
  {
    hide LegalTick, Pass;
    var n := |ticks| - 1;
    if k == n {
      assert ticks[..k + 1] == ticks;
    } else {
      PrefixLegal(s, h, ticks[..n], k);
      assert ticks[..n][..k + 1] == ticks[..k + 1] && ticks[..n][..k] == ticks[..k];
    }
  }

  /**
   The service thread's loop, as far as one client is concerned. junk[k] is what the scan
   variable holds in pass k.
   */
  method ServiceAll(client: Client, h: Host, ticks: seq<Tick>, junk: seq<char>)
    requires client.Valid() && LegalRun(client.View(), h, ticks) && |junk| == |ticks|
    modifies client.Repr()
    ensures client.Valid() && fresh(client.Repr() - old(client.Repr()))
    ensures client.View() == Run(old(client.View()), h, ticks)
  {
    hide Run, LegalRun, Pass, LegalTick, Clients.Client.Valid;
    ghost var s := client.View();
    NoTicks(s, h);
    assert ticks[..0] == [];
    for k := 0 to |ticks|
      invariant client.Valid() && fresh(client.Repr() - old(client.Repr()))
      invariant LegalRun(s, h, ticks[..k]) && client.View() == Run(s, h, ticks[..k])
    {
      PrefixLegal(s, h, ticks, k);
      if client.active {
        client.Service(h, ticks[k], junk[k]);
      } else {
        InactivePass(client.View(), h, ticks[k]);
      }
    }
    assert ticks[..|ticks|] == ticks;
  }

  lemma NoTicks(s: Session, h: Host)
    ensures LegalRun(s, h, []) && Run(s, h, []) == s
  {
  }

  lemma InactivePass(s: Session, h: Host, tick: Tick)
    requires !s.active && LegalTick(s, h, tick)
    ensures Pass(s, h, tick) == s
  {
  }

  /** From accept on, in every run that goes well: the wire of the record carries its answers. */
  method Lifetime(v0: VHost, h: Host, ticks: seq<Tick>, junk: seq<char>)
    returns (client: Client, ghost answers: seq<Answer>)
    requires LegalRun(NewSession(v0), h, ticks) && GoodRun(NewSession(v0), h, ticks) && |junk| == |ticks|
    ensures client.Valid() && fresh(client.Repr())
    ensures Answered(h, v0, Exchanges(NewSession(v0), h, ticks), answers)
    ensures client.wire <= WireOf(answers)
    ensures client.active && !client.transferInProgress ==> client.wire == WireOf(answers)
    ensures client.active && client.transferInProgress ==>
      client.wire + client.outputbuffer.Contents + client.View().Unread() == WireOf(answers)
    ensures client.closes > 0 ==> client.wire == WireOf(answers) && answers != [] && !answers[|answers| - 1].keep
  {
    hide Run, LegalRun, GoodRun, Answered, Exchanges, WireOf, Clients.Client.Valid;
    client := new Client(v0);
    ServiceAll(client, h, ticks, junk);
    answers := WireIsAnswers(v0, h, ticks);
  }

  // ----- hanging up

  /** A pass over a client touches no other record. */
  method PassAmong(client: Client, h: Host, tick: Tick, scan0: char, ghost others: set<Client>)
    requires client.Valid() && client.View().active && LegalTick(client.View(), h, tick)
    requires forall c | c in others :: c.Valid() && c.Repr() !! client.Repr()
    modifies client.Repr()
    ensures client.Valid() && fresh(client.Repr() - old(client.Repr())) && client.next == old(client.next)
    ensures client.View() == Pass(old(client.View()), h, tick)
    ensures forall c | c in others :: c.Valid() && c.Repr() == old(c.Repr()) && c.View() == old(c.View()) && c.next == old(c.next)
    ensures forall c | c in others :: c.Repr() !! client.Repr()
  {
    hide Clients.Client.Valid, Pass, LegalTick;
    client.Service(h, tick, scan0);
    forall c | c in others
      ensures c.Valid() && c.Repr() == old(c.Repr()) && c.View() == old(c.View()) && c.next == old(c.next)
    {
      L.Untouched(c);
    }
  }

  /** The pass over the client, in a list of clients. */
  method BreaksOff(list: L.ClientList, client: Client, h: Host, tick: Tick, scan0: char)
    requires list.Valid() && client in list.nodes
    requires forall c | c in list.Repr :: c.Valid() && list !in c.Repr()
    requires forall c, d | c in list.Repr && d in list.Repr && c != d :: c.Repr() !! d.Repr()
    requires client.View().active && !Finished(client.View()) && LegalTick(client.View(), h, tick) && tick.poll.Broken?
    modifies client.Repr()
    ensures list.Valid() && list.nodes == old(list.nodes) && list.Repr == old(list.Repr)
    ensures client.View() == Serve(old(client.View()), h, tick).(active := false) && fresh(client.Repr() - old(client.Repr()))
    ensures forall c | c in list.Repr :: c.Valid() && list !in c.Repr()
    ensures forall c | c in list.Repr && c != client :: c.Repr() == old(c.Repr()) && c.View() == old(c.View())
    ensures forall c, d | c in list.Repr && d in list.Repr && c != d :: c.Repr() !! d.Repr()
    ensures !client.active && forall c | c in list.Repr && c != client :: c.active == old(c.active)
  {
    hide Clients.Client.Valid, Clients.Client.Repr, Clients.Client.View, Serve, LegalTick, Pass;
    BrokenPass(client.View(), h, tick);
    PassAmong(client, h, tick, scan0, list.Repr - {client});
    ActiveInView(client);
    forall c | c in list.Repr && c != client
      ensures c.active == old(c.active)
    {
      L.SameActive(c);
    }
  }

  lemma ActiveInView(c: Client)
    ensures c.View().active == c.active
  {
  }

  lemma BrokenPass(s: Session, h: Host, tick: Tick)
    requires s.active && !Finished(s) && LegalTick(s, h, tick) && tick.poll.Broken?
    ensures Pass(s, h, tick) == Serve(s, h, tick).(active := false)
  {
    hide LegalServe, Serve;
  }

  /**
   A client whose socket breaks: the pass marks it, and the next sweep over the list it is in
   closes and clears it; it stays in the list only if it is last behind an active one, by
   ClientLists.SurvivorsExactly.
   */
  method HangUp(list: L.ClientList, client: Client, h: Host, tick: Tick, scan0: char, ghost parts: set<object>)
    requires list.Valid() && client in list.nodes && list !in parts
    requires list.Repr <= parts && forall c | c in list.Repr :: c.Valid() && c.Repr() <= parts
    requires forall c, d | c in list.Repr && d in list.Repr && c != d :: c.Repr() !! d.Repr()
    requires client.View().active && !Finished(client.View()) && LegalTick(client.View(), h, tick) && tick.poll.Broken?
    modifies list, parts
    ensures list.Valid() && list.nodes == L.Survivors(old(list.nodes), old(list.Active()) - {client})
    ensures client.View() == L.Deleted(Pass(old(client.View()), h, tick))
  {
    hide *;
    ghost var others := list.Active() - {client};
    list.Shape();
    AllIn(list);
    BrokenPass(client.View(), h, tick);
    BreaksOff(list, client, h, tick, scan0);
    list.Shape();
    ActiveIs(list, others);
    SweepOut(list, client, parts + client.Repr());
  }

  /** The sweep, as far as one inactive client in the list is concerned. */
  method SweepOut(list: L.ClientList, client: Client, ghost parts: set<object>)
    requires list.Valid() && client in list.nodes && list !in parts && !client.View().active
    requires list.Repr <= parts && forall c | c in list.Repr :: c.Valid() && c.Repr() <= parts
    requires forall c, d | c in list.Repr && d in list.Repr && c != d :: c.Repr() !! d.Repr()
    modifies list, parts
    ensures list.Valid() && list.nodes == L.Survivors(old(list.nodes), old(list.Active()))
    ensures client.View() == L.Deleted(old(client.View()))
  {
    hide *;
    SweptWhenInactive(client.View());
    list.Cleanup(parts);
  }

  lemma SweptWhenInactive(s: Session)
    requires !s.active
    ensures L.Swept(s) == L.Deleted(s)
  {
  }

  lemma AllIn(list: L.ClientList)
    ensures forall c | c in list.Active() :: c in list.nodes
  {
  }

  lemma ActiveIs(list: L.ClientList, active: set<Client>)
    requires forall c | c in active :: c in list.nodes
    requires forall c | c in list.nodes :: c.active <==> c in active
    ensures list.Active() == active
  {
  }
}
