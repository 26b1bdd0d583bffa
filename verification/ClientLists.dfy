/**
 The server's list of clients: appending, unlinking, and the sweep that unlinks nodes of
 the list it is walking (client.c, cleanup_dead_clients in main.c).
 */
module ClientLists {
  import Sessions
  import opened Clients

  // ----- the list as a sequence

  predicate Distinct<T(==)>(s: seq<T>)
  {
    forall i, j | 0 <= i < j < |s| :: s[i] != s[j]
  }

  /**
   del_client_struct on the sequence: the head goes, a node between head and tail goes, but
   the search loop stops in front of the tail, so the tail stays unless it is the head.
   */
  function Unlink<T(==)>(s: seq<T>, x: T): seq<T>
  {
    if s != [] && s[0] == x then s[1..] else UnlinkInner(s, x)
  }

  function UnlinkInner<T(==)>(s: seq<T>, x: T): seq<T>
  {
    if |s| <= 1 then s
    else if s[0] == x then s[1..]
    else [s[0]] + UnlinkInner(s[1..], x)
  }

  lemma {:induction false} UnlinkAt<T>(a: seq<T>, x: T, b: seq<T>)
    requires x !in a
    ensures Unlink(a + [x] + b, x) == if a == [] || b != [] then a + b else a + [x]
  {
    var s := a + [x] + b;
    if a == [] {
      assert s[1..] == b == a + b;
    } else {
      assert s[0] == a[0] && a[0] in a;
      UnlinkInnerAt(a, x, b);
    }
  }

  lemma {:induction false} UnlinkInnerAt<T>(a: seq<T>, x: T, b: seq<T>)
    requires x !in a
    ensures UnlinkInner(a + [x] + b, x) == if b != [] then a + b else a + [x]
  {
    var s := a + [x] + b;
    if a == [] {
      assert s[0] == x && s[1..] == b;
      assert a + b == b;
    } else {
      InnerStep(a[0], a[1..] + [x] + b, x);
      hide UnlinkInner;
      var t := a[1..];
      assert a == [a[0]] + t && a[0] in a && s == [a[0]] + (t + [x] + b);
      UnlinkInnerAt(t, x, b);
      assert a + b == [a[0]] + (t + b) && a + [x] == [a[0]] + (t + [x]);
    }
  }

  lemma InnerStep<T>(c: T, t: seq<T>, x: T)
    requires c != x && t != []
    ensures UnlinkInner([c] + t, x) == [c] + UnlinkInner(t, x)
  {
    assert ([c] + t)[1..] == t;
  }

  /** The active clients, in order. */
  function Actives<T(==)>(s: seq<T>, active: set<T>): (r: seq<T>)
    ensures |r| <= |s|
  {
    if s == [] then []
    else
      var n := |s| - 1;
      Actives(s[..n], active) + if s[n] in active then [s[n]] else []
  }

  /** What a sweep leaves: the active clients, and an inactive last one behind an active one. */
  function Survivors<T(==)>(s: seq<T>, active: set<T>): seq<T>
  {
    var a := Actives(s, active);
    if s != [] && s[|s| - 1] !in active && a != [] then a + [s[|s| - 1]] else a
  }

  lemma {:induction false} ActivesAre<T>(s: seq<T>, active: set<T>)
    ensures forall x | x in Actives(s, active) :: x in s && x in active
    ensures forall x | x in s && x in active :: x in Actives(s, active)
  {
    if s != [] {
      var n := |s| - 1;
      ActivesAre(s[..n], active);
      assert s == s[..n] + [s[n]];
    }
  }

  // ----- the list in memory

  /** A client that was not touched is as it was. */
  twostate lemma Untouched(c: Client)
    requires old(c.Valid())
    requires unchanged(old(c.Repr()))
    ensures c.Valid() && c.Repr() == old(c.Repr()) && c.View() == old(c.View()) && c.closes == old(c.closes) && c.next == old(c.next)
  {
  }

  twostate lemma SameActive(c: Client)
    requires c.View() == old(c.View())
    ensures c.active == old(c.active)
  {
  }

  /** The record delete_client leaves. */
  function Deleted(s: Sessions.Session): Sessions.Session
  {
    Sessions.Clear(s.(active := false, closed := true))
  }

  /** The record a sweep leaves: a deleted one, if it was inactive. */
  function Swept(s: Sessions.Session): Sessions.Session
  {
    if s.active then s else Deleted(s)
  }

  function Once(active: bool): nat
  {
    if active then 0 else 1
  }

  /** delete_client up to the unlinking. */
  method CloseAndClear(client: Client, ghost others: set<Client>)
    requires client.Valid() && forall c | c in others :: c.Valid() && c.Repr() !! client.Repr()
    modifies client.Repr()
    ensures client.Valid() && client.Repr() == old(client.Repr()) && client.next == old(client.next)
    ensures client.View() == Deleted(old(client.View())) && client.closes == old(client.closes) + 1
    ensures forall c | c in others :: c.Valid() && c.Repr() == old(c.Repr()) && c.View() == old(c.View())
                                      && c.closes == old(c.closes) && c.next == old(c.next)
  {
    hide Clients.Client.Valid, Sessions.Clear;
    client.Close();
    client.ClearClient();
    forall c | c in others
      ensures c.Valid() && c.Repr() == old(c.Repr()) && c.View() == old(c.View()) && c.closes == old(c.closes) && c.next == old(c.next)
    {
      Untouched(c);
    }
  }

  /** A write to a link: no record shows it. */
  method SetNext(ptr: Client, to: Client?, ghost all: set<Client>)
    requires forall c | c in all :: c.Valid() && (c == ptr || ptr !in c.Repr())
    modifies ptr`next
    ensures ptr.next == to
    ensures forall c | c in all :: c.Valid() && c.Repr() == old(c.Repr()) && c.View() == old(c.View())
  {
    hide Clients.Client.Valid, Clients.Client.Repr, Clients.Client.View;
    forall c | c in all
      ensures ptr !in c.inputbuffer.Repr && ptr !in c.outputbuffer.Repr && ptr !in c.inboundHeaders.Repr && ptr !in c.outboundHeaders.Repr
      ensures (ptr as object) !in {c.inputbuffer as object, c.outputbuffer, c.inboundHeaders, c.outboundHeaders}
    {
      c.Outside(ptr);
    }
    ptr.next := to;
  }

  class ClientList {
    var head: Client?
    ghost var nodes: seq<Client>
    ghost var Repr: set<Client>   // every client that was ever in the list

    ghost predicate Valid()
      reads this, Repr
    {
      && (forall i | 0 <= i < |nodes| :: nodes[i] in Repr)
      && head == (if nodes == [] then null else nodes[0])
      && Distinct(nodes)
      && (forall i {:trigger nodes[i].next} | 0 <= i < |nodes| ::
            nodes[i].next == if i + 1 < |nodes| then nodes[i + 1] else null)
    }

    ghost function Active(): set<Client>
      reads this, nodes
    {
      set c | c in nodes && c.active
    }

    constructor ()
      ensures Valid() && nodes == [] && Repr == {}
    {
      head, nodes, Repr := null, [], {};
    }

    /** A write to the list's own fields: no record shows it. */
    method SetHead(head: Client?, ghost nodes: seq<Client>, ghost Repr: set<Client>)
      requires forall c | c in Repr :: c.Valid() && this !in c.Repr()
      modifies this
      ensures this.head == head && this.nodes == nodes && this.Repr == Repr
      ensures forall c | c in Repr :: c.Valid() && c.Repr() == old(c.Repr()) && c.View() == old(c.View())
    {
      hide Clients.Client.Valid, Clients.Client.Repr, Clients.Client.View;
      this.head, this.nodes, this.Repr := head, nodes, Repr;
      forall c | c in Repr
        ensures c.Valid() && c.Repr() == old(c.Repr()) && c.View() == old(c.View())
      {
        Untouched(c);
      }
    }

    /** add_new_client_struct: behind the tail. Only links change. */
    method Add(newclient: Client)
      requires Valid() && newclient !in Repr && newclient.next == null
      requires newclient.Valid() && this !in newclient.Repr() && forall d | d in Repr :: d !in newclient.Repr()
      requires forall c | c in Repr :: c.Valid() && this !in c.Repr()
      requires forall c, d | c in Repr && d in Repr && c != d :: d !in c.Repr()
      modifies this, Repr`next
      ensures Valid() && nodes == old(nodes) + [newclient] && Repr == old(Repr) + {newclient}
      ensures newclient.Valid() && newclient.Repr() == old(newclient.Repr()) && newclient.View() == old(newclient.View())
      ensures forall c | c in old(Repr) :: c.Valid() && c.Repr() == old(c.Repr()) && c.View() == old(c.View())
    {
      hide Clients.Client.Valid, Clients.Client.Repr, Clients.Client.View;
      ghost var s, all := nodes, Repr + {newclient};
      var first := head;
      SetHead(if first != null then first else newclient, nodes + [newclient], all);
      if first != null {
        var ptr := first;
        ghost var k := 0;
        while ptr.next != null
          invariant 0 <= k < |s| && ptr == s[k]
          decreases |s| - k
        {
          ptr := ptr.next;
          k := k + 1;
        }
        assert k == |s| - 1;
        SetNext(ptr, newclient, all);
      }
    }

    /** The link around an inner client. */
    method Unhook(prev: Client, client: Client, ghost k: nat)
      requires Valid() && 0 < k < |nodes| - 1 && nodes[k] == client && nodes[k - 1] == prev && client !in nodes[..k]
      requires forall c | c in Repr :: c.Valid() && this !in c.Repr()
      requires forall c, d | c in Repr && d in Repr && c != d :: d !in c.Repr()
      modifies this, Repr`next
      ensures Valid() && nodes == Unlink(old(nodes), client) && Repr == old(Repr)
      ensures client.next == old(client.next)
      ensures forall c | c in Repr :: c.Valid() && c.Repr() == old(c.Repr()) && c.View() == old(c.View())
    {
      hide Clients.Client.Valid, Clients.Client.Repr, Clients.Client.View, Unlink, UnlinkInner;
      ghost var s := nodes;
      ghost var t := s[..k] + s[k + 1..];
      UnlinkAt(s[..k], client, s[k + 1..]);
      assert s == s[..k] + [client] + s[k + 1..];
      WithoutAt(s, k);
      SetNext(prev, client.next, Repr);
      forall i | 0 <= i < |t|
        ensures t[i] in Repr && t[i].next == if i + 1 < |t| then t[i + 1] else null
      {
        var j := if i < k then i else i + 1;
        assert t[i] == s[j] && (j != k - 1 ==> s[j] != prev);
      }
      assert Distinct(t) && t[0] == s[0];
      SetHead(head, t, Repr);
    }

    /**
     del_client_struct. prevptr has no value until the loop has moved once, and is read only
     after that: the first node of the search is the head, which was ruled out.
     */
    method Del(client: Client)
      requires Valid()
      requires forall c | c in Repr :: c.Valid() && this !in c.Repr()
      requires forall c, d | c in Repr && d in Repr && c != d :: d !in c.Repr()
      modifies this, Repr`next
      ensures Valid() && nodes == Unlink(old(nodes), client) && Repr == old(Repr)
      ensures client.next == old(client.next)
      ensures forall c | c in Repr :: c.Valid() && c.Repr() == old(c.Repr()) && c.View() == old(c.View())
    {
      hide Clients.Client.Valid, Clients.Client.Repr, Clients.Client.View;
      if head != null {
        UnlinkHead(nodes, client);
        hide Unlink, UnlinkInner;
        if client == head {
          SetHead(head.next, nodes[1..], Repr);
        } else {
          var ptr: Client := head;
          var prevptr: Client? := null;
          ghost var k := 0;
          ghost var s := nodes;
          while ptr.next != null
            invariant Valid() && nodes == s == old(nodes) && Repr == old(Repr)
            invariant 0 <= k < |s| && ptr == s[k] && client !in s[..k] && client != s[0]
            invariant k > 0 ==> prevptr == s[k - 1]
            decreases |s| - k
          {
            if ptr == client {
              Unhook(prevptr, client, k);
              return;
            }
            prevptr := ptr;
            ptr := ptr.next;
            k := k + 1;
          }
          NotFound(s, client, k);
        }
      }
    }

    /** delete_client: mark, close the transport, reset, unlink; no other client is touched. */
    method Delete(client: Client)
      requires Valid() && client in nodes
      requires forall c | c in Repr :: c.Valid() && this !in c.Repr()
      requires forall c, d | c in Repr && d in Repr && c != d :: c.Repr() !! d.Repr()
      modifies this, Repr`next, client.Repr()
      ensures Valid() && nodes == Unlink(old(nodes), client) && Repr == old(Repr)
      ensures client.View() == Deleted(old(client.View())) && client.closes == old(client.closes) + 1
      ensures client.next == old(client.next)
      ensures forall c | c in Repr :: c.Valid() && c.Repr() == old(c.Repr())
      ensures forall c | c in Repr && c != client :: c.View() == old(c.View()) && c.closes == old(c.closes)
    {
      hide Clients.Client.Valid, Clients.Client.Repr, Clients.Client.View, Deleted, Unlink;
      CloseAndClear(client, Repr - {client});
      forall c | c in Repr ensures c in c.Repr() {
        c.Own();
      }
      Del(client);
    }

    lemma Shape()
      requires Valid()
      ensures Distinct(nodes) && (forall c | c in nodes :: c in Repr) && head == if nodes == [] then null else nodes[0]
      ensures forall c | c in nodes :: c in Active() <==> c.active
    {
    }

    /** What the walk over s does at its client number k. */
    method Visit(client: Client, ghost s: seq<Client>, ghost active: set<Client>, ghost k: nat)
      requires Valid() && k < |s| && Distinct(s) && client == s[k] && (client in active <==> client.active)
      requires nodes == Walked(s, active, k)
      requires forall c | c in Repr :: c.Valid() && this !in c.Repr()
      requires forall c, d | c in Repr && d in Repr && c != d :: c.Repr() !! d.Repr()
      modifies this, Repr`next, client.Repr()
      ensures Valid() && nodes == Walked(s, active, k + 1) && Repr == old(Repr)
      ensures client.next == if k + 1 < |s| then s[k + 1] else null
      ensures client.View() == Swept(old(client.View())) && client.closes == old(client.closes) + Once(old(client.active))
      ensures forall c | c in Repr :: c.Valid() && c.Repr() == old(c.Repr())
      ensures forall c | c in Repr && c != client :: c.View() == old(c.View()) && c.closes == old(c.closes)
    {
      hide Clients.Client.Valid, Clients.Client.Repr, Deleted, Unlink, Walked;
      WalkStep(s, active, k);
      ghost var a := WalkedAt(s, active, k);
      assert nodes[a].next == if k + 1 < |s| then s[k + 1] else null;
      if !client.active {
        Delete(client);
      }
    }

    /**
     cleanup_dead_clients: walks the list and deletes the inactive nodes from under itself. A
     deleted node keeps its own link, so the walk goes on to the node that followed it.
     */
    method Cleanup(ghost parts: set<object>)
      requires Valid() && this !in parts
      requires forall c | c in Repr :: c.Valid() && c.Repr() <= parts
      requires forall c, d | c in Repr && d in Repr && c != d :: c.Repr() !! d.Repr()
      modifies this, Repr`next, parts
      ensures Valid() && nodes == Survivors(old(nodes), old(Active())) && Repr == old(Repr)
      ensures forall c | c in Repr :: c.Valid() && c.Repr() == old(c.Repr())
      ensures forall c | c in old(nodes) :: c.View() == Swept(old(c.View())) && c.closes == old(c.closes) + Once(old(c.active))
      ensures forall c | c in Repr && c !in old(nodes) :: c.View() == old(c.View()) && c.closes == old(c.closes)
    {
      hide Walked, Survivors, Clients.Client.Valid, Clients.Client.Repr, Clients.Client.View, Swept, Once, Valid, Distinct, Active;
      ghost var s, active, all := nodes, Active(), Repr;
      ghost var k := 0;
      var ptr := head;
      WalkEnds(s, active);
      Shape();
      while ptr != null
        invariant 0 <= k <= |s| && ptr == if k < |s| then s[k] else null
        invariant Valid() && nodes == Walked(s, active, k) && Repr == all
        invariant forall c | c in all :: c.Valid() && c.Repr() == old(c.Repr())
        invariant forall c | c in all && c !in s[..k] :: c.View() == old(c.View()) && c.closes == old(c.closes)
        invariant forall c | c in s[..k] :: c.View() == Swept(old(c.View())) && c.closes == old(c.closes) + Once(old(c.active))
        decreases |s| - k
      {
        NotBefore(s, k);
        SameActive(ptr);
        assert ptr in active <==> old(ptr.active);
        Visit(ptr, s, active, k);
        ptr := ptr.next;
        k := k + 1;
      }
      assert s[..k] == s;
    }
  }

  lemma NotBefore<T>(s: seq<T>, k: nat)
    requires k < |s| && Distinct(s)
    ensures s[k] !in s[..k] && s[..k + 1] == s[..k] + [s[k]]
  {
  }

  lemma WithoutAt<T>(s: seq<T>, k: nat)
    requires 0 < k < |s|
    ensures var t := s[..k] + s[k + 1..];
      && (forall i | 0 <= i < |t| :: t[i] == s[if i < k then i else i + 1])
      && (Distinct(s) ==> Distinct(t))
  {
  }

  lemma UnlinkHead<T>(s: seq<T>, x: T)
    requires s != []
    ensures s[0] == x ==> Unlink(s, x) == s[1..]
  {
  }

  lemma {:induction false} NotFound<T>(s: seq<T>, x: T, k: nat)
    requires k == |s| - 1 && x !in s[..k] && (k == 0 ==> s[0] != x)
    ensures Unlink(s, x) == s
  {
    if s[k] == x {
      UnlinkAt(s[..k], x, []);
      assert s == s[..k] + [x] + [];
    } else {
      NotInner(s, x);
    }
  }

  lemma NotInner<T>(s: seq<T>, x: T)
    requires x !in s
    ensures UnlinkInner(s, x) == s
  {
    if |s| > 1 {
      NotInner(s[1..], x);
    }
  }

  /** The list when the walk has reached the client at index k of the list it started on. */
  ghost function Walked<T>(s: seq<T>, active: set<T>, k: nat): seq<T>
    requires k <= |s|
  {
    if k < |s| then Actives(s[..k], active) + s[k..] else Survivors(s, active)
  }

  lemma WalkEnds<T>(s: seq<T>, active: set<T>)
    ensures Walked(s, active, 0) == s && Walked(s, active, |s|) == Survivors(s, active)
  {
    assert Actives(s[..0], active) == [];
  }

  lemma ActivesNext<T>(s: seq<T>, active: set<T>, k: nat)
    requires k < |s|
    ensures Actives(s[..k + 1], active) == Actives(s[..k], active) + if s[k] in active then [s[k]] else []
  {
    assert s[..k + 1][..k] == s[..k];
  }

  lemma WalkedIs<T>(s: seq<T>, active: set<T>, k: nat)
    requires k < |s|
    ensures Walked(s, active, k) == Actives(s[..k], active) + [s[k]] + s[k + 1..]
    ensures forall x | x in Walked(s, active, k) :: x in s
    ensures Walked(s, active, k)[|Actives(s[..k], active)|..] == s[k..]
  {
    assert s[k..] == [s[k]] + s[k + 1..];
    ActivesAre(s[..k], active);
    forall x | x in Walked(s, active, k)
      ensures x in s
    {
      if x in Actives(s[..k], active) {
        assert x in s[..k];
      } else {
        assert x in s[k..];
      }
    }
  }

  /** Where the walk is in that list, and what comes next. */
  lemma WalkedAt<T>(s: seq<T>, active: set<T>, k: nat) returns (a: nat)
    requires k < |s|
    ensures var w := Walked(s, active, k);
      && a < |w| && w[a] == s[k]
      && (if k + 1 < |s| then a + 1 < |w| && w[a + 1] == s[k + 1] else a + 1 == |w|)
  {
    WalkedIs(s, active, k);
    a := |Actives(s[..k], active)|;
    var rest := Walked(s, active, k)[a..];
    assert rest[0] == s[k] && (k + 1 < |s| ==> rest[1] == s[k + 1]);
  }

  /** Unlinking the client reached, if it is inactive, leads to the next client's list. */
  lemma WalkStep<T>(s: seq<T>, active: set<T>, k: nat)
    requires k < |s| && Distinct(s)
    ensures s[k] in active ==> Walked(s, active, k + 1) == Walked(s, active, k)
    ensures s[k] !in active ==> Walked(s, active, k + 1) == Unlink(Walked(s, active, k), s[k])
  {
    hide Actives, Unlink;
    var a, x, b := Actives(s[..k], active), s[k], s[k + 1..];
    WalkedIs(s, active, k);
    ActivesNext(s, active, k);
    ActivesAre(s[..k], active);
    assert x !in a;
    UnlinkAt(a, x, b);
    if b == [] {
      assert s[..k + 1] == s;
    }
  }

  // ----- runs

  /** Clients numbered in order of arrival; the three kinds of step are taken atomically. */
  datatype Step = Accept | Close(id: nat) | Sweep

  datatype Registry = Registry(list: seq<nat>, active: set<nat>, arrived: nat)

  function Take(r: Registry, step: Step): Registry
  {
    match step
    case Accept => Registry(r.list + [r.arrived], r.active + {r.arrived}, r.arrived + 1)
    case Close(id) => r.(active := r.active - {id})
    case Sweep => r.(list := Survivors(r.list, r.active))
  }

  function Run(steps: seq<Step>): Registry
  {
    if steps == [] then Registry([], {}, 0)
    else Take(Run(steps[..|steps| - 1]), steps[|steps| - 1])
  }

  lemma RunSnoc(steps: seq<Step>, step: Step)
    ensures Run(steps + [step]) == Take(Run(steps), step)
  {
    assert (steps + [step])[..|steps|] == steps;
  }

  /** Arrival order without duplicates is a strictly increasing list of arrival numbers. */
  predicate Increasing(s: seq<nat>)
  {
    forall i, j | 0 <= i < j < |s| :: s[i] < s[j]
  }

  lemma IncreasingSnoc(s: seq<nat>, x: nat)
    requires Increasing(s) && forall y | y in s :: y < x
    ensures Increasing(s + [x])
  {
    assert forall i | 0 <= i < |s| :: s[i] in s;
  }

  lemma {:induction false} SurvivorsIncrease(s: seq<nat>, active: set<nat>)
    requires Increasing(s)
    ensures Increasing(Survivors(s, active)) && Increasing(Actives(s, active))
  {
    if s != [] {
      var n := |s| - 1;
      SurvivorsIncrease(s[..n], active);
      ActivesAre(s[..n], active);
      assert forall y | y in s[..n] :: y < s[n];
      IncreasingSnoc(Actives(s[..n], active), s[n]);
      assert Actives(s[..n], active) + [] == Actives(s[..n], active);
    }
  }

  /**
   In every reachable state the list is in arrival order without duplicates, and holds every
   client that was accepted and not closed: no sweep ever removes an active client.
   */
  lemma {:induction false} RegistrySafe(steps: seq<Step>)
    ensures Increasing(Run(steps).list)
    ensures forall id | id in Run(steps).list :: id < Run(steps).arrived
    ensures forall id: nat :: id < Run(steps).arrived && Close(id) !in steps ==> id in Run(steps).active
    ensures forall id | id in Run(steps).active :: id in Run(steps).list
  {
    if steps != [] {
      hide Take, Sound;
      var n := |steps| - 1;
      RegistrySafe(steps[..n]);
      assert steps == steps[..n] + [steps[n]];
      SoundIs(Run(steps[..n]), steps[..n]);
      TakeSound(Run(steps[..n]), steps[..n], steps[n]);
      SoundIs(Run(steps), steps);
    }
  }

  /** What RegistrySafe says of one state, behind given steps. */
  predicate Sound(r: Registry, steps: seq<Step>)
  {
    && Increasing(r.list)
    && (forall id | id in r.list :: id < r.arrived)
    && (forall id: nat :: id < r.arrived && Close(id) !in steps ==> id in r.active)
    && (forall id | id in r.active :: id in r.list)
  }

  lemma SoundIs(r: Registry, steps: seq<Step>)
    ensures Sound(r, steps) <==>
      && Increasing(r.list)
      && (forall id | id in r.list :: id < r.arrived)
      && (forall id: nat :: id < r.arrived && Close(id) !in steps ==> id in r.active)
      && (forall id | id in r.active :: id in r.list)
  {
  }

  lemma TakeSound(r: Registry, steps: seq<Step>, step: Step)
    requires Sound(r, steps)
    ensures Sound(Take(r, step), steps + [step])
  {
    hide Increasing, Survivors;
    match step {
      case Accept =>
        IncreasingSnoc(r.list, r.arrived);
      case Close(_) =>
      case Sweep =>
        SurvivorsIncrease(r.list, r.active);
        SurvivorsAre(r.list, r.active);
    }
  }

  lemma SurvivorsAre<T>(s: seq<T>, active: set<T>)
    ensures forall x | x in Survivors(s, active) :: x in s
    ensures forall x | x in s && x in active :: x in Survivors(s, active)
  {
    hide Actives;
    ActivesAre(s, active);
  }

  /** Who is left by a sweep: every active client, and an inactive one exactly if it is last behind an active one. */
  lemma SurvivorsExactly<T>(s: seq<T>, active: set<T>, x: T)
    ensures x in Survivors(s, active) <==>
            x in s && (x in active || (x == s[|s| - 1] && exists i | 0 <= i < |s| :: s[i] in active))
  {
    hide Actives;
    ActivesAre(s, active);
    var a := Actives(s, active);
    if a != [] {
      assert a[0] in a;
    }
  }

  /** A client that was closed is not active in any later state. */
  lemma {:induction false} ClosedForGood(steps: seq<Step>, id: nat, more: seq<Step>)
    requires id < Run(steps).arrived
    ensures id !in Run(steps + [Close(id)] + more).active && id < Run(steps + [Close(id)] + more).arrived
  {
    var before := steps + [Close(id)];
    if more == [] {
      assert before + [] == before;
      RunSnoc(steps, Close(id));
    } else {
      var n := |more| - 1;
      ClosedForGood(steps, id, more[..n]);
      assert before + more == (before + more[..n]) + [more[n]];
      RunSnoc(before + more[..n], more[n]);
    }
  }

  /** Right after a sweep at most one client is inactive, and it is the last and was the last. */
  lemma AfterSweep(steps: seq<Step>)
    ensures
      var before, after := Run(steps), Run(steps + [Sweep]);
      && (forall i | 0 <= i < |after.list| - 1 :: after.list[i] in before.active)
      && (after.list != [] && after.list[|after.list| - 1] !in before.active <==>
          before.list != [] && before.list[|before.list| - 1] !in before.active && HasActive(before))
  {
    var r := Run(steps);
    RunSnoc(steps, Sweep);
    SweepLeaves(r);
    hide Run;
  }

  /** Whether the list holds an active client. */
  predicate HasActive(r: Registry)
  {
    exists i | 0 <= i < |r.list| :: r.list[i] in r.active
  }

  lemma SweepLeaves(r: Registry)
    ensures var list := Survivors(r.list, r.active);
      && (forall i | 0 <= i < |list| - 1 :: list[i] in r.active)
      && (list != [] && list[|list| - 1] !in r.active <==>
          r.list != [] && r.list[|r.list| - 1] !in r.active && HasActive(r))
  {
    hide Actives;
    ActivesAre(r.list, r.active);
    var a := Actives(r.list, r.active);
    assert forall i | 0 <= i < |a| :: a[i] in a;
    assert a != [] ==> HasActive(r) by {
      if a != [] { assert a[0] in r.list; }
    }
    assert HasActive(r) ==> a != [];
  }

  /** The inactive client a sweep leaves behind goes with the first sweep after another accept. */
  lemma LeftoverGoes(steps: seq<Step>)
    ensures forall id | id in Run(steps + [Sweep, Accept, Sweep]).list :: id in Run(steps + [Sweep, Accept, Sweep]).active
  {
    hide Run, Actives;
    RunSnoc(steps + [Sweep], Accept);
    RunSnoc(steps + [Sweep] + [Accept], Sweep);
    assert steps + [Sweep] + [Accept] + [Sweep] == steps + [Sweep, Accept, Sweep];
    var r := Run(steps + [Sweep] + [Accept]);
    assert r.list[|r.list| - 1] in r.active;
    ActivesAre(r.list, r.active);
  }
}
