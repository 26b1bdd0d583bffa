/**
 Header lists (headers.c): a singly linked list of name/value pairs that refines a
 sequence of pairs.
 */
module Headers {
  import opened CText

  datatype Header = Header(name: string, value: string)

  // ----- the sequence

  /** The first value under a name, or the default. */
  function Get(hs: seq<Header>, default: Option<string>, name: string): (r: Option<string>)
  {
    if hs == [] then default
    else if hs[0].name == name then Some(hs[0].value)
    else Get(hs[1..], default, name)
  }

  /** Whether some header carries the name. */
  predicate Has(hs: seq<Header>, name: string)
  {
    exists i | 0 <= i < |hs| :: hs[i].name == name
  }

  function Update(hs: seq<Header>, name: string, value: string): (r: seq<Header>)
    ensures |r| == |hs|
    ensures forall i | 0 <= i < |hs| ::
      r[i] == if hs[i].name == name then Header(name, value) else hs[i]
  {
    seq(|hs|, i requires 0 <= i < |hs| => if hs[i].name == name then Header(name, value) else hs[i])
  }

  /** Get finds the value at the least index with the name. */
  lemma {:induction false} GetIsFirst(hs: seq<Header>, default: Option<string>, name: string)
    ensures !Has(hs, name) ==> Get(hs, default, name) == default
    ensures Has(hs, name) ==>
      exists i | 0 <= i < |hs| ::
        && hs[i].name == name && Get(hs, default, name) == Some(hs[i].value)
        && forall j | 0 <= j < i :: hs[j].name != name
  {
    if hs != [] && hs[0].name != name {
      var t := hs[1..];
      GetIsFirst(t, default, name);
      if Has(hs, name) {
        var k :| 0 <= k < |hs| && hs[k].name == name;
        assert t[k - 1].name == name;
        var i :| 0 <= i < |t| && t[i].name == name && Get(t, default, name) == Some(t[i].value)
                 && forall j | 0 <= j < i :: t[j].name != name;
        assert hs[i + 1] == t[i];
        assert forall j | 1 <= j < i + 1 :: hs[j] == t[j - 1];
      } else {
        assert forall i | 0 <= i < |t| :: t[i] == hs[i + 1];
      }
    }
  }

  /** After add_header a name has its earlier value if it had one, else the new one. */
  lemma {:induction false} GetAfterAdd(hs: seq<Header>, h: Header, default: Option<string>, name: string)
    ensures Get(hs + [h], default, name) ==
            if Has(hs, name) then Get(hs, default, name)
            else if h.name == name then Some(h.value) else default
  {
    if hs == [] {
      assert hs + [h] == [h];
    } else if hs[0].name != name {
      GetAfterAdd(hs[1..], h, default, name);
      assert (hs + [h])[1..] == hs[1..] + [h];
      assert Has(hs, name) <==> Has(hs[1..], name) by {
        assert forall i | 1 <= i < |hs| :: hs[i] == hs[1..][i - 1];
      }
    }
  }

  /** update_header_value changes what its name is looked up to, and no other lookup. */
  lemma {:induction false} GetAfterUpdate(hs: seq<Header>, n: string, v: string, default: Option<string>, name: string)
    ensures Get(Update(hs, n, v), default, name) ==
            if name == n && Has(hs, n) then Some(v) else Get(hs, default, name)
  {
    if hs != [] {
      GetAfterUpdate(hs[1..], n, v, default, name);
      assert Update(hs, n, v)[1..] == Update(hs[1..], n, v);
      assert Has(hs, n) <==> hs[0].name == n || Has(hs[1..], n) by {
        assert forall i | 1 <= i < |hs| :: hs[i] == hs[1..][i - 1];
      }
    }
  }

  // ----- the list

  class Node {
    var name: string
    var value: string
    var next: Node?
    ghost var live: bool  // false once freed

    constructor (name: string, value: string)
      ensures this.name == name && this.value == value && next == null && live
    {
      this.name, this.value, next, live := name, value, null, true;
    }
  }

  class HeaderList {
    ghost var Contents: seq<Header>
    ghost var Repr: set<object>

    var head: Node?
    ghost var nodes: seq<Node>

    /** The nodes are distinct, allocated and linked in order, and carry the contents. */
    ghost predicate Valid()
      reads this, Repr
      ensures Valid() ==> this in Repr
    {
      && this in Repr && (forall i | 0 <= i < |nodes| :: nodes[i] in Repr)
      && head == (if nodes == [] then null else nodes[0])
      && (forall i, j | 0 <= i < j < |nodes| :: nodes[i] != nodes[j])
      && (forall i {:trigger nodes[i].next} | 0 <= i < |nodes| ::
            nodes[i].next == if i + 1 < |nodes| then nodes[i + 1] else null)
      && |Contents| == |nodes|
      && (forall i | 0 <= i < |nodes| :: nodes[i].live && Contents[i] == Header(nodes[i].name, nodes[i].value))
    }

    constructor ()
      ensures Valid() && fresh(Repr) && Contents == []
    {
      head, nodes := null, [];
      Contents, Repr := [], {this};
    }

    /** add_header: walk to the tail and hang the new node there. */
    method Add(name: string, value: string)
      requires Valid()
      modifies Repr
      ensures Valid() && fresh(Repr - old(Repr))
      ensures Contents == old(Contents) + [Header(name, value)]
    {
      var node := new Node(name, value);
      if head != null {
        var ptr := head;
        ghost var k := 0;
        while ptr.next != null
          invariant 0 <= k < |nodes| && ptr == nodes[k]
          decreases |nodes| - k
        {
          ptr := ptr.next;
          k := k + 1;
        }
        assert k == |nodes| - 1;
        ptr.next := node;
      } else {
        head := node;
      }
      nodes, Contents, Repr := nodes + [node], Contents + [Header(name, value)], Repr + {node};
    }

    /** get_header_value. */
    method GetValue(default: Option<string>, name: string) returns (r: Option<string>)
      requires Valid()
      ensures r == Get(Contents, default, name)
    {
      var ptr := head;
      ghost var k := 0;
      assert Contents[0..] == Contents;
      while ptr != null
        invariant 0 <= k <= |nodes| && ptr == if k < |nodes| then nodes[k] else null
        invariant Get(Contents, default, name) == Get(Contents[k..], default, name)
        decreases |nodes| - k
      {
        assert Contents[k..][0] == Contents[k] && Contents[k..][1..] == Contents[k + 1..];
        if name == ptr.name {
          return Some(ptr.value);
        }
        ptr := ptr.next;
        k := k + 1;
      }
      r := default;
    }

    /** update_header_value: overwrites every value under the name. */
    method UpdateValue(name: string, value: string)
      requires Valid()
      modifies Repr
      ensures Valid() && Repr == old(Repr)
      ensures Contents == Update(old(Contents), name, value)
    {
      ghost var hs := Contents;
      var ptr := head;
      ghost var k := 0;
      while ptr != null
        invariant Valid() && nodes == old(nodes) && Repr == old(Repr)
        invariant 0 <= k <= |nodes| && ptr == if k < |nodes| then nodes[k] else null
        invariant |Contents| == |hs|
        invariant forall i | 0 <= i < |hs| ::
          Contents[i] == if i < k && hs[i].name == name then Header(name, value) else hs[i]
        decreases |nodes| - k
      {
        if name == ptr.name {
          ptr.value := value;
          Contents := Contents[k := Header(name, value)];
        }
        ptr := ptr.next;
        k := k + 1;
      }
    }

    /** del_headers: reads each next link before it frees the node, and frees every node once. */
    method DelAll()
      requires Valid()
      modifies Repr
      ensures Valid() && Repr == old(Repr) && Contents == []
      ensures forall n | n in old(nodes) :: !n.live
    {
      var ptr := head;
      ghost var k := 0;
      while ptr != null
        invariant nodes == old(nodes) && head == old(head) && Repr == old(Repr)
        invariant 0 <= k <= |nodes| && ptr == if k < |nodes| then nodes[k] else null
        invariant forall i, j | 0 <= i < j < |nodes| :: nodes[i] != nodes[j]
        invariant forall i | 0 <= i < k :: !nodes[i].live
        invariant forall i | k <= i < |nodes| :: nodes[i].live
        invariant forall i {:trigger nodes[i].next} | k <= i < |nodes| ::
          nodes[i].next == if i + 1 < |nodes| then nodes[i + 1] else null
        decreases |nodes| - k
      {
        assert ptr.live && ptr in old(nodes);
        var nextptr := ptr.next;
        ptr.live := false;
        ptr := nextptr;
        k := k + 1;
      }
      head, nodes, Contents := null, [], [];
    }
  }
}
