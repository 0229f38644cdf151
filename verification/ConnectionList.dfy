/** The list of connections: a singly linked list of heap nodes, pruned while it is walked. */
module ConnectionLists {
  import opened Bytes

  class ConnData {
    const clientFd: int

    constructor (fd: int)
      ensures clientFd == fd
    {
      clientFd := fd;
    }
  }

  class ConnInfo {
    var next: ConnInfo?
    const threadId: nat
    const ref: ConnData

    constructor (threadId: nat, ref: ConnData)
      ensures this.threadId == threadId && this.ref == ref
    {
      this.threadId, this.ref, next := threadId, ref, null;
    }
  }

  /** The nodes among the first k whose join did not succeed, in order. */
  function Survivors(nodes: seq<ConnInfo>, k: nat, ended: set<ConnInfo>): seq<ConnInfo>
    requires k <= |nodes|
  {
    if k == 0 then [] else Survivors(nodes, k - 1, ended) + if nodes[k - 1] in ended then [] else [nodes[k - 1]]
  }

  /** The nodes among the first k whose join succeeded, in order: a traversal unlinks and frees them. */
  function Joined(nodes: seq<ConnInfo>, k: nat, ended: set<ConnInfo>): seq<ConnInfo>
    requires k <= |nodes|
  {
    if k == 0 then [] else Joined(nodes, k - 1, ended) + if nodes[k - 1] in ended then [nodes[k - 1]] else []
  }

  /** Every node is in exactly one of the two. */
  lemma {:induction false} JoinedOrNot(nodes: seq<ConnInfo>, k: nat, ended: set<ConnInfo>)
    requires k <= |nodes|
    ensures |Survivors(nodes, k, ended)| + |Joined(nodes, k, ended)| == k
    ensures forall c :: c in Survivors(nodes, k, ended) <==> c in nodes[..k] && c !in ended
    ensures forall c :: c in Joined(nodes, k, ended) <==> c in nodes[..k] && c in ended
  {
    if k > 0 {
      JoinedOrNot(nodes, k - 1, ended);
      assert nodes[..k] == nodes[..k - 1] + [nodes[k - 1]];
    }
  }

  /** Neither the kept nor the freed nodes change their order. */
  lemma {:induction false} KeptInOrder(nodes: seq<ConnInfo>, k: nat, ended: set<ConnInfo>)
    requires k <= |nodes|
    ensures IsSubsequence(Survivors(nodes, k, ended), nodes[..k])
    ensures IsSubsequence(Joined(nodes, k, ended), nodes[..k])
  {
    if k > 0 {
      var c := nodes[k - 1];
      KeptInOrder(nodes, k - 1, ended);
      assert nodes[..k] == nodes[..k - 1] + [c];
      SubsequenceMaybe(Survivors(nodes, k - 1, ended), nodes[..k - 1], c, c !in ended);
      SubsequenceMaybe(Joined(nodes, k - 1, ended), nodes[..k - 1], c, c in ended);
    }
  }

  /** So a whole walk keeps just the nodes not joined, in the order of the list. */
  lemma WalkKeepsTheRest(nodes: seq<ConnInfo>, ended: set<ConnInfo>)
    ensures IsSubsequence(Survivors(nodes, |nodes|, ended), nodes)
    ensures forall c :: c in Survivors(nodes, |nodes|, ended) <==> c in nodes && c !in ended
  {
    JoinedOrNot(nodes, |nodes|, ended);
    KeptInOrder(nodes, |nodes|, ended);
    assert nodes[..|nodes|] == nodes;
  }

  /** When every thread is joined, as on shutdown, nothing is left and everything is freed, in order. */
  lemma {:induction false} ShutdownEmptiesTheList(nodes: seq<ConnInfo>, k: nat, ended: set<ConnInfo>)
    requires k <= |nodes| && forall c :: c in nodes ==> c in ended
    ensures Survivors(nodes, k, ended) == [] && Joined(nodes, k, ended) == nodes[..k]
  {
    if k > 0 {
      ShutdownEmptiesTheList(nodes, k - 1, ended);
      assert nodes[k - 1] in nodes && nodes[..k] == nodes[..k - 1] + [nodes[k - 1]];
    }
  }

  /** The list when node k is about to be visited, and when it has been. */
  lemma DropOrKeep(all: seq<ConnInfo>, k: nat, kept: seq<ConnInfo>)
    requires k < |all|
    ensures var nodes := kept + all[k..];
      && |kept| < |nodes| && nodes[|kept|] == all[k]
      && nodes[..|kept|] + nodes[|kept| + 1..] == kept + all[k + 1..]
      && nodes == (kept + [all[k]]) + all[k + 1..]
  {
  }

  /** Two nodes that share no block. */
  ghost predicate Apart(c: ConnInfo, d: ConnInfo) {
    c != d && c.ref != d.ref
  }

  ghost predicate Distinct(nodes: seq<ConnInfo>) {
    forall i, j | 0 <= i < j < |nodes| :: Apart(nodes[i], nodes[j])
  }

  class ConnectionList {
    var first: ConnInfo?
    ghost var nodes: seq<ConnInfo>  // the list from its head
    ghost var repr: set<ConnInfo>   // every node that was ever on the list
    ghost var freed: seq<ConnInfo>   // the nodes given back, each with what it refers to

    ghost predicate Valid()
      reads this, repr
    {
      && (forall i | 0 <= i < |nodes| :: nodes[i] in repr)
      && first == At(nodes, 0)
      && (forall i {:trigger nodes[i].next} | 0 <= i < |nodes| :: nodes[i].next == At(nodes, i + 1))
      && Distinct(nodes)
      && (forall i, j | 0 <= i < |nodes| && 0 <= j < |freed| :: Apart(nodes[i], freed[j]))
      && Distinct(freed)
    }

    static function At(nodes: seq<ConnInfo>, i: nat): ConnInfo? {
      if i < |nodes| then nodes[i] else null
    }

    constructor Init()
      ensures Valid() && nodes == [] && repr == {} && freed == []
    {
      first, nodes, repr, freed := null, [], {}, [];
    }

    /** SLIST_NEXT: a freed node must not be followed. */
    function Next(c: ConnInfo): ConnInfo?
      requires c !in freed
      reads this, c
    {
      c.next
    }

    /** Both blocks of a node are given back; none of them may have been before. */
    ghost method Free(c: ConnInfo)
      requires forall j | 0 <= j < |freed| :: Apart(c, freed[j])
      modifies this`freed
      ensures freed == old(freed) + [c]
    {
      freed := freed + [c];
    }

    method InsertHead(c: ConnInfo)
      requires Valid() && forall j | 0 <= j < |freed| :: Apart(c, freed[j])
      requires forall i | 0 <= i < |nodes| :: Apart(c, nodes[i])
      modifies this`first, this`nodes, this`repr, c`next
      ensures Valid() && nodes == [c] + old(nodes) && repr == old(repr) + {c}
    {
      c.next := first;
      first := c;
      nodes, repr := [c] + nodes, repr + {c};
    }

    method Predecessor(elm: ConnInfo, ghost k: nat) returns (cur: ConnInfo)
      requires Valid() && 0 < k < |nodes| && nodes[k] == elm
      ensures cur == nodes[k - 1]
    {
      cur := first;
      ghost var i := 0;
      while Next(cur) != elm
        invariant i < k && cur == nodes[i]
        decreases k - i
      {
        cur := Next(cur);
        i := i + 1;
      }
    }

    method RemoveHead()
      requires Valid() && nodes != []
      modifies this`first, this`nodes
      ensures Valid() && nodes == old(nodes[1..])
    {
      first := Next(first);
      nodes := nodes[1..];
    }

    method RemoveAfter(cur: ConnInfo, ghost k: nat)
      requires Valid() && 0 < k < |nodes| && cur == nodes[k - 1]
      modifies this`nodes, cur`next
      ensures Valid() && nodes == old(nodes[..k] + nodes[k + 1..])
    {
      assert cur.next == nodes[k] && nodes[k].next == At(nodes, k + 1);
      cur.next := Next(Next(cur));
      nodes := nodes[..k] + nodes[k + 1..];
      assert forall i | 0 <= i < |nodes| :: nodes[i] == old(nodes)[if i < k then i else i + 1];
    }

    /** SLIST_REMOVE: the head is unlinked directly, any other node through its predecessor. */
    method Remove(elm: ConnInfo, ghost k: nat)
      requires Valid() && k < |nodes| && nodes[k] == elm
      modifies this`first, this`nodes, repr`next
      ensures Valid() && nodes == old(nodes[..k] + nodes[k + 1..])
    {
      if first == elm {
        assert k == 0;
        RemoveHead();
      } else {
        var cur := Predecessor(elm, k);
        RemoveAfter(cur, k);
      }
    }

    /** Unlinks a joined node and frees its two blocks. */
    method Drop(item: ConnInfo, ghost k: nat)
      requires Valid() && k < |nodes| && nodes[k] == item
      modifies this`first, this`nodes, this`freed, repr`next
      ensures Valid() && nodes == old(nodes[..k] + nodes[k + 1..])
      ensures freed == old(freed) + [item]
    {
      Remove(item, k);
      Free(item);
    }

    /** Where the traversal stands when the first k of the nodes `all` have been visited. */
    ghost predicate Visited(all: seq<ConnInfo>, start: seq<ConnInfo>, k: nat, ended: set<ConnInfo>)
      reads this
    {
      && k <= |all|
      && nodes == Survivors(all, k, ended) + all[k..]
      && freed == start + Joined(all, k, ended)
    }

    static lemma NoneVisited(all: seq<ConnInfo>, start: seq<ConnInfo>, ended: set<ConnInfo>)
      ensures Survivors(all, 0, ended) + all[0..] == all && start + Joined(all, 0, ended) == start
    {
    }

    static lemma AllVisited(all: seq<ConnInfo>, k: nat, kept: seq<ConnInfo>)
      requires k <= |all| && At(all, k) == null
      ensures k == |all| && kept + all[k..] == kept
    {
    }

    /** One round of the traversal: the successor is read before the node may go. */
    method Visit(item: ConnInfo, ended: set<ConnInfo>, ghost all: seq<ConnInfo>, ghost start: seq<ConnInfo>,
                 ghost k: nat)
      returns (tmp: ConnInfo?)
      requires Valid() && Visited(all, start, k, ended) && item == At(all, k)
      modifies this`first, this`nodes, this`freed, repr`next
      ensures Valid() && Visited(all, start, k + 1, ended) && tmp == At(all, k + 1)
    {
      ghost var kept := Survivors(all, k, ended);
      DropOrKeep(all, k, kept);
      tmp := Next(item);
      assert tmp == At(nodes, |kept| + 1) == At(all, k + 1);
      if item in ended {
        Drop(item, |kept|);
      }
    }

    /**
     * cleanup_term_conn: `ended` are the nodes whose thread the join call reaps. Exactly these
     * nodes leave the list, in order, and the blocks of each are freed once; the others stay in order.
     */
    method CleanupTermConn(ended: set<ConnInfo>)
      requires Valid()
      modifies this`first, this`nodes, this`freed, repr`next
      ensures Valid()
      ensures nodes == Survivors(old(nodes), |old(nodes)|, ended)
      ensures freed == old(freed) + Joined(old(nodes), |old(nodes)|, ended)
    {
      ghost var all, start, k := nodes, freed, 0;
      NoneVisited(all, start, ended);
      var item := first;
      while item != null
        invariant repr == old(repr)
        invariant Valid() && Visited(all, start, k, ended) && item == At(all, k)
        decreases |all| - k
      {
        item := Visit(item, ended, all, start, k);
        k := k + 1;
      }
      AllVisited(all, k, Survivors(all, k, ended));
    }

    /** accept_conn: the new connection joins the list, and ended ones leave it. */
    method Accept(c: ConnInfo, ended: set<ConnInfo>)
      requires Valid() && forall j | 0 <= j < |freed| :: Apart(c, freed[j])
      requires forall i | 0 <= i < |nodes| :: Apart(c, nodes[i])
      modifies this, c`next, repr`next
      ensures Valid() && nodes == Survivors([c] + old(nodes), |old(nodes)| + 1, ended)
      ensures freed == old(freed) + Joined([c] + old(nodes), |old(nodes)| + 1, ended)
    {
      InsertHead(c);
      CleanupTermConn(ended);
    }
  }
}
