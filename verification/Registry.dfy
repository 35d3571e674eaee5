/**
  The agreement between the blocks in use, the index stored in each block's header, and the
  entries of the process nodes: every block has exactly one owner and the owner can be found.
*/
module Registry {
  import opened Tiles
  import opened FreeList
  import opened ProcessTable

  type Nodes = map<nat, ProcessNode>

  ghost predicate NextNode(ps: seq<nat>, nodes: Nodes, i: nat)
    requires i < |ps|
  {
    && ps[i] < NULL_OFFSET && ps[i] in nodes
    && nodes[ps[i]].next == if i + 1 < |ps| then ps[i + 1] else NULL_OFFSET
  }

  /** The nodes at `ps`, in the order of the list that starts at `first`. */
  ghost predicate Listed(ps: seq<nat>, nodes: Nodes, first: nat) {
    && first == (if ps == [] then NULL_OFFSET else ps[0])
    && (forall a :: a in ps ==> a in nodes)
    && (forall i :: 0 <= i < |ps| ==> NextNode(ps, nodes, i))
    && (forall i, j :: 0 <= i < j < |ps| ==> ps[i] != ps[j])
  }

  /** Writing nodes without touching their links keeps the list. */
  lemma ListedKept(ps: seq<nat>, nodes: Nodes, nodes2: Nodes, first: nat)
    requires Listed(ps, nodes, first)
    requires forall a :: a in ps && a in nodes ==> a in nodes2 && nodes2[a].next == nodes[a].next
    ensures Listed(ps, nodes2, first)
  {
    forall i | 0 <= i < |ps| ensures NextNode(ps, nodes2, i) {
      assert NextNode(ps, nodes, i) && ps[i] in ps;
    }
  }

  /** The list after `b` was hung behind `prev`, the node at the end (or nothing). */
  ghost function Hung(nodes: Nodes, prev: nat, b: nat, n: ProcessNode): Nodes {
    var nodes1 := nodes[b := n];
    if prev != NULL_OFFSET && prev in nodes then nodes1[prev := nodes1[prev].(next := b)] else nodes1
  }

  lemma ListedAppend(ps: seq<nat>, nodes: Nodes, prev: nat, first: nat, b: nat, n: ProcessNode)
    requires Listed(ps, nodes, first)
    requires b !in ps && b < NULL_OFFSET && n.next == NULL_OFFSET
    requires prev == if |ps| > 0 then ps[|ps| - 1] else NULL_OFFSET
    ensures Listed(ps + [b], Hung(nodes, prev, b, n), if prev == NULL_OFFSET then b else first)
    ensures prev != NULL_OFFSET ==> prev in nodes
    ensures forall a :: a in ps ==> a in nodes && SameBody(Hung(nodes, prev, b, n)[a], nodes[a])
    ensures Hung(nodes, prev, b, n)[b] == n
  {
    var r, nodes2 := ps + [b], Hung(nodes, prev, b, n);
    assert |ps| > 0 ==> NextNode(ps, nodes, |ps| - 1);
    forall i | 0 <= i < |r| ensures NextNode(r, nodes2, i) {
      if i < |ps| {
        assert NextNode(ps, nodes, i) && ps[i] in ps;
      }
    }
    forall a | a in r ensures a in nodes2 {
      var i :| 0 <= i < |r| && r[i] == a;
      assert NextNode(r, nodes2, i);
    }
  }

  /** The list after `b` took the place of node `a`, whose pid is reset. */
  ghost function Rehung(nodes: Nodes, prev: nat, a: nat, b: nat, n: ProcessNode): Nodes {
    var nodes2 := Hung(nodes, prev, b, n);
    if a in nodes2 then nodes2[a := nodes2[a].(pid := 0)] else nodes2
  }

  lemma ListedReplace(ps: seq<nat>, nodes: Nodes, prev: nat, first: nat, i: nat, b: nat, n: ProcessNode)
    requires Listed(ps, nodes, first) && i < |ps| && ps[i] in nodes
    requires b !in ps && b < NULL_OFFSET && n.next == nodes[ps[i]].next
    requires prev == if i > 0 then ps[i - 1] else NULL_OFFSET
    ensures Listed(ps[i := b], Rehung(nodes, prev, ps[i], b, n), if prev == NULL_OFFSET then b else first)
    ensures prev != NULL_OFFSET ==> prev in nodes && prev != ps[i]
    ensures forall a :: a in ps && a != ps[i] ==> a in nodes && SameBody(Rehung(nodes, prev, ps[i], b, n)[a], nodes[a])
    ensures Rehung(nodes, prev, ps[i], b, n)[b] == n
  {
    var r, nodes2 := ps[i := b], Rehung(nodes, prev, ps[i], b, n);
    assert i > 0 ==> NextNode(ps, nodes, i - 1);
    forall j | 0 <= j < |r| ensures NextNode(r, nodes2, j) {
      assert NextNode(ps, nodes, j) && ps[j] in ps;
    }
    forall a | a in r ensures a in nodes2 {
      var j :| 0 <= j < |r| && r[j] == a;
      assert NextNode(r, nodes2, j);
    }
  }

  /** The list after node `a` was taken out from behind `prev`. */
  ghost function Unhung(nodes: Nodes, prev: nat, a: nat): Nodes
    requires a in nodes
  {
    if prev != NULL_OFFSET && prev in nodes then nodes[prev := nodes[prev].(next := nodes[a].next)] else nodes
  }

  lemma ListedErase(ps: seq<nat>, nodes: Nodes, prev: nat, first: nat, i: nat)
    requires Listed(ps, nodes, first) && i < |ps| && ps[i] in nodes
    requires prev == if i > 0 then ps[i - 1] else NULL_OFFSET
    ensures Listed(ps[..i] + ps[i + 1..], Unhung(nodes, prev, ps[i]), if prev == NULL_OFFSET then nodes[ps[i]].next else first)
    ensures prev != NULL_OFFSET ==> prev in nodes
    ensures forall a :: a in ps ==> a in nodes && a in Unhung(nodes, prev, ps[i]) && SameBody(Unhung(nodes, prev, ps[i])[a], nodes[a])
  {
    var r, nodes2 := ps[..i] + ps[i + 1..], Unhung(nodes, prev, ps[i]);
    assert NextNode(ps, nodes, i);
    assert i > 0 ==> NextNode(ps, nodes, i - 1);
    forall j | 0 <= j < |r| ensures NextNode(r, nodes2, j) {
      var x := if j < i then j else j + 1;
      assert NextNode(ps, nodes, x) && ps[x] in ps && r[j] == ps[x];
    }
    forall a | a in r ensures a in nodes2 {
      var j :| 0 <= j < |r| && r[j] == a;
      assert NextNode(r, nodes2, j);
    }
  }

  /** Node `n` holds block `t` at exactly the entry named in the block's header. */
  ghost predicate Records(n: ProcessNode, t: Tile, h: Headers) {
    && t.owner == User(n.pid) && t.addr in h
    && IndexOf(h[t.addr].next) < |n.slots|
    && n.slots[IndexOf(h[t.addr].next)] == t.Payload()
  }

  ghost predicate HasOwner(t: Tile, h: Headers, nodes: Nodes, ps: seq<nat>) {
    if t.owner.User? then exists a :: a in ps && a in nodes && Records(nodes[a], t, h)
    else t.Payload() in ps && t.Payload() in nodes && t.owner == Table(nodes[t.Payload()].pid)
  }

  /** The node at `a` lies in a block of its process that holds its whole array. */
  ghost predicate HasTable(used: set<Tile>, a: nat, n: ProcessNode) {
    exists t :: t in used && t.Payload() == a && Holds(t, n)
  }

  predicate Holds(t: Tile, n: ProcessNode) {
    t.owner == Table(n.pid) && NODE_SIZE + |n.slots| * SLOT_SIZE <= t.size
  }

  ghost predicate HasBlock(used: set<Tile>, h: Headers, n: ProcessNode, s: nat)
    requires s < |n.slots|
  {
    exists t :: t in used && t.Payload() == n.slots[s] && Records(n, t, h) && IndexOf(h[t.addr].next) == s
  }

  ghost predicate NodeRegistered(used: set<Tile>, h: Headers, nodes: Nodes, a: nat) {
    && a in nodes && NodeOk(nodes[a])
    && HasTable(used, a, nodes[a])
    && forall s :: 0 <= s < |nodes[a].slots| && !IsNull(nodes[a].slots[s]) ==> HasBlock(used, h, nodes[a], s)
  }

  ghost predicate Registered(used: set<Tile>, h: Headers, nodes: Nodes, ps: seq<nat>) {
    && (forall a :: a in ps ==> NodeRegistered(used, h, nodes, a))
    && (forall a, b :: a in ps && b in ps && nodes[a].pid == nodes[b].pid ==> a == b)
    && (forall t :: t in used ==> HasOwner(t, h, nodes, ps))
  }

  /** Distinct blocks have distinct addresses, none of them null. */
  ghost predicate Apart(used: set<Tile>) {
    && (forall t, u :: t in used && u in used && t.addr == u.addr ==> t == u)
    && (forall t :: t in used ==> t.Taken() && !IsNull(t.Payload()))
  }

  ghost predicate SameHeaders(used: set<Tile>, h: Headers, h2: Headers) {
    forall t :: t in used && t.addr in h ==> t.addr in h2 && IndexOf(h2[t.addr].next) == IndexOf(h[t.addr].next)
  }

  /** Equal up to the list link. */
  ghost predicate SameBody(m: ProcessNode, n: ProcessNode) {
    m == n.(next := m.next)
  }

  /** MSearchProcessOfBlockNode is decided: one node records the block, and no other. */
  lemma UniqueOwner(used: set<Tile>, h: Headers, nodes: Nodes, ps: seq<nat>, t: Tile, a: nat)
    requires Registered(used, h, nodes, ps) && Apart(used)
    requires t in used && t.owner.User? && a in ps && t.addr in h
    requires var s := IndexOf(h[t.addr].next); s < |nodes[a].slots| && nodes[a].slots[s] == t.Payload()
    ensures nodes[a].pid == t.owner.pid && Records(nodes[a], t, h)
    ensures forall b, s :: b in ps && 0 <= s < |nodes[b].slots| && nodes[b].slots[s] == t.Payload() ==>
              b == a && s == IndexOf(h[t.addr].next)
  {
    forall b, s | b in ps && 0 <= s < |nodes[b].slots| && nodes[b].slots[s] == t.Payload()
      ensures nodes[b].pid == t.owner.pid && s == IndexOf(h[t.addr].next)
    {
      assert NodeRegistered(used, h, nodes, b);
      assert HasBlock(used, h, nodes[b], s);
      var u :| u in used && u.Payload() == nodes[b].slots[s] && Records(nodes[b], u, h) && IndexOf(h[u.addr].next) == s;
      assert u.addr == t.addr;
    }
  }

  /** A new node with nothing recorded joins the list. */
  lemma AddTable(used: set<Tile>, h: Headers, h2: Headers, nodes: Nodes, nodes2: Nodes, ps: seq<nat>, t: Tile)
    requires Registered(used, h, nodes, ps) && SameHeaders(used, h, h2)
    requires t.Payload() !in ps && t.Payload() in nodes2 && Holds(t, nodes2[t.Payload()])
    requires NodeOk(nodes2[t.Payload()])
    requires forall s :: 0 <= s < |nodes2[t.Payload()].slots| ==> IsNull(nodes2[t.Payload()].slots[s])
    requires forall a :: a in ps ==> a in nodes2 && SameBody(nodes2[a], nodes[a]) && nodes[a].pid != t.owner.pid
    ensures Registered(used + {t}, h2, nodes2, ps + [t.Payload()])
  {
    var b := t.Payload();
    forall a | a in ps ensures NodeRegistered(used + {t}, h2, nodes2, a) {
      NodeKept(used, used + {t}, h, h2, nodes, nodes2, a);
    }
    assert t in used + {t};
    forall u | u in used ensures HasOwner(u, h2, nodes2, ps + [b]) {
      OwnerKept(u, used, h, h2, nodes, nodes2, ps, ps + [b]);
    }
  }

  lemma NodeKept(used: set<Tile>, used2: set<Tile>, h: Headers, h2: Headers, nodes: Nodes, nodes2: Nodes, a: nat)
    requires NodeRegistered(used, h, nodes, a) && a in nodes2 && SameBody(nodes2[a], nodes[a])
    requires SameHeaders(used, h, h2)
    requires forall t :: t in used && t.owner == User(nodes[a].pid) ==> t in used2
    requires forall t :: t in used && t.owner == Table(nodes[a].pid) ==> t in used2
    ensures NodeRegistered(used2, h2, nodes2, a)
  {
    var n, n2 := nodes[a], nodes2[a];
    var t :| t in used && t.Payload() == a && Holds(t, n);
    assert t in used2 && Holds(t, n2);
    var c :| FreeChain(n.slots, n.minFree, c) && n.allocations + |c| == |n.slots|;
    assert FreeChain(n2.slots, n2.minFree, c);
    forall s | 0 <= s < |n2.slots| && !IsNull(n2.slots[s]) ensures HasBlock(used2, h2, n2, s) {
      assert HasBlock(used, h, n, s);
      var u :| u in used && u.Payload() == n.slots[s] && Records(n, u, h) && IndexOf(h[u.addr].next) == s;
      assert u in used2;
    }
  }

  lemma OwnerKept(t: Tile, used: set<Tile>, h: Headers, h2: Headers, nodes: Nodes, nodes2: Nodes, ps: seq<nat>, ps2: seq<nat>)
    requires t in used && HasOwner(t, h, nodes, ps) && SameHeaders(used, h, h2)
    requires forall a :: a in ps && a in nodes && nodes[a].pid == t.owner.pid ==> a in ps2 && a in nodes2 && SameBody(nodes2[a], nodes[a])
    requires t.Taken()
    ensures HasOwner(t, h2, nodes2, ps2)
  {
    if t.owner.User? {
      var a :| a in ps && a in nodes && Records(nodes[a], t, h);
      assert Records(nodes2[a], t, h2);
    }
  }

  lemma HeadersKept(used: set<Tile>, h: Headers, h2: Headers, nodes: Nodes, ps: seq<nat>)
    requires Registered(used, h, nodes, ps) && SameHeaders(used, h, h2) && Apart(used)
    ensures Registered(used, h2, nodes, ps)
  {
    forall a | a in ps ensures NodeRegistered(used, h2, nodes, a) {
      NodeKept(used, used, h, h2, nodes, nodes, a);
    }
    forall t | t in used ensures HasOwner(t, h2, nodes, ps) {
      OwnerKept(t, used, h, h2, nodes, nodes, ps, ps);
    }
  }

  /** Listed nodes keep their process and the count of its holders. */
  ghost predicate SameHolders(ps: seq<nat>, nodes: Nodes, nodes2: Nodes) {
    forall a :: a in ps && a in nodes ==> a in nodes2 && SameHolder(nodes2[a], nodes[a])
  }

  predicate SameHolder(m: ProcessNode, n: ProcessNode) { m.pid == n.pid && m.holders == n.holders }

  /** A newly made node, put at the end of the list. */
  lemma TableJoins(used: set<Tile>, h: Headers, h2: Headers, nodes: Nodes, ps: seq<nat>, prev: nat, first: nat,
                   t: Tile, n: ProcessNode)
    requires Registered(used, h, nodes, ps) && Listed(ps, nodes, first) && SameHeaders(used, h, h2)
    requires Apart(used + {t}) && t !in used && Holds(t, n)
    requires n.minFree == 0 && n.allocations == 0 && n.next == NULL_OFFSET
    requires |n.slots| < NULL_INDEX && n.slots == Fresh(|n.slots|)
    requires forall a :: a in ps ==> nodes[a].pid != n.pid
    requires prev == if |ps| > 0 then ps[|ps| - 1] else NULL_OFFSET
    ensures var b, nodes2 := t.Payload(), Hung(nodes, prev, t.Payload(), n);
      && Listed(ps + [b], nodes2, if prev == NULL_OFFSET then b else first)
      && Registered(used + {t}, h2, nodes2, ps + [b])
      && b !in ps && nodes2[b] == n && SameHolders(ps, nodes, nodes2) && (prev == NULL_OFFSET || prev in nodes)
  {
    NotListed(used, h, nodes, ps, t);
    assert t in used + {t};
    ListedAppend(ps, nodes, prev, first, t.Payload(), n);
    FreshOk(n);
    forall s | 0 <= s < |n.slots| ensures IsNull(n.slots[s]) {
      assert n.slots[s] == Fresh(|n.slots|)[s];
    }
    AddTable(used, h, h2, nodes, Hung(nodes, prev, t.Payload(), n), ps, t);
  }

  /** MKeepBlock: the node takes its first unused entry, the header gets its index. */
  lemma AddBlock(used: set<Tile>, h: Headers, h2: Headers, nodes: Nodes, nodes2: Nodes, ps: seq<nat>, t: Tile, a: nat)
    requires Registered(used, h, nodes, ps) && Apart(used + {t}) && t !in used
    requires a in ps && nodes[a].allocations < |nodes[a].slots| && t.owner == User(nodes[a].pid)
    requires nodes[a].minFree < |nodes[a].slots| && nodes2 == nodes[a := Put(nodes[a], t.Payload())]
    requires SameHeaders(used, h, h2) && t.addr in h2 && IndexOf(h2[t.addr].next) == nodes[a].minFree
    ensures Registered(used + {t}, h2, nodes2, ps)
  {
    var n, n2, used2 := nodes[a], nodes2[a], used + {t};
    assert NodeRegistered(used, h, nodes, a);
    PutOk(n, t.Payload());
    FilledNode(used, h, h2, n, t);
    TableStays(used, used2, a, n, n2);
    forall b | b in ps && b != a ensures NodeRegistered(used2, h2, nodes2, b) {
      NodeKept(used, used2, h, h2, nodes, nodes2, b);
    }
    forall u | u in used2 ensures HasOwner(u, h2, nodes2, ps) {
      if u == t {
        assert Records(n2, t, h2);
      } else {
        assert HasOwner(u, h, nodes, ps) && !IsNull(u.Payload());
        OwnerAfterPut(u, h, h2, nodes, nodes2, ps, t.Payload(), a);
      }
    }
  }

  lemma OwnerAfterPut(u: Tile, h: Headers, h2: Headers, nodes: Nodes, nodes2: Nodes, ps: seq<nat>, word: nat, a: nat)
    requires HasOwner(u, h, nodes, ps) && !IsNull(u.Payload())
    requires u.addr in h ==> u.addr in h2 && IndexOf(h2[u.addr].next) == IndexOf(h[u.addr].next)
    requires a in nodes && nodes[a].minFree < |nodes[a].slots| && IsNull(nodes[a].slots[nodes[a].minFree])
    requires nodes2 == nodes[a := Put(nodes[a], word)]
    ensures HasOwner(u, h2, nodes2, ps)
  {
    if u.owner.User? {
      var b :| b in ps && b in nodes && Records(nodes[b], u, h);
      assert Records(nodes2[b], u, h2);
    }
  }

  lemma TableStays(used: set<Tile>, used2: set<Tile>, a: nat, n: ProcessNode, n2: ProcessNode)
    requires HasTable(used, a, n) && n2.pid == n.pid && |n2.slots| == |n.slots|
    requires forall t :: t in used && t.owner == Table(n.pid) ==> t in used2
    ensures HasTable(used2, a, n2)
  {
    var u :| u in used && u.Payload() == a && Holds(u, n);
    assert u in used2 && Holds(u, n2);
  }

  lemma FilledNode(used: set<Tile>, h: Headers, h2: Headers, n: ProcessNode, t: Tile)
    requires NodeOk(n) && n.allocations < |n.slots| && t.owner == User(n.pid) && !IsNull(t.Payload())
    requires n.minFree < |n.slots|
    requires SameHeaders(used, h, h2) && t.addr in h2 && IndexOf(h2[t.addr].next) == n.minFree
    requires forall s :: 0 <= s < |n.slots| && !IsNull(n.slots[s]) ==> HasBlock(used, h, n, s)
    ensures var n2 := Put(n, t.Payload());
      NodeOk(n2) && forall s :: 0 <= s < |n2.slots| && !IsNull(n2.slots[s]) ==> HasBlock(used + {t}, h2, n2, s)
  {
    var n2 := Put(n, t.Payload());
    PutOk(n, t.Payload());
    forall s | 0 <= s < |n2.slots| && !IsNull(n2.slots[s]) ensures HasBlock(used + {t}, h2, n2, s) {
      if s == n.minFree {
        assert t in used + {t} && Records(n2, t, h2);
      } else {
        assert HasBlock(used, h, n, s);
        var u :| u in used && u.Payload() == n.slots[s] && Records(n, u, h) && IndexOf(h[u.addr].next) == s;
        assert u in used + {t} && Records(n2, u, h2);
      }
    }
  }

  lemma EmptiedNode(used: set<Tile>, h: Headers, n: ProcessNode, t: Tile)
    requires NodeOk(n) && Records(n, t, h) && !IsNull(t.Payload())
    requires n.allocations > 0
    requires forall s :: 0 <= s < |n.slots| && !IsNull(n.slots[s]) ==> HasBlock(used, h, n, s)
    ensures var n2 := Pop(n, IndexOf(h[t.addr].next));
      NodeOk(n2) && forall s :: 0 <= s < |n2.slots| && !IsNull(n2.slots[s]) ==> HasBlock(used - {t}, h, n2, s)
  {
    var at := IndexOf(h[t.addr].next);
    var n2 := Pop(n, at);
    PopOk(n, at);
    forall s | 0 <= s < |n2.slots| && !IsNull(n2.slots[s]) ensures HasBlock(used - {t}, h, n2, s) {
      assert s != at && HasBlock(used, h, n, s);
      var u :| u in used && u.Payload() == n.slots[s] && Records(n, u, h) && IndexOf(h[u.addr].next) == s;
      assert u in used - {t} && Records(n2, u, h);
    }
  }

  /** Another block keeps its owner. */
  lemma OwnerAfterPop(used: set<Tile>, h: Headers, nodes: Nodes, nodes2: Nodes, ps: seq<nat>, t: Tile, a: nat, u: Tile)
    requires Registered(used, h, nodes, ps) && Apart(used)
    requires t in used && u in used && u != t && a in ps && a in nodes && Records(nodes[a], t, h)
    requires nodes[a].allocations > 0 && nodes2 == nodes[a := Pop(nodes[a], IndexOf(h[t.addr].next))]
    ensures HasOwner(u, h, nodes2, ps)
  {
    hide NodeRegistered, NodeOk;
    assert HasOwner(u, h, nodes, ps);
    if u.owner.User? {
      var b :| b in ps && b in nodes && Records(nodes[b], u, h);
      assert u.addr != t.addr;
      assert Records(nodes2[b], u, h);
    }
  }

  /** MUnkeepBlock: the entry named in the header becomes the first unused one. */
  lemma RemoveBlock(used: set<Tile>, h: Headers, nodes: Nodes, nodes2: Nodes, ps: seq<nat>, t: Tile, a: nat)
    requires Registered(used, h, nodes, ps) && Apart(used)
    requires t in used && a in ps && Records(nodes[a], t, h)
    requires nodes[a].allocations > 0 && nodes2 == nodes[a := Pop(nodes[a], IndexOf(h[t.addr].next))]
    ensures Registered(used - {t}, h, nodes2, ps)
  {
    var n, n2, used2 := nodes[a], nodes2[a], used - {t};
    var at := IndexOf(h[t.addr].next);
    assert NodeRegistered(used, h, nodes, a);
    EmptiedNode(used, h, n, t);
    TableStays(used, used2, a, n, n2);
    forall b | b in ps && b != a ensures NodeRegistered(used2, h, nodes2, b) {
      assert NodeRegistered(used, h, nodes, b);
      NodeKept(used, used2, h, h, nodes, nodes2, b);
    }
    forall u | u in used2 ensures HasOwner(u, h, nodes2, ps) {
      OwnerAfterPop(used, h, nodes, nodes2, ps, t, a, u);
    }
  }

  /** A full node moves to a larger block and takes over its place in the list. */
  lemma MoveTable(used: set<Tile>, h: Headers, h2: Headers, nodes: Nodes, nodes2: Nodes, ps: seq<nat>, i: nat,
                  t: Tile, was: Tile, extra: nat)
    requires Registered(used, h, nodes, ps) && Apart(used + {t}) && SameHeaders(used, h, h2)
    requires i < |ps| && (forall x, y :: 0 <= x < y < |ps| ==> ps[x] != ps[y])
    requires ps[i] in nodes && t !in used && Holds(t, nodes[ps[i]].(slots := nodes[ps[i]].slots + Fresh(extra)))
    requires was in used && was.Payload() == ps[i] && was.owner == Table(nodes[ps[i]].pid)
    requires |nodes[ps[i]].slots| + extra < NULL_INDEX && t.Payload() in nodes2
    requires SameBody(nodes2[t.Payload()], nodes[ps[i]].(slots := nodes[ps[i]].slots + Fresh(extra)))
    requires forall a :: a in ps && a != ps[i] ==> a in nodes2 && SameBody(nodes2[a], nodes[a])
    ensures Registered(used + {t} - {was}, h2, nodes2, ps[i := t.Payload()])
  {
    var a, b, used2, ps2 := ps[i], t.Payload(), used + {t} - {was}, ps[i := t.Payload()];
    var n, n2 := nodes[a], nodes2[b];
    assert NodeRegistered(used, h, nodes, a);
    assert t in used2 && was.addr != t.addr;
    NotListed(used, h, nodes, ps, t);
    GrownNode(used, used2, h, h2, n, n2, extra);
    assert Holds(t, n2) && HasTable(used2, b, n2);
    Replaced(ps, i, b);
    forall c | c in ps2 ensures NodeRegistered(used2, h2, nodes2, c) {
      if c != b {
        assert NodeRegistered(used, h, nodes, c);
        NodeKept(used, used2, h, h2, nodes, nodes2, c);
      }
    }
    forall u | u in used2 ensures HasOwner(u, h2, nodes2, ps2) {
      if u != t {
        assert HasOwner(u, h, nodes, ps);
        if u.owner.User? {
          var c :| c in ps && c in nodes && Records(nodes[c], u, h);
          assert Records(nodes2[if c == a then b else c], u, h2);
        } else {
          assert u.addr != was.addr;
        }
      }
    }
  }

  /** A relocated node, put in place of the old one. */
  lemma TableMoves(used: set<Tile>, h: Headers, h2: Headers, nodes: Nodes, ps: seq<nat>, prev: nat, first: nat,
                   i: nat, t: Tile, extra: nat) returns (was: Tile)
    requires Registered(used, h, nodes, ps) && Listed(ps, nodes, first) && SameHeaders(used, h, h2)
    requires Apart(used + {t}) && t !in used && i < |ps| && ps[i] in nodes
    requires Holds(t, nodes[ps[i]].(slots := nodes[ps[i]].slots + Fresh(extra)))
    requires |nodes[ps[i]].slots| + extra < NULL_INDEX
    requires prev == if i > 0 then ps[i - 1] else NULL_OFFSET
    ensures was in used && was.Payload() == ps[i] && was.owner == Table(nodes[ps[i]].pid)
    ensures var n := nodes[ps[i]].(slots := nodes[ps[i]].slots + Fresh(extra));
      var b, nodes2 := t.Payload(), Rehung(nodes, prev, ps[i], t.Payload(), n);
      && Listed(ps[i := b], nodes2, if prev == NULL_OFFSET then b else first)
      && Registered(used + {t} - {was}, h2, nodes2, ps[i := b])
      && b !in ps && b in nodes2 && nodes2[b] == n && (prev == NULL_OFFSET || prev in nodes)
      && (forall a :: a in ps && a != ps[i] ==> a in nodes && a in nodes2 && SameHolder(nodes2[a], nodes[a]))
      && (forall a :: a in ps[i := b] <==> a == b || (a in ps && a != ps[i]))
  {
    var a := ps[i];
    assert NodeRegistered(used, h, nodes, a);
    was :| was in used && was.Payload() == a && Holds(was, nodes[a]);
    var n := nodes[a].(slots := nodes[a].slots + Fresh(extra));
    assert t in used + {t};
    NotListed(used, h, nodes, ps, t);
    ListedReplace(ps, nodes, prev, first, i, t.Payload(), n);
    MoveTable(used, h, h2, nodes, Rehung(nodes, prev, a, t.Payload(), n), ps, i, t, was, extra);
    Replaced(ps, i, t.Payload());
  }

  lemma NotListed(used: set<Tile>, h: Headers, nodes: Nodes, ps: seq<nat>, t: Tile)
    requires Registered(used, h, nodes, ps) && Apart(used + {t}) && t !in used
    ensures t.Payload() !in ps
  {
    forall c | c in ps ensures c != t.Payload() {
      assert NodeRegistered(used, h, nodes, c);
      var u :| u in used && u.Payload() == c && Holds(u, nodes[c]);
      assert u in used + {t} && t in used + {t} && u != t;
    }
  }

  lemma Replaced(ps: seq<nat>, i: nat, b: nat)
    requires i < |ps| && (forall x, y :: 0 <= x < y < |ps| ==> ps[x] != ps[y])
    ensures forall c :: c in ps[i := b] <==> c == b || (c in ps && c != ps[i])
  {
    var r := ps[i := b];
    assert r[i] == b;
    forall c | c in ps && c != ps[i] ensures c in r {
      var j :| 0 <= j < |ps| && ps[j] == c;
      assert r[j] == c;
    }
    forall c | c in r && c != b ensures c in ps && c != ps[i] {
      var j :| 0 <= j < |r| && r[j] == c;
      assert ps[j] == c && j != i;
    }
  }

  lemma GrownNode(used: set<Tile>, used2: set<Tile>, h: Headers, h2: Headers, n: ProcessNode, n2: ProcessNode, extra: nat)
    requires NodeOk(n) && |n.slots| + extra < NULL_INDEX && SameBody(n2, n.(slots := n.slots + Fresh(extra)))
    requires SameHeaders(used, h, h2) && (forall t :: t in used && t.owner == User(n.pid) ==> t in used2)
    requires forall s :: 0 <= s < |n.slots| && !IsNull(n.slots[s]) ==> HasBlock(used, h, n, s)
    ensures NodeOk(n2)
    ensures forall s :: 0 <= s < |n2.slots| && !IsNull(n2.slots[s]) ==> HasBlock(used2, h2, n2, s)
  {
    GrowOk(n, extra);
    var g := n.(slots := n.slots + Fresh(extra));
    var c :| FreeChain(g.slots, g.minFree, c) && g.allocations + |c| == |g.slots|;
    assert FreeChain(n2.slots, n2.minFree, c);
    forall s | |n.slots| <= s < |n2.slots| ensures IsNull(n2.slots[s]) {
      assert n2.slots[s] == Fresh(extra)[s - |n.slots|];
    }
    forall s | 0 <= s < |n2.slots| && !IsNull(n2.slots[s]) ensures HasBlock(used2, h2, n2, s) {
      assert n2.slots[s] == n.slots[s] && HasBlock(used, h, n, s);
      var u :| u in used && u.Payload() == n.slots[s] && Records(n, u, h) && IndexOf(h[u.addr].next) == s;
      assert u in used2 && Records(n2, u, h2);
    }
  }

  /** A node with nothing recorded leaves the list together with its block. */
  lemma RemoveTable(used: set<Tile>, h: Headers, nodes: Nodes, nodes2: Nodes, ps: seq<nat>, i: nat, was: Tile)
    requires Registered(used, h, nodes, ps) && Apart(used)
    requires i < |ps| && (forall x, y :: 0 <= x < y < |ps| ==> ps[x] != ps[y])
    requires ps[i] in nodes && was in used && was.Payload() == ps[i] && was.owner == Table(nodes[ps[i]].pid)
    requires forall s :: 0 <= s < |nodes[ps[i]].slots| ==> IsNull(nodes[ps[i]].slots[s])
    requires forall a :: a in ps ==> a in nodes2 && SameBody(nodes2[a], nodes[a])
    ensures Registered(used - {was}, h, nodes2, ps[..i] + ps[i + 1..])
  {
    var a, used2, ps2 := ps[i], used - {was}, ps[..i] + ps[i + 1..];
    Erased(ps, i);
    assert NodeRegistered(used, h, nodes, a);
    forall c | c in ps2 ensures NodeRegistered(used2, h, nodes2, c) {
      NodeKept(used, used2, h, h, nodes, nodes2, c);
    }
    forall u | u in used2 ensures HasOwner(u, h, nodes2, ps2) {
      assert HasOwner(u, h, nodes, ps);
      if u.owner.User? {
        var c :| c in ps && c in nodes && Records(nodes[c], u, h);
        assert c != a && Records(nodes2[c], u, h);
      } else {
        assert u.addr != was.addr;
      }
    }
  }

  /** An empty node leaves the list. */
  lemma TableLeaves(used: set<Tile>, h: Headers, nodes: Nodes, ps: seq<nat>, prev: nat, first: nat, i: nat)
    requires Registered(used, h, nodes, ps) && Listed(ps, nodes, first) && Apart(used)
    requires i < |ps| && ps[i] in nodes && prev == if i > 0 then ps[i - 1] else NULL_OFFSET
    requires forall s :: 0 <= s < |nodes[ps[i]].slots| ==> IsNull(nodes[ps[i]].slots[s])
    ensures prev != NULL_OFFSET ==> prev in nodes
    ensures HasTable(used, ps[i], nodes[ps[i]])
    ensures var nodes2, ps2 := Unhung(nodes, prev, ps[i]), ps[..i] + ps[i + 1..];
      && Listed(ps2, nodes2, if prev == NULL_OFFSET then nodes[ps[i]].next else first)
      && (forall was :: was in used && was.Payload() == ps[i] && was.owner == Table(nodes[ps[i]].pid) ==>
           Registered(used - {was}, h, nodes2, ps2))
      && (forall a :: a in ps ==> a in nodes && a in nodes2 && SameBody(nodes2[a], nodes[a]))
  {
    assert NodeRegistered(used, h, nodes, ps[i]);
    ListedErase(ps, nodes, prev, first, i);
    forall was | was in used && was.Payload() == ps[i] && was.owner == Table(nodes[ps[i]].pid)
      ensures Registered(used - {was}, h, Unhung(nodes, prev, ps[i]), ps[..i] + ps[i + 1..])
    {
      RemoveTable(used, h, nodes, Unhung(nodes, prev, ps[i]), ps, i, was);
    }
  }

  lemma Erased(ps: seq<nat>, i: nat)
    requires i < |ps| && (forall x, y :: 0 <= x < y < |ps| ==> ps[x] != ps[y])
    ensures forall c :: c in ps[..i] + ps[i + 1..] <==> c in ps && c != ps[i]
  {
    var r := ps[..i] + ps[i + 1..];
    forall c | c in ps && c != ps[i] ensures c in r {
      var j :| 0 <= j < |ps| && ps[j] == c;
      assert c == r[if j < i then j else j - 1];
    }
    forall c | c in r ensures c in ps && c != ps[i] {
      var j :| 0 <= j < |r| && r[j] == c;
      assert c == ps[if j < i then j else j + 1];
    }
  }

  /** Neither the list links nor the holder counts matter to the records. */
  lemma HoldersIrrelevant(used: set<Tile>, h: Headers, nodes: Nodes, nodes2: Nodes, ps: seq<nat>)
    requires Registered(used, h, nodes, ps)
    requires forall a :: a in ps && a in nodes ==> a in nodes2 && nodes2[a] == nodes[a].(next := nodes2[a].next, holders := nodes2[a].holders)
    ensures Registered(used, h, nodes2, ps)
  {
    forall a | a in ps ensures NodeRegistered(used, h, nodes2, a) {
      assert NodeRegistered(used, h, nodes, a);
      var n, n2 := nodes[a], nodes2[a];
      var c :| FreeChain(n.slots, n.minFree, c) && n.allocations + |c| == |n.slots|;
      assert FreeChain(n2.slots, n2.minFree, c);
      forall s | 0 <= s < |n2.slots| && !IsNull(n2.slots[s]) ensures HasBlock(used, h, n2, s) {
        assert HasBlock(used, h, n, s);
        var u :| u in used && u.Payload() == n.slots[s] && Records(n, u, h) && IndexOf(h[u.addr].next) == s;
        assert Records(n2, u, h);
      }
    }
    forall t | t in used ensures HasOwner(t, h, nodes2, ps) {
      if t.owner.User? {
        var a :| a in ps && a in nodes && Records(nodes[a], t, h);
        assert Records(nodes2[a], t, h);
      }
    }
  }
}
