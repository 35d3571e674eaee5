/**
  What a sweep has to give back: for every node of a dead process its recorded blocks, in entry
  order, and then the node itself.
*/
module Leaks {
  import opened Tiles
  import opened FreeList
  import opened ProcessTable
  import opened Registry

  datatype Leak = BlockOf(pid: Pid, offset: nat) | ProcessOf(pid: Pid)

  function BlocksFrom(pid: Pid, slots: seq<nat>, s: nat): seq<Leak>
    requires s <= |slots|
    decreases |slots| - s
  {
    if s == |slots| then []
    else (if IsNull(slots[s]) then [] else [BlockOf(pid, slots[s])]) + BlocksFrom(pid, slots, s + 1)
  }

  function NodeLeaks(n: ProcessNode): seq<Leak> {
    BlocksFrom(n.pid, n.slots, 0) + [ProcessOf(n.pid)]
  }

  ghost function LeaksOf(ps: seq<nat>, nodes: Nodes, dead: set<Pid>): seq<Leak>
    requires forall a :: a in ps ==> a in nodes
  {
    if ps == [] then []
    else (if nodes[ps[0]].pid in dead then NodeLeaks(nodes[ps[0]]) else []) + LeaksOf(ps[1..], nodes, dead)
  }

  lemma LeaksHead(ps: seq<nat>, nodes: Nodes, dead: set<Pid>)
    requires ps != [] && forall a :: a in ps ==> a in nodes
    ensures LeaksOf(ps, nodes, dead) == (if nodes[ps[0]].pid in dead then NodeLeaks(nodes[ps[0]]) else []) + LeaksOf(ps[1..], nodes, dead)
  {
  }

  lemma NoLeaksOfNone(nodes: Nodes, dead: set<Pid>)
    ensures LeaksOf([], nodes, dead) == []
  {
  }

  lemma {:induction false} LeaksConcat(p: seq<nat>, q: seq<nat>, nodes: Nodes, dead: set<Pid>)
    requires forall a :: a in p + q ==> a in nodes
    requires forall a :: a in p ==> a in nodes
    requires forall a :: a in q ==> a in nodes
    ensures LeaksOf(p + q, nodes, dead) == LeaksOf(p, nodes, dead) + LeaksOf(q, nodes, dead)
  {
    hide LeaksOf, NodeLeaks;
    if p == [] {
      assert p + q == q;
      NoLeaksOfNone(nodes, dead);
    } else {
      assert (p + q)[1..] == p[1..] + q;
      LeaksHead(p, nodes, dead);
      LeaksHead(p + q, nodes, dead);
      LeaksConcat(p[1..], q, nodes, dead);
    }
  }

  /** Only pids and entries of listed nodes matter. */
  lemma {:induction false} LeaksSame(ps: seq<nat>, nodes: Nodes, nodes2: Nodes, dead: set<Pid>)
    requires forall a :: a in ps ==> a in nodes && a in nodes2 && nodes2[a].pid == nodes[a].pid && nodes2[a].slots == nodes[a].slots
    ensures LeaksOf(ps, nodes, dead) == LeaksOf(ps, nodes2, dead)
  {
    if ps != [] {
      LeaksSame(ps[1..], nodes, nodes2, dead);
    }
  }

  /** The first dead node decides how the list of leaks begins. */
  lemma {:induction false} FirstDead(ps: seq<nat>, nodes: Nodes, dead: set<Pid>) returns (i: nat)
    requires forall a :: a in ps ==> a in nodes
    ensures i <= |ps| && forall j :: 0 <= j < i ==> nodes[ps[j]].pid !in dead
    ensures i < |ps| ==> nodes[ps[i]].pid in dead
    ensures LeaksOf(ps, nodes, dead) == if i < |ps| then NodeLeaks(nodes[ps[i]]) + LeaksOf(ps[i + 1..], nodes, dead) else []
  {
    hide LeaksOf, NodeLeaks;
    if ps == [] {
      NoLeaksOfNone(nodes, dead);
      return 0;
    }
    LeaksHead(ps, nodes, dead);
    if nodes[ps[0]].pid in dead {
      i := 0;
    } else {
      var j := FirstDead(ps[1..], nodes, dead);
      i := j + 1;
      assert j < |ps[1..]| ==> ps[1..][j + 1..] == ps[i + 1..];
    }
  }

  /** Skipping unused entries. */
  lemma {:induction false} SkipUnused(pid: Pid, slots: seq<nat>, s: nat, at: nat)
    requires s <= at <= |slots| && forall x :: s <= x < at ==> IsNull(slots[x])
    ensures BlocksFrom(pid, slots, s) == BlocksFrom(pid, slots, at)
    decreases at - s
  {
    if s < at {
      SkipUnused(pid, slots, s + 1, at);
    }
  }

  lemma {:induction false} FirstUsed(slots: seq<nat>, s: nat) returns (at: nat)
    requires s <= |slots|
    ensures s <= at <= |slots| && (at < |slots| ==> !IsNull(slots[at]))
    ensures forall x :: s <= x < at ==> IsNull(slots[x])
    decreases |slots| - s
  {
    at := s;
    if s < |slots| && IsNull(slots[s]) {
      at := FirstUsed(slots, s + 1);
    }
  }

  /** The first leaked block of a node, and what remains once its entry is cleared. */
  lemma FirstBlock(pid: Pid, slots: seq<nat>, word: nat) returns (at: nat)
    requires IsNull(word)
    ensures at <= |slots|
    ensures at == |slots| ==> BlocksFrom(pid, slots, 0) == []
    ensures at == |slots| ==> forall x :: 0 <= x < |slots| ==> IsNull(slots[x])
    ensures at < |slots| ==> !IsNull(slots[at])
    ensures at < |slots| ==> BlocksFrom(pid, slots, 0) == [BlockOf(pid, slots[at])] + BlocksFrom(pid, slots[at := word], 0)
  {
    at := FirstUsed(slots, 0);
    SkipUnused(pid, slots, 0, at);
    if at < |slots| {
      var cleared := slots[at := word];
      SkipUnused(pid, cleared, 0, at + 1);
      BlocksSame(pid, slots, cleared, at + 1);
    }
  }

  lemma {:induction false} BlocksSame(pid: Pid, slots: seq<nat>, slots2: seq<nat>, s: nat)
    requires |slots| == |slots2| && s <= |slots| && forall x :: s <= x < |slots| ==> slots[x] == slots2[x]
    ensures BlocksFrom(pid, slots, s) == BlocksFrom(pid, slots2, s)
    decreases |slots| - s
  {
    if s < |slots| {
      BlocksSame(pid, slots, slots2, s + 1);
    }
  }

  lemma SameCons(x: Leak, r: seq<Leak>, y: Leak, t: seq<Leak>)
    requires [x] + r == [y] + t
    ensures x == y && r == t
  {
    assert ([x] + r)[0] == x && ([y] + t)[0] == y;
    assert r == ([x] + r)[1..] && t == ([y] + t)[1..];
  }

  /** The first leak is a block: it is the first used entry of the first dead node, and with that
      entry cleared the rest of the leaks remain. */
  lemma HeadBlock(ps: seq<nat>, nodes: Nodes, dead: set<Pid>, pid: Pid, offset: nat, rest: seq<Leak>) returns (i: nat, s: nat)
    requires forall x :: x in ps ==> x in nodes
    requires forall x, y :: 0 <= x < y < |ps| ==> ps[x] != ps[y]
    requires LeaksOf(ps, nodes, dead) == [BlockOf(pid, offset)] + rest
    ensures i < |ps| && nodes[ps[i]].pid == pid && pid in dead
    ensures s < |nodes[ps[i]].slots| && nodes[ps[i]].slots[s] == offset && !IsNull(offset)
    ensures var n := nodes[ps[i]];
      forall n2: ProcessNode :: n2.pid == pid && n2.slots == n.slots[s := NULL_OFFSET + n.minFree % INDEX_SPAN] ==>
        LeaksOf(ps, nodes[ps[i] := n2], dead) == rest
  {
    hide LeaksOf, BlocksFrom;
    i := FirstDead(ps, nodes, dead);
    assert LeaksOf(ps, nodes, dead)[0] == BlockOf(pid, offset);
    var n, tail := nodes[ps[i]], LeaksOf(ps[i + 1..], nodes, dead);
    var word := NULL_OFFSET + n.minFree % INDEX_SPAN;
    s := FirstBlock(n.pid, n.slots, word);
    assert NodeLeaks(n)[0] == BlockOf(pid, offset);
    var more := BlocksFrom(n.pid, n.slots[s := word], 0) + [ProcessOf(n.pid)];
    assert NodeLeaks(n) + tail == [BlockOf(n.pid, n.slots[s])] + (more + tail);
    SameCons(BlockOf(pid, offset), rest, BlockOf(n.pid, n.slots[s]), more + tail);
    forall n2: ProcessNode | n2.pid == pid && n2.slots == n.slots[s := word]
      ensures LeaksOf(ps, nodes[ps[i] := n2], dead) == rest
    {
      LeaksAt(ps, i, nodes, n2, dead);
    }
  }

  /** Freeing the first leaked block leaves exactly the rest of the leaks. */
  lemma AfterBlock(used: set<Tile>, h: Headers, nodes: Nodes, ps: seq<nat>, dead: set<Pid>, pid: Pid, offset: nat, rest: seq<Leak>)
    returns (t: Tile, a: nat)
    requires Registered(used, h, nodes, ps) && Apart(used)
    requires forall x :: x in ps ==> x in nodes
    requires forall x, y :: 0 <= x < y < |ps| ==> ps[x] != ps[y]
    requires LeaksOf(ps, nodes, dead) == [BlockOf(pid, offset)] + rest
    ensures t in used && t.Payload() == offset && t.owner == User(pid) && pid in dead
    ensures a in ps && Records(nodes[a], t, h) && nodes[a].pid == pid && nodes[a].allocations > 0
    ensures var nodes2 := nodes[a := Pop(nodes[a], IndexOf(h[t.addr].next))]; LeaksOf(ps, nodes2, dead) == rest
  {
    hide LeaksOf, NodeLeaks;
    var i, s := HeadBlock(ps, nodes, dead, pid, offset, rest);
    a := ps[i];
    assert NodeRegistered(used, h, nodes, a);
    assert HasBlock(used, h, nodes[a], s);
    t :| t in used && t.Payload() == nodes[a].slots[s] && Records(nodes[a], t, h) && IndexOf(h[t.addr].next) == s;
    PopOk(nodes[a], s);
  }

  /** With the first dead node changed, only its own part of the leaks changes. */
  lemma LeaksAt(ps: seq<nat>, i: nat, nodes: Nodes, n2: ProcessNode, dead: set<Pid>)
    requires forall x :: x in ps ==> x in nodes
    requires i < |ps| && (forall x, y :: 0 <= x < y < |ps| ==> ps[x] != ps[y])
    requires forall j :: 0 <= j < i ==> nodes[ps[j]].pid !in dead
    requires n2.pid in dead
    ensures LeaksOf(ps, nodes[ps[i] := n2], dead) == NodeLeaks(n2) + LeaksOf(ps[i + 1..], nodes, dead)
  {
    hide LeaksOf, NodeLeaks;
    var a, p, q, nodes2 := ps[i], ps[..i], ps[i + 1..], nodes[ps[i] := n2];
    assert ps == p + ([a] + q);
    LeaksConcat(p, [a] + q, nodes2, dead);
    LeaksSame(q, nodes, nodes2, dead);
    AliveOnly(p, nodes2, dead);
    assert ([a] + q)[1..] == q;
    LeaksHead([a] + q, nodes2, dead);
  }

  lemma {:induction false} AliveOnly(ps: seq<nat>, nodes: Nodes, dead: set<Pid>)
    requires forall a :: a in ps ==> a in nodes
    requires forall j :: 0 <= j < |ps| ==> nodes[ps[j]].pid !in dead
    ensures LeaksOf(ps, nodes, dead) == []
  {
    if ps != [] {
      AliveOnly(ps[1..], nodes, dead);
    }
  }

  /** When the next leak is a process, its node records nothing any more; without it the rest remains. */
  lemma AfterProcess(ps: seq<nat>, nodes: Nodes, dead: set<Pid>, pid: Pid, rest: seq<Leak>) returns (i: nat)
    requires forall x :: x in ps ==> x in nodes
    requires forall x, y :: 0 <= x < y < |ps| ==> ps[x] != ps[y]
    requires LeaksOf(ps, nodes, dead) == [ProcessOf(pid)] + rest
    ensures i < |ps| && nodes[ps[i]].pid == pid && pid in dead
    ensures forall s :: 0 <= s < |nodes[ps[i]].slots| ==> IsNull(nodes[ps[i]].slots[s])
    ensures forall x :: x in ps[..i] + ps[i + 1..] ==> x in nodes
    ensures LeaksOf(ps[..i] + ps[i + 1..], nodes, dead) == rest
  {
    i := FirstDead(ps, nodes, dead);
    var n := nodes[ps[i]];
    var s := FirstBlock(n.pid, n.slots, NULL_OFFSET);
    assert LeaksOf(ps, nodes, dead)[0] == ProcessOf(pid);
    assert LeaksOf(ps, nodes, dead) == [ProcessOf(n.pid)] + LeaksOf(ps[i + 1..], nodes, dead);
    LeaksConcat(ps[..i], ps[i + 1..], nodes, dead);
    AliveOnly(ps[..i], nodes, dead);
    assert rest == ([ProcessOf(pid)] + rest)[1..];
  }

  /** No leaks left: no listed process is dead. */
  lemma NoLeaks(ps: seq<nat>, nodes: Nodes, dead: set<Pid>)
    requires forall a :: a in ps ==> a in nodes
    requires LeaksOf(ps, nodes, dead) == []
    ensures forall a :: a in ps ==> nodes[a].pid !in dead
  {
    var i := FirstDead(ps, nodes, dead);
    assert i == |ps|;
  }

  /** `leaks` are the blocks of the first `s` entries. */
  ghost predicate BlocksSplit(pid: Pid, slots: seq<nat>, s: nat, leaks: seq<Leak>)
    requires s <= |slots|
  {
    && leaks + BlocksFrom(pid, slots, s) == BlocksFrom(pid, slots, 0)
    && (s == |slots| ==> leaks == BlocksFrom(pid, slots, 0))
  }

  lemma BlocksNone(pid: Pid, slots: seq<nat>)
    ensures BlocksSplit(pid, slots, 0, [])
  {
    assert [] + BlocksFrom(pid, slots, 0) == BlocksFrom(pid, slots, 0);
  }

  lemma BlocksStep(pid: Pid, slots: seq<nat>, s: nat, leaks: seq<Leak>)
    requires s < |slots| && BlocksSplit(pid, slots, s, leaks)
    ensures BlocksSplit(pid, slots, s + 1, if IsNull(slots[s]) then leaks else leaks + [BlockOf(pid, slots[s])])
  {
    var rest := BlocksFrom(pid, slots, s + 1);
    if IsNull(slots[s]) {
      assert [] + rest == rest;
    } else {
      assert leaks + ([BlockOf(pid, slots[s])] + rest) == (leaks + [BlockOf(pid, slots[s])]) + rest;
    }
    assert rest == [] ==> (forall l: seq<Leak> :: l + rest == l);
  }

  /** `leaks` are those of the first `i` nodes. */
  ghost predicate LeaksSplit(ps: seq<nat>, i: nat, nodes: Nodes, dead: set<Pid>, leaks: seq<Leak>)
    requires forall a :: a in ps ==> a in nodes
    requires i <= |ps|
  {
    && leaks + LeaksOf(ps[i..], nodes, dead) == LeaksOf(ps, nodes, dead)
    && (i == |ps| ==> leaks == LeaksOf(ps, nodes, dead))
  }

  lemma LeaksNone(ps: seq<nat>, nodes: Nodes, dead: set<Pid>)
    requires forall a :: a in ps ==> a in nodes
    ensures LeaksSplit(ps, 0, nodes, dead, [])
  {
    assert ps[0..] == ps;
  }

  lemma LeaksStep(ps: seq<nat>, i: nat, nodes: Nodes, dead: set<Pid>, leaks: seq<Leak>)
    requires forall a :: a in ps ==> a in nodes
    requires i < |ps| && LeaksSplit(ps, i, nodes, dead, leaks)
    ensures nodes[ps[i]].pid in dead ==> LeaksSplit(ps, i + 1, nodes, dead, leaks + NodeLeaks(nodes[ps[i]]))
    ensures nodes[ps[i]].pid !in dead ==> LeaksSplit(ps, i + 1, nodes, dead, leaks)
  {
    assert ps[i..][1..] == ps[i + 1..];
    var more := if nodes[ps[i]].pid in dead then NodeLeaks(nodes[ps[i]]) else [];
    assert leaks + (more + LeaksOf(ps[i + 1..], nodes, dead)) == (leaks + more) + LeaksOf(ps[i + 1..], nodes, dead);
    assert leaks + [] == leaks;
  }
}
