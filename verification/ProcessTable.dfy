/**
  The per-process node: an array that records the blocks of one process and threads its own
  unused entries as a list of indices.
*/
module ProcessTable {
  import opened Tiles

  const NULL_INDEX: nat := 0xFFFF
  const INDEX_SPAN: nat := 0x1_0000

  const NODE_SIZE: nat := 40                       // sizeof(process_node_t)
  const SLOT_SIZE: nat := 8                        // sizeof(FOffsets[0])
  const DEF_PROCESS_SIZE: nat := (NODE_SIZE + 30 * SLOT_SIZE) / NODE_SIZE * NODE_SIZE

  /** `process_node_t`; FArraySize is the length of `slots`, the words of FOffsets. */
  datatype ProcessNode = ProcessNode(pid: Pid, minFree: nat, holders: nat, allocations: nat, next: nat, slots: seq<nat>)

  /** The top bit of a word marks the null offset. */
  predicate IsNull(word: nat) { word >= NULL_OFFSET }

  /** MGetIndexOfOffset and MSetIndexOfOffset: the low 16 bits of a word. */
  function IndexOf(word: nat): nat { word % INDEX_SPAN }

  function WithIndex(word: nat, i: nat): nat
    requires i < INDEX_SPAN
  {
    word - word % INDEX_SPAN + i
  }

  lemma IndexRoundTrip(word: nat, i: nat)
    requires i < INDEX_SPAN
    ensures IndexOf(WithIndex(word, i)) == i
    ensures IsNull(NULL_OFFSET + i) && IndexOf(NULL_OFFSET + i) == i
  {
    assert NULL_OFFSET == INDEX_SPAN * 0x8000_0000_0000;
  }

  /** The entry after free entry `i`: its stored index, or simply the next one if none was stored. */
  function After(slots: seq<nat>, i: nat): nat
    requires i < |slots|
  {
    if IndexOf(slots[i]) == NULL_INDEX then i + 1 else IndexOf(slots[i])
  }

  ghost predicate LinkedEntry(slots: seq<nat>, c: seq<nat>, i: nat)
    requires i < |c|
  {
    && c[i] < |slots| && IsNull(slots[c[i]])
    && After(slots, c[i]) == if i + 1 < |c| then c[i + 1] else |slots|
  }

  /** `c` is the list of unused entries from `min` to the end of the array: every unused entry
      exactly once. */
  ghost predicate FreeChain(slots: seq<nat>, min: nat, c: seq<nat>) {
    && min == (if c == [] then |slots| else c[0])
    && (forall i :: 0 <= i < |c| ==> LinkedEntry(slots, c, i))
    && (forall i, j :: 0 <= i < j < |c| ==> c[i] != c[j])
    && (forall s :: 0 <= s < |slots| && IsNull(slots[s]) ==> s in c)
  }

  ghost predicate NodeOk(n: ProcessNode) {
    && |n.slots| < NULL_INDEX
    && exists c :: FreeChain(n.slots, n.minFree, c) && n.allocations + |c| == |n.slots|
  }

  ghost function UsedSlots(n: ProcessNode): set<nat> {
    set s: nat | s < |n.slots| && !IsNull(n.slots[s])
  }

  lemma {:induction false} ChainSize(c: seq<nat>, free: set<nat>)
    requires forall i, j :: 0 <= i < j < |c| ==> c[i] != c[j]
    requires forall s :: s in free <==> s in c
    ensures |c| == |free|
  {
    if c == [] {
      assert free == {};
    } else {
      var rest := free - {c[0]};
      assert free == rest + {c[0]};
      forall s ensures s in rest <==> s in c[1..] {
        if s in c[1..] {
          var i :| 0 <= i < |c[1..]| && c[1..][i] == s;
          assert c[0] != c[i + 1];
        }
      }
      ChainSize(c[1..], rest);
    }
  }

  lemma {:induction false} Interval(n: nat, all: set<nat>)
    requires forall s: nat :: s in all <==> s < n
    ensures |all| == n
  {
    if n > 0 {
      Interval(n - 1, all - {n - 1});
    } else {
      assert all == {};
    }
  }

  /** FAlloactionCount is the number of entries in use. */
  lemma AllocationsAreUsedSlots(n: ProcessNode)
    requires NodeOk(n)
    ensures n.allocations == |UsedSlots(n)|
  {
    var c :| FreeChain(n.slots, n.minFree, c) && n.allocations + |c| == |n.slots|;
    var free := set s: nat | s < |n.slots| && IsNull(n.slots[s]);
    forall s | s in c ensures s in free {
      var i :| 0 <= i < |c| && c[i] == s;
      assert LinkedEntry(n.slots, c, i);
    }
    ChainSize(c, free);
    Interval(|n.slots|, free + UsedSlots(n));
  }

  // ----- MPutOffset and MPopOffsetById on one node

  ghost function Put(n: ProcessNode, word: nat): ProcessNode
    requires n.minFree < |n.slots|
  {
    n.(slots := n.slots[n.minFree := word], minFree := After(n.slots, n.minFree), allocations := n.allocations + 1)
  }

  ghost function Pop(n: ProcessNode, s: nat): ProcessNode
    requires s < |n.slots| && n.allocations > 0
  {
    n.(slots := n.slots[s := NULL_OFFSET + n.minFree % INDEX_SPAN], minFree := s, allocations := n.allocations - 1)
  }

  /** A node that is not full has an unused entry right where FMinFreeIndex points. */
  lemma PutOk(n: ProcessNode, word: nat)
    requires NodeOk(n) && n.allocations < |n.slots| && !IsNull(word)
    ensures n.minFree < |n.slots| && IsNull(n.slots[n.minFree])
    ensures NodeOk(Put(n, word))
  {
    var c :| FreeChain(n.slots, n.minFree, c) && n.allocations + |c| == |n.slots|;
    assert LinkedEntry(n.slots, c, 0);
    var r, d := Put(n, word), c[1..];
    forall i | 0 <= i < |d| ensures LinkedEntry(r.slots, d, i) {
      assert LinkedEntry(n.slots, c, i + 1) && c[0] != c[i + 1];
    }
    forall s | 0 <= s < |r.slots| && IsNull(r.slots[s]) ensures s in d {
      assert IsNull(n.slots[s]) && s in c && s != c[0];
    }
    assert FreeChain(r.slots, r.minFree, d);
  }

  lemma PopOk(n: ProcessNode, s: nat)
    requires NodeOk(n) && s < |n.slots| && !IsNull(n.slots[s])
    ensures n.allocations > 0 && NodeOk(Pop(n, s)) && IsNull(Pop(n, s).slots[s])
  {
    var c :| FreeChain(n.slots, n.minFree, c) && n.allocations + |c| == |n.slots|;
    AllocationsAreUsedSlots(n);
    assert s in UsedSlots(n);
    var r := Pop(n, s);
    assert c != [] ==> LinkedEntry(n.slots, c, 0);
    IndexRoundTrip(0, n.minFree);
    var d := [s] + c;
    forall i | 0 <= i < |d| ensures LinkedEntry(r.slots, d, i) {
      assert i > 0 ==> d[i] == c[i - 1] && LinkedEntry(n.slots, c, i - 1);
    }
    forall i, j | 0 <= i < j < |d| ensures d[i] != d[j] {
      assert d[j] == c[j - 1] && LinkedEntry(n.slots, c, j - 1);
    }
    assert FreeChain(r.slots, r.minFree, d);
  }

  /** The entry given back last is taken first, and the array is as it was. */
  lemma PutUndoesPop(n: ProcessNode, s: nat)
    requires NodeOk(n) && s < |n.slots| && !IsNull(n.slots[s])
    ensures n.allocations > 0 && Put(Pop(n, s), n.slots[s]) == n
  {
    PopOk(n, s);
    var c :| FreeChain(n.slots, n.minFree, c) && n.allocations + |c| == |n.slots|;
    assert c != [] ==> LinkedEntry(n.slots, c, 0);
    IndexRoundTrip(0, n.minFree);
    assert Put(Pop(n, s), n.slots[s]).slots == n.slots;
  }

  /** A new node: every entry unused, none with a stored index. */
  ghost function Fresh(count: nat): seq<nat> {
    seq(count, i => NULL_OFFSET + NULL_INDEX)
  }

  /** The array of a relocated node: the old entries, then unused ones. */
  lemma GrowOk(n: ProcessNode, extra: nat)
    requires NodeOk(n) && |n.slots| + extra < NULL_INDEX
    ensures NodeOk(n.(slots := n.slots + Fresh(extra)))
  {
    var c :| FreeChain(n.slots, n.minFree, c) && n.allocations + |c| == |n.slots|;
    var slots := n.slots + Fresh(extra);
    var d := c + seq(extra, i => |n.slots| + i);
    IndexRoundTrip(0, NULL_INDEX);
    forall i | 0 <= i < |d| ensures LinkedEntry(slots, d, i) {
      if i >= |c| {
        assert slots[d[i]] == Fresh(extra)[i - |c|];
      } else {
        assert LinkedEntry(n.slots, c, i) && slots[d[i]] == n.slots[c[i]];
      }
    }
    forall s | 0 <= s < |slots| && IsNull(slots[s]) ensures s in d {
      if s >= |n.slots| {
        assert d[|c| + s - |n.slots|] == s;
      }
    }
    forall i, j | 0 <= i < j < |d| ensures d[i] != d[j] {
      assert i < |c| ==> LinkedEntry(n.slots, c, i);
    }
    assert FreeChain(slots, n.minFree, d);
    assert n.(slots := slots).allocations + |d| == |slots|;
  }

  lemma FreshOk(n: ProcessNode)
    requires n.minFree == 0 && n.allocations == 0 && |n.slots| < NULL_INDEX && n.slots == Fresh(|n.slots|)
    ensures NodeOk(n)
  {
    var empty := n.(slots := []);
    assert FreeChain(empty.slots, 0, []);
    assert NodeOk(empty);
    GrowOk(empty, |n.slots|);
    assert [] + Fresh(|n.slots|) == n.slots;
  }
}
