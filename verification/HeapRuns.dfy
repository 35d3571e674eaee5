/**
  Whole runs of the allocator: any sequence of requests by any processes, with processes ending in
  between, followed turn by turn.
*/
module HeapRuns {
  import opened Tiles
  import opened ProcessTable
  import opened Registry
  import opened SharedHeap

  /** A request of process `pid`; `FreeEntry`: it frees the block recorded in that entry of its node;
      `alive`: the processes that exist at that moment. */
  datatype Request =
    | Init(pid: Pid)
    | Malloc(pid: Pid, wanted: nat)
    | MallocTo(pid: Pid, wanted: nat, offset: nat)
    | FreeEntry(pid: Pid, entry: nat)
    | CleanUp(alive: set<Pid>)
    | ReleaseHeap(pid: Pid, alive: set<Pid>)

  /** The heap between two requests. */
  datatype Moment = Moment(tiles: seq<Tile>, firstFree: nat, freeBytes: nat, userAllocations: nat, procs: seq<nat>, nodes: Nodes, current: map<Pid, nat>, over: nat)

  /** One request with the heap before it, after its process got a node, and after it. */
  datatype Turn = Turn(before: Moment, request: Request, mid: seq<Tile>, after: Moment)

  ghost function Now(h: CSharedAllocator): Moment
    reads h
  {
    Moment(h.tiles, h.firstFree, h.freeBytes, h.userAllocations, h.procs, h.nodes, h.current, h.overcount)
  }

  /** What holds between any two requests: blocks tile the heap, free blocks are coalesced and the
      list starts at the first of them, all bytes are accounted for up to the bytes of interior
      cuts, every node counts the objects attached to it, and without processes the heap is one free
      block. */
  ghost predicate InOrder(m: Moment, base: nat, limit: nat) {
    && Tiled(m.tiles, base, limit) && NoAdjacentFree(m.tiles) && Settled(m.tiles)
    && m.firstFree == FirstFree(m.tiles)
    && m.freeBytes == FreeSum(m.tiles) + m.over
    && m.userAllocations == UserCount(m.tiles)
    && CSharedAllocator.HoldersOk(m.current, m.procs, m.nodes)
    && (m.procs == [] ==> |m.tiles| == 1 && m.tiles[0].owner.Free?)
  }

  ghost function Taken(m: Moment): set<Tile> { TakenTiles(m.tiles) }

  /** The block that an entry of the process's own node names, if the entry is in use. */
  ghost predicate Names(m: Moment, pid: Pid, entry: nat, a: nat) {
    OwnNode(m.procs, m.nodes, pid, a) && entry < |m.nodes[a].slots| && !IsNull(m.nodes[a].slots[entry])
  }

  ghost predicate Frees(t: Turn, pid: Pid, entry: nat, a: nat) {
    && Names(t.before, pid, entry, a)
    && exists b :: b in Taken(t.before) && b.owner == User(pid) && b.Payload() == t.before.nodes[a].slots[entry] &&
         Taken(t.after) == Taken(t.before) - {b}
  }

  /** A request that reaches MMallocImpl. */
  predicate Asks(q: Request, base: nat, limit: nat) {
    match q
    case Malloc(_, wanted) => 0 < wanted <= limit - base - HEADER
    case MallocTo(_, wanted, offset) => 0 < wanted <= limit && offset > 0
    case _ => false
  }

  /** The source does not survive the request: it writes through a null node, or stops at its check
      of the entry array. */
  ghost predicate Fails(m: Moment, q: Request, base: nat, limit: nat) {
    if Asks(q, base, limit) then
      WritesNull(m.tiles, m.procs, m.nodes, q.pid, 1) || StopsAtCheck(m.tiles, m.procs, m.nodes, q.pid, 1)
    else q.Init? && !HasNode(m.procs, m.nodes, q.pid) && !RoomForNode(m.tiles, DEF_PROCESS_SIZE)
  }

  ghost predicate Granting(t: Turn, pid: Pid, wanted: nat, place: nat) {
    exists p :: Granted(t.mid, t.after.tiles, p, wanted, User(pid)) && (place != 0 ==> p == place)
  }

  /** The process has a node with room, and then exactly the block asked for is added if it can be
      placed, and nothing otherwise. */
  ghost predicate Allocates(t: Turn, pid: Pid, wanted: nat, place: nat) {
    && Prepared(t.before.tiles, t.before.procs, t.before.nodes, pid, 1, t.mid)
    && if Satisfiable(t.mid, wanted, false, place) then Granting(t, pid, wanted, place) else t.after.tiles == t.mid
  }

  /** The processes that have attached since the last sweep or release that let them go. */
  ghost function Attached(m: Moment, q: Request, base: nat, limit: nat): set<Pid> {
    match q
    case Init(pid) => m.current.Keys + {pid}
    case FreeEntry(_, _) => m.current.Keys
    case CleanUp(alive) => m.current.Keys * alive
    case ReleaseHeap(pid, alive) => m.current.Keys * alive - {pid}
    case _ => if Asks(q, base, limit) then m.current.Keys + {q.pid} else m.current.Keys
  }

  /** What a request that is survived does to the heap. */
  ghost predicate Next(t: Turn, base: nat, limit: nat) {
    && !Fails(t.before, t.request, base, limit)
    && t.after.current.Keys == Attached(t.before, t.request, base, limit)
    && match t.request
      case Init(pid) =>
        if HasNode(t.before.procs, t.before.nodes, pid) then t.after.tiles == t.before.tiles
        else TableTaken(t.before.tiles, t.after.tiles, pid, DEF_PROCESS_SIZE)
      case Malloc(pid, wanted) =>
        if Asks(t.request, base, limit) then Allocates(t, pid, wanted, 0) else t.after == t.before
      case MallocTo(pid, wanted, offset) =>
        if Asks(t.request, base, limit) then Allocates(t, pid, wanted, offset) else t.after == t.before
      case FreeEntry(pid, entry) =>
        if exists a :: Names(t.before, pid, entry, a) then exists a :: Frees(t, pid, entry, a) else t.after == t.before
      case CleanUp(alive) => Stay(t, alive)
      case ReleaseHeap(pid, alive) => Stay(t, alive - {pid})
  }

  /** Exactly the blocks and nodes of these processes stay. */
  ghost predicate Stay(t: Turn, pids: set<Pid>) {
    && Taken(t.after) == CSharedAllocator.Alive(Taken(t.before), pids)
    && forall a :: a in t.after.procs <==> a in t.before.procs && a in t.before.nodes && t.before.nodes[a].pid in pids
  }

  /** Whether the request was met by cutting inside a free block. */
  ghost function Cut(t: Turn, base: nat, limit: nat): nat {
    if t.request.MallocTo? && Asks(t.request, base, limit) &&
      Satisfiable(t.mid, t.request.wanted, false, t.request.offset) && !StartsAt(t.mid, t.request.offset) then 1 else 0
  }

  ghost function Cuts(run: seq<Turn>, base: nat, limit: nat): nat {
    if run == [] then 0 else Cuts(run[..|run| - 1], base, limit) + Cut(run[|run| - 1], base, limit)
  }

  ghost function EndOf(run: seq<Turn>, start: Moment): Moment {
    if |run| == 0 then start else run[|run| - 1].after
  }

  /** The turns of the first requests, from `start` to `end`, each heap in order and each turn doing
      what its request asks; the byte counter is off by one header for every interior cut. */
  ghost predicate Follows(run: seq<Turn>, requests: seq<Request>, start: Moment, end: Moment, base: nat, limit: nat) {
    && |run| <= |requests|
    && (forall k :: 0 <= k < |run| ==> run[k].request == requests[k] && Next(run[k], base, limit) && InOrder(run[k].after, base, limit))
    && (forall k :: 0 <= k < |run| ==> run[k].before == EndOf(run[..k], start))
    && end == EndOf(run, start)
    && end.over == start.over + HEADER * Cuts(run, base, limit)
  }

  lemma FollowsOn(run: seq<Turn>, requests: seq<Request>, start: Moment, end: Moment, t: Turn, base: nat, limit: nat)
    requires Follows(run, requests, start, end, base, limit) && |run| < |requests|
    requires t.before == end && t.request == requests[|run|] && Next(t, base, limit) && InOrder(t.after, base, limit)
    requires t.after.over == end.over + HEADER * Cut(t, base, limit)
    ensures Follows(run + [t], requests, start, t.after, base, limit)
  {
    hide Next, InOrder, Cut;
    var longer := run + [t];
    assert longer[..|run|] == run && longer[|run|] == t;
    forall k | 0 <= k < |longer|
      ensures longer[k].request == requests[k] && Next(longer[k], base, limit) && InOrder(longer[k].after, base, limit)
      ensures longer[k].before == EndOf(longer[..k], start)
    {
      assert longer[..k] == run[..k];
      if k == |run| {
        assert run[..k] == run;
      } else {
        assert longer[k] == run[k];
      }
    }
  }

  // ----- one request

  /** An entry in use names a user block of its process. */
  lemma EntryBlock(h: CSharedAllocator, p: nat, s: nat) returns (t: Tile)
    requires h.Valid() && p in h.procs
    ensures p in h.nodes
    requires p in h.nodes && s < |h.nodes[p].slots| && !IsNull(h.nodes[p].slots[s])
    ensures t in h.Used() && t.owner == User(h.nodes[p].pid) && t.Payload() == h.nodes[p].slots[s]
  {
    assert NodeRegistered(h.Used(), h.headers, h.nodes, p);
    assert HasBlock(h.Used(), h.headers, h.nodes[p], s);
    t :| t in h.Used() && t.Payload() == h.nodes[p].slots[s] && Records(h.nodes[p], t, h.headers) && IndexOf(h.headers[t.addr].next) == s;
  }

  lemma ProcsHaveNodes(h: CSharedAllocator)
    requires h.Valid()
    ensures Listed(h.procs, h.nodes, h.firstProc) && forall a :: a in h.procs ==> a in h.nodes
    ensures forall a, b :: a in h.procs && b in h.procs && h.nodes[a].pid == h.nodes[b].pid ==> a == b
    ensures forall j :: 0 <= j < |h.procs| ==> h.procs[j] != NULL_OFFSET
  {
    forall a | a in h.procs ensures a in h.nodes {
      assert NodeRegistered(h.Used(), h.headers, h.nodes, a);
    }
    h.ListedProcs();
  }

  lemma ValidIsInOrder(h: CSharedAllocator)
    requires h.Valid()
    ensures InOrder(Now(h), h.base, h.limit) && h.base + HEADER <= h.limit
  {
    hide CSharedAllocator.HoldersOk;
    if h.procs == [] {
      h.WholeHeapFree();
    }
  }

  /** Serves one request; false exactly when the source does not survive it. */
  method Serve(h: CSharedAllocator, q: Request) returns (ok: bool, ghost t: Turn)
    requires h.Valid()
    modifies h
    ensures ok <==> !Fails(old(Now(h)), q, h.base, h.limit)
    ensures ok ==> h.Valid() && t == Turn(old(Now(h)), q, t.mid, Now(h)) && Next(t, h.base, h.limit)
    ensures ok ==> h.overcount == old(h.overcount) + HEADER * Cut(t, h.base, h.limit)
  {
    hide CSharedAllocator.Core, CSharedAllocator.Sound, NewUser, StartsAt, Users, TakenTiles, Tiled, CSharedAllocator.Alive, CSharedAllocator.OthersKept, CSharedAllocator.HoldersOk, CSharedAllocator.CachesOk,
      InOrder, Names, Frees, WritesNull, StopsAtCheck, Prepared, Satisfiable, HasNode, RoomForNode, TableTaken, Granted;
    ghost var m, mid := Now(h), h.tiles;
    ValidIsInOrder(h);
    ok := true;
    match q {
      case Init(pid) =>
        var r := h.MInitProcessNode(pid);
        ok := !r.NullNode?;
      case Malloc(pid, wanted) =>
        var r;
        r, mid := h.MMalloc(pid, wanted);
        ok := !r.NullNode? && !r.TooManyEntries?;
      case MallocTo(pid, wanted, offset) =>
        if offset > 0 {
          var r;
          r, mid := h.MMallocTo(pid, wanted, offset);
          ok := !r.NullNode? && !r.TooManyEntries?;
        }
      case FreeEntry(pid, entry) =>
        FreeOne(h, pid, entry);
      case CleanUp(alive) =>
        h.MCleanUpResource(alive);
      case ReleaseHeap(pid, alive) =>
        var destroyed := h.MReleaseHeap(pid, alive);
    }
    t := Turn(m, q, mid, Now(h));
  }

  lemma FreesIs(t: Turn, pid: Pid, entry: nat, a: nat, b: Tile)
    requires Names(t.before, pid, entry, a) && b in Taken(t.before) && b.owner == User(pid)
    requires b.Payload() == t.before.nodes[a].slots[entry] && Taken(t.after) == Taken(t.before) - {b}
    ensures Frees(t, pid, entry, a)
  {
  }

  lemma NamesIt(m: Moment, pid: Pid, entry: nat, a: nat)
    requires OwnNode(m.procs, m.nodes, pid, a) && entry < |m.nodes[a].slots| && !IsNull(m.nodes[a].slots[entry])
    ensures Names(m, pid, entry, a)
  {
  }

  /** Which entry is meant is a matter of the one node of the process. */
  lemma NamesDecided(m: Moment, pid: Pid, entry: nat, p: nat)
    requires forall a, b :: a in m.procs && a in m.nodes && b in m.procs && b in m.nodes && m.nodes[a].pid == m.nodes[b].pid ==> a == b
    requires if p == NULL_OFFSET then forall a :: a in m.procs && a in m.nodes ==> m.nodes[a].pid != pid else OwnNode(m.procs, m.nodes, pid, p)
    ensures (exists a :: Names(m, pid, entry, a)) <==>
      p != NULL_OFFSET && entry < |m.nodes[p].slots| && !IsNull(m.nodes[p].slots[entry])
  {
    if p != NULL_OFFSET && entry < |m.nodes[p].slots| && !IsNull(m.nodes[p].slots[entry]) {
      NamesIt(m, pid, entry, p);
    }
  }

  method FreeOne(h: CSharedAllocator, pid: Pid, entry: nat)
    requires h.Valid()
    modifies h
    ensures h.Valid() && h.overcount == old(h.overcount) && h.current == old(h.current)
    ensures var t := Turn(old(Now(h)), FreeEntry(pid, entry), old(h.tiles), Now(h));
      if exists a :: Names(t.before, pid, entry, a) then exists a :: Frees(t, pid, entry, a) else t.after == t.before
  {
    hide Listed, TakenTiles, InOrder, Frees, Names;
    ProcsHaveNodes(h);
    ghost var m := Now(h);
    var p, prev, i := h.MSearchProcessNode(pid);
    NamesDecided(m, pid, entry, p);
    if p != NULL_OFFSET {
      if entry < |h.nodes[p].slots| && !IsNull(h.nodes[p].slots[entry]) {
        ghost var b := EntryBlock(h, p, entry);
        var size := h.MFree(h.nodes[p].slots[entry], b);
        NamesIt(m, pid, entry, p);
        FreesIs(Turn(m, FreeEntry(pid, entry), m.tiles, Now(h)), pid, entry, p, b);
      }
    }
  }

  /** Any run: it stops at the first request that the source does not survive, and only there. */
  method Run(h: CSharedAllocator, requests: seq<Request>) returns (ok: bool, ghost run: seq<Turn>, ghost last: Moment)
    requires h.Valid()
    modifies h
    ensures Follows(run, requests, old(Now(h)), last, h.base, h.limit)
    ensures ok <==> |run| == |requests|
    ensures ok ==> h.Valid() && last == Now(h)
    ensures !ok ==> Fails(last, requests[|run|], h.base, h.limit)
  {
    run, last, ok := [], Now(h), true;
    for k := 0 to |requests|
      invariant h.Valid() && last == Now(h) && k == |run|
      invariant Follows(run, requests, old(Now(h)), last, h.base, h.limit)
    {
      hide Next, InOrder, Fails, Follows, Cut;
      ghost var t;
      ok, t := Serve(h, requests[k]);
      if !ok {
        return;
      }
      ValidIsInOrder(h);
      FollowsOn(run, requests, old(Now(h)), last, t, h.base, h.limit);
      run, last := run + [t], Now(h);
    }
    ok := true;
  }
}
