/** Book-keeping of block downloads per peer (src/main.cpp:210-410). */
module BlockDownload {
  import opened Primitives

  type NodeId = int

  /** An entry of a peer's download list; `it` identifies the list node that iterators point to. */
  datatype QueuedBlock = QueuedBlock(it: nat, hash: Hash, pindex: BlockPtr, fValidatedHeaders: bool)

  datatype NodeState = NodeState(
    nStallingSince: int,
    vBlocksInFlight: seq<QueuedBlock>,
    nDownloadingSince: int,
    nBlocksInFlight: int,
    nBlocksInFlightValidHeaders: int,
    fPreferredDownload: bool)

  const NewNode: NodeState := NodeState(0, [], 0, 0, 0, false)

  type Nodes = map<NodeId, NodeState>
  type Flights = map<Hash, (NodeId, nat)>

  // ------------------------------------------------------------------ the invariant

  function AsInt(b: bool): int {
    if b then 1 else 0
  }

  /** Entries requested with a known header. */
  function Validated(q: seq<QueuedBlock>): nat {
    if q == [] then 0 else Validated(q[..|q| - 1]) + (if q[|q| - 1].fValidatedHeaders then 1 else 0)
  }

  ghost predicate DistinctNodes(q: seq<QueuedBlock>) {
    forall i, j :: 0 <= i < j < |q| ==> q[i].it != q[j].it
  }

  /** Every entry of the peer's list is what the global map points to. */
  ghost predicate Listed(q: seq<QueuedBlock>, flights: Flights, n: NodeId) {
    forall i :: 0 <= i < |q| ==> q[i].hash in flights && flights[q[i].hash] == (n, q[i].it)
  }

  ghost predicate NodeOk(nodes: Nodes, flights: Flights, n: NodeId)
    requires n in nodes
  {
    var s := nodes[n];
    && s.nBlocksInFlight == |s.vBlocksInFlight|
    && s.nBlocksInFlightValidHeaders == Validated(s.vBlocksInFlight)
    && DistinctNodes(s.vBlocksInFlight)
    && Listed(s.vBlocksInFlight, flights, n)
  }

  ghost predicate Has(q: seq<QueuedBlock>, hash: Hash, it: nat) {
    exists i :: 0 <= i < |q| && q[i].hash == hash && q[i].it == it
  }

  /** The global map points to an entry of a connected peer's list. */
  ghost predicate FlightOk(nodes: Nodes, flights: Flights, hash: Hash)
    requires hash in flights
  {
    var (n, it) := flights[hash];
    n in nodes && Has(nodes[n].vBlocksInFlight, hash, it)
  }

  ghost function Downloading(nodes: Nodes): set<NodeId> {
    set n | n in nodes && nodes[n].nBlocksInFlightValidHeaders != 0
  }

  ghost function Preferred(nodes: Nodes): set<NodeId> {
    set n | n in nodes && nodes[n].fPreferredDownload
  }

  /** The global map and the peers' lists are in bijection and per-peer counters are exact. */
  ghost predicate Matched(nodes: Nodes, flights: Flights) {
    && (forall n {:trigger NodeOk(nodes, flights, n)} :: n in nodes ==> NodeOk(nodes, flights, n))
    && (forall h {:trigger FlightOk(nodes, flights, h)} :: h in flights ==> FlightOk(nodes, flights, h))
  }

  ghost predicate Below(nodes: Nodes, next: nat) {
    forall n, i :: n in nodes && 0 <= i < |nodes[n].vBlocksInFlight| ==> nodes[n].vBlocksInFlight[i].it < next
  }

  // ---------------------------------------------------------------- lists of requests

  function IndexOf(q: seq<QueuedBlock>, it: nat): (i: nat)
    ensures i <= |q| && (i < |q| ==> q[i].it == it) && (forall k :: 0 <= k < i ==> q[k].it != it)
  {
    if q == [] || q[0].it == it then 0 else 1 + IndexOf(q[1..], it)
  }

  function RemoveAt(q: seq<QueuedBlock>, i: nat): seq<QueuedBlock>
    requires i < |q|
  {
    q[..i] + q[i + 1..]
  }

  lemma {:induction false} ValidatedRemove(q: seq<QueuedBlock>, i: nat)
    requires i < |q|
    ensures Validated(q) == Validated(RemoveAt(q, i)) + AsInt(q[i].fValidatedHeaders)
  {
    var last := |q| - 1;
    if i < last {
      ValidatedRemove(q[..last], i);
      var r := RemoveAt(q, i);
      assert r[..|r| - 1] == RemoveAt(q[..last], i);
      assert q[..last][i] == q[i];
    } else {
      assert RemoveAt(q, i) == q[..last];
    }
  }

  /** A request list determines where a hash is. */
  lemma EntryAt(nodes: Nodes, flights: Flights, hash: Hash) returns (i: nat)
    requires Matched(nodes, flights) && hash in flights
    ensures var (n, it) := flights[hash];
            n in nodes && i < |nodes[n].vBlocksInFlight| && i == IndexOf(nodes[n].vBlocksInFlight, it)
            && nodes[n].vBlocksInFlight[i].hash == hash
            && nodes[n].nBlocksInFlightValidHeaders >= AsInt(nodes[n].vBlocksInFlight[i].fValidatedHeaders)
  {
    assert FlightOk(nodes, flights, hash);
    var (n, it) := flights[hash];
    assert NodeOk(nodes, flights, n);
    i := IndexOf(nodes[n].vBlocksInFlight, it);
    ValidatedRemove(nodes[n].vBlocksInFlight, i);
  }

  lemma CountersNonNegative(nodes: Nodes, flights: Flights, n: NodeId)
    requires Matched(nodes, flights) && n in nodes
    ensures nodes[n].nBlocksInFlightValidHeaders >= 0
  {
    assert NodeOk(nodes, flights, n);
  }

  lemma CountUpdate(nodes: Nodes, n: NodeId, s: NodeState)
    requires n in nodes
    ensures |Downloading(nodes[n := s])| == |Downloading(nodes)|
              - AsInt(nodes[n].nBlocksInFlightValidHeaders != 0) + AsInt(s.nBlocksInFlightValidHeaders != 0)
    ensures |Preferred(nodes[n := s])| == |Preferred(nodes)| - AsInt(nodes[n].fPreferredDownload) + AsInt(s.fPreferredDownload)
  {
    CountRemove(nodes, n);
    CountRemove(nodes[n := s], n);
    assert nodes[n := s] - {n} == nodes - {n};
  }

  lemma CountRemove(nodes: Nodes, n: NodeId)
    requires n in nodes
    ensures |Downloading(nodes)| == |Downloading(nodes - {n})| + AsInt(nodes[n].nBlocksInFlightValidHeaders != 0)
    ensures |Preferred(nodes)| == |Preferred(nodes - {n})| + AsInt(nodes[n].fPreferredDownload)
  {
    DownloadingWithout(nodes, n);
    assert Preferred(nodes - {n}) == Preferred(nodes) - {n};
    hide Downloading;
  }

  lemma DownloadingWithout(nodes: Nodes, n: NodeId)
    requires n in nodes
    ensures |Downloading(nodes)| == |Downloading(nodes - {n})| + AsInt(nodes[n].nBlocksInFlightValidHeaders != 0)
  {
    assert Downloading(nodes - {n}) == Downloading(nodes) - {n};
  }

  lemma StillBelow(nodes: Nodes, n: NodeId, s: NodeState, next: nat)
    requires n in nodes && Below(nodes, next) && forall i :: 0 <= i < |s.vBlocksInFlight| ==> s.vBlocksInFlight[i].it < next
    ensures Below(nodes[n := s], next)
  {
  }

  // ------------------------------------------------------ what the elementary changes keep

  /** A received block leaves its peer's list and the global map. */
  lemma RemoveKeeps(nodes: Nodes, flights: Flights, hash: Hash, i: nat, s: NodeState)
    requires Matched(nodes, flights) && hash in flights
    requires var (n, it) := flights[hash];
             && n in nodes && i < |nodes[n].vBlocksInFlight| && nodes[n].vBlocksInFlight[i].it == it
             && nodes[n].vBlocksInFlight[i].hash == hash
             && s.vBlocksInFlight == RemoveAt(nodes[n].vBlocksInFlight, i)
             && s.nBlocksInFlight == nodes[n].nBlocksInFlight - 1
             && s.nBlocksInFlightValidHeaders
                == nodes[n].nBlocksInFlightValidHeaders - AsInt(nodes[n].vBlocksInFlight[i].fValidatedHeaders)
    ensures Matched(nodes[flights[hash].0 := s], flights - {hash})
  {
    var n := flights[hash].0;
    var nodes', flights' := nodes[n := s], flights - {hash};
    var q := nodes[n].vBlocksInFlight;
    assert NodeOk(nodes, flights, n);
    ValidatedRemove(q, i);
    ListAfterRemove(q, i, flights, n);
    hide RemoveAt, Validated, DistinctNodes;
    forall m | m in nodes'
      ensures NodeOk(nodes', flights', m)
    {
      assert NodeOk(nodes, flights, m);
    }
    hide Listed;
    forall h | h in flights'
      ensures FlightOk(nodes', flights', h)
    {
      assert FlightOk(nodes, flights, h);
      var (m, it) := flights[h];
      if m == n {
        assert Has(q, h, it);
      }
    }
  }

  lemma ListAfterRemove(q: seq<QueuedBlock>, i: nat, flights: Flights, n: NodeId)
    requires i < |q| && DistinctNodes(q) && Listed(q, flights, n)
    ensures var q' := RemoveAt(q, i);
            && |q'| == |q| - 1 && DistinctNodes(q') && Listed(q', flights - {q[i].hash}, n)
            && forall h, it {:trigger Has(q, h, it)} :: Has(q, h, it) && h != q[i].hash ==> Has(q', h, it)
  {
    var q' := RemoveAt(q, i);
    assert forall k :: 0 <= k < |q'| ==> q'[k] == q[if k < i then k else k + 1];
    forall h, it | Has(q, h, it) && h != q[i].hash
      ensures Has(q', h, it)
    {
      var k :| 0 <= k < |q| && q[k].hash == h && q[k].it == it;
      assert q'[if k < i then k else k - 1] == q[k];
    }
  }

  /** A new request is appended to a peer's list. */
  lemma AppendKeeps(nodes: Nodes, flights: Flights, n: NodeId, e: QueuedBlock, s: NodeState)
    requires Matched(nodes, flights) && n in nodes && e.hash !in flights && Below(nodes, e.it)
    requires s.vBlocksInFlight == nodes[n].vBlocksInFlight + [e] && s.nBlocksInFlight == nodes[n].nBlocksInFlight + 1
    requires s.nBlocksInFlightValidHeaders == nodes[n].nBlocksInFlightValidHeaders + AsInt(e.fValidatedHeaders)
    ensures Matched(nodes[n := s], flights[e.hash := (n, e.it)])
  {
    var nodes', flights' := nodes[n := s], flights[e.hash := (n, e.it)];
    assert NodeOk(nodes, flights, n);
    BelowAt(nodes, n, e.it);
    OwnListAfterAppend(nodes, flights, n, e, s);
    hide Validated, DistinctNodes, Below, Listed, Has, NodeOk, FlightOk;
    forall m | m in nodes'
      ensures NodeOk(nodes', flights', m)
    {
      if m != n {
        assert NodeOk(nodes, flights, m);
        OtherNodeKept(nodes, flights, nodes', m, e.hash, (n, e.it));
      }
    }
    forall h | h in flights'
      ensures FlightOk(nodes', flights', h)
    {
      assert h != e.hash ==> FlightOk(nodes, flights, h);
      FlightAfterAppend(nodes, flights, n, e, s, h);
    }
  }

  lemma OwnListAfterAppend(nodes: Nodes, flights: Flights, n: NodeId, e: QueuedBlock, s: NodeState)
    requires n in nodes && NodeOk(nodes, flights, n) && e.hash !in flights && FreshNode(nodes[n].vBlocksInFlight, e.it)
    requires s.vBlocksInFlight == nodes[n].vBlocksInFlight + [e] && s.nBlocksInFlight == nodes[n].nBlocksInFlight + 1
    requires s.nBlocksInFlightValidHeaders == nodes[n].nBlocksInFlightValidHeaders + AsInt(e.fValidatedHeaders)
    ensures NodeOk(nodes[n := s], flights[e.hash := (n, e.it)], n) && Has(s.vBlocksInFlight, e.hash, e.it)
    ensures forall k, it {:trigger Has(nodes[n].vBlocksInFlight, k, it)} ::
              Has(nodes[n].vBlocksInFlight, k, it) ==> Has(s.vBlocksInFlight, k, it)
  {
    ListAfterAppend(nodes[n].vBlocksInFlight, e, flights, n);
    hide Validated, DistinctNodes, Listed, Has, FreshNode;
  }

  ghost predicate FreshNode(q: seq<QueuedBlock>, it: nat) {
    forall k :: 0 <= k < |q| ==> q[k].it < it
  }

  lemma BelowAt(nodes: Nodes, n: NodeId, next: nat)
    requires Below(nodes, next) && n in nodes
    ensures FreshNode(nodes[n].vBlocksInFlight, next)
  {
  }

  /** A new request does not concern the other peers. */
  lemma OtherNodeKept(nodes: Nodes, flights: Flights, nodes': Nodes, m: NodeId, hash: Hash, x: (NodeId, nat))
    requires m in nodes && m in nodes' && nodes'[m] == nodes[m] && NodeOk(nodes, flights, m) && hash !in flights
    ensures NodeOk(nodes', flights[hash := x], m)
  {
    hide Validated, DistinctNodes;
  }

  lemma FlightAfterAppend(nodes: Nodes, flights: Flights, n: NodeId, e: QueuedBlock, s: NodeState, h: Hash)
    requires n in nodes && (h == e.hash || (h in flights && FlightOk(nodes, flights, h)))
    requires Has(s.vBlocksInFlight, e.hash, e.it)
    requires forall k, it {:trigger Has(nodes[n].vBlocksInFlight, k, it)} ::
               Has(nodes[n].vBlocksInFlight, k, it) ==> Has(s.vBlocksInFlight, k, it)
    ensures FlightOk(nodes[n := s], flights[e.hash := (n, e.it)], h)
  {
    hide Has;
    if h != e.hash {
      var (m, it) := flights[h];
      assert Has(nodes[m].vBlocksInFlight, h, it);
    }
  }

  lemma ListAfterAppend(q: seq<QueuedBlock>, e: QueuedBlock, flights: Flights, n: NodeId)
    requires DistinctNodes(q) && Listed(q, flights, n) && e.hash !in flights && FreshNode(q, e.it)
    ensures var q' := q + [e];
            && DistinctNodes(q') && Listed(q', flights[e.hash := (n, e.it)], n) && Has(q', e.hash, e.it)
            && Validated(q') == Validated(q) + AsInt(e.fValidatedHeaders)
            && forall h, it {:trigger Has(q, h, it)} :: Has(q, h, it) ==> Has(q', h, it)
  {
    var q' := q + [e];
    assert q'[..|q'| - 1] == q && q'[|q|] == e;
    forall h, it | Has(q, h, it)
      ensures Has(q', h, it)
    {
      var k :| 0 <= k < |q| && q[k].hash == h && q[k].it == it;
      assert q'[k] == q[k];
    }
  }

  ghost function Hashes(q: seq<QueuedBlock>): set<Hash> {
    set i | 0 <= i < |q| :: q[i].hash
  }

  /** A departing peer takes its requests along. */
  lemma DepartKeeps(nodes: Nodes, flights: Flights, n: NodeId)
    requires Matched(nodes, flights) && n in nodes
    ensures Matched(nodes - {n}, flights - Hashes(nodes[n].vBlocksInFlight))
  {
    var nodes', flights' := nodes - {n}, flights - Hashes(nodes[n].vBlocksInFlight);
    assert NodeOk(nodes, flights, n);
    forall m | m in nodes'
      ensures NodeOk(nodes', flights', m)
    {
      assert NodeOk(nodes, flights, m);
    }
    forall h | h in flights'
      ensures FlightOk(nodes', flights', h)
    {
      assert FlightOk(nodes, flights, h);
    }
  }

  /** With no peers left, nothing is in flight. */
  lemma NoPeersNothingInFlight(nodes: Nodes, flights: Flights)
    requires Matched(nodes, flights) && nodes == map[]
    ensures flights == map[] && Downloading(nodes) == {} && Preferred(nodes) == {}
  {
    if flights != map[] {
      var h :| h in flights;
      RequestedFromPeer(nodes, flights, h);
    }
  }

  lemma RequestedFromPeer(nodes: Nodes, flights: Flights, h: Hash)
    requires Matched(nodes, flights) && h in flights
    ensures flights[h].0 in nodes
  {
    assert FlightOk(nodes, flights, h);
  }

  // ------------------------------------------------------------------- the reference

  datatype Event =
    | Arrive(n: NodeId)
    | Classify(n: NodeId, fInbound: bool, fWhitelisted: bool, fOneShot: bool, fClient: bool)
    | Request(n: NodeId, hash: Hash, pindex: BlockPtr)
    | Receive(hash: Hash)
    | Depart(n: NodeId)

  /** Who is connected, and from whom each block is requested. */
  datatype Reference = Reference(peers: set<NodeId>, owner: map<Hash, NodeId>)

  ghost function Next(r: Reference, e: Event): Reference {
    match e
    case Arrive(n) => r.(peers := r.peers + {n})
    case Classify(_, _, _, _, _) => r
    case Request(n, h, _) => if n in r.peers then r.(owner := r.owner[h := n]) else r
    case Receive(h) => r.(owner := r.owner - {h})
    case Depart(n) => Reference(r.peers - {n}, map h | h in r.owner && r.owner[h] != n :: r.owner[h])
  }

  ghost function After(events: seq<Event>): Reference {
    if events == [] then Reference({}, map[]) else Next(After(events[..|events| - 1]), events[|events| - 1])
  }

  ghost function Owners(flights: Flights): map<Hash, NodeId> {
    map h | h in flights :: flights[h].0
  }

  /** What a departing peer had requested is exactly what the global map attributes to it. */
  lemma OwnersAfterDeparture(nodes: Nodes, flights: Flights, n: NodeId)
    requires Matched(nodes, flights) && n in nodes
    ensures Owners(flights - Hashes(nodes[n].vBlocksInFlight))
         == map h | h in Owners(flights) && Owners(flights)[h] != n :: Owners(flights)[h]
  {
    assert NodeOk(nodes, flights, n);
    forall h | h in flights
      ensures h in Hashes(nodes[n].vBlocksInFlight) <==> flights[h].0 == n
    {
      assert FlightOk(nodes, flights, h);
    }
  }

  // --------------------------------------------------------------------- the tracker

  /** A peer's state after request `i` has been answered; the next one is timed from then if it was the first. */
  ghost function AfterReceipt(s: NodeState, i: nat, now: int): NodeState
    requires i < |s.vBlocksInFlight|
  {
    s.(vBlocksInFlight := RemoveAt(s.vBlocksInFlight, i), nBlocksInFlight := s.nBlocksInFlight - 1,
       nBlocksInFlightValidHeaders := s.nBlocksInFlightValidHeaders - AsInt(s.vBlocksInFlight[i].fValidatedHeaders),
       nStallingSince := 0,
       nDownloadingSince := if i == 0 && s.nDownloadingSince < now then now else s.nDownloadingSince)
  }

  /** A peer's state after one more request; the clock starts with the first. */
  ghost function AfterRequest(s: NodeState, entry: QueuedBlock, now: int): NodeState {
    s.(vBlocksInFlight := s.vBlocksInFlight + [entry], nBlocksInFlight := s.nBlocksInFlight + 1,
       nBlocksInFlightValidHeaders := s.nBlocksInFlightValidHeaders + AsInt(entry.fValidatedHeaders),
       nDownloadingSince := if s.vBlocksInFlight == [] then now else s.nDownloadingSince)
  }

  /** A block arrives: its request, if there is one, is answered, and nothing else changes. */
  ghost predicate Arrival(nodes: Nodes, flights: Flights, nodes': Nodes, hash: Hash, now: int) {
    nodes'.Keys == nodes.Keys &&
    forall n :: n in nodes ==>
      if hash in flights && n == flights[hash].0 then
        exists i :: 0 <= i < |nodes[n].vBlocksInFlight| && nodes[n].vBlocksInFlight[i].hash == hash
                    && nodes'[n] == AfterReceipt(nodes[n], i, now)
      else nodes'[n] == nodes[n]
  }

  lemma ArrivalAt(nodes: Nodes, flights: Flights, hash: Hash, i: nat, now: int)
    requires hash in flights && flights[hash].0 in nodes
    requires var q := nodes[flights[hash].0].vBlocksInFlight; i < |q| && q[i].hash == hash
    ensures var n := flights[hash].0; Arrival(nodes, flights, nodes[n := AfterReceipt(nodes[n], i, now)], hash, now)
  {
    hide RemoveAt;
  }

  lemma NotAwaited(nodes: Nodes, flights: Flights, hash: Hash, now: int)
    requires hash !in flights
    ensures Arrival(nodes, flights, nodes, hash, now)
  {
  }

  lemma RemovedBelow(nodes: Nodes, n: NodeId, i: nat, now: int, next: nat)
    requires n in nodes && Below(nodes, next) && i < |nodes[n].vBlocksInFlight|
    ensures Below(nodes[n := AfterReceipt(nodes[n], i, now)], next)
  {
    StillBelow(nodes, n, AfterReceipt(nodes[n], i, now), next);
  }

  lemma CounterExact(nodes: Nodes, flights: Flights, n: NodeId)
    requires Matched(nodes, flights) && n in nodes
    ensures nodes[n].nBlocksInFlight == |nodes[n].vBlocksInFlight|
  {
    assert NodeOk(nodes, flights, n);
  }

  class Tracker {
    var mapNodeState: Nodes
    var mapBlocksInFlight: Flights
    var nPreferredDownload: int
    var nPeersWithValidatedDownloads: int
    var nextNode: nat   // list nodes allocated so far

    ghost predicate Valid()
      reads this
    {
      && Matched(mapNodeState, mapBlocksInFlight)
      && nPeersWithValidatedDownloads == |Downloading(mapNodeState)|
      && nPreferredDownload == |Preferred(mapNodeState)|
      && Below(mapNodeState, nextNode)
    }

    ghost function Abstract(): Reference
      reads this
    {
      Reference(mapNodeState.Keys, Owners(mapBlocksInFlight))
    }

    constructor ()
      ensures Valid() && mapNodeState == map[] && mapBlocksInFlight == map[]
    {
      mapNodeState, mapBlocksInFlight := map[], map[];
      nPreferredDownload, nPeersWithValidatedDownloads, nextNode := 0, 0, 0;
    }

    /** A connection that is already registered keeps its state. */
    method InitializeNode(nodeid: NodeId)
      requires Valid()
      modifies this`mapNodeState
      ensures Valid()
      ensures mapNodeState == if nodeid in old(mapNodeState) then old(mapNodeState) else old(mapNodeState)[nodeid := NewNode]
    {
      if nodeid !in mapNodeState {
        ghost var was := mapNodeState;
        mapNodeState := mapNodeState[nodeid := NewNode];
        assert was == mapNodeState - {nodeid};
        CountRemove(mapNodeState, nodeid);
        forall m | m in mapNodeState
          ensures NodeOk(mapNodeState, mapBlocksInFlight, m)
        {
          assert m != nodeid ==> NodeOk(was, mapBlocksInFlight, m);
        }
        forall h | h in mapBlocksInFlight
          ensures FlightOk(mapNodeState, mapBlocksInFlight, h)
        {
          assert FlightOk(was, mapBlocksInFlight, h);
        }
      }
    }

    method UpdatePreferredDownload(nodeid: NodeId, fInbound: bool, fWhitelisted: bool, fOneShot: bool, fClient: bool)
      requires Valid() && nodeid in mapNodeState
      modifies this`mapNodeState, this`nPreferredDownload
      ensures Valid()
      ensures mapNodeState == old(mapNodeState)[nodeid :=
                old(mapNodeState)[nodeid].(fPreferredDownload := (!fInbound || fWhitelisted) && !fOneShot && !fClient)]
    {
      ghost var was := mapNodeState;
      var state := mapNodeState[nodeid];
      nPreferredDownload := nPreferredDownload - AsInt(state.fPreferredDownload);
      state := state.(fPreferredDownload := (!fInbound || fWhitelisted) && !fOneShot && !fClient);
      nPreferredDownload := nPreferredDownload + AsInt(state.fPreferredDownload);
      mapNodeState := mapNodeState[nodeid := state];
      CountUpdate(was, nodeid, state);
      forall m | m in mapNodeState
        ensures NodeOk(mapNodeState, mapBlocksInFlight, m)
      {
        assert NodeOk(was, mapBlocksInFlight, m);
      }
      forall h | h in mapBlocksInFlight
        ensures FlightOk(mapNodeState, mapBlocksInFlight, h)
      {
        assert FlightOk(was, mapBlocksInFlight, h);
      }
    }

    /** Whether the block was requested; if so, its request disappears and nothing else does. */
    method MarkBlockAsReceived(hash: Hash, now: int) returns (requested: bool)
      requires Valid()
      modifies this`mapNodeState, this`mapBlocksInFlight, this`nPeersWithValidatedDownloads
      ensures Valid() && requested == (hash in old(mapBlocksInFlight))
      ensures mapBlocksInFlight == old(mapBlocksInFlight) - {hash} && mapNodeState.Keys == old(mapNodeState).Keys
      ensures Arrival(old(mapNodeState), old(mapBlocksInFlight), mapNodeState, hash, now)
    {
      if hash !in mapBlocksInFlight {
        assert mapBlocksInFlight - {hash} == mapBlocksInFlight;
        NotAwaited(mapNodeState, mapBlocksInFlight, hash, now);
        return false;
      }
      hide Matched, Downloading, Preferred, Arrival, RemoveAt;
      ghost var at := EntryAt(mapNodeState, mapBlocksInFlight, hash);
      var (n, it) := mapBlocksInFlight[hash];
      RemoveRequest(n, IndexOf(mapNodeState[n].vBlocksInFlight, it), hash, now);
      requested := true;
    }

    /** Takes request `i` of a peer off its list and off the global map. */
    method RemoveRequest(n: NodeId, i: nat, hash: Hash, now: int)
      requires Valid() && n in mapNodeState && i < |mapNodeState[n].vBlocksInFlight|
      requires hash in mapBlocksInFlight && mapBlocksInFlight[hash] == (n, mapNodeState[n].vBlocksInFlight[i].it)
      requires mapNodeState[n].vBlocksInFlight[i].hash == hash
      requires mapNodeState[n].nBlocksInFlightValidHeaders >= AsInt(mapNodeState[n].vBlocksInFlight[i].fValidatedHeaders)
      modifies this`mapNodeState, this`mapBlocksInFlight, this`nPeersWithValidatedDownloads
      ensures Valid() && mapBlocksInFlight == old(mapBlocksInFlight) - {hash} && mapNodeState.Keys == old(mapNodeState).Keys
      ensures Arrival(old(mapNodeState), old(mapBlocksInFlight), mapNodeState, hash, now)
    {
      hide Matched, Downloading, Preferred, Arrival, RemoveAt;
      ghost var was := mapNodeState;
      var state := mapNodeState[n];
      var entry := state.vBlocksInFlight[i];
      state := state.(nBlocksInFlightValidHeaders := state.nBlocksInFlightValidHeaders - AsInt(entry.fValidatedHeaders));
      if state.nBlocksInFlightValidHeaders == 0 && entry.fValidatedHeaders {
        nPeersWithValidatedDownloads := nPeersWithValidatedDownloads - 1;
      }
      if i == 0 {
        state := state.(nDownloadingSince := if state.nDownloadingSince < now then now else state.nDownloadingSince);
      }
      state := state.(vBlocksInFlight := RemoveAt(state.vBlocksInFlight, i), nBlocksInFlight := state.nBlocksInFlight - 1,
                      nStallingSince := 0);
      assert state == AfterReceipt(was[n], i, now);
      ArrivalAt(was, mapBlocksInFlight, hash, i, now);
      RemoveKeeps(mapNodeState, mapBlocksInFlight, hash, i, state);
      CountUpdate(was, n, state);
      RemovedBelow(was, n, i, now, nextNode);
      hide AfterReceipt, Below;
      mapNodeState := mapNodeState[n := state];
      mapBlocksInFlight := mapBlocksInFlight - {hash};
    }

    /** The block is now requested from this peer and from no other. */
    method MarkBlockAsInFlight(nodeid: NodeId, hash: Hash, pindex: BlockPtr, now: int)
      requires Valid() && nodeid in mapNodeState
      modifies this`mapNodeState, this`mapBlocksInFlight, this`nPeersWithValidatedDownloads, this`nextNode
      ensures Valid() && mapNodeState.Keys == old(mapNodeState).Keys
      ensures mapBlocksInFlight == old(mapBlocksInFlight)[hash := (nodeid, old(nextNode))]
      ensures exists mid: Nodes {:trigger Arrival(old(mapNodeState), old(mapBlocksInFlight), mid, hash, now)} ::
                && Arrival(old(mapNodeState), old(mapBlocksInFlight), mid, hash, now) && nodeid in mid
                && mapNodeState == mid[nodeid := AfterRequest(mid[nodeid], QueuedBlock(old(nextNode), hash, pindex, pindex != NIL), now)]
    {
      hide Matched, Downloading, Preferred, Below, RemoveAt, Arrival, AfterRequest;
      var _ := MarkBlockAsReceived(hash, now);
      ghost var mid := mapNodeState;
      AppendRequest(nodeid, hash, pindex, now);
      assert Arrival(old(mapNodeState), old(mapBlocksInFlight), mid, hash, now);
    }

    /** A block that is not in flight joins the end of a peer's list. */
    method AppendRequest(nodeid: NodeId, hash: Hash, pindex: BlockPtr, now: int)
      requires Valid() && nodeid in mapNodeState && hash !in mapBlocksInFlight
      modifies this`mapNodeState, this`mapBlocksInFlight, this`nPeersWithValidatedDownloads, this`nextNode
      ensures Valid() && mapBlocksInFlight == old(mapBlocksInFlight)[hash := (nodeid, old(nextNode))]
      ensures mapNodeState == old(mapNodeState)[nodeid :=
                AfterRequest(old(mapNodeState)[nodeid], QueuedBlock(old(nextNode), hash, pindex, pindex != NIL), now)]
    {
      hide Matched, Downloading, Preferred;
      ghost var was := mapNodeState;
      var state := mapNodeState[nodeid];
      var newentry := QueuedBlock(nextNode, hash, pindex, pindex != NIL);
      state := state.(vBlocksInFlight := state.vBlocksInFlight + [newentry], nBlocksInFlight := state.nBlocksInFlight + 1,
                      nBlocksInFlightValidHeaders := state.nBlocksInFlightValidHeaders + AsInt(newentry.fValidatedHeaders));
      if state.nBlocksInFlight == 1 {
        state := state.(nDownloadingSince := now);
      }
      if state.nBlocksInFlightValidHeaders == 1 && pindex != NIL {
        nPeersWithValidatedDownloads := nPeersWithValidatedDownloads + 1;
      }
      AppendKeeps(mapNodeState, mapBlocksInFlight, nodeid, newentry, state);
      CountersNonNegative(mapNodeState, mapBlocksInFlight, nodeid);
      CounterExact(mapNodeState, mapBlocksInFlight, nodeid);
      CountUpdate(was, nodeid, state);
      StillBelow(was, nodeid, state, nextNode + 1);
      hide Below;
      mapNodeState := mapNodeState[nodeid := state];
      mapBlocksInFlight := mapBlocksInFlight[hash := (nodeid, nextNode)];
      nextNode := nextNode + 1;
    }

    /** A departing peer leaves nothing behind; after the last one the tracker is empty, as the code asserts. */
    method FinalizeNode(nodeid: NodeId)
      requires Valid() && nodeid in mapNodeState
      modifies this`mapNodeState, this`mapBlocksInFlight, this`nPreferredDownload, this`nPeersWithValidatedDownloads
      ensures Valid() && mapNodeState == old(mapNodeState) - {nodeid}
      ensures mapBlocksInFlight == old(mapBlocksInFlight) - Hashes(old(mapNodeState)[nodeid].vBlocksInFlight)
      ensures nPeersWithValidatedDownloads >= 0
      ensures mapNodeState == map[] ==>
                mapBlocksInFlight == map[] && nPreferredDownload == 0 && nPeersWithValidatedDownloads == 0
    {
      hide Matched, Downloading, Preferred;
      var state := mapNodeState[nodeid];
      ghost var q := state.vBlocksInFlight;
      ghost var flights := mapBlocksInFlight;
      for k := 0 to |state.vBlocksInFlight|
        invariant mapBlocksInFlight == flights - Hashes(q[..k])
        invariant mapNodeState == old(mapNodeState) && nPreferredDownload == old(nPreferredDownload)
        invariant nPeersWithValidatedDownloads == old(nPeersWithValidatedDownloads)
      {
        mapBlocksInFlight := mapBlocksInFlight - {state.vBlocksInFlight[k].hash};
        assert Hashes(q[..k + 1]) == Hashes(q[..k]) + {q[k].hash} by {
          assert q[..k + 1] == q[..k] + [q[k]];
        }
      }
      assert q[..|q|] == q;
      DepartKeeps(mapNodeState, flights, nodeid);
      CountRemove(mapNodeState, nodeid);
      nPreferredDownload := nPreferredDownload - AsInt(state.fPreferredDownload);
      nPeersWithValidatedDownloads := nPeersWithValidatedDownloads - AsInt(state.nBlocksInFlightValidHeaders != 0);
      assert nPeersWithValidatedDownloads >= 0;
      mapNodeState := mapNodeState - {nodeid};
      if |mapNodeState| == 0 {
        NoPeersNothingInFlight(mapNodeState, mapBlocksInFlight);
        assert |mapBlocksInFlight| == 0;
        assert nPreferredDownload == 0;
        assert nPeersWithValidatedDownloads == 0;
      }
    }

    /** One event; requests to and departures of unknown peers do not occur and are ignored. */
    method Handle(e: Event, now: int)
      requires Valid()
      modifies this
      ensures Valid() && Abstract() == Next(old(Abstract()), e)
    {
      hide Matched, Downloading, Preferred, Below;
      match e {
        case Arrive(n) => InitializeNode(n);
        case Classify(n, fInbound, fWhitelisted, fOneShot, fClient) =>
          if n in mapNodeState {
            UpdatePreferredDownload(n, fInbound, fWhitelisted, fOneShot, fClient);
          }
        case Request(n, hash, pindex) =>
          if n in mapNodeState {
            MarkBlockAsInFlight(n, hash, pindex, now);
          }
        case Receive(hash) => var _ := MarkBlockAsReceived(hash, now);
        case Depart(n) =>
          if n in mapNodeState {
            OwnersAfterDeparture(mapNodeState, mapBlocksInFlight, n);
            FinalizeNode(n);
          } else {
            NotOwner(mapNodeState, mapBlocksInFlight, n);
          }
      }
    }
  }

  lemma NotOwner(nodes: Nodes, flights: Flights, n: NodeId)
    requires Matched(nodes, flights) && n !in nodes
    ensures Owners(flights) == map h | h in Owners(flights) && Owners(flights)[h] != n :: Owners(flights)[h]
  {
    forall h | h in flights
      ensures flights[h].0 != n
    {
      RequestedFromPeer(nodes, flights, h);
    }
  }

  /** Every run: the tracker follows the reference, its counters stay exact, and it is empty once everyone has left. */
  method Run(events: seq<Event>, clock: nat -> int) returns (t: Tracker)
    ensures t.Valid() && t.Abstract() == After(events)
    ensures After(events).peers == {} ==>
              t.mapBlocksInFlight == map[] && t.nPreferredDownload == 0 && t.nPeersWithValidatedDownloads == 0
  {
    hide Matched, Downloading, Preferred, Below;
    t := new Tracker();
    for i := 0 to |events|
      invariant fresh(t) && t.Valid() && t.Abstract() == After(events[..i])
    {
      assert events[..i + 1][..i] == events[..i];
      t.Handle(events[i], clock(i));
    }
    assert events[..|events|] == events;
    if t.mapNodeState.Keys == {} {
      NoPeersNothingInFlight(t.mapNodeState, t.mapBlocksInFlight);
    }
  }
}
