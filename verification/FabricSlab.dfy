/** The shared in-flight slab of the multi-link fabric
    (core/include/router/multi_device_fabric.hpp, core/src/forwarding/multi_device_fabric.cpp:
    InFlightNode, free_in_flight_, allocate_in_flight, release_in_flight, and the list surgery of
    pump_transmit, pump_delivery and drain).

    One array of nodes holds a singly linked list for every link direction, and one array holds the
    stack of free node indices. The ghost fields say where every index lives; `Partitioned` makes
    that a bijection, so the lists and the free stack partition the slab and no list has a cycle. */
module FabricSlab {

  const NO_NODE: nat := 0xffff_ffff

  datatype Flight = Flight(packet: nat, delivered: int)

  datatype Node = Node(packet: nat, delivered: int, next: nat)

  /** Home of a slab index: a cell of the free stack, or a place in a direction's list. Places are
      numbered by the order of appending, so removing the front renumbers nothing. */
  datatype Home = OnStack(cell: int) | InList(direction: int, ticket: int)

  /** Every cell of the free stack and every place of a list holds the index that is at home there,
      and every index is at home somewhere. */
  ghost predicate Partitioned(free: seq<nat>, lists: seq<seq<nat>>, firsts: seq<int>, homes: seq<Home>) {
    && |firsts| == |lists|
    && (forall k {:trigger free[k]} :: 0 <= k < |free| ==>
          free[k] < |homes| && homes[free[k]] == OnStack(k))
    && (forall d, p {:trigger lists[d][p]} :: 0 <= d < |lists| && 0 <= p < |lists[d]| ==>
          lists[d][p] < |homes| && homes[lists[d][p]] == InList(d, firsts[d] + p))
    && (forall i {:trigger AtHome(free, lists, firsts, i, homes[i])} :: 0 <= i < |homes| ==>
          AtHome(free, lists, firsts, i, homes[i]))
  }

  ghost predicate AtHome(free: seq<nat>, lists: seq<seq<nat>>, firsts: seq<int>, i: int, home: Home)
    requires |firsts| == |lists|
  {
    match home
    case OnStack(k) => 0 <= k < |free| && free[k] == i
    case InList(d, t) =>
      && 0 <= d < |lists| && 0 <= t - firsts[d] < |lists[d]|
      && lists[d][t - firsts[d]] == i
  }

  /** Head, tail and next fields spell out `list`. */
  ghost predicate Linked(nodes: seq<Node>, list: seq<nat>, head: nat, tail: nat) {
    && head == (if list == [] then NO_NODE else list[0])
    && tail == (if list == [] then NO_NODE else list[|list| - 1])
    && (forall p {:trigger list[p]} :: 0 <= p < |list| ==> list[p] < |nodes|)
    && (forall p {:trigger nodes[list[p]]} :: 0 <= p < |list| ==>
          nodes[list[p]].next == if p + 1 < |list| then list[p + 1] else NO_NODE)
  }

  function FlightAt(nodes: seq<Node>, i: nat): Flight {
    if i < |nodes| then Flight(nodes[i].packet, nodes[i].delivered) else Flight(0, 0)
  }

  /** The frames of a list, oldest first. */
  ghost function FlightsOf(nodes: seq<Node>, list: seq<nat>): (s: seq<Flight>)
    ensures |s| == |list|
  {
    seq(|list|, p requires 0 <= p < |list| => FlightAt(nodes, list[p]))
  }

  /** Moving the top of the free stack to the end of list `d` keeps the partition. */
  lemma TakePartition(free: seq<nat>, lists: seq<seq<nat>>, firsts: seq<int>, homes: seq<Home>, d: nat)
    requires Partitioned(free, lists, firsts, homes) && free != [] && d < |lists|
    ensures var index := free[|free| - 1];
            Partitioned(free[..|free| - 1], lists[d := lists[d] + [index]], firsts,
                        homes[index := InList(d, firsts[d] + |lists[d]|)])
  {
    var index := free[|free| - 1];
    var free', lists' := free[..|free| - 1], lists[d := lists[d] + [index]];
    var homes' := homes[index := InList(d, firsts[d] + |lists[d]|)];
    forall e, p | 0 <= e < |lists'| && 0 <= p < |lists'[e]|
      ensures lists'[e][p] < |homes'| && homes'[lists'[e][p]] == InList(e, firsts[e] + p)
    {
      if e != d || p < |lists[d]| {
        assert lists'[e][p] == lists[e][p];
      }
    }
    forall i | 0 <= i < |homes'|
      ensures AtHome(free', lists', firsts, i, homes'[i])
    {
      assert AtHome(free, lists, firsts, i, homes[i]);
    }
  }

  /** Moving the front of list `d` to the top of the free stack keeps the partition. */
  lemma GivePartition(free: seq<nat>, lists: seq<seq<nat>>, firsts: seq<int>, homes: seq<Home>, d: nat)
    requires Partitioned(free, lists, firsts, homes) && d < |lists| && lists[d] != []
    ensures var index := lists[d][0];
            Partitioned(free + [index], lists[d := lists[d][1..]], firsts[d := firsts[d] + 1],
                        homes[index := OnStack(|free|)])
  {
    var index := lists[d][0];
    var free', lists', firsts' := free + [index], lists[d := lists[d][1..]], firsts[d := firsts[d] + 1];
    var homes' := homes[index := OnStack(|free|)];
    forall e, p | 0 <= e < |lists'| && 0 <= p < |lists'[e]|
      ensures lists'[e][p] < |homes'| && homes'[lists'[e][p]] == InList(e, firsts'[e] + p)
    {
      if e == d {
        assert lists'[e][p] == lists[d][p + 1];
      } else {
        assert lists'[e][p] == lists[e][p];
      }
    }
    forall i | 0 <= i < |homes'|
      ensures AtHome(free', lists', firsts', i, homes'[i])
    {
      assert AtHome(free, lists, firsts, i, homes[i]);
    }
  }

  /** An index is not in list `e` unless its home says so, and it is there once. */
  lemma HomeExcludes(free: seq<nat>, lists: seq<seq<nat>>, firsts: seq<int>, homes: seq<Home>,
                     i: nat, e: nat, p: nat)
    requires Partitioned(free, lists, firsts, homes) && i < |homes|
    requires e < |lists| && p < |lists[e]| && lists[e][p] == i
    ensures homes[i] == InList(e, firsts[e] + p)
  {
  }

  /** Changing nodes outside a list affects neither its links nor its frames. */
  lemma FrameList(nodes: seq<Node>, nodes': seq<Node>, list: seq<nat>, head: nat, tail: nat)
    requires Linked(nodes, list, head, tail) && |nodes'| == |nodes|
    requires forall p :: 0 <= p < |list| ==> nodes'[list[p]] == nodes[list[p]]
    ensures Linked(nodes', list, head, tail)
    ensures FlightsOf(nodes', list) == FlightsOf(nodes, list)
  {
  }

  /** Writing a fresh last node and pointing the old tail at it appends to the list. */
  lemma LinkAppend(nodes: seq<Node>, list: seq<nat>, head: nat, tail: nat, index: nat, f: Flight)
    requires |nodes| <= NO_NODE && index < |nodes| && Linked(nodes, list, head, tail)
    requires forall p, q :: 0 <= p < q < |list| ==> list[p] != list[q]
    requires forall p :: 0 <= p < |list| ==> list[p] != index
    ensures var fresh' := nodes[index := Node(f.packet, f.delivered, NO_NODE)];
            var nodes' := if list == [] then fresh' else fresh'[tail := nodes[tail].(next := index)];
            && Linked(nodes', list + [index], if list == [] then index else head, index)
            && FlightsOf(nodes', list + [index]) == FlightsOf(nodes, list) + [f]
  {
  }

  /** Dropping the first node leaves the rest of the list. */
  lemma LinkDrop(nodes: seq<Node>, list: seq<nat>, head: nat, tail: nat)
    requires Linked(nodes, list, head, tail) && list != []
    ensures Linked(nodes, list[1..], nodes[head].next, if nodes[head].next == NO_NODE then NO_NODE else tail)
         || |nodes| > NO_NODE
    ensures FlightsOf(nodes, list) == [Flight(nodes[head].packet, nodes[head].delivered)] + FlightsOf(nodes, list[1..])
  {
    var rest := list[1..];
    assert forall p :: 0 <= p < |rest| ==> rest[p] == list[p + 1];
  }

  ghost function TotalLength(lists: seq<seq<nat>>): nat {
    if lists == [] then 0 else |lists[0]| + TotalLength(lists[1..])
  }

  lemma {:induction false} TotalOfUpdate(lists: seq<seq<nat>>, d: nat, list: seq<nat>)
    requires d < |lists|
    ensures TotalLength(lists[d := list]) == TotalLength(lists) - |lists[d]| + |list|
    decreases |lists|
  {
    if d == 0 {
      assert lists[d := list][1..] == lists[1..];
    } else {
      assert lists[d := list][1..] == lists[1..][d - 1 := list];
      TotalOfUpdate(lists[1..], d - 1, list);
    }
  }

  lemma {:induction false} TotalOfEmpty(lists: seq<seq<nat>>)
    requires forall d :: 0 <= d < |lists| ==> lists[d] == []
    ensures TotalLength(lists) == 0
    decreases |lists|
  {
    if lists != [] {
      TotalOfEmpty(lists[1..]);
    }
  }

  // ---------------------------------------------------------------- the slab as a value

  /** `stack` is the live part of the free array. The last three fields only say where things are. */
  datatype State = State(
    nodes: seq<Node>, stack: seq<nat>, heads: seq<nat>, tails: seq<nat>,
    lists: seq<seq<nat>>, firsts: seq<int>, homes: seq<Home>)

  ghost predicate Linkages(s: State) {
    && |s.lists| == |s.heads| == |s.tails|
    && forall d {:trigger s.lists[d]} :: 0 <= d < |s.lists| ==>
         Linked(s.nodes, s.lists[d], s.heads[d], s.tails[d])
  }

  /** Lists and stack partition the slab, links spell the lists, and every node is counted. */
  ghost predicate ValidState(s: State) {
    && |s.nodes| == |s.homes| <= NO_NODE
    && Partitioned(s.stack, s.lists, s.firsts, s.homes)
    && Linkages(s)
    && |s.stack| + TotalLength(s.lists) == |s.nodes|
  }

  /** The frames in flight on every direction, oldest first. */
  ghost function AllFlights(s: State): (f: seq<seq<Flight>>)
    ensures |f| == |s.lists|
    ensures forall d :: 0 <= d < |f| ==> f[d] == FlightsOf(s.nodes, s.lists[d])
  {
    seq(|s.lists|, d requires 0 <= d < |s.lists| => FlightsOf(s.nodes, s.lists[d]))
  }

  ghost function Appended(s: State, d: nat, f: Flight): State
    requires d < |s.lists| == |s.heads| == |s.tails| == |s.firsts| && s.stack != []
    requires s.stack[|s.stack| - 1] < |s.nodes| == |s.homes|
    requires s.tails[d] == NO_NODE || s.tails[d] < |s.nodes|
  {
    var index := s.stack[|s.stack| - 1];
    var written := s.nodes[index := Node(f.packet, f.delivered, NO_NODE)];
    State(if s.tails[d] == NO_NODE then written else written[s.tails[d] := written[s.tails[d]].(next := index)],
          s.stack[..|s.stack| - 1],
          if s.tails[d] == NO_NODE then s.heads[d := index] else s.heads,
          s.tails[d := index],
          s.lists[d := s.lists[d] + [index]],
          s.firsts,
          s.homes[index := InList(d, s.firsts[d] + |s.lists[d]|)])
  }

  ghost function Dropped(s: State, d: nat): State
    requires d < |s.lists| == |s.heads| == |s.tails| == |s.firsts| && s.lists[d] != []
    requires s.heads[d] < |s.nodes| == |s.homes|
  {
    var index := s.heads[d];
    var next := s.nodes[index].next;
    State(s.nodes[index := Node(0, 0, NO_NODE)],
          s.stack + [index],
          s.heads[d := next],
          if next == NO_NODE then s.tails[d := NO_NODE] else s.tails,
          s.lists[d := s.lists[d][1..]],
          s.firsts[d := s.firsts[d] + 1],
          s.homes[index := OnStack(|s.stack|)])
  }

  /** What makes a taken index and the ends of a list usable. */
  lemma Usable(s: State, d: nat)
    requires ValidState(s) && d < |s.lists|
    ensures |s.firsts| == |s.lists|
    ensures s.stack != [] ==> s.stack[|s.stack| - 1] < |s.nodes|
    ensures s.lists[d] == [] <==> s.tails[d] == NO_NODE
    ensures s.lists[d] == [] <==> s.heads[d] == NO_NODE
    ensures s.lists[d] != [] ==> s.heads[d] == s.lists[d][0] < |s.nodes| && s.tails[d] < |s.nodes|
  {
  }

  /** Every other list lies outside the nodes that an append writes. */
  lemma AppendLeavesOthers(s: State, d: nat, f: Flight, e: nat)
    requires ValidState(s) && d < |s.lists| && s.stack != [] && e < |s.lists| && e != d
    ensures |s.firsts| == |s.lists| && s.stack[|s.stack| - 1] < |s.nodes|
    ensures s.tails[d] == NO_NODE || s.tails[d] < |s.nodes|
    ensures Linked(Appended(s, d, f).nodes, s.lists[e], s.heads[e], s.tails[e])
    ensures FlightsOf(Appended(s, d, f).nodes, s.lists[e]) == FlightsOf(s.nodes, s.lists[e])
  {
    Usable(s, d);
    var s' := Appended(s, d, f);
    forall p | 0 <= p < |s.lists[e]|
      ensures s'.nodes[s.lists[e][p]] == s.nodes[s.lists[e][p]]
    {
      HomeExcludes(s.stack, s.lists, s.firsts, s.homes, s.lists[e][p], e, p);
      assert s.homes[s.stack[|s.stack| - 1]].OnStack?;
      if s.lists[d] != [] {
        HomeExcludes(s.stack, s.lists, s.firsts, s.homes, s.tails[d], d, |s.lists[d]| - 1);
      }
    }
    FrameList(s.nodes, s'.nodes, s.lists[e], s.heads[e], s.tails[e]);
  }

  lemma AppendExtends(s: State, d: nat, f: Flight)
    requires ValidState(s) && d < |s.lists| && s.stack != []
    ensures |s.firsts| == |s.lists| && s.stack[|s.stack| - 1] < |s.nodes|
    ensures s.tails[d] == NO_NODE || s.tails[d] < |s.nodes|
    ensures var s' := Appended(s, d, f);
            && Linked(s'.nodes, s'.lists[d], s'.heads[d], s'.tails[d])
            && FlightsOf(s'.nodes, s'.lists[d]) == FlightsOf(s.nodes, s.lists[d]) + [f]
  {
    Usable(s, d);
    var list, index := s.lists[d], s.stack[|s.stack| - 1];
    forall p | 0 <= p < |list|
      ensures list[p] != index && s.homes[list[p]] == InList(d, s.firsts[d] + p)
    {
      HomeExcludes(s.stack, s.lists, s.firsts, s.homes, list[p], d, p);
      assert s.homes[index].OnStack?;
    }
    LinkAppend(s.nodes, list, s.heads[d], s.tails[d], index, f);
  }

  /** Appending to one list is first-in first-out there and invisible everywhere else. */
  lemma AppendedValid(s: State, d: nat, f: Flight)
    requires ValidState(s) && d < |s.lists| && s.stack != []
    ensures |s.firsts| == |s.lists| && s.stack[|s.stack| - 1] < |s.nodes|
    ensures s.tails[d] == NO_NODE || s.tails[d] < |s.nodes|
    ensures ValidState(Appended(s, d, f))
    ensures AllFlights(Appended(s, d, f)) == AllFlights(s)[d := AllFlights(s)[d] + [f]]
  {
    hide Linked, FlightsOf, TotalLength, Partitioned;
    Usable(s, d);
    AppendExtends(s, d, f);
    TakePartition(s.stack, s.lists, s.firsts, s.homes, d);
    TotalOfUpdate(s.lists, d, s.lists[d] + [s.stack[|s.stack| - 1]]);
    var s' := Appended(s, d, f);
    forall e | 0 <= e < |s.lists| && e != d
      ensures Linked(s'.nodes, s'.lists[e], s'.heads[e], s'.tails[e])
      ensures FlightsOf(s'.nodes, s'.lists[e]) == FlightsOf(s.nodes, s.lists[e])
    {
      AppendLeavesOthers(s, d, f, e);
    }
  }

  lemma DropLeavesOthers(s: State, d: nat, e: nat)
    requires ValidState(s) && d < |s.lists| && s.lists[d] != [] && e < |s.lists| && e != d
    ensures |s.firsts| == |s.lists| && s.heads[d] < |s.nodes|
    ensures Linked(Dropped(s, d).nodes, s.lists[e], s.heads[e], s.tails[e])
    ensures FlightsOf(Dropped(s, d).nodes, s.lists[e]) == FlightsOf(s.nodes, s.lists[e])
  {
    Usable(s, d);
    var s' := Dropped(s, d);
    HomeExcludes(s.stack, s.lists, s.firsts, s.homes, s.heads[d], d, 0);
    forall p | 0 <= p < |s.lists[e]|
      ensures s'.nodes[s.lists[e][p]] == s.nodes[s.lists[e][p]]
    {
      HomeExcludes(s.stack, s.lists, s.firsts, s.homes, s.lists[e][p], e, p);
    }
    FrameList(s.nodes, s'.nodes, s.lists[e], s.heads[e], s.tails[e]);
  }

  lemma DropShortens(s: State, d: nat)
    requires ValidState(s) && d < |s.lists| && s.lists[d] != []
    ensures |s.firsts| == |s.lists| && s.heads[d] < |s.nodes|
    ensures var s' := Dropped(s, d);
            var first := s.nodes[s.heads[d]];
            && Linked(s'.nodes, s'.lists[d], s'.heads[d], s'.tails[d])
            && FlightsOf(s.nodes, s.lists[d])
               == [Flight(first.packet, first.delivered)] + FlightsOf(s'.nodes, s'.lists[d])
  {
    Usable(s, d);
    var list := s.lists[d];
    var rest, s' := list[1..], Dropped(s, d);
    LinkDrop(s.nodes, list, s.heads[d], s.tails[d]);
    forall p | 0 <= p < |rest|
      ensures s'.nodes[rest[p]] == s.nodes[rest[p]]
    {
      HomeExcludes(s.stack, s.lists, s.firsts, s.homes, rest[p], d, p + 1);
      HomeExcludes(s.stack, s.lists, s.firsts, s.homes, list[0], d, 0);
    }
    FrameList(s.nodes, s'.nodes, rest, s'.heads[d], s'.tails[d]);
  }

  /** Releasing the front of one list returns its oldest frame and is invisible everywhere else. */
  lemma DroppedValid(s: State, d: nat)
    requires ValidState(s) && d < |s.lists| && s.lists[d] != []
    ensures |s.firsts| == |s.lists| && s.heads[d] < |s.nodes|
    ensures ValidState(Dropped(s, d))
    ensures AllFlights(s)[d][0] == Flight(s.nodes[s.heads[d]].packet, s.nodes[s.heads[d]].delivered)
    ensures AllFlights(Dropped(s, d)) == AllFlights(s)[d := AllFlights(s)[d][1..]]
  {
    hide Linked, FlightsOf, TotalLength, Partitioned;
    Usable(s, d);
    DropShortens(s, d);
    GivePartition(s.stack, s.lists, s.firsts, s.homes, d);
    TotalOfUpdate(s.lists, d, s.lists[d][1..]);
    var s' := Dropped(s, d);
    forall e | 0 <= e < |s.lists| && e != d
      ensures Linked(s'.nodes, s'.lists[e], s'.heads[e], s'.tails[e])
      ensures FlightsOf(s'.nodes, s'.lists[e]) == FlightsOf(s.nodes, s.lists[e])
    {
      DropLeavesOthers(s, d, e);
    }
  }

  // ---------------------------------------------------------------- the slab in place

  class Slab {
    const nodes: array<Node>
    const free: array<nat>
    var freeCount: nat
    var heads: seq<nat>
    var tails: seq<nat>
    ghost var lists: seq<seq<nat>>
    ghost var firsts: seq<int>
    ghost var homes: seq<Home>
    // The frames in flight on every direction, oldest first: what the links spell out.
    ghost var flights: seq<seq<Flight>>

    ghost function Value(): State
      requires freeCount <= free.Length
      reads this, nodes, free
    {
      State(nodes[..], free[..freeCount], heads, tails, lists, firsts, homes)
    }

    ghost predicate Valid()
      reads this, nodes, free
    {
      && freeCount <= free.Length == nodes.Length
      && ValidState(Value())
      && flights == AllFlights(Value())
    }

    constructor (capacity: nat, directions: nat)
      requires capacity <= NO_NODE
      ensures Valid() && fresh(nodes) && fresh(free)
      ensures nodes.Length == capacity && freeCount == capacity
      ensures flights == seq(directions, i => [])
    {
      var blank := Node(0, 0, NO_NODE);
      nodes := new Node[capacity](i => blank);
      free := new nat[capacity](i requires 0 <= i < capacity => capacity - i - 1);
      freeCount := capacity;
      heads := seq(directions, i => NO_NODE);
      tails := seq(directions, i => NO_NODE);
      lists := seq(directions, i => []);
      firsts := seq(directions, i => 0);
      homes := seq(capacity, i requires 0 <= i < capacity => OnStack(capacity - i - 1));
      flights := seq(directions, i => []);
      TotalOfEmpty(seq(directions, i => []));
    }

    /** The number of nodes in use is the number of frames in flight. */
    lemma InFlightCount()
      requires Valid()
      ensures nodes.Length - freeCount == TotalLength(lists)
      ensures |flights| == |lists| && forall d :: 0 <= d < |lists| ==> |flights[d]| == |lists[d]|
    {
    }

    /** The oldest frame of direction `d`, if any. */
    method Front(d: nat) returns (some: bool, f: Flight)
      requires Valid() && d < |flights|
      ensures some <==> flights[d] != []
      ensures some ==> f == flights[d][0]
    {
      Usable(Value(), d);
      some := heads[d] != NO_NODE;
      f := if some then Flight(nodes[heads[d]].packet, nodes[heads[d]].delivered) else Flight(0, 0);
    }

    /** Takes a node from the stack and links it behind the tail of direction `d`. */
    method Append(d: nat, packet: nat, delivered: int) returns (ok: bool)
      requires Valid() && d < |flights|
      modifies this, nodes
      ensures Valid()
      ensures ok <==> old(freeCount) > 0
      ensures freeCount == if ok then old(freeCount) - 1 else old(freeCount)
      ensures flights == if ok then old(flights)[d := old(flights)[d] + [Flight(packet, delivered)]] else old(flights)
    {
      if freeCount == 0 {
        return false;
      }
      AppendedValid(Value(), d, Flight(packet, delivered));
      Link(d, packet, delivered);
      flights := flights[d := flights[d] + [Flight(packet, delivered)]];
      return true;
    }

    method Link(d: nat, packet: nat, delivered: int)
      requires freeCount <= free.Length == nodes.Length == |homes| && 0 < freeCount
      requires d < |lists| == |heads| == |tails| == |firsts|
      requires free[freeCount - 1] < nodes.Length && (tails[d] == NO_NODE || tails[d] < nodes.Length)
      modifies this, nodes
      ensures freeCount == old(freeCount) - 1 && flights == old(flights)
      ensures Value() == Appended(old(Value()), d, Flight(packet, delivered))
    {
      freeCount := freeCount - 1;
      var index := free[freeCount];
      nodes[index] := Node(packet, delivered, NO_NODE);
      if tails[d] == NO_NODE {
        heads := heads[d := index];
      } else {
        nodes[tails[d]] := nodes[tails[d]].(next := index);
      }
      tails := tails[d := index];
      homes := homes[index := InList(d, firsts[d] + |lists[d]|)];
      lists := lists[d := lists[d] + [index]];
      assert nodes[..] == Appended(old(Value()), d, Flight(packet, delivered)).nodes;
    }

    /** Unlinks the oldest frame of direction `d` and returns its node, cleared, to the stack. */
    method PopFront(d: nat) returns (f: Flight)
      requires Valid() && d < |flights| && flights[d] != []
      modifies this, nodes, free
      ensures Valid()
      ensures freeCount == old(freeCount) + 1
      ensures f == old(flights)[d][0] && flights == old(flights)[d := old(flights)[d][1..]]
    {
      Usable(Value(), d);
      DroppedValid(Value(), d);
      f := Unlink(d);
      flights := flights[d := flights[d][1..]];
    }

    method Unlink(d: nat) returns (f: Flight)
      requires freeCount < free.Length == nodes.Length == |homes|
      requires d < |lists| == |heads| == |tails| == |firsts| && lists[d] != [] && heads[d] < nodes.Length
      modifies this, nodes, free
      ensures freeCount == old(freeCount) + 1 && flights == old(flights)
      ensures f == Flight(old(nodes[heads[d]].packet), old(nodes[heads[d]].delivered))
      ensures Value() == Dropped(old(Value()), d)
    {
      var index := heads[d];
      f := Flight(nodes[index].packet, nodes[index].delivered);
      heads := heads[d := nodes[index].next];
      if heads[d] == NO_NODE {
        tails := tails[d := NO_NODE];
      }
      nodes[index] := Node(0, 0, NO_NODE);
      free[freeCount] := index;
      freeCount := freeCount + 1;
      homes := homes[index := OnStack(freeCount - 1)];
      lists := lists[d := lists[d][1..]];
      firsts := firsts[d := firsts[d] + 1];
      assert nodes[..] == Dropped(old(Value()), d).nodes;
      assert free[..freeCount] == Dropped(old(Value()), d).stack;
    }
  }
}
