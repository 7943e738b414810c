/** Model of the Chord finger table and of the local routing scans over it
    (chord/chord_component.py).

    Nodes are modelled by identity: a node is its integer id, and a finger
    entry's node reference is the id of the component it points to. A ring
    of components is a map from node id to component, so that
    `FindPredecessor` can walk from table to table.

    All arithmetic is plain integer arithmetic, as in the source: starts are
    `owner + 2^i` with no reduction and every interval test is an ordinary
    `<` / `<=` comparison. There is no wrap-around. */
module Chord {

  /** SYSTEM_SIZE_BITS: the number of entries of every finger table. */
  const SystemSizeBits: int := 10

  type NodeId = int

  function Pow2(i: nat): nat
  {
    if i == 0 then 1 else 2 * Pow2(i - 1)
  }

  /** FingerTableEntry: a fixed start and the node believed to succeed it. */
  datatype FingerEntry = FingerEntry(start: int, node: NodeId)

  /** Outcome of FingerTable.find_successor: a node, or the IndexError that
      reading entries[SystemSizeBits] raises. */
  datatype Lookup = Found(node: NodeId) | IndexOutOfRange

  /** Outcome of find_predecessor: the node whose successor interval holds
      the id, or the node at which the walk stalls (closest_preceding_finger
      found no finger, so the source's loop would repeat forever). */
  datatype Walk = Predecessor(node: NodeId) | Stalled(node: NodeId)

  // ---------------------------------------------------------------------
  // closest_preceding_finger, as a function of the entries

  /** Index i qualifies for closest_preceding_finger(id) on node self. */
  predicate Precedes(self: NodeId, entries: seq<FingerEntry>, id: int, i: nat)
    requires i < |entries|
  {
    self < entries[i].node < id
  }

  /** The scan of indices i, i-1, ..., 1 (index 0 is never looked at).
      When no index qualifies the result is self: the source returns
      `self.node_id`, which under the identity model is self. */
  function PrecedingScan(self: NodeId, entries: seq<FingerEntry>, id: int, i: nat): NodeId
    requires i < |entries|
  {
    if i == 0 then self
    else if Precedes(self, entries, id, i) then entries[i].node
    else PrecedingScan(self, entries, id, i - 1)
  }

  /** closest_preceding_finger(id) of node self with the given table. */
  function ClosestPreceding(self: NodeId, entries: seq<FingerEntry>, id: int): NodeId
    requires |entries| == SystemSizeBits
  {
    PrecedingScan(self, entries, id, SystemSizeBits - 1)
  }

  /** k is the highest index in 1..i that qualifies. */
  predicate HighestPreceding(self: NodeId, entries: seq<FingerEntry>, id: int, k: nat, i: nat)
    requires i < |entries|
  {
    && 1 <= k <= i
    && Precedes(self, entries, id, k)
    && forall j :: k < j <= i ==> !Precedes(self, entries, id, j)
  }

  /** The scan returns the node of the highest qualifying index in 1..i, or
      self exactly when no index in 1..i qualifies. */
  lemma {:induction false} PrecedingScanCases(self: NodeId, entries: seq<FingerEntry>, id: int, i: nat)
    requires i < |entries|
    ensures var r := PrecedingScan(self, entries, id, i);
      || ((forall j :: 1 <= j <= i ==> !Precedes(self, entries, id, j)) && r == self)
      || (exists k: nat :: HighestPreceding(self, entries, id, k, i) && r == entries[k].node)
  {
    if i > 0 && !Precedes(self, entries, id, i) {
      PrecedingScanCases(self, entries, id, i - 1);
      var r := PrecedingScan(self, entries, id, i - 1);
      if exists k: nat :: HighestPreceding(self, entries, id, k, i - 1) && r == entries[k].node {
        var k: nat :| HighestPreceding(self, entries, id, k, i - 1) && r == entries[k].node;
        assert HighestPreceding(self, entries, id, k, i);
      }
    } else if i > 0 {
      assert HighestPreceding(self, entries, id, i, i);
    }
  }

  /** Whatever k is the highest qualifying index, the scan returns its node. */
  lemma {:induction false} PrecedingScanHighest(self: NodeId, entries: seq<FingerEntry>, id: int, k: nat, i: nat)
    requires i < |entries|
    requires HighestPreceding(self, entries, id, k, i)
    ensures PrecedingScan(self, entries, id, i) == entries[k].node
  {
    if k < i {
      assert !Precedes(self, entries, id, i);
      PrecedingScanHighest(self, entries, id, k, i - 1);
    }
  }

  /** A finger that is returned lies strictly between self and id; the
      fallback is self itself; and every result is self or a finger of
      index 1..i. */
  lemma {:induction false} PrecedingScanBetween(self: NodeId, entries: seq<FingerEntry>, id: int, i: nat)
    requires i < |entries|
    ensures var r := PrecedingScan(self, entries, id, i);
      && (r != self ==> self < r < id)
      && (r == self || exists j :: 1 <= j <= i && r == entries[j].node)
  {
    if i > 0 && !Precedes(self, entries, id, i) {
      PrecedingScanBetween(self, entries, id, i - 1);
    }
  }

  /** Entry 0 is never considered: replacing it does not change the result. */
  lemma {:induction false} PrecedingScanIgnoresIndexZero(self: NodeId, entries: seq<FingerEntry>, id: int, i: nat, e: FingerEntry)
    requires i < |entries|
    ensures PrecedingScan(self, entries[0 := e], id, i) == PrecedingScan(self, entries, id, i)
  {
    if i > 0 {
      assert entries[0 := e][i] == entries[i];
      PrecedingScanIgnoresIndexZero(self, entries, id, i - 1, e);
    }
  }

  /** When self >= id no finger can qualify, so the scan falls back to self. */
  lemma {:induction false} PrecedingScanPastTarget(self: NodeId, entries: seq<FingerEntry>, id: int, i: nat)
    requires i < |entries|
    requires id <= self
    ensures PrecedingScan(self, entries, id, i) == self
  {
    if i > 0 {
      PrecedingScanPastTarget(self, entries, id, i - 1);
    }
  }

  // ---------------------------------------------------------------------
  // FingerTable.find_successor, as a function of the entries

  /** Index i qualifies for find_successor(id): id lies strictly between the
      nodes of entries i and i + 1. */
  predicate InGap(entries: seq<FingerEntry>, id: int, i: nat)
    requires i + 1 < |entries|
  {
    entries[i].node < id < entries[i + 1].node
  }

  /** The scan of indices i, i-1, ..., 1. Python's chained comparison
      `a < id < b` reads `b` (here entries[i + 1]) only when `a < id` holds,
      so the out-of-range read happens only in that case. */
  function SuccessorScan(owner: NodeId, entries: seq<FingerEntry>, id: int, i: nat): Lookup
    requires i < |entries|
  {
    if i == 0 then Found(owner)
    else if !(entries[i].node < id) then SuccessorScan(owner, entries, id, i - 1)
    else if i + 1 == |entries| then IndexOutOfRange
    else if id < entries[i + 1].node then Found(entries[i].node)
    else SuccessorScan(owner, entries, id, i - 1)
  }

  /** FingerTable.find_successor(id) for a table owned by owner. */
  function FindSuccessorOf(owner: NodeId, entries: seq<FingerEntry>, id: int): Lookup
    requires |entries| == SystemSizeBits
  {
    SuccessorScan(owner, entries, id, SystemSizeBits - 1)
  }

  /** k is the highest index in 1..i that qualifies for find_successor. */
  predicate HighestGap(entries: seq<FingerEntry>, id: int, k: nat, i: nat)
    requires i + 1 < |entries|
  {
    && 1 <= k <= i
    && InGap(entries, id, k)
    && forall j :: k < j <= i ==> !InGap(entries, id, j)
  }

  /** Below the top index the scan never reads past the end of the table and
      returns the node of the highest qualifying index, or the owner when
      none qualifies. */
  lemma {:induction false} SuccessorScanCases(owner: NodeId, entries: seq<FingerEntry>, id: int, i: nat)
    requires i + 1 < |entries|
    ensures var r := SuccessorScan(owner, entries, id, i);
      || ((forall j :: 1 <= j <= i ==> !InGap(entries, id, j)) && r == Found(owner))
      || (exists k: nat :: HighestGap(entries, id, k, i) && r == Found(entries[k].node))
  {
    if i > 0 && !InGap(entries, id, i) {
      SuccessorScanCases(owner, entries, id, i - 1);
      var r := SuccessorScan(owner, entries, id, i - 1);
      if exists k: nat :: HighestGap(entries, id, k, i - 1) && r == Found(entries[k].node) {
        var k: nat :| HighestGap(entries, id, k, i - 1) && r == Found(entries[k].node);
        assert HighestGap(entries, id, k, i);
      }
    } else if i > 0 {
      assert HighestGap(entries, id, i, i);
    }
  }

  /** find_successor fails (reads entries[SystemSizeBits]) exactly when the
      node of the top entry lies below id; otherwise it returns the node of
      the highest index k in 1..SystemSizeBits-2 with
      entries[k].node < id < entries[k+1].node, or the owner if there is none. */
  lemma FindSuccessorCases(owner: NodeId, entries: seq<FingerEntry>, id: int)
    requires |entries| == SystemSizeBits
    ensures var r := FindSuccessorOf(owner, entries, id);
      && (r == IndexOutOfRange <==> entries[SystemSizeBits - 1].node < id)
      && (r != IndexOutOfRange ==>
            || ((forall j :: 1 <= j < SystemSizeBits - 1 ==> !InGap(entries, id, j)) && r == Found(owner))
            || (exists k: nat :: HighestGap(entries, id, k, SystemSizeBits - 2) && r == Found(entries[k].node)))
  {
    SuccessorScanCases(owner, entries, id, SystemSizeBits - 2);
  }

  /** A table whose every finger is its owner n (a fresh table, or one after
      join(None)): closest_preceding_finger finds no finger. */
  lemma LoneTablePreceding(n: NodeId, entries: seq<FingerEntry>, id: int)
    requires |entries| == SystemSizeBits
    requires forall i :: 0 <= i < |entries| ==> entries[i].node == n
    ensures ClosestPreceding(n, entries, id) == n
  {
    PrecedingScanBetween(n, entries, id, SystemSizeBits - 1);
  }

  /** On a table whose every finger is its owner n, find_successor returns n
      for an id up to n and fails for any id above n. */
  lemma LoneTableSuccessor(n: NodeId, entries: seq<FingerEntry>, id: int)
    requires |entries| == SystemSizeBits
    requires forall i :: 0 <= i < |entries| ==> entries[i].node == n
    ensures FindSuccessorOf(n, entries, id) == if n < id then IndexOutOfRange else Found(n)
  {
    FindSuccessorCases(n, entries, id);
  }

  // ---------------------------------------------------------------------
  // The finger table and the component

  /** FingerTable: the owner (by id) and its fixed-length list of entries.
      The list object is never replaced, only its elements. */
  class FingerTable {
    const owner: NodeId
    const entries: array<FingerEntry>

    /** The table has SystemSizeBits entries. */
    predicate Sized() {
      entries.Length == SystemSizeBits
    }

    /** Sized, and entry i starts at owner + 2^i. */
    ghost predicate Valid()
      reads entries
    {
      && Sized()
      && forall i :: 0 <= i < entries.Length ==> entries[i].start == owner + Pow2(i)
    }

    /** FingerTable(node): entry i is (owner + 2^i, owner). */
    constructor (owner: NodeId)
      ensures this.owner == owner && fresh(entries) && Valid()
      ensures forall i :: 0 <= i < SystemSizeBits ==> entries[i] == FingerEntry(owner + Pow2(i), owner)
    {
      this.owner := owner;
      entries := new FingerEntry[SystemSizeBits](i requires 0 <= i => FingerEntry(owner + Pow2(i), owner));
    }

    /** update(i, s): sets the node of entry i to s. For an index outside
        -SystemSizeBits..SystemSizeBits-1 Python raises IndexError (ok is
        false and nothing changes); a negative index counts from the end. */
    method Update(i: int, s: NodeId) returns (ok: bool)
      requires Valid()
      modifies entries
      ensures Valid()
      ensures ok <==> -SystemSizeBits <= i < SystemSizeBits
      ensures ok ==> var k := if i < 0 then i + SystemSizeBits else i;
                     entries[..] == old(entries[..])[k := FingerEntry(old(entries[k].start), s)]
      ensures !ok ==> entries[..] == old(entries[..])
    {
      if -SystemSizeBits <= i < SystemSizeBits {
        var k := if i < 0 then i + SystemSizeBits else i;
        entries[k] := entries[k].(node := s);
        ok := true;
      } else {
        ok := false;
      }
    }

    /** find_successor(id): scans indices SystemSizeBits-1 down to 1. */
    method FindSuccessor(id: int) returns (r: Lookup)
      requires Sized()
      ensures r == FindSuccessorOf(owner, entries[..], id)
      ensures r == IndexOutOfRange <==> entries[SystemSizeBits - 1].node < id
    {
      FindSuccessorCases(owner, entries[..], id);
      var i := SystemSizeBits - 1;
      while i > 0
        invariant 0 <= i < SystemSizeBits
        invariant FindSuccessorOf(owner, entries[..], id) == SuccessorScan(owner, entries[..], id, i)
      {
        if entries[i].node < id {
          if i + 1 == entries.Length {
            return IndexOutOfRange;
          }
          if id < entries[i + 1].node {
            return Found(entries[i].node);
          }
        }
        i := i - 1;
      }
      return Found(owner);
    }
  }

  /** ChordComponent after on_init: its node id is its instance number and
      it owns a fresh finger table. */
  class ChordComponent {
    const componentName: string
    const componentInstanceNumber: int
    const nodeId: NodeId
    const fingerTable: FingerTable

    constructor (componentName: string, componentInstanceNumber: int)
      ensures this.componentName == componentName
      ensures this.componentInstanceNumber == componentInstanceNumber
      ensures nodeId == componentInstanceNumber
      ensures fresh(fingerTable) && fresh(fingerTable.entries)
      ensures fingerTable.owner == nodeId && fingerTable.Valid()
      ensures forall i :: 0 <= i < SystemSizeBits ==> fingerTable.entries[i].node == nodeId
    {
      this.componentName := componentName;
      this.componentInstanceNumber := componentInstanceNumber;
      nodeId := componentInstanceNumber;
      fingerTable := new FingerTable(componentInstanceNumber);
    }

    /** successor(): the node of entry 0. */
    function Successor(): (s: NodeId)
      reads fingerTable.entries
      requires fingerTable.Sized()
      ensures s == fingerTable.entries[0].node
    {
      fingerTable.entries[0].node
    }

    /** join(None): every entry's node becomes this component; the starts
        stay as they were. */
    method Join()
      requires fingerTable.Valid()
      modifies fingerTable.entries
      ensures fingerTable.Valid()
      ensures forall i :: 0 <= i < SystemSizeBits ==>
                fingerTable.entries[i] == FingerEntry(old(fingerTable.entries[i].start), nodeId)
      ensures Successor() == nodeId
    {
      var entries := fingerTable.entries;
      var i := 0;
      while i < entries.Length
        invariant 0 <= i <= entries.Length
        invariant fingerTable.Valid()
        invariant forall j :: 0 <= j < i ==> entries[j] == FingerEntry(old(entries[j].start), nodeId)
        invariant forall j :: i <= j < entries.Length ==> entries[j] == old(entries[j])
      {
        entries[i] := entries[i].(node := nodeId);
        i := i + 1;
      }
    }

    /** closest_preceding_finger(id): scans indices SystemSizeBits-1 down
        to 1. The source returns `self.finger_table[i]`, but FingerTable
        has no indexing: the evident intent, modelled here, is the node of
        entry i. Its fallback `return self.node_id` is, by identity, this
        component. */
    method ClosestPrecedingFinger(id: int) returns (r: NodeId)
      requires fingerTable.Sized()
      ensures r == ClosestPreceding(nodeId, fingerTable.entries[..], id)
      ensures r != nodeId ==> nodeId < r < id
      ensures r == nodeId || exists j :: 1 <= j < SystemSizeBits && r == fingerTable.entries[j].node
    {
      var entries := fingerTable.entries;
      PrecedingScanBetween(nodeId, entries[..], id, SystemSizeBits - 1);
      var i := SystemSizeBits - 1;
      while i > 0
        invariant 0 <= i < SystemSizeBits
        invariant ClosestPreceding(nodeId, entries[..], id) == PrecedingScan(nodeId, entries[..], id, i)
      {
        if nodeId < entries[i].node < id {
          return entries[i].node;
        }
        i := i - 1;
      }
      return nodeId;
    }

    /** find_predecessor(id): starting at this component, hop to
        closest_preceding_finger(id) while id is not in
        (cur.node_id, successor(cur).node_id]. The source writes the guard
        with `other_node.node_id.successor.node_id`; the evident intent,
        modelled here, is successor(other_node).node_id. When the finger
        scan falls back to the current node the source would repeat the
        same step forever; the model reports Stalled there. */
    method FindPredecessor(ring: map<NodeId, ChordComponent>, id: int) returns (r: Walk, ghost path: seq<NodeId>)
      requires RingValid(ring)
      requires nodeId in ring && ring[nodeId] == this
      ensures r.node in ring
      ensures r.Predecessor? ==> Covers(ring[r.node], id)
      ensures r.Stalled? ==> !Covers(ring[r.node], id)
                             && ClosestPreceding(r.node, ring[r.node].fingerTable.entries[..], id) == r.node
      ensures Covers(this, id) ==> r == Predecessor(nodeId)
      ensures |path| >= 1 && path[0] == nodeId && path[|path| - 1] == r.node
      ensures forall k :: 0 <= k < |path| - 1 ==> Hop(ring, id, path[k], path[k + 1])
    {
      var cur := this;
      path := [nodeId];
      while !Covers(cur, id)
        invariant cur.nodeId in ring && ring[cur.nodeId] == cur
        invariant |path| >= 1 && path[0] == nodeId && path[|path| - 1] == cur.nodeId
        invariant forall k :: 0 <= k < |path| - 1 ==> Hop(ring, id, path[k], path[k + 1])
        decreases id - cur.nodeId
      {
        var next := cur.ClosestPrecedingFinger(id);
        if next == cur.nodeId {
          return Stalled(cur.nodeId), path;
        }
        ghost var j: int :| 1 <= j < SystemSizeBits && next == cur.fingerTable.entries[j].node;
        assert next in ring;
        assert Hop(ring, id, cur.nodeId, next);
        ghost var walked := path;
        path := path + [next];
        assert forall k :: 0 <= k < |path| - 1 ==> Hop(ring, id, path[k], path[k + 1]) by {
          forall k | 0 <= k < |path| - 1
            ensures Hop(ring, id, path[k], path[k + 1])
          {
            if k < |walked| - 1 {
              assert path[k] == walked[k] && path[k + 1] == walked[k + 1];
            }
          }
        }
        cur := ring[next];
      }
      assert |path| > 1 ==> Hop(ring, id, path[0], path[1]);
      return Predecessor(cur.nodeId), path;
    }
  }

  /** id lies in the successor interval (c.node_id, successor(c).node_id]. */
  predicate Covers(c: ChordComponent, id: int)
    reads c.fingerTable.entries
    requires c.fingerTable.Sized()
  {
    c.nodeId < id <= c.Successor()
  }

  /** A ring: each id maps to the component with that id, each table is
      valid, and every finger points at a member of the ring. */
  ghost predicate RingValid(ring: map<NodeId, ChordComponent>)
    reads set n | n in ring :: ring[n].fingerTable.entries
  {
    forall n {:trigger ring[n]} :: n in ring ==>
      && ring[n].nodeId == n
      && ring[n].fingerTable.Sized()
      && forall j :: 0 <= j < SystemSizeBits ==> ring[n].fingerTable.entries[j].node in ring
  }

  /** One step of find_predecessor: at a, id is outside a's successor
      interval, and b is closest_preceding_finger(id) of a, a finger strictly
      between a and id. */
  ghost predicate Hop(ring: map<NodeId, ChordComponent>, id: int, a: NodeId, b: NodeId)
    reads set n | n in ring :: ring[n].fingerTable.entries
  {
    && a in ring
    && ring[a].fingerTable.Sized()
    && !Covers(ring[a], id)
    && b == ClosestPreceding(a, ring[a].fingerTable.entries[..], id)
    && a < b < id
  }

  /** A lone node, whose every finger is itself, never holds any id in its
      successor interval and finds no preceding finger: find_predecessor
      started there stalls at once (the source's loop would not end). */
  lemma LoneNodeStalls(c: ChordComponent, id: int)
    requires c.fingerTable.Sized()
    requires forall i :: 0 <= i < SystemSizeBits ==> c.fingerTable.entries[i].node == c.nodeId
    ensures !Covers(c, id)
    ensures ClosestPreceding(c.nodeId, c.fingerTable.entries[..], id) == c.nodeId
  {
    LoneTablePreceding(c.nodeId, c.fingerTable.entries[..], id);
  }

  /** find_predecessor started at a lone node returns Stalled at that node,
      without a hop: the source's loop never ends there. */
  method LoneNodeWalk(ring: map<NodeId, ChordComponent>, c: ChordComponent, id: int) returns (r: Walk)
    requires RingValid(ring)
    requires c.nodeId in ring && ring[c.nodeId] == c
    requires forall i :: 0 <= i < SystemSizeBits ==> c.fingerTable.entries[i].node == c.nodeId
    ensures r == Stalled(c.nodeId)
  {
    LoneNodeStalls(c, id);
    ghost var path;
    r, path := c.FindPredecessor(ring, id);
    assert |path| == 1 || Hop(ring, id, path[0], path[1]);
  }
}
