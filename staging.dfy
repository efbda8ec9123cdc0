/**
 * SuggestionStage: deletes collected during a bulk load before they are
 * committed to the dictionary.  Every staged suggestion is a node of one
 * growing list; the nodes staged under one delete hash are chained from the
 * most recent back to the first through their `next` indexes.
 */
module Staging {

  datatype Node = Node(suggestion: string, next: int)

  datatype Entry = Entry(count: int, first: int)

  /** Every link points to an earlier node, or is -1 at the end of a chain. */
  ghost predicate Linked(nodes: seq<Node>) {
    forall k :: 0 <= k < |nodes| ==> -1 <= nodes[k].next < k
  }

  /** The suggestions met along the chain that starts at node `first`. */
  ghost function Chain(nodes: seq<Node>, first: int): seq<string>
    requires Linked(nodes) && -1 <= first < |nodes|
    decreases first + 1
  {
    if first < 0 then [] else [nodes[first].suggestion] + Chain(nodes, nodes[first].next)
  }

  /** Appending nodes does not change the chains that start among the old ones. */
  lemma {:induction false} ChainAppend(nodes: seq<Node>, n: Node, first: int)
    requires Linked(nodes) && Linked(nodes + [n]) && -1 <= first < |nodes|
    ensures Chain(nodes + [n], first) == Chain(nodes, first)
    decreases first + 1
  {
    if first >= 0 {
      assert (nodes + [n])[first] == nodes[first];
      ChainAppend(nodes, n, nodes[first].next);
    }
  }

  /** Each entry heads a chain in the node list, and counts its nodes. */
  ghost predicate ValidState(deletes: map<int, Entry>, nodes: seq<Node>) {
    Linked(nodes) &&
    forall h :: h in deletes ==>
      -1 <= deletes[h].first < |nodes| && deletes[h].count == |Chain(nodes, deletes[h].first)|
  }

  /** The suggestions staged under hash h, the most recent first. */
  ghost function StagedIn(deletes: map<int, Entry>, nodes: seq<Node>, h: int): seq<string>
    requires ValidState(deletes, nodes)
  {
    if h in deletes then Chain(nodes, deletes[h].first) else []
  }

  class SuggestionStage {
    var deletes: map<int, Entry>
    var nodes: seq<Node>

    ghost predicate Valid()
      reads this
    {
      ValidState(deletes, nodes)
    }

    ghost function Staged(h: int): seq<string>
      reads this
      requires Valid()
    {
      StagedIn(deletes, nodes, h)
    }

    /** An empty stage; the capacity is only a hint for the hash table. */
    constructor (initialCapacity: int)
      ensures Valid() && deletes == map[] && nodes == []
    {
      deletes := map[];
      nodes := [];
    }

    function DeleteCount(): int
      reads this
    {
      |deletes|
    }

    function NodeCount(): int
      reads this
    {
      |nodes|
    }

    method Clear()
      modifies this
      ensures Valid() && deletes == map[] && nodes == []
    {
      deletes := map[];
      nodes := [];
    }

    /**
     * Stages suggestion under deleteHash: one more node, one more in the
     * hash's count, and the suggestion at the head of the hash's chain; every
     * other hash keeps its chain.
     */
    method Add(deleteHash: int, suggestion: string)
      requires Valid()
      modifies this
      ensures Valid()
      ensures NodeCount() == old(NodeCount()) + 1
      ensures deleteHash in deletes && deletes.Keys == old(deletes.Keys) + {deleteHash}
      ensures deletes[deleteHash].count == (if deleteHash in old(deletes) then old(deletes[deleteHash].count) else 0) + 1
      ensures Staged(deleteHash) == [suggestion] + old(Staged(deleteHash))
      ensures forall h :: h != deleteHash ==> Staged(h) == old(Staged(h))
    {
      var entry := if deleteHash in deletes then deletes[deleteHash] else Entry(0, -1);
      var next := entry.first;
      var n := Node(suggestion, next);
      forall h | h in deletes
        ensures Chain(nodes + [n], deletes[h].first) == Chain(nodes, deletes[h].first)
      {
        ChainAppend(nodes, n, deletes[h].first);
      }
      ChainAppend(nodes, n, next);
      deletes := deletes[deleteHash := Entry(entry.count + 1, |nodes|)];
      nodes := nodes + [n];
    }

    /**
     * The permanent delete map with, for every staged hash, the suggestions
     * staged under it appended in chain order (the most recent first);
     * hashes with nothing staged keep their bucket.
     */
    method CommitTo(permanentDeletes: map<int, seq<string>>) returns (r: map<int, seq<string>>)
      requires Valid()
      ensures r.Keys == permanentDeletes.Keys + deletes.Keys
      ensures forall h :: h in r ==>
        r[h] == (if h in permanentDeletes then permanentDeletes[h] else []) + Staged(h)
    {
      r := permanentDeletes;
      var remaining := deletes.Keys;
      while true
        invariant remaining <= deletes.Keys
        invariant r.Keys == permanentDeletes.Keys + (deletes.Keys - remaining)
        invariant forall h :: h in r && h !in remaining ==>
          r[h] == (if h in permanentDeletes then permanentDeletes[h] else []) + Staged(h)
        invariant forall h :: h in remaining && h in permanentDeletes ==> r[h] == permanentDeletes[h]
        decreases remaining
      {
        var hash;
        if h :| h in remaining {
          hash := h;
        } else {
          break;
        }
        var suggestions := if hash in r then r[hash] else [];
        assert suggestions == if hash in permanentDeletes then permanentDeletes[hash] else [];
        var next := deletes[hash].first;
        while next >= 0
          invariant -1 <= next < |nodes|
          invariant suggestions + Chain(nodes, next) ==
            (if hash in permanentDeletes then permanentDeletes[hash] else []) + Staged(hash)
          decreases next + 1
        {
          suggestions := suggestions + [nodes[next].suggestion];
          next := nodes[next].next;
        }
        r := r[hash := suggestions];
        remaining := remaining - {hash};
      }
      assert forall h :: h in deletes.Keys - remaining <==> h in deletes.Keys;
    }
  }
}
