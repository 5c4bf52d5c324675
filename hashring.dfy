/**
 * The ConsistentHashring class of lib/consistent-hashring.js: a ring of
 * sorted positions, a position -> node map and a node -> positions record,
 * updated in place by addNode and removeNode and read by getNode.
 */
module Hashring {
  import opened Wrappers
  import opened Bisect
  import opened RingSpec

  /** The two exceptions the class throws. */
  datatype RingError = DuplicateNode | UnknownNode

  class ConsistentHashring {
    /** The hash function given to the constructor. */
    const hash: string -> Uint32
    /** The number of replica positions addNode and removeNode compute for a node (replicaHashes' default). */
    const replicaCount: nat
    /** The ring positions, ascending. */
    var keys: seq<int>
    /** Ring position -> the node that owns it. */
    var nodeHashToNode: map<int, string>
    /** Tracked node -> the positions it contributed, in the order they were added. */
    var nodeToHashes: map<string, seq<int>>

    ghost function State(): RingState
      reads this
    {
      RingState(keys, nodeHashToNode, nodeToHashes)
    }

    ghost predicate Valid()
      reads this
    {
      ValidState(State())
    }

    /** A new ring is empty and uses the given hash function. */
    constructor(hashFunction: string -> Uint32)
      ensures hash == hashFunction && replicaCount == ReplicaCount
      ensures keys == [] && nodeHashToNode == map[] && nodeToHashes == map[]
      ensures Valid()
    {
      hash := hashFunction;
      replicaCount := ReplicaCount;
      keys := [];
      nodeHashToNode := map[];
      nodeToHashes := map[];
    }

    /**
     * addNode: throws on a tracked node and changes nothing. Otherwise the
     * node records exactly its replica positions that were not on the ring
     * (each new one now owned by it, inserted into the ring in order);
     * colliding replicas are skipped and keep their owner.
     */
    method AddNode(node: string) returns (r: Outcome<RingError>)
      requires Sorted(keys)
      modifies this
      ensures node in old(nodeToHashes) ==> r == Fail(DuplicateNode) && State() == old(State())
      ensures node !in old(nodeToHashes) ==>
                r == Pass && State() == AddReplicas(old(State()), hash, node, replicaCount)
      ensures node !in old(nodeToHashes) ==>
                var hs := FreshHashes(hash, node, replicaCount);
                nodeToHashes == old(nodeToHashes)[node := Fresh(hs, old(nodeHashToNode).Keys)]
                && (forall p :: p in nodeHashToNode <==> p in old(nodeHashToNode) || p in hs)
                && (forall p :: p in old(nodeHashToNode) ==> nodeHashToNode[p] == old(nodeHashToNode)[p])
                && (forall p :: p in hs && p !in old(nodeHashToNode) ==> nodeHashToNode[p] == node)
      ensures Sorted(keys)
      ensures old(Valid()) ==> Valid()
    {
      if node in nodeToHashes {
        return Fail(DuplicateNode);
      }
      ghost var st := State();
      nodeToHashes := nodeToHashes[node := []];
      var hs := ReplicaHashes(nodeToHashes, hash, node, replicaCount);
      ghost var st0 := State();
      var i := 0;
      while i < |hs|
        invariant 0 <= i <= |hs|
        invariant node in nodeToHashes
        invariant State() == AddHashes(st0, node, hs[..i])
        invariant Sorted(keys)
      {
        AddHashesStep(st0, node, hs, i);
        var h := hs[i];
        if h in nodeHashToNode {
          // a collision: the replica is skipped (the source only logs it)
        } else {
          AddPosition(node, h);
        }
        i := i + 1;
      }
      assert hs[..|hs|] == hs;
      AddReplicasSpec(st, hash, node, replicaCount);
      if ValidState(st) {
        AddReplicasKeepsValid(st, hash, node, replicaCount);
      }
      return Pass;
    }

    /** The body of addNode's loop for a replica that did not collide: own it, insert it into the ring, record it. */
    method AddPosition(node: string, h: int)
      requires node in nodeToHashes && h !in nodeHashToNode && Sorted(keys)
      modifies this
      ensures State() == AddOne(old(State()), node, h) && Sorted(keys)
    {
      nodeHashToNode := nodeHashToNode[h := node];
      var inserted := InsortRight(keys, h, 0, None);
      keys := inserted.value;
      nodeToHashes := nodeToHashes[node := nodeToHashes[node] + [h]];
    }

    /**
     * removeNode: throws on an untracked node and changes nothing. Otherwise
     * it deletes every position replicaHashes(node) yields from the owner map
     * and, at its left insertion point, from the ring, then forgets the
     * node's record. For a node with a non-empty record this removes exactly
     * its recorded positions; on a valid ring those are the positions it
     * owns, the invariant is kept, and the lookup of no hash that was not
     * routed to the node changes.
     */
    method RemoveNode(node: string) returns (r: Outcome<RingError>)
      requires Sorted(keys)
      modifies this
      ensures node !in old(nodeToHashes) ==> r == Fail(UnknownNode) && State() == old(State())
      ensures node in old(nodeToHashes) ==>
                r == Pass && State() == RemoveNodeAsWritten(old(State()), hash, node, replicaCount)
      ensures node in old(nodeToHashes) && old(nodeToHashes)[node] != [] ==>
                State() == RemoveRecorded(old(State()), node)
      ensures Sorted(keys)
      ensures old(Valid()) && node in old(nodeToHashes) && old(nodeToHashes)[node] != [] ==>
                Valid()
                && nodeToHashes == old(nodeToHashes) - {node}
                && (forall p :: p in keys <==> p in old(keys) && old(nodeHashToNode)[p] != node)
                && (forall p :: p in nodeHashToNode <==> p in old(nodeHashToNode) && old(nodeHashToNode)[p] != node)
                && (forall p :: p in nodeHashToNode ==> nodeHashToNode[p] == old(nodeHashToNode)[p])
                && (forall h :: old(Lookup(State(), h)) != Some(node) ==> Lookup(State(), h) == old(Lookup(State(), h)))
    {
      if node !in nodeToHashes {
        return Fail(UnknownNode);
      }
      ghost var st0 := State();
      var hs := ReplicaHashes(nodeToHashes, hash, node, replicaCount);
      var i := 0;
      while i < |hs|
        invariant 0 <= i <= |hs|
        invariant State() == RemoveHashes(st0, hs[..i])
        invariant Sorted(keys)
      {
        RemoveHashesStep(st0, hs, i);
        RemovePosition(hs[i]);
        i := i + 1;
      }
      assert hs[..|hs|] == hs;
      nodeToHashes := nodeToHashes - {node};
      if st0.nodeToHashes[node] != [] {
        RemoveAsWrittenWhenRecorded(st0, hash, node, replicaCount);
      }
      if st0.nodeToHashes[node] != [] && ValidState(st0) {
        RemoveRecordedSpec(st0, node);
        RemoveRecordedKeepsValid(st0, node);
        LookupUnchangedByRemove(st0, node);
      }
      return Pass;
    }

    /** The body of removeNode's loop: drop the owner of h and splice the ring at h's left insertion point. */
    method RemovePosition(h: int)
      requires Sorted(keys)
      modifies this
      ensures State() == RemoveOne(old(State()), h) && Sorted(keys)
    {
      nodeHashToNode := nodeHashToNode - {h};
      var found := BisectLeft(keys, h, 0, None);
      SpliceRemoveKeepsSorted(keys, found.value);
      keys := SpliceRemove(keys, found.value);
    }

    /**
     * getNode: the node owning the first position strictly above the key's
     * hash, wrapping to the lowest position; None (undefined) on an empty ring.
     */
    method GetNode(key: string) returns (r: Option<string>)
      requires Sorted(keys)
      ensures r == Lookup(State(), hash(key))
      ensures keys == [] ==> r == None
      ensures Valid() && keys != [] ==> r.Some? && r.value in nodeToHashes
      ensures Valid() ==>
                forall p :: IsSuccessor(keys, hash(key), p) ==> p in nodeHashToNode && r == Some(nodeHashToNode[p])
    {
      var keyHash := hash(key);
      var found := BisectRight(keys, keyHash, 0, None);
      var start := found.value;
      if start == |keys| {
        start := 0;
      }
      if start < |keys| && keys[start] in nodeHashToNode {
        r := Some(nodeHashToNode[keys[start]]);
      } else {
        r := None;
      }
      if Valid() {
        forall p | IsSuccessor(keys, keyHash, p)
          ensures p in nodeHashToNode && r == Some(nodeHashToNode[p])
        {
          LookupRoutesToSuccessor(State(), keyHash, p);
        }
      }
    }
  }
}
