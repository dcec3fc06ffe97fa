/**
  The consistent-hash ring of `consistant_hash.py`. A ring maps integer
  positions to node names; every member node owns `replicas` virtual
  positions, the hashes of `node + ":" + i`. A key belongs to the owner of
  the first position at or after the key's hash, wrapping round to the
  smallest position.

  SHA-1 (and the reading of its digest as an integer) is the parameter
  `hash`; nothing below depends on what it computes, only, where said, on
  its not colliding on the strings involved.
 */
module Ring {
  import opened Common
  import opened Text

  /** A point on the ring: an integer read from a digest. */
  type Position = nat

  datatype ConsistentHash = ConsistentHash(
    replicas: nat,
    ring: map<Position, string>,
    nodes: set<string>)

  /** The string hashed for a node's `i`-th virtual position. */
  function Tag(node: string, i: nat): string {
    node + ":" + NatToString(i)
  }

  /** The positions `add_node` writes for `node`, in the order it writes
      them. */
  function Positions(hash: string -> Position, node: string, replicas: nat): (ps: seq<Position>)
    ensures |ps| == replicas
    ensures forall i :: 0 <= i < replicas ==> ps[i] == hash(Tag(node, i))
    decreases replicas
  {
    if replicas == 0 then [] else Positions(hash, node, replicas - 1) + [hash(Tag(node, replicas - 1))]
  }

  // Construction and membership changes

  function Empty(replicas: nat): ConsistentHash {
    ConsistentHash(replicas, map[], {})
  }

  /** Writes `node` at every position of `ps`, in order. */
  function WriteAll(ring: map<Position, string>, ps: seq<Position>, node: string): (r: map<Position, string>)
    ensures r.Keys == ring.Keys + (set p | p in ps)
    ensures forall p :: p in ps ==> r[p] == node
    ensures forall p :: p in ring && p !in ps ==> r[p] == ring[p]
    decreases |ps|
  {
    if |ps| == 0 then ring else WriteAll(ring[ps[0] := node], ps[1..], node)
  }

  /** `add_node`: `node` becomes a member and owns all its positions; a
      position it shares with another node is overwritten. */
  function AddNode(ch: ConsistentHash, hash: string -> Position, node: string): (r: ConsistentHash)
    ensures r.replicas == ch.replicas
    ensures r.nodes == ch.nodes + {node}
    ensures forall i :: 0 <= i < ch.replicas ==>
              hash(Tag(node, i)) in r.ring && r.ring[hash(Tag(node, i))] == node
    ensures r.ring.Keys == ch.ring.Keys + (set p | p in Positions(hash, node, ch.replicas))
    ensures forall p :: p in ch.ring && p !in Positions(hash, node, ch.replicas) ==> r.ring[p] == ch.ring[p]
  {
    var ps := Positions(hash, node, ch.replicas);
    ch.(nodes := ch.nodes + {node}, ring := WriteAll(ch.ring, ps, node))
  }

  /** `ConsistentHash(nodes, replicas)`: the nodes added one after the
      other, in list order. */
  function Create(nodes: seq<string>, replicas: nat, hash: string -> Position): (ch: ConsistentHash)
    ensures ch.replicas == replicas
    ensures forall n :: n in ch.nodes <==> n in nodes
    decreases |nodes|
  {
    if |nodes| == 0 then Empty(replicas)
    else
      var init := nodes[..|nodes| - 1];
      assert nodes == init + [nodes[|nodes| - 1]];
      AddNode(Create(init, replicas, hash), hash, nodes[|nodes| - 1])
  }

  /** How `dict.pop` without a default fails: at the first position that is
      not (or no longer) on the ring, after the earlier ones were removed. */
  datatype PopFailure = PopFailure(missing: Position, remaining: map<Position, string>)

  /** Pops every position of `ps` in order. */
  function PopAll(ring: map<Position, string>, ps: seq<Position>): (r: Result<map<Position, string>, PopFailure>)
    ensures r.Ok? <==> Distinct(ps) && forall i :: 0 <= i < |ps| ==> ps[i] in ring
    ensures r.Ok? ==> r.value.Keys == ring.Keys - (set p | p in ps)
    ensures r.Ok? ==> forall p :: p in r.value ==> r.value[p] == ring[p]
    ensures r.Err? ==> r.error.missing in ps && r.error.missing !in r.error.remaining
    ensures r.Err? ==> r.error.remaining.Keys <= ring.Keys
    ensures r.Err? ==> forall p :: p in r.error.remaining ==> r.error.remaining[p] == ring[p]
    ensures r.Err? ==> forall p :: p in ring && p !in ps ==> p in r.error.remaining
    decreases |ps|
  {
    if |ps| == 0 then Ok(ring)
    else if ps[0] !in ring then Err(PopFailure(ps[0], ring))
    else
      var r := PopAll(ring - {ps[0]}, ps[1..]);
      assert forall i :: 1 <= i < |ps| ==> ps[i] == ps[1..][i - 1];
      assert r.Ok? ==> Distinct(ps) by {
        if r.Ok? {
          forall i, j | 0 <= i < j < |ps| ensures ps[i] != ps[j] {
            if i > 0 {
              assert ps[1..][i - 1] != ps[1..][j - 1];
            } else {
              assert ps[1..][j - 1] in ring - {ps[0]};
            }
          }
        }
      }
      r
  }

  /** The exception `remove_node` raises, with the ring as it is left:
      the node already discarded and the positions before `missing`
      already popped. */
  datatype KeyError = KeyError(missing: Position, partial: ConsistentHash)

  /** `remove_node`: discards `node`, then pops each of its positions. It
      succeeds exactly when those positions are pairwise different and all
      on the ring, and then removes them and nothing else. */
  function RemoveNode(ch: ConsistentHash, hash: string -> Position, node: string): (r: Result<ConsistentHash, KeyError>)
    ensures r.Ok? <==>
              && Distinct(Positions(hash, node, ch.replicas))
              && forall i :: 0 <= i < ch.replicas ==> hash(Tag(node, i)) in ch.ring
    ensures r.Ok? ==> r.value.replicas == ch.replicas && r.value.nodes == ch.nodes - {node}
    ensures r.Ok? ==> r.value.ring.Keys == ch.ring.Keys - (set p | p in Positions(hash, node, ch.replicas))
    ensures r.Ok? ==> forall p :: p in r.value.ring ==> r.value.ring[p] == ch.ring[p]
    ensures r.Err? ==> r.error.partial.replicas == ch.replicas && r.error.partial.nodes == ch.nodes - {node}
    ensures r.Err? ==> r.error.missing in Positions(hash, node, ch.replicas) && r.error.missing !in r.error.partial.ring
    ensures r.Err? ==> forall p :: p in r.error.partial.ring ==> p in ch.ring && r.error.partial.ring[p] == ch.ring[p]
    ensures r.Err? ==> forall p :: p in ch.ring && p !in Positions(hash, node, ch.replicas) ==> p in r.error.partial.ring
  {
    var ps := Positions(hash, node, ch.replicas);
    var discarded := ch.(nodes := ch.nodes - {node});
    match PopAll(ch.ring, ps)
    case Ok(ring) => Ok(discarded.(ring := ring))
    case Err(f) => Err(KeyError(f.missing, discarded.(ring := f.remaining)))
  }

  // Lookup

  predicate IsLeast(q: Position, s: set<Position>) {
    q in s && forall p :: p in s ==> q <= p
  }

  /** The positions at or after `h`. */
  function AtOrAfter(s: set<Position>, h: Position): set<Position> {
    set p | p in s && h <= p
  }

  ghost function Least(s: set<Position>): (m: Position)
    requires s != {}
    ensures IsLeast(m, s)
    decreases s
  {
    var x :| x in s;
    if forall p :: p in s ==> x <= p then x
    else
      var p :| p in s && p < x;
      assert p in s - {x};
      var m := Least(s - {x});
      assert IsLeast(m, s) by {
        forall y | y in s ensures m <= y {
          if y != x {
            assert y in s - {x};
          } else {
            assert m <= p;
          }
        }
      }
      m
  }

  /** The owner of hash `h`, as a specification: no owner on an empty
      ring; otherwise the owner of the least position at or after `h`, or,
      when there is none, of the least position overall. */
  ghost function Owner(ring: map<Position, string>, h: Position): (r: Option<string>)
    ensures r.None? <==> ring == map[]
    ensures r.Some? ==> r.value in ring.Values
    ensures forall q :: IsLeast(q, AtOrAfter(ring.Keys, h)) ==> r == Some(ring[q])
    ensures AtOrAfter(ring.Keys, h) == {} ==> forall q :: IsLeast(q, ring.Keys) ==> r == Some(ring[q])
  {
    if ring == map[] then None
    else
      var above := AtOrAfter(ring.Keys, h);
      var q := if above != {} then Least(above) else Least(ring.Keys);
      assert q in ring;
      assert forall q' :: IsLeast(q', above) ==> q' == q;
      assert above == {} ==> forall q' :: IsLeast(q', ring.Keys) ==> q' == q;
      Some(ring[q])
  }

  /** `min` over a non-empty set of positions. */
  method Min(s: set<Position>) returns (m: Position)
    requires s != {}
    ensures IsLeast(m, s)
  {
    m :| m in s;
    var rest := s - {m};
    while rest != {}
      invariant rest <= s && m in s
      invariant forall x :: x in s && x !in rest ==> m <= x
      decreases rest
    {
      var x :| x in rest;
      if x < m {
        m := x;
      }
      rest := rest - {x};
    }
  }

  /** `sorted` over a set of positions: strictly ascending, each exactly
      once. */
  method SortedKeys(s: set<Position>) returns (ks: seq<Position>)
    ensures forall i :: 0 <= i < |ks| ==> ks[i] in s
    ensures forall k :: k in s ==> k in ks
    ensures forall i, j :: 0 <= i < j < |ks| ==> ks[i] < ks[j]
  {
    ks := [];
    var rest := s;
    while rest != {}
      invariant rest <= s
      invariant forall i :: 0 <= i < |ks| ==> ks[i] in s && ks[i] !in rest
      invariant forall k :: k in s && k !in rest ==> k in ks
      invariant forall i, j :: 0 <= i < j < |ks| ==> ks[i] < ks[j]
      invariant forall i, x :: 0 <= i < |ks| && x in rest ==> ks[i] < x
      decreases rest
    {
      var m := Min(rest);
      ks := ks + [m];
      rest := rest - {m};
    }
  }

  /** `get_node`: scans the positions in ascending order for the first one
      at or after the key's hash, else wraps to the minimum. It computes
      exactly the specified owner. */
  method GetNode(ch: ConsistentHash, hash: string -> Position, key: string) returns (r: Option<string>)
    ensures r == Owner(ch.ring, hash(key))
  {
    if ch.ring == map[] {
      return None;
    }
    var h := hash(key);
    var sorted := SortedKeys(ch.ring.Keys);
    var i := 0;
    while i < |sorted|
      invariant 0 <= i <= |sorted|
      invariant forall j :: 0 <= j < i ==> sorted[j] < h
    {
      if h <= sorted[i] {
        forall p | p in AtOrAfter(ch.ring.Keys, h) ensures sorted[i] <= p {
          var j :| 0 <= j < |sorted| && sorted[j] == p;
          if i < j {
            assert sorted[i] < sorted[j];
          }
        }
        assert IsLeast(sorted[i], AtOrAfter(ch.ring.Keys, h));
        return Some(ch.ring[sorted[i]]);
      }
      i := i + 1;
    }
    assert AtOrAfter(ch.ring.Keys, h) == {} by {
      forall p | p in ch.ring.Keys ensures p < h {
        var j :| 0 <= j < |sorted| && sorted[j] == p;
      }
    }
    var m := Min(ch.ring.Keys);
    return Some(ch.ring[m]);
  }

  // Ring invariants

  /** Every position is owned by a member, at one of that member's own
      positions. */
  ghost predicate Valid(ch: ConsistentHash, hash: string -> Position) {
    forall p :: p in ch.ring ==> ch.ring[p] in ch.nodes && p in Positions(hash, ch.ring[p], ch.replicas)
  }

  /** Every member owns all of its positions. */
  ghost predicate Complete(ch: ConsistentHash, hash: string -> Position) {
    forall n, i :: n in ch.nodes && 0 <= i < ch.replicas ==>
      hash(Tag(n, i)) in ch.ring && ch.ring[hash(Tag(n, i))] == n
  }

  lemma AddPreservesValid(ch: ConsistentHash, hash: string -> Position, node: string)
    requires Valid(ch, hash)
    ensures Valid(AddNode(ch, hash, node), hash)
  {
  }

  lemma RemovePreservesValid(ch: ConsistentHash, hash: string -> Position, node: string)
    requires Valid(ch, hash)
    requires RemoveNode(ch, hash, node).Ok?
    ensures Valid(RemoveNode(ch, hash, node).value, hash)
  {
    var r := RemoveNode(ch, hash, node).value;
    forall p | p in r.ring ensures r.ring[p] in r.nodes {
      assert p !in Positions(hash, node, ch.replicas);
    }
  }

  /** A ring built by the constructor satisfies the invariant. */
  lemma {:induction false} CreateValid(nodes: seq<string>, replicas: nat, hash: string -> Position)
    ensures Valid(Create(nodes, replicas, hash), hash)
    decreases |nodes|
  {
    if |nodes| > 0 {
      CreateValid(nodes[..|nodes| - 1], replicas, hash);
      AddPreservesValid(Create(nodes[..|nodes| - 1], replicas, hash), hash, nodes[|nodes| - 1]);
    }
  }

  /** The constructor's ring holds every listed node at all its positions,
      provided the positions of two different listed nodes never
      coincide. */
  lemma {:induction false} CreateComplete(nodes: seq<string>, replicas: nat, hash: string -> Position)
    requires forall a, b, i, k ::
               a in nodes && b in nodes && a != b && 0 <= i < replicas && 0 <= k < replicas ==>
               hash(Tag(a, i)) != hash(Tag(b, k))
    ensures Complete(Create(nodes, replicas, hash), hash)
    decreases |nodes|
  {
    if |nodes| > 0 {
      var init, last := nodes[..|nodes| - 1], nodes[|nodes| - 1];
      assert forall x :: x in init ==> x in nodes;
      CreateComplete(init, replicas, hash);
      CreateValid(init, replicas, hash);
      var ch := Create(init, replicas, hash);
      forall i | 0 <= i < ch.replicas && hash(Tag(last, i)) in ch.ring
        ensures ch.ring[hash(Tag(last, i))] == last
      {
        var p := hash(Tag(last, i));
        var owner := ch.ring[p];
        var ps := Positions(hash, owner, replicas);
        var k :| 0 <= k < |ps| && ps[k] == p;
        assert owner in nodes;
        assert p == hash(Tag(owner, k));
      }
      AddPreservesComplete(ch, hash, last);
    }
  }

  /** Adding a node whose positions are free, or already its own, keeps
      every member in possession of all its positions. */
  lemma AddPreservesComplete(ch: ConsistentHash, hash: string -> Position, node: string)
    requires Complete(ch, hash)
    requires forall i :: 0 <= i < ch.replicas && hash(Tag(node, i)) in ch.ring ==> ch.ring[hash(Tag(node, i))] == node
    ensures Complete(AddNode(ch, hash, node), hash)
  {
  }

  /** Removing a member keeps every remaining member in possession of all
      its positions. */
  lemma RemovePreservesComplete(ch: ConsistentHash, hash: string -> Position, node: string)
    requires Complete(ch, hash)
    requires node in ch.nodes
    requires RemoveNode(ch, hash, node).Ok?
    ensures Complete(RemoveNode(ch, hash, node).value, hash)
  {
  }

  /** On a valid ring every lookup answer is a member. */
  lemma OwnerIsMember(ch: ConsistentHash, hash: string -> Position, h: Position)
    requires Valid(ch, hash)
    requires Owner(ch.ring, h).Some?
    ensures Owner(ch.ring, h).value in ch.nodes
  {
    var p :| p in ch.ring && ch.ring[p] == Owner(ch.ring, h).value;
  }

  /** Adding the same node twice gives the same ring as adding it once. */
  lemma AddNodeIdempotent(ch: ConsistentHash, hash: string -> Position, node: string)
    ensures AddNode(AddNode(ch, hash, node), hash, node) == AddNode(ch, hash, node)
  {
    var once := AddNode(ch, hash, node);
    var twice := AddNode(once, hash, node);
    assert twice.ring.Keys == once.ring.Keys;
    assert forall p :: p in once.ring ==> twice.ring[p] == once.ring[p];
  }

  /** Removing a node that was just added restores the ring, provided the
      node was not a member and its positions neither collide with each
      other nor with positions already on the ring. */
  lemma RemoveUndoesAdd(ch: ConsistentHash, hash: string -> Position, node: string)
    requires node !in ch.nodes
    requires Distinct(Positions(hash, node, ch.replicas))
    requires forall i :: 0 <= i < ch.replicas ==> hash(Tag(node, i)) !in ch.ring
    ensures RemoveNode(AddNode(ch, hash, node), hash, node) == Ok(ch)
  {
    var added := AddNode(ch, hash, node);
    var r := RemoveNode(added, hash, node);
    assert r.Ok?;
    assert r.value.nodes == ch.nodes;
    assert r.value.ring.Keys == ch.ring.Keys;
    assert forall p :: p in ch.ring ==> p !in Positions(hash, node, ch.replicas);
    assert r.value.ring == ch.ring;
  }

  /** Adding back a member that was just removed restores the ring. */
  lemma AddUndoesRemove(ch: ConsistentHash, hash: string -> Position, node: string)
    requires Complete(ch, hash)
    requires node in ch.nodes
    requires RemoveNode(ch, hash, node).Ok?
    ensures AddNode(RemoveNode(ch, hash, node).value, hash, node) == ch
  {
    var removed := RemoveNode(ch, hash, node).value;
    var r := AddNode(removed, hash, node);
    forall p | p in Positions(hash, node, ch.replicas) ensures p in ch.ring && ch.ring[p] == node {
      var k :| 0 <= k < ch.replicas && Positions(hash, node, ch.replicas)[k] == p;
      assert ch.ring[hash(Tag(node, k))] == node;
    }
    assert r.ring.Keys == ch.ring.Keys;
    assert r.nodes == ch.nodes;
  }

  /** Removing a node that was never added raises `KeyError` at its first
      position and leaves the ring as it was, provided that position is
      not one of a member's. */
  lemma RemoveUnknownRaises(ch: ConsistentHash, hash: string -> Position, node: string)
    requires Valid(ch, hash)
    requires node !in ch.nodes
    requires ch.replicas > 0
    requires forall m :: m in ch.nodes ==> hash(Tag(node, 0)) !in Positions(hash, m, ch.replicas)
    ensures RemoveNode(ch, hash, node) == Err(KeyError(hash(Tag(node, 0)), ch))
  {
    var ps := Positions(hash, node, ch.replicas);
    assert ps[0] == hash(Tag(node, 0));
    assert ps[0] !in ch.ring;
    assert PopAll(ch.ring, ps) == Err(PopFailure(ps[0], ch.ring));
    assert ch.(nodes := ch.nodes - {node}) == ch;
  }
}
