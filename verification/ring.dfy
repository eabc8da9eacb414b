/** The intrusive circular list of lib/libjansson/hashtable.c: `list_init`, `list_insert` and
    `list_remove` on explicit links. A node is a number; `HEAD` is the list itself. */
module Ring {
  const HEAD: nat := 0

  /** `next` and `prev` of all nodes. */
  datatype Links = Links(next: map<nat, nat>, prev: map<nat, nat>)

  /** Node `i` of the ring; the head stands on both ends. */
  function At(ring: seq<nat>, i: int): nat {
    if 0 <= i < |ring| then ring[i] else HEAD
  }

  predicate Distinct(ring: seq<nat>) {
    (forall i :: 0 <= i < |ring| ==> ring[i] != HEAD) && forall i, j :: 0 <= i < j < |ring| ==> ring[i] != ring[j]
  }

  /** Nodes `i - 1` and `i` point to each other. */
  ghost predicate Joined(l: Links, ring: seq<nat>, i: int) {
    var a, b := At(ring, i - 1), At(ring, i);
    a in l.next && l.next[a] == b && b in l.prev && l.prev[b] == a
  }

  /** From the head, `next` runs through `ring` and back to the head; `prev` the other way. */
  ghost predicate Linked(l: Links, ring: seq<nat>) {
    Distinct(ring) && forall i :: 0 <= i <= |ring| ==> Joined(l, ring, i)
  }

  lemma Apart(ring: seq<nat>, i: int, j: int)
    requires Distinct(ring) && -1 <= i < j <= |ring| && j - i <= |ring|
    ensures At(ring, i) != At(ring, j)
  {
  }

  function Inserted(ring: seq<nat>, i: nat, node: nat): (r: seq<nat>)
    requires i <= |ring|
    ensures |r| == |ring| + 1
    ensures forall k :: 0 <= k < |r| ==> r[k] == if k < i then ring[k] else if k == i then node else ring[k - 1]
  {
    ring[..i] + [node] + ring[i..]
  }

  function Removed(ring: seq<nat>, i: nat): (r: seq<nat>)
    requires i < |ring|
    ensures |r| == |ring| - 1
    ensures forall k :: 0 <= k < |r| ==> r[k] == ring[if k < i then k else k + 1]
  {
    ring[..i] + ring[i + 1..]
  }

  /** `list_init`. */
  function Init(l: Links): Links {
    Links(l.next[HEAD := HEAD], l.prev[HEAD := HEAD])
  }

  lemma InitLinked(l: Links)
    ensures Linked(Init(l), [])
  {
  }

  /** `list_insert`: `node` before `list`. */
  function Insert(l: Links, list: nat, node: nat): Links
    requires list in l.prev
  {
    var p := l.prev[list];
    Links(l.next[node := list][p := node], l.prev[node := p][list := node])
  }

  /** `list_remove`. */
  function Remove(l: Links, node: nat): Links
    requires node in l.next && node in l.prev
  {
    Links(l.next[l.prev[node] := l.next[node]], l.prev[l.next[node] := l.prev[node]])
  }

  lemma InsertLinked(l: Links, ring: seq<nat>, i: nat, node: nat)
    requires Linked(l, ring) && i <= |ring| && node != HEAD && node !in ring
    ensures At(ring, i) in l.prev && Linked(Insert(l, At(ring, i), node), Inserted(ring, i, node))
    ensures l.prev[At(ring, i)] == At(ring, i - 1)
  {
    assert Joined(l, ring, i);
    var r := Inserted(ring, i, node);
    var m := Insert(l, At(ring, i), node);
    forall k | 0 <= k <= |r|
      ensures Joined(m, r, k)
    {
      if k < i {
        assert Joined(l, ring, k);
        Apart(ring, k - 1, i - 1);
        Apart(ring, k, i);
      } else if k > i + 1 {
        assert Joined(l, ring, k - 1);
        Apart(ring, i - 1, k - 2);
        Apart(ring, i, k - 1);
      }
    }
  }

  lemma RemoveLinked(l: Links, ring: seq<nat>, i: nat)
    requires Linked(l, ring) && i < |ring|
    ensures ring[i] in l.next && ring[i] in l.prev && Linked(Remove(l, ring[i]), Removed(ring, i))
    ensures l.next[ring[i]] == At(ring, i + 1) && l.prev[ring[i]] == At(ring, i - 1)
  {
    assert Joined(l, ring, i) && Joined(l, ring, i + 1);
    var r := Removed(ring, i);
    var m := Remove(l, ring[i]);
    forall k | 0 <= k <= |r|
      ensures Joined(m, r, k)
    {
      if k < i {
        assert Joined(l, ring, k);
        Apart(ring, k - 1, i - 1);
        Apart(ring, k, i + 1);
      } else if k > i {
        assert Joined(l, ring, k + 1);
        Apart(ring, i - 1, k);
        Apart(ring, i + 1, k + 1);
      }
    }
  }

  lemma NextOf(l: Links, ring: seq<nat>, i: int)
    requires Linked(l, ring) && -1 <= i < |ring|
    ensures At(ring, i) in l.next && l.next[At(ring, i)] == At(ring, i + 1)
  {
    assert Joined(l, ring, i + 1);
  }

  /** Insertion changes `next` of the new node and of the one before it only. */
  lemma InsertKeeps(l: Links, list: nat, node: nat, n: nat)
    requires list in l.prev && n in l.next && n != node && n != l.prev[list]
    ensures n in Insert(l, list, node).next && Insert(l, list, node).next[n] == l.next[n]
  {
  }
}
