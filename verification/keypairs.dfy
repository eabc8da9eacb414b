/** Session keypairs of a peer in bin/mudband/common/wireguard.c: the previous, current and
    next slot, their rotation, and the sending counter that is the nonce. */
module Keypairs {
  import opened Common

  type Key = seq<nat>

  const ZERO_KEY: Key := [0, 0, 0, 0, 0, 0, 0, 0, 0, 0, 0, 0, 0, 0, 0, 0,
                          0, 0, 0, 0, 0, 0, 0, 0, 0, 0, 0, 0, 0, 0, 0, 0]

  /** `struct wireguard_keypair`. */
  datatype Keypair = Keypair(
    valid: bool, initiator: bool, sending: Key, receiving: Key, counter: nat, local: nat, remote: nat)

  const ZERO: Keypair := Keypair(false, false, ZERO_KEY, ZERO_KEY, 0, 0, 0)

  datatype Slot = Prev | Curr | Next

  /** The three slots of a peer, and the indices of the handshake in progress. */
  datatype Peer = Peer(prev: Keypair, curr: Keypair, next: Keypair, local: nat, remote: nat)

  function Get(p: Peer, s: Slot): Keypair {
    match s
    case Prev => p.prev
    case Curr => p.curr
    case Next => p.next
  }

  function Set(p: Peer, s: Slot, k: Keypair): Peer {
    match s
    case Prev => p.(prev := k)
    case Curr => p.(curr := k)
    case Next => p.(next := k)
  }

  /** `wireguard_keypair_update`: the first packet under the next keypair confirms it. */
  function Updated(p: Peer, received: Slot): Peer {
    if received == Next then p.(prev := p.curr, curr := p.next, next := ZERO) else p
  }

  /** `add_new_keypair`. */
  function Added(p: Peer, k: Keypair): Peer {
    if k.initiator then
      if p.next.valid then p.(prev := p.next, next := ZERO, curr := k)
      else p.(prev := p.curr, curr := k)
    else p.(next := k, prev := ZERO)
  }

  /** `wireguard_start_session`, with the keys derived from the chaining key. */
  function Started(p: Peer, initiator: bool, sending: Key, receiving: Key): Peer {
    Added(p.(local := 0, remote := 0), Keypair(true, initiator, sending, receiving, 0, p.local, p.remote))
  }

  /** `wireguard_encrypt_packet` moves the counter on. */
  function Encrypted(p: Peer, s: Slot): Peer {
    Set(p, s, Get(p, s).(counter := (Get(p, s).counter + 1) % U64))
  }

  datatype Maybe = Found(slot: Slot) | NotFound

  /** `wireguard_get_peer_keypair_for_idx`. */
  function Lookup(p: Peer, index: nat): Maybe {
    if p.curr.valid && p.curr.local == index then Found(Curr)
    else if p.next.valid && p.next.local == index then Found(Next)
    else if p.prev.valid && p.prev.local == index then Found(Prev)
    else NotFound
  }

  /** The peer in place. */
  class PeerState {
    var prev: Keypair
    var curr: Keypair
    var next: Keypair
    var local: nat
    var remote: nat

    ghost function Value(): Peer
      reads this
    {
      Peer(prev, curr, next, local, remote)
    }

    constructor ()
      ensures Value() == Peer(ZERO, ZERO, ZERO, 0, 0)
    {
      prev, curr, next, local, remote := ZERO, ZERO, ZERO, 0, 0;
    }

    /** `wireguard_keypair_destroy`. */
    method Destroy(s: Slot)
      modifies this
      ensures Value() == Set(old(Value()), s, ZERO)
    {
      match s {
        case Prev => prev := ZERO;
        case Curr => curr := ZERO;
        case Next => next := ZERO;
      }
    }

    method Update(received: Slot)
      modifies this
      ensures Value() == Updated(old(Value()), received)
    {
      var isNext := received == Next;
      if isNext {
        prev := curr;
        curr := next;
        Destroy(Next);
      }
    }

    method AddNewKeypair(k: Keypair)
      modifies this
      ensures Value() == Added(old(Value()), k)
    {
      if k.initiator {
        if next.valid {
          prev := next;
          Destroy(Next);
        } else {
          prev := curr;
        }
        curr := k;
      } else {
        next := k;
        Destroy(Prev);
      }
    }

    method StartSession(initiator: bool, t1: Key, t2: Key)
      modifies this
      ensures Value() == Started(old(Value()), initiator, if initiator then t1 else t2, if initiator then t2 else t1)
    {
      var k := ZERO.(initiator := initiator, local := local, remote := remote);
      if initiator {
        k := k.(sending := t1, receiving := t2);
      } else {
        k := k.(receiving := t1, sending := t2);
      }
      k := k.(valid := true);
      remote := 0;
      local := 0;
      AddNewKeypair(k);
    }

    /** The nonce used is the counter before the call. */
    method EncryptPacket(s: Slot) returns (nonce: nat)
      modifies this
      ensures nonce == Get(old(Value()), s).counter && Value() == Encrypted(old(Value()), s)
    {
      var k := match s case Prev => prev case Curr => curr case Next => next;
      nonce := k.counter;
      k := k.(counter := (k.counter + 1) % U64);
      match s {
        case Prev => prev := k;
        case Curr => curr := k;
        case Next => next := k;
      }
    }
  }

  // ---------------------------------------------------------------- runs

  /** What can happen to a peer. */
  datatype Op =
    | Handshake(local: nat, remote: nat)
    | Start(initiator: bool, sending: Key, receiving: Key)
    | Update(received: Slot)
    | Destroy(slot: Slot)
    | Encrypt(slot: Slot)

  /** The peer with its past: the pairs of sending key and nonce that were used, the sending
      keys ever made, and those that `wireguard_keypair_update` put into `curr`. */
  datatype World = World(peer: Peer, used: seq<(Key, nat)>, made: set<Key>, promoted: set<Key>)

  const START: World := World(Peer(ZERO, ZERO, ZERO, 0, 0), [], {}, {})

  function Indices(p: Peer): set<nat> {
    {p.prev.local, p.curr.local, p.next.local, p.local}
  }

  /** Fresh keys, an index that is fresh or kept, no session without a handshake, packets only under a valid
      keypair whose counter has not run out. */
  predicate Allowed(w: World, op: Op) {
    match op
    case Handshake(local, _) => local == w.peer.local || (local != 0 && local !in Indices(w.peer))
    case Start(_, sending, _) => sending !in w.made && w.peer.local != 0
    case Update(_) => true
    case Destroy(_) => true
    case Encrypt(s) => Get(w.peer, s).valid && Get(w.peer, s).counter + 1 < U64
  }

  function Do(w: World, op: Op): World {
    match op
    case Handshake(local, remote) => w.(peer := w.peer.(local := local, remote := remote))
    case Start(initiator, sending, receiving) =>
      w.(peer := Started(w.peer, initiator, sending, receiving), made := w.made + {sending})
    case Update(s) =>
      w.(peer := Updated(w.peer, s), promoted := if s == Next then w.promoted + {w.peer.next.sending} else w.promoted)
    case Destroy(s) => w.(peer := Set(w.peer, s, ZERO))
    case Encrypt(s) =>
      w.(peer := Encrypted(w.peer, s), used := w.used + [(Get(w.peer, s).sending, Get(w.peer, s).counter)])
  }

  /** One keypair: empty, or known and ahead of all its uses. */
  ghost predicate Sound(w: World, k: Keypair) {
    && (!k.valid ==> k == ZERO)
    && (k.valid ==> k.local != 0 && k.sending in w.made && forall i :: 0 <= i < |w.used| && w.used[i].0 == k.sending ==>
      w.used[i].1 < k.counter)
  }

  /** Two slots never hold the same keypair, nor the same index. */
  predicate Apart(a: Keypair, b: Keypair) {
    && (a.valid && b.valid ==> a.sending != b.sending)
    && (a.local != 0 ==> a.local != b.local)
  }

  ghost predicate Inv(w: World) {
    var p := w.peer;
    && Sound(w, p.prev) && Sound(w, p.curr) && Sound(w, p.next)
    && Apart(p.prev, p.curr) && Apart(p.prev, p.next) && Apart(p.curr, p.next)
    && (p.local != 0 ==> p.local !in {p.prev.local, p.curr.local, p.next.local})
    && (p.next.valid ==> !p.next.initiator)
    && (p.curr.valid && !p.curr.initiator ==> p.curr.sending in w.promoted)
    && (forall i :: 0 <= i < |w.used| ==> w.used[i].0 in w.made)
    && (forall i, j :: 0 <= i < j < |w.used| ==> w.used[i] != w.used[j])
  }

  /** Every operation keeps the invariant. */
  lemma DoKeeps(w: World, op: Op)
    requires Inv(w) && Allowed(w, op)
    ensures Inv(Do(w, op))
  {
    match op {
      case Encrypt(s) => EncryptKeeps(w, s);
      case Start(i, x, y) => StartKeeps(w, i, x, y);
      case Update(s) => UpdateKeeps(w, s);
      case Destroy(s) => DestroyKeeps(w, s);
      case Handshake(l, r) => HandshakeKeeps(w, l, r);
    }
    hide Inv, Do, Allowed;
  }

  lemma HandshakeKeeps(w: World, local: nat, remote: nat)
    requires Inv(w) && Allowed(w, Handshake(local, remote))
    ensures Inv(Do(w, Handshake(local, remote)))
  {
  }

  lemma UpdateKeeps(w: World, s: Slot)
    requires Inv(w)
    ensures Inv(Do(w, Update(s)))
  {
  }

  lemma DestroyKeeps(w: World, s: Slot)
    requires Inv(w)
    ensures Inv(Do(w, Destroy(s)))
  {
  }

  lemma StartKeeps(w: World, initiator: bool, sending: Key, receiving: Key)
    requires Inv(w) && Allowed(w, Start(initiator, sending, receiving))
    ensures Inv(Do(w, Start(initiator, sending, receiving)))
  {
  }

  lemma EncryptKeeps(w: World, s: Slot)
    requires Inv(w) && Allowed(w, Encrypt(s))
    ensures Inv(Do(w, Encrypt(s)))
  {
    var k, w' := Get(w.peer, s), Do(w, Encrypt(s));
    forall i, j | 0 <= i < j < |w'.used|
      ensures w'.used[i] != w'.used[j]
    {
      if j == |w.used| {
        assert w'.used[i] == w.used[i];
      }
    }
  }

  /** The peer after the first `n` operations of a run. */
  function After(ops: seq<Op>, n: nat): World
    requires n <= |ops|
  {
    if n == 0 then START else Do(After(ops, n - 1), ops[n - 1])
  }

  /** Every operation is allowed where it happens. */
  ghost predicate Legal(ops: seq<Op>) {
    forall i :: 0 <= i < |ops| ==> Allowed(After(ops, i), ops[i])
  }

  lemma {:induction false} RunKeeps(ops: seq<Op>, n: nat)
    requires Legal(ops) && n <= |ops|
    ensures Inv(After(ops, n))
  {
    hide Inv, Allowed, Do;
    if n == 0 {
      StartInv();
    } else {
      RunKeeps(ops, n - 1);
      DoKeeps(After(ops, n - 1), ops[n - 1]);
    }
  }

  lemma StartInv()
    ensures Inv(START)
  {
  }

  /** In no run is a pair of sending key and nonce used twice, does a keypair live in two
      slots, or do two slots or the handshake share an index. */
  lemma NeverTwice(ops: seq<Op>, w: World)
    requires Legal(ops) && w == After(ops, |ops|)
    ensures forall i, j :: 0 <= i < j < |w.used| ==> w.used[i] != w.used[j]
    ensures forall s, t :: s != t && Get(w.peer, s).valid && Get(w.peer, t).valid ==>
      Get(w.peer, s).sending != Get(w.peer, t).sending
    ensures forall s, t :: s != t && Get(w.peer, s).local != 0 ==> Get(w.peer, s).local != Get(w.peer, t).local
    ensures forall s :: w.peer.local != 0 ==> w.peer.local != Get(w.peer, s).local
    ensures w.peer.curr.valid && !w.peer.curr.initiator ==> w.peer.curr.sending in w.promoted
  {
    RunKeeps(ops, |ops|);
    hide *;
    InvApart(w);
    InvUses(w);
  }

  lemma InvApart(w: World)
    requires Inv(w)
    ensures forall s, t :: s != t && Get(w.peer, s).valid && Get(w.peer, t).valid ==>
      Get(w.peer, s).sending != Get(w.peer, t).sending
    ensures forall s, t :: s != t && Get(w.peer, s).local != 0 ==> Get(w.peer, s).local != Get(w.peer, t).local
    ensures forall s :: w.peer.local != 0 ==> w.peer.local != Get(w.peer, s).local
  {
    hide Sound;
  }

  lemma InvUses(w: World)
    requires Inv(w)
    ensures forall i, j :: 0 <= i < j < |w.used| ==> w.used[i] != w.used[j]
    ensures w.peer.curr.valid && !w.peer.curr.initiator ==> w.peer.curr.sending in w.promoted
  {
    hide Sound, Apart;
  }

  /** A keypair made as responder becomes current only by `wireguard_keypair_update` of the
      next slot, which then held it. */
  lemma OnlyByUpdate(w: World, op: Op)
    requires Inv(w) && Allowed(w, op)
    requires var k := Do(w, op).peer.curr;
      k.valid && !k.initiator && !(w.peer.curr.valid && k.sending == w.peer.curr.sending)
    ensures op == Update(Next) && Do(w, op).peer.curr == w.peer.next
  {
  }

  /** Looking up a non-zero index finds the one slot that has it, if any. */
  lemma LookupExact(ops: seq<Op>, w: World, index: nat, s: Slot)
    requires Legal(ops) && w == After(ops, |ops|) && index != 0
    ensures Lookup(w.peer, index) == Found(s) <==> Get(w.peer, s).valid && Get(w.peer, s).local == index
  {
    RunKeeps(ops, |ops|);
    hide After;
  }

  // ---------------------------------------------------------------- what is kept

  /** Packets with this keypair's index are decrypted with it. */
  predicate Held(p: Peer, k: Keypair) {
    Lookup(p, k.local).Found? && Get(p, Lookup(p, k.local).slot) == k
  }

  /** Confirming the next keypair loses neither it nor the current one: packets in flight under
      the old keys are still decrypted. Any other update changes nothing. */
  lemma UpdateRetains(ops: seq<Op>, w: World, s: Slot)
    requires Legal(ops) && w == After(ops, |ops|)
    ensures var p := Do(w, Update(s)).peer;
      && (s == Next && w.peer.curr.valid ==> Held(p, w.peer.curr) && p.prev == w.peer.curr)
      && (s == Next && w.peer.next.valid ==> Held(p, w.peer.next) && p.curr == w.peer.next)
      && (s != Next ==> p == w.peer)
  {
    RunKeeps(ops, |ops|);
    hide After;
  }

  /** A session started as initiator keeps the unconfirmed next keypair if there is one, and
      else the current one, and is itself found at once. */
  lemma InitiatorRetains(ops: seq<Op>, w: World, sending: Key, receiving: Key)
    requires Legal(ops) && w == After(ops, |ops|) && Allowed(w, Start(true, sending, receiving))
    ensures var p := Do(w, Start(true, sending, receiving)).peer;
      && Held(p, Keypair(true, true, sending, receiving, 0, w.peer.local, w.peer.remote))
      && (w.peer.next.valid ==> Held(p, w.peer.next))
      && (!w.peer.next.valid && w.peer.curr.valid ==> Held(p, w.peer.curr))
  {
    RunKeeps(ops, |ops|);
    hide After;
  }

  /** A session started as responder leaves the current keypair in use. */
  lemma ResponderRetains(ops: seq<Op>, w: World, sending: Key, receiving: Key)
    requires Legal(ops) && w == After(ops, |ops|) && Allowed(w, Start(false, sending, receiving))
    ensures var p := Do(w, Start(false, sending, receiving)).peer;
      && Held(p, Keypair(true, false, sending, receiving, 0, w.peer.local, w.peer.remote))
      && p.curr == w.peer.curr && (w.peer.curr.valid ==> Held(p, w.peer.curr))
      && !p.prev.valid
  {
    RunKeeps(ops, |ops|);
    hide After;
  }

  /** Where no two slots share an index, a change of one slot leaves the others findable. */
  lemma OthersFound(p: Peer, s: Slot, t: Slot, k: Keypair)
    requires s != t && Get(p, t).valid && Get(p, t).local != 0 && k.local in {0, Get(p, s).local}
    requires forall u, v :: u != v && Get(p, u).local != 0 ==> Get(p, u).local != Get(p, v).local
    ensures Held(Set(p, s, k), Get(p, t))
  {
    assert t != Prev ==> Get(p, t).local != Get(p, Prev).local;
    assert t != Curr ==> Get(p, t).local != Get(p, Curr).local;
    assert t != Next ==> Get(p, t).local != Get(p, Next).local;
  }

  lemma CounterMoves(w: World, s: Slot)
    requires Allowed(w, Encrypt(s))
    ensures var k := Get(w.peer, s).(counter := Get(w.peer, s).counter + 1);
      Do(w, Encrypt(s)).peer == Set(w.peer, s, k) && Get(Set(w.peer, s, k), s) == k && k.local == Get(w.peer, s).local
  {
  }

  lemma ValidIndex(w: World, t: Slot)
    requires Inv(w) && Get(w.peer, t).valid
    ensures Get(w.peer, t).local != 0
  {
  }

  /** Destroying a keypair leaves the others alone, and it is not found again. */
  lemma DestroyRetains(ops: seq<Op>, w: World, s: Slot, t: Slot)
    requires Legal(ops) && w == After(ops, |ops|) && s != t && Get(w.peer, t).valid
    ensures var p := Do(w, Destroy(s)).peer;
      Held(p, Get(w.peer, t)) && forall i :: Lookup(p, i) != Found(s)
  {
    hide After, Inv, Held;
    RunKeeps(ops, |ops|);
    InvApart(w);
    ValidIndex(w, t);
    OthersFound(w.peer, s, t, ZERO);
  }

  /** So does sending under one, which moves its counter on. */
  lemma EncryptRetains(ops: seq<Op>, w: World, s: Slot, t: Slot)
    requires Legal(ops) && w == After(ops, |ops|) && s != t && Get(w.peer, t).valid && Allowed(w, Encrypt(s))
    ensures var p := Do(w, Encrypt(s)).peer;
      Held(p, Get(w.peer, t)) && Get(p, s) == Get(w.peer, s).(counter := Get(w.peer, s).counter + 1)
  {
    hide *;
    RunKeeps(ops, |ops|);
    InvApart(w);
    ValidIndex(w, t);
    CounterMoves(w, s);
    OthersFound(w.peer, s, t, Get(w.peer, s).(counter := Get(w.peer, s).counter + 1));
  }
}
