/** From the handshake to the keypairs of bin/mudband/common/wireguard.c: which slot the keys of
    a handshake go to, on both sides. */
module Sessions {
  import opened Common
  import Noise
  import Keypairs

  /** The keypair that holds a session. */
  function Entry(s: Noise.Session): Keypairs.Keypair {
    Keypairs.Keypair(true, s.initiator, s.sending, s.receiving, 0, s.local, s.remote)
  }

  /** A peer holds the indices of a handshake. */
  predicate Indexed(p: Keypairs.Peer, h: Noise.Handshake) {
    p.local == h.local && p.remote == h.remote
  }

  function Zeros(): (z: seq<nat>)
    ensures |z| == Noise.HASH_LEN
  {
    seq(Noise.HASH_LEN, _ => 0)
  }

  /** A handshake whose secrets are wiped. */
  function Wiped(h: Noise.Handshake): Noise.Handshake {
    h.(valid := false, local := 0, remote := 0, ephPriv := Zeros(), remoteEph := Zeros(), hash := Zeros(),
      ck := Zeros())
  }

  function Start(s: Noise.Session): Keypairs.Op {
    Keypairs.Start(s.initiator, s.sending, s.receiving)
  }

  /** `wireguard_start_session`. */
  method StartSession(c: Noise.Crypto, h: Noise.HandshakeState, p: Keypairs.PeerState, initiator: bool)
    requires h.Sized() && Noise.HashLength(c) && Indexed(p.Value(), h.Value())
    modifies h, h.chainingKey, h.hash, p
    ensures h.Sized() && h.Value() == Wiped(old(h.Value())) && Indexed(p.Value(), h.Value())
    ensures var s := Noise.StartSession(c, old(h.Value()), initiator);
      p.Value() == Keypairs.Started(old(p.Value()), initiator, s.sending, s.receiving)
  {
    hide Noise.Kdf;
    var t1 := new nat[Noise.HASH_LEN](_ => 0);
    var t2 := new nat[Noise.HASH_LEN](_ => 0);
    Noise.Kdf2(c, t1, t2, h.chainingKey, []);
    p.StartSession(initiator, t1[..], t2[..]);
    h.ephPriv, h.remoteEph := Zeros(), Zeros();
    Noise.Fill(h.hash, Zeros());
    Noise.Fill(h.chainingKey, Zeros());
    h.remote, h.local, h.valid := 0, 0, false;
  }

  /** A new session is the current keypair of the initiator, and the next one of the responder
      until a packet confirms it. */
  lemma InItsSlot(w: Keypairs.World, s: Noise.Session)
    requires Keypairs.Inv(w) && Keypairs.Allowed(w, Start(s)) && w.peer.local == s.local && w.peer.remote == s.remote
    ensures var w' := Keypairs.Do(w, Start(s)); var slot := if s.initiator then Keypairs.Curr else Keypairs.Next;
      && Keypairs.Inv(w') && Keypairs.Get(w'.peer, slot) == Entry(s)
      && Keypairs.Lookup(w'.peer, s.local) == Keypairs.Found(slot)
      && (!s.initiator ==> w'.peer.curr == w.peer.curr)
  {
    Keypairs.DoKeeps(w, Start(s));
  }

  /** The confirmed session of a responder is current, and is still found. */
  lemma Confirmed(w: Keypairs.World, s: Noise.Session)
    requires Keypairs.Inv(w) && w.peer.next == Entry(s) && s.local != 0
    ensures var w' := Keypairs.Do(w, Keypairs.Update(Keypairs.Next));
      w'.peer.curr == Entry(s) && Keypairs.Lookup(w'.peer, s.local) == Keypairs.Found(Keypairs.Curr)
  {
  }

  /** After every honest handshake, whatever the peers held before: the index a packet carries
      finds, on the other side, the keypair whose receiving key is the key the packet was
      sent under, in both directions, before and after the responder's confirmation. */
  lemma SessionsMeet(c: Noise.Crypto, i: Noise.Side, r: Noise.Side, hi: Noise.Handshake, hr: Noise.Handshake,
                     later: Noise.Bytes -> bool, ephI: Noise.Bytes, time: Noise.Bytes, indexI: nat,
                     ephR: Noise.Bytes, indexR: nat, wi: Keypairs.World, wr: Keypairs.World)
    requires Noise.HashLength(c) && Noise.Lawful(c) && Noise.Acquainted(c, i, r) && later(time)
    requires Keypairs.Inv(wi) && Keypairs.Inv(wr)
    requires Noise.CreateInitiation(c, i, hi, ephI, time, indexI).1.Some?
    ensures var (hi1, m1) := Noise.CreateInitiation(c, i, hi, ephI, time, indexI);
      var (hr1, ok1) := Noise.ProcessInitiation(c, r, hr, later, m1.value);
      var (hr2, m2) := Noise.CreateResponse(c, r, hr1, ephR, indexR);
      ok1 && (m2.Some? ==>
        var (hi2, ok2) := Noise.ProcessResponse(c, i, hi1, m2.value);
        var a, b := Noise.StartSession(c, hi2, true), Noise.StartSession(c, hr2, false);
        ok2 && (Ready(wi, hi2, a) && Ready(wr, hr2, b) ==> Meet(wi, a, wr, b)))
  {
    hide *;
    var (hi1, m1) := Noise.CreateInitiation(c, i, hi, ephI, time, indexI);
    Noise.HonestRun(c, i, r, hi, hr, later, ephI, time, indexI, ephR, indexR);
    var (hr1, ok1) := Noise.ProcessInitiation(c, r, hr, later, m1.value);
    var (hr2, m2) := Noise.CreateResponse(c, r, hr1, ephR, indexR);
    if m2.Some? {
      var (hi2, ok2) := Noise.ProcessResponse(c, i, hi1, m2.value);
      var a, b := Noise.StartSession(c, hi2, true), Noise.StartSession(c, hr2, false);
      Roles(c, hi2, hr2);
      if Ready(wi, hi2, a) && Ready(wr, hr2, b) {
        TheyMeet(wi, hi2, a, wr, hr2, b);
      }
    }
  }

  lemma Roles(c: Noise.Crypto, hi: Noise.Handshake, hr: Noise.Handshake)
    requires Noise.HashLength(c)
    ensures Noise.StartSession(c, hi, true).initiator && !Noise.StartSession(c, hr, false).initiator
  {
  }

  /** The peer's record belongs to the handshake, and the session's key is new to it. */
  ghost predicate Ready(w: Keypairs.World, h: Noise.Handshake, s: Noise.Session) {
    Indexed(w.peer, h) && s.local == h.local && s.remote == h.remote && Keypairs.Allowed(w, Start(s))
  }

  /** The packets of the initiator `a` reach the session of the responder `b`, and back. */
  ghost predicate Meet(wi: Keypairs.World, a: Noise.Session, wr: Keypairs.World, b: Noise.Session) {
    var i, r := Keypairs.Do(wi, Start(a)).peer, Keypairs.Do(wr, Start(b)).peer;
    var r' := Keypairs.Do(Keypairs.Do(wr, Start(b)), Keypairs.Update(Keypairs.Next)).peer;
    && Keypairs.Lookup(r, i.curr.remote) == Keypairs.Found(Keypairs.Next) && r.next.receiving == i.curr.sending
    && Keypairs.Lookup(r', i.curr.remote) == Keypairs.Found(Keypairs.Curr) && r'.curr == r.next
    && Keypairs.Lookup(i, r.next.remote) == Keypairs.Found(Keypairs.Curr) && i.curr.receiving == r.next.sending
  }

  lemma TheyMeet(wi: Keypairs.World, hi: Noise.Handshake, a: Noise.Session, wr: Keypairs.World, hr: Noise.Handshake,
                 b: Noise.Session)
    requires Keypairs.Inv(wi) && Keypairs.Inv(wr) && Ready(wi, hi, a) && Ready(wr, hr, b)
    requires a.initiator && !b.initiator && a.sending == b.receiving && a.receiving == b.sending
    requires a.local == b.remote && a.remote == b.local
    ensures Meet(wi, a, wr, b)
  {
    hide Keypairs.Do, Keypairs.Inv, Keypairs.Lookup;
    InItsSlot(wi, a);
    InItsSlot(wr, b);
    Confirmed(Keypairs.Do(wr, Start(b)), b);
  }

  // ---------------------------------------------------------------- fresh keys

  /** The key derivation gives different keys for the chaining keys `cks`. */
  ghost predicate Distinguishes(c: Noise.Crypto, cks: set<Noise.Bytes>)
    requires Noise.HashLength(c)
  {
    forall a, b, m, n ::
      (a in cks && b in cks && m in {1, 2} && n in {1, 2} && Noise.Kdf(c, a, [], m) == Noise.Kdf(c, b, [], n)) ==>
        a == b && m == n
  }

  ghost predicate FromOne(c: Noise.Crypto, cks: set<Noise.Bytes>, key: Noise.Bytes)
    requires Noise.HashLength(c)
  {
    exists a, n :: a in cks && n in {1, 2} && key == Noise.Kdf(c, a, [], n)
  }

  /** All sending keys so far come from chaining keys in `cks`. */
  ghost predicate Derived(c: Noise.Crypto, w: Keypairs.World, cks: set<Noise.Bytes>)
    requires Noise.HashLength(c)
  {
    forall key :: key in w.made ==> FromOne(c, cks, key)
  }

  /** A handshake with a new chaining key gives a new sending key. */
  lemma FreshSession(c: Noise.Crypto, w: Keypairs.World, cks: set<Noise.Bytes>, h: Noise.Handshake, initiator: bool)
    requires Noise.HashLength(c) && Derived(c, w, cks) && h.ck !in cks && Distinguishes(c, cks + {h.ck})
    ensures var s := Noise.StartSession(c, h, initiator);
      s.sending !in w.made && Derived(c, Keypairs.Do(w, Start(s)), cks + {h.ck})
  {
    hide Noise.Kdf;
    var s, all := Noise.StartSession(c, h, initiator), cks + {h.ck};
    var m := if initiator then 1 else 2;
    assert s.sending == Noise.Kdf(c, h.ck, [], m);
    forall key | key in w.made
      ensures key != s.sending
    {
      var a, n :| a in cks && n in {1, 2} && key == Noise.Kdf(c, a, [], n);
      assert a in all && h.ck in all && a != h.ck;
    }
    forall key | key in w.made + {s.sending}
      ensures FromOne(c, all, key)
    {
      if key in w.made {
        var a, n :| a in cks && n in {1, 2} && key == Noise.Kdf(c, a, [], n);
        assert a in all;
      } else {
        assert h.ck in all;
      }
    }
  }
}
