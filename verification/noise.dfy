/** The handshake of bin/mudband/common/wireguard.c (Noise IKpsk2): key derivation, the four
    handshake messages' processing and the session keys. Hash, key agreement and AEAD are
    arbitrary functions; the only laws assumed of them are stated in `Lawful`. */
module Noise {
  import opened Common

  type Bytes = seq<nat>

  const HASH_LEN: nat := 32
  const BLOCK_SIZE: nat := 64

  /** BLAKE2s, X25519 (`pub` fails for the zero key) and ChaCha20-Poly1305. */
  datatype Crypto = Crypto(
    hash: Bytes -> Bytes,
    pub: Bytes -> Option<Bytes>,
    dh: (Bytes, Bytes) -> Bytes,
    seal: (Bytes, nat, Bytes, Bytes) -> Bytes,
    open: (Bytes, nat, Bytes, Bytes) -> Option<Bytes>,
    construction: Bytes,
    identifier: Bytes,
    zero: Bytes)

  ghost predicate HashLength(c: Crypto) {
    forall x :: |c.hash(x)| == HASH_LEN
  }

  /** Key agreement commutes, and opening undoes sealing. */
  ghost predicate Lawful(c: Crypto) {
    && (forall a, b :: c.pub(a).Some? && c.pub(b).Some? ==> c.dh(a, c.pub(b).value) == c.dh(b, c.pub(a).value))
    && (forall k, n, ad, p :: c.open(k, n, ad, c.seal(k, n, ad, p)) == Some(p))
  }

  // ---------------------------------------------------------------- key derivation

  function Xor(a: nat, b: nat): nat
    requires b < 256
  {
    (((a % 256) as bv8) ^ (b as bv8)) as nat
  }

  /** The key, padded with zeros to a block, each byte xored with `v`. */
  function Padded(key: Bytes, v: nat): Bytes
    requires |key| <= BLOCK_SIZE && v < 256
  {
    seq<nat>(BLOCK_SIZE, i requires 0 <= i < BLOCK_SIZE => Xor(if i < |key| then key[i] else 0, v))
  }

  /** HMAC (RFC 2104). */
  function Hmac(c: Crypto, key: Bytes, text: Bytes): Bytes
    requires |c.hash(key)| <= BLOCK_SIZE
  {
    var k := if |key| > BLOCK_SIZE then c.hash(key) else key;
    c.hash(Padded(k, 0x5c) + c.hash(Padded(k, 0x36) + text))
  }

  /** The expand step of HKDF with empty info (section 2.3 of RFC 5869): block `n`. */
  function Expand(c: Crypto, prk: Bytes, n: nat): Bytes
    requires |c.hash(prk)| <= BLOCK_SIZE
  {
    if n == 0 then [] else Hmac(c, prk, Expand(c, prk, n - 1) + [n])
  }

  /** Output `n` of the key derivation from a chaining key and data. */
  ghost function Kdf(c: Crypto, ck: Bytes, data: Bytes, n: nat): Bytes
    requires HashLength(c)
  {
    Expand(c, Hmac(c, ck, data), n)
  }

  method Copy(dst: array<nat>, src: Bytes)
    requires |src| <= dst.Length
    modifies dst
    ensures dst[..|src|] == src && dst[|src|..] == old(dst[|src|..])
  {
    for i := 0 to |src|
      invariant dst[..i] == src[..i] && dst[|src|..] == old(dst[|src|..])
    {
      dst[i] := src[i];
      assert dst[..i + 1] == src[..i] + [src[i]];
    }
  }

  /** `wireguard_hmac`: the digest may overwrite the text, or be the key. */
  method HmacInto(c: Crypto, digest: array<nat>, key: Bytes, text: array<nat>, n: nat)
    requires HashLength(c) && digest.Length >= HASH_LEN && n <= text.Length
    modifies digest
    ensures digest[..HASH_LEN] == Hmac(c, key, old(text[..n]))
    ensures digest[HASH_LEN..] == old(digest[HASH_LEN..])
  {
    var k := key;
    if |k| > BLOCK_SIZE {
      k := c.hash(k);
    }
    Copy(digest, c.hash(Padded(k, 0x36) + text[..n]));
    Copy(digest, c.hash(Padded(k, 0x5c) + digest[..HASH_LEN]));
  }

  /** `wireguard_kdf1`, also when `tau1` is the chaining key itself. */
  method Kdf1(c: Crypto, tau1: array<nat>, ck: array<nat>, data: Bytes)
    requires HashLength(c) && tau1.Length == ck.Length == HASH_LEN
    modifies tau1
    ensures tau1[..] == Kdf(c, old(ck[..]), data, 1)
  {
    var tau0 := Hmac(c, ck[..], data);
    var output := new nat[HASH_LEN + 1](_ => 0);
    FirstBlock(c, output, tau0);
    Copy(tau1, output[..HASH_LEN]);
    assert tau1[..] == tau1[..HASH_LEN];
  }

  /** tau1 := Hmac(tau0, 0x1), in the output buffer. */
  method FirstBlock(c: Crypto, output: array<nat>, tau0: Bytes)
    requires HashLength(c) && output.Length == HASH_LEN + 1
    modifies output
    ensures output[..HASH_LEN] == Expand(c, tau0, 1)
  {
    output[0] := 1;
    assert output[..1] == [1] == Expand(c, tau0, 0) + [1];
    HmacInto(c, output, tau0, output, 1);
  }

  /** The next block, from the one in the output buffer. */
  method NextBlock(c: Crypto, output: array<nat>, tau0: Bytes, n: nat)
    requires HashLength(c) && output.Length == HASH_LEN + 1 && 1 <= n && output[..HASH_LEN] == Expand(c, tau0, n - 1)
    modifies output
    ensures output[..HASH_LEN] == Expand(c, tau0, n)
  {
    output[HASH_LEN] := n;
    assert output[..HASH_LEN + 1] == Expand(c, tau0, n - 1) + [n];
    HmacInto(c, output, tau0, output, HASH_LEN + 1);
  }

  /** `wireguard_kdf2`, also when one output is the chaining key. */
  method Kdf2(c: Crypto, tau1: array<nat>, tau2: array<nat>, ck: array<nat>, data: Bytes)
    requires HashLength(c) && tau1.Length == tau2.Length == ck.Length == HASH_LEN && tau1 != tau2
    modifies tau1, tau2
    ensures tau1[..] == Kdf(c, old(ck[..]), data, 1) && tau2[..] == Kdf(c, old(ck[..]), data, 2)
  {
    var tau0 := Hmac(c, ck[..], data);
    var output := new nat[HASH_LEN + 1](_ => 0);
    FirstBlock(c, output, tau0);
    Copy(tau1, output[..HASH_LEN]);
    assert tau1[..] == tau1[..HASH_LEN];
    NextBlock(c, output, tau0, 2);
    Copy(tau2, output[..HASH_LEN]);
    assert tau2[..] == tau2[..HASH_LEN];
  }

  /** `wireguard_kdf3`, also when one output is the chaining key. */
  method Kdf3(c: Crypto, tau1: array<nat>, tau2: array<nat>, tau3: array<nat>, ck: array<nat>, data: Bytes)
    requires HashLength(c) && tau1.Length == tau2.Length == tau3.Length == ck.Length == HASH_LEN
    requires tau1 != tau2 && tau1 != tau3 && tau2 != tau3
    modifies tau1, tau2, tau3
    ensures tau1[..] == Kdf(c, old(ck[..]), data, 1) && tau2[..] == Kdf(c, old(ck[..]), data, 2)
    ensures tau3[..] == Kdf(c, old(ck[..]), data, 3)
  {
    var tau0 := Hmac(c, ck[..], data);
    var output := new nat[HASH_LEN + 1](_ => 0);
    FirstBlock(c, output, tau0);
    Copy(tau1, output[..HASH_LEN]);
    assert tau1[..] == tau1[..HASH_LEN];
    NextBlock(c, output, tau0, 2);
    Copy(tau2, output[..HASH_LEN]);
    assert tau2[..] == tau2[..HASH_LEN];
    NextBlock(c, output, tau0, 3);
    Copy(tau3, output[..HASH_LEN]);
    assert tau3[..] == tau3[..HASH_LEN];
  }

  // ---------------------------------------------------------------- the four steps, as values

  /** `struct wireguard_handshake`. */
  datatype Handshake = Handshake(
    valid: bool, initiator: bool, local: nat, remote: nat,
    ephPriv: Bytes, remoteEph: Bytes, hash: Bytes, ck: Bytes)

  /** The keys one side holds: its own pair, the peer's public key, the precomputed agreement
      of the two static keys, and the preshared key. */
  datatype Side = Side(priv: Bytes, pub: Bytes, peerPub: Bytes, peerDh: Bytes, psk: Bytes)

  datatype Initiation = Initiation(sender: nat, ephemeral: Bytes, encStatic: Bytes, encTimestamp: Bytes)
  datatype Response = Response(sender: nat, receiver: nat, ephemeral: Bytes, encEmpty: Bytes)

  ghost function Mix(c: Crypto, h: Bytes, data: Bytes): Bytes {
    c.hash(h + data)
  }

  /** `wireguard_create_handshake_initiation`, with its ephemeral key, time and index. */
  ghost function CreateInitiation(c: Crypto, s: Side, h: Handshake, eph: Bytes, time: Bytes, index: nat)
    : (Handshake, Option<Initiation>)
    requires HashLength(c)
  {
    var h0 := h.(ck := c.construction, hash := Mix(c, c.identifier, s.peerPub), ephPriv := eph);
    match c.pub(eph)
    case None => (h0, None)
    case Some(e) =>
      var ck1, hash1 := Kdf(c, h0.ck, e, 1), Mix(c, h0.hash, e);
      var dh := c.dh(eph, s.peerPub);
      if dh == c.zero then (h0.(ck := ck1, hash := hash1), None)
      else
        var ck2, key2 := Kdf(c, ck1, dh, 1), Kdf(c, ck1, dh, 2);
        var encStatic := c.seal(key2, 0, hash1, s.pub);
        var hash2 := Mix(c, hash1, encStatic);
        var ck3, key3 := Kdf(c, ck2, s.peerDh, 1), Kdf(c, ck2, s.peerDh, 2);
        var encTimestamp := c.seal(key3, 0, hash2, time);
        (h0.(valid := true, initiator := true, local := index, ck := ck3, hash := Mix(c, hash2, encTimestamp)),
         Some(Initiation(index, e, encStatic, encTimestamp)))
  }

  /** `wireguard_process_initiation_message`, for a device with one peer; `later` says whether
      the time in the message is beyond the greatest one seen and the rate and one-time
      password checks pass. */
  ghost function ProcessInitiation(c: Crypto, s: Side, h: Handshake, later: Bytes -> bool, m: Initiation)
    : (Handshake, bool)
    requires HashLength(c)
  {
    var hash0 := Mix(c, c.identifier, s.pub);
    var ck1, hash1 := Kdf(c, c.construction, m.ephemeral, 1), Mix(c, hash0, m.ephemeral);
    var dh := c.dh(s.priv, m.ephemeral);
    if dh == c.zero then (h, false)
    else
      var ck2, key2 := Kdf(c, ck1, dh, 1), Kdf(c, ck1, dh, 2);
      match c.open(key2, 0, hash1, m.encStatic)
      case None => (h, false)
      case Some(peer) =>
        var hash2 := Mix(c, hash1, m.encStatic);
        if peer != s.peerPub then (h, false)
        else
          var ck3, key3 := Kdf(c, ck2, s.peerDh, 1), Kdf(c, ck2, s.peerDh, 2);
          match c.open(key3, 0, hash2, m.encTimestamp)
          case None => (h, false)
          case Some(time) =>
            if !later(time) then (h, false)
            else
              (h.(valid := true, initiator := false, remote := m.sender, remoteEph := m.ephemeral,
                  ck := ck3, hash := Mix(c, hash2, m.encTimestamp)), true)
  }

  /** `wireguard_create_handshake_response`. */
  ghost function CreateResponse(c: Crypto, s: Side, h: Handshake, eph: Bytes, index: nat): (Handshake, Option<Response>)
    requires HashLength(c)
  {
    if !h.valid || h.initiator then (h, None)
    else
      var h0 := h.(ephPriv := eph);
      match c.pub(eph)
      case None => (h0, None)
      case Some(e) =>
        var ck1, hash1 := Kdf(c, h.ck, e, 1), Mix(c, h.hash, e);
        var dh1 := c.dh(eph, h.remoteEph);
        if dh1 == c.zero then (h0.(ck := ck1, hash := hash1), None)
        else
          var ck2 := Kdf(c, ck1, dh1, 1);
          var dh2 := c.dh(eph, s.peerPub);
          if dh2 == c.zero then (h0.(ck := ck2, hash := hash1), None)
          else
            var ck3 := Kdf(c, ck2, dh2, 1);
            var ck4, tau, key := Kdf(c, ck3, s.psk, 1), Kdf(c, ck3, s.psk, 2), Kdf(c, ck3, s.psk, 3);
            var hash2 := Mix(c, hash1, tau);
            var encEmpty := c.seal(key, 0, hash2, []);
            (h0.(local := index, ck := ck4, hash := Mix(c, hash2, encEmpty)),
             Some(Response(index, h.remote, e, encEmpty)))
  }

  /** `wireguard_process_handshake_response`. */
  ghost function ProcessResponse(c: Crypto, s: Side, h: Handshake, m: Response): (Handshake, bool)
    requires HashLength(c)
  {
    if !h.valid || !h.initiator then (h, false)
    else
      var ck1, hash1 := Kdf(c, h.ck, m.ephemeral, 1), Mix(c, h.hash, m.ephemeral);
      var dh1 := c.dh(h.ephPriv, m.ephemeral);
      if dh1 == c.zero then (h, false)
      else
        var ck2 := Kdf(c, ck1, dh1, 1);
        var dh2 := c.dh(s.priv, m.ephemeral);
        if dh2 == c.zero then (h, false)
        else
          var ck3 := Kdf(c, ck2, dh2, 1);
          var ck4, tau, key := Kdf(c, ck3, s.psk, 1), Kdf(c, ck3, s.psk, 2), Kdf(c, ck3, s.psk, 3);
          var hash2 := Mix(c, hash1, tau);
          if c.open(key, 0, hash2, m.encEmpty).None? then (h, false)
          else (h.(remoteEph := m.ephemeral, hash := hash2, ck := ck4, remote := m.sender), true)
  }

  /** The keys and indices of a session. */
  datatype Session = Session(initiator: bool, sending: Bytes, receiving: Bytes, local: nat, remote: nat)

  ghost function StartSession(c: Crypto, h: Handshake, initiator: bool): Session
    requires HashLength(c)
  {
    var t1, t2 := Kdf(c, h.ck, [], 1), Kdf(c, h.ck, [], 2);
    if initiator then Session(true, t1, t2, h.local, h.remote) else Session(false, t2, t1, h.local, h.remote)
  }

  // ---------------------------------------------------------------- honest runs

  /** The two sides know each other. */
  ghost predicate Acquainted(c: Crypto, i: Side, r: Side) {
    && c.pub(i.priv) == Some(i.pub) && c.pub(r.priv) == Some(r.pub)
    && i.peerPub == r.pub && r.peerPub == i.pub && i.psk == r.psk
    && i.peerDh == c.dh(i.priv, r.pub) && r.peerDh == c.dh(r.priv, i.pub)
  }

  /** The responder accepts an honest initiation, and both hold the same chaining key and
      transcript hash. */
  lemma InitiationAgrees(c: Crypto, i: Side, r: Side, hi: Handshake, hr: Handshake, eph: Bytes, time: Bytes,
                         index: nat, later: Bytes -> bool)
    requires HashLength(c) && Lawful(c) && Acquainted(c, i, r) && later(time)
    requires CreateInitiation(c, i, hi, eph, time, index).1.Some?
    ensures var (hi1, m) := CreateInitiation(c, i, hi, eph, time, index);
      var (hr1, ok) := ProcessInitiation(c, r, hr, later, m.value);
      && ok && hr1.ck == hi1.ck && hr1.hash == hi1.hash
      && hr1.valid && !hr1.initiator && hi1.valid && hi1.initiator
      && hr1.remote == hi1.local == index && c.pub(hi1.ephPriv) == Some(hr1.remoteEph)
  {
    hide Kdf;
  }

  /** The initiator accepts an honest response to that, and both hold the same chaining key. */
  lemma ResponseAgrees(c: Crypto, i: Side, r: Side, hi: Handshake, hr: Handshake, eph: Bytes, index: nat)
    requires HashLength(c) && Lawful(c) && Acquainted(c, i, r)
    requires hr.ck == hi.ck && hr.hash == hi.hash && hr.valid && !hr.initiator && hi.valid && hi.initiator
    requires hr.remote == hi.local && c.pub(hi.ephPriv) == Some(hr.remoteEph)
    requires CreateResponse(c, r, hr, eph, index).1.Some?
    ensures var (hr2, m) := CreateResponse(c, r, hr, eph, index);
      var (hi2, ok) := ProcessResponse(c, i, hi, m.value);
      && ok && hi2.ck == hr2.ck && m.value.receiver == hi2.local
      && hi2.local == hi.local == hr2.remote && hi2.remote == hr2.local == index
  {
    hide Kdf;
  }

  /** In every honest run the two sessions fit together: each side's sending key is the
      other's receiving key, and the indices cross over. */
  lemma HonestRun(c: Crypto, i: Side, r: Side, hi: Handshake, hr: Handshake, later: Bytes -> bool,
                  ephI: Bytes, time: Bytes, indexI: nat, ephR: Bytes, indexR: nat)
    requires HashLength(c) && Lawful(c) && Acquainted(c, i, r) && later(time)
    requires CreateInitiation(c, i, hi, ephI, time, indexI).1.Some?
    ensures var (hi1, m1) := CreateInitiation(c, i, hi, ephI, time, indexI);
      var (hr1, ok1) := ProcessInitiation(c, r, hr, later, m1.value);
      var (hr2, m2) := CreateResponse(c, r, hr1, ephR, indexR);
      ok1 && (m2.Some? ==>
        var (hi2, ok2) := ProcessResponse(c, i, hi1, m2.value);
        var a, b := StartSession(c, hi2, true), StartSession(c, hr2, false);
        && ok2 && hi2.ck == hr2.ck
        && a.sending == b.receiving && a.receiving == b.sending
        && a.local == b.remote == indexI && a.remote == b.local == indexR)
  {
    hide Kdf, CreateInitiation, ProcessInitiation, CreateResponse, ProcessResponse;
    var (hi1, m1) := CreateInitiation(c, i, hi, ephI, time, indexI);
    InitiationAgrees(c, i, r, hi, hr, ephI, time, indexI, later);
    var (hr1, ok1) := ProcessInitiation(c, r, hr, later, m1.value);
    var (hr2, m2) := CreateResponse(c, r, hr1, ephR, indexR);
    if m2.Some? {
      ResponseAgrees(c, i, r, hi1, hr1, ephR, indexR);
    }
  }

  // ---------------------------------------------------------------- the four steps, in place

  /** `wireguard_mix_hash`. */
  method MixHash(c: Crypto, hash: array<nat>, data: Bytes)
    requires HashLength(c) && hash.Length == HASH_LEN
    modifies hash
    ensures hash[..] == Mix(c, old(hash[..]), data)
  {
    Copy(hash, c.hash(hash[..] + data));
    assert hash[..] == hash[..HASH_LEN];
  }

  /** Replace all of a buffer. */
  method Fill(dst: array<nat>, src: Bytes)
    requires |src| == dst.Length
    modifies dst
    ensures dst[..] == src
  {
    Copy(dst, src);
    assert dst[..] == dst[..|src|];
  }

  /** The body of `wireguard_process_initiation_message`, on local buffers. */
  method OpenInitiation(c: Crypto, s: Side, later: Bytes -> bool, m: Initiation, ghost v: Handshake)
    returns (ok: bool, ck: array<nat>, h: array<nat>)
    requires HashLength(c) && |c.construction| == |c.identifier| == HASH_LEN
    ensures fresh(ck) && fresh(h) && ck != h && ck.Length == h.Length == HASH_LEN
    ensures ProcessInitiation(c, s, v, later, m) ==
      (if ok then v.(valid := true, initiator := false, remote := m.sender, remoteEph := m.ephemeral,
                     ck := ck[..], hash := h[..])
       else v, ok)
  {
    hide Kdf;
    ck := new nat[HASH_LEN](_ => 0);
    h := new nat[HASH_LEN](_ => 0);
    var key := new nat[HASH_LEN](_ => 0);
    Fill(ck, c.construction);
    Fill(h, c.identifier);
    MixHash(c, h, s.pub);
    Kdf1(c, ck, ck, m.ephemeral);
    MixHash(c, h, m.ephemeral);
    var dh := c.dh(s.priv, m.ephemeral);
    if dh == c.zero {
      return false, ck, h;
    }
    Kdf2(c, ck, key, ck, dh);
    var peer := c.open(key[..], 0, h[..], m.encStatic);
    if peer.None? {
      return false, ck, h;
    }
    MixHash(c, h, m.encStatic);
    if peer.value != s.peerPub {
      return false, ck, h;
    }
    Kdf2(c, ck, key, ck, s.peerDh);
    var time := c.open(key[..], 0, h[..], m.encTimestamp);
    if time.None? {
      return false, ck, h;
    }
    MixHash(c, h, m.encTimestamp);
    ok := later(time.value);
  }

  /** The body of `wireguard_process_handshake_response`, on local buffers. */
  method OpenResponse(c: Crypto, s: Side, ck0: Bytes, hash0: Bytes, eph: Bytes, m: Response, ghost v: Handshake)
    returns (ok: bool, ck: array<nat>, h: array<nat>)
    requires HashLength(c) && |ck0| == |hash0| == HASH_LEN && v.valid && v.initiator && v.ck == ck0 && v.hash == hash0
    requires v.ephPriv == eph
    ensures fresh(ck) && fresh(h) && ck != h && ck.Length == h.Length == HASH_LEN
    ensures ProcessResponse(c, s, v, m) ==
      (if ok then v.(remote := m.sender, remoteEph := m.ephemeral, ck := ck[..], hash := h[..]) else v, ok)
  {
    hide Kdf;
    ck := new nat[HASH_LEN](_ => 0);
    h := new nat[HASH_LEN](_ => 0);
    Fill(ck, ck0);
    Fill(h, hash0);
    Kdf1(c, ck, ck, m.ephemeral);
    MixHash(c, h, m.ephemeral);
    var dh := c.dh(eph, m.ephemeral);
    if dh == c.zero {
      return false, ck, h;
    }
    Kdf1(c, ck, ck, dh);
    dh := c.dh(s.priv, m.ephemeral);
    if dh == c.zero {
      return false, ck, h;
    }
    Kdf1(c, ck, ck, dh);
    var tau := new nat[HASH_LEN](_ => 0);
    var key := new nat[HASH_LEN](_ => 0);
    Kdf3(c, ck, tau, key, ck, s.psk);
    MixHash(c, h, tau[..]);
    ok := c.open(key[..], 0, h[..], m.encEmpty).Some?;
  }

  lemma NotExpected(c: Crypto, s: Side, v: Handshake, m: Response)
    requires HashLength(c)
    ensures !v.valid || !v.initiator ==> ProcessResponse(c, s, v, m) == (v, false)
  {
  }

  /** A peer's handshake state, updated in place by the key derivation. */
  class HandshakeState {
    const chainingKey: array<nat>
    const hash: array<nat>
    var valid: bool
    var initiator: bool
    var local: nat
    var remote: nat
    var ephPriv: Bytes
    var remoteEph: Bytes

    ghost predicate Sized()
      reads this
    {
      chainingKey != hash && chainingKey.Length == HASH_LEN && hash.Length == HASH_LEN
    }

    ghost function Value(): Handshake
      reads this, chainingKey, hash
    {
      Handshake(valid, initiator, local, remote, ephPriv, remoteEph, hash[..], chainingKey[..])
    }

    constructor ()
      ensures Sized() && !valid && fresh(chainingKey) && fresh(hash)
    {
      chainingKey := new nat[HASH_LEN](_ => 0);
      hash := new nat[HASH_LEN](_ => 0);
      valid, initiator, local, remote, ephPriv, remoteEph := false, false, 0, 0, [], [];
    }

    /** `wireguard_create_handshake_initiation`. */
    method Initiate(c: Crypto, s: Side, eph: Bytes, time: Bytes, index: nat) returns (m: Option<Initiation>)
      requires Sized() && HashLength(c) && |c.construction| == |c.identifier| == HASH_LEN
      modifies this, chainingKey, hash
      ensures Sized() && (Value(), m) == CreateInitiation(c, s, old(Value()), eph, time, index)
    {
      hide Kdf;
      Fill(chainingKey, c.construction);
      Fill(hash, c.identifier);
      MixHash(c, hash, s.peerPub);
      ephPriv := eph;
      var e := c.pub(eph);
      if e.None? {
        return None;
      }
      Kdf1(c, chainingKey, chainingKey, e.value);
      MixHash(c, hash, e.value);
      var dh := c.dh(eph, s.peerPub);
      if dh == c.zero {
        return None;
      }
      var key := new nat[HASH_LEN](_ => 0);
      Kdf2(c, chainingKey, key, chainingKey, dh);
      var encStatic := c.seal(key[..], 0, hash[..], s.pub);
      MixHash(c, hash, encStatic);
      Kdf2(c, chainingKey, key, chainingKey, s.peerDh);
      var encTimestamp := c.seal(key[..], 0, hash[..], time);
      MixHash(c, hash, encTimestamp);
      valid, initiator, local := true, true, index;
      return Some(Initiation(index, e.value, encStatic, encTimestamp));
    }

    /** `wireguard_process_initiation_message`. */
    method Accept(c: Crypto, s: Side, later: Bytes -> bool, m: Initiation) returns (ok: bool)
      requires Sized() && HashLength(c) && |c.construction| == |c.identifier| == HASH_LEN
      modifies this, chainingKey, hash
      ensures Sized() && (Value(), ok) == ProcessInitiation(c, s, old(Value()), later, m)
    {
      hide Kdf, ProcessInitiation;
      var ck, h;
      ok, ck, h := OpenInitiation(c, s, later, m, Value());
      if ok {
        remoteEph := m.ephemeral;
        Fill(hash, h[..]);
        Fill(chainingKey, ck[..]);
        remote, valid, initiator := m.sender, true, false;
      }
    }

    /** `wireguard_create_handshake_response`. */
    method Respond(c: Crypto, s: Side, eph: Bytes, index: nat) returns (m: Option<Response>)
      requires Sized() && HashLength(c)
      modifies this, chainingKey, hash
      ensures Sized() && (Value(), m) == CreateResponse(c, s, old(Value()), eph, index)
    {
      hide Kdf;
      if !valid || initiator {
        return None;
      }
      ephPriv := eph;
      var e := c.pub(eph);
      if e.None? {
        return None;
      }
      Kdf1(c, chainingKey, chainingKey, e.value);
      MixHash(c, hash, e.value);
      var dh := c.dh(eph, remoteEph);
      if dh == c.zero {
        return None;
      }
      Kdf1(c, chainingKey, chainingKey, dh);
      dh := c.dh(eph, s.peerPub);
      if dh == c.zero {
        return None;
      }
      Kdf1(c, chainingKey, chainingKey, dh);
      var tau := new nat[HASH_LEN](_ => 0);
      var key := new nat[HASH_LEN](_ => 0);
      Kdf3(c, chainingKey, tau, key, chainingKey, s.psk);
      MixHash(c, hash, tau[..]);
      var encEmpty := c.seal(key[..], 0, hash[..], []);
      MixHash(c, hash, encEmpty);
      local := index;
      return Some(Response(index, remote, e.value, encEmpty));
    }

    /** `wireguard_process_handshake_response`. */
    method Finish(c: Crypto, s: Side, m: Response) returns (ok: bool)
      requires Sized() && HashLength(c)
      modifies this, chainingKey, hash
      ensures Sized() && (Value(), ok) == ProcessResponse(c, s, old(Value()), m)
    {
      hide Kdf, ProcessResponse;
      NotExpected(c, s, Value(), m);
      if !valid || !initiator {
        return false;
      }
      var ck, h;
      ok, ck, h := OpenResponse(c, s, chainingKey[..], hash[..], ephPriv, m, Value());
      if ok {
        remoteEph := m.ephemeral;
        Fill(hash, h[..]);
        Fill(chainingKey, ck[..]);
        remote := m.sender;
      }
    }
  }
}
