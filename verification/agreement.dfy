/** What acceptance means in the handshake of bin/mudband/common/wireguard.c: everything that
    either side mixed into its keys and its transcript was the same on the other side. */
module Agreement {
  import opened Common
  import opened Noise

  /** The inputs of a key derivation or of a transcript, one behind the other. */
  datatype Inputs = Empty | Then(before: Inputs, last: Bytes)

  /** The chaining key after mixing in all inputs. */
  ghost function Chain(c: Crypto, ck: Bytes, xs: Inputs): Bytes
    requires HashLength(c)
  {
    match xs
    case Empty => ck
    case Then(before, x) => Kdf(c, Chain(c, ck, before), x, 1)
  }

  /** The transcript hash after mixing in all inputs. */
  ghost function Transcript(c: Crypto, h: Bytes, xs: Inputs): Bytes {
    match xs
    case Empty => h
    case Then(before, x) => Mix(c, Transcript(c, h, before), x)
  }

  /** Chaining keys and data that are put into the key derivation on the way. */
  ghost function KdfInputs(c: Crypto, ck: Bytes, xs: Inputs): set<(Bytes, Bytes)>
    requires HashLength(c)
  {
    match xs
    case Empty => {}
    case Then(before, x) => KdfInputs(c, ck, before) + {(Chain(c, ck, before), x)}
  }

  /** What is hashed on the way. */
  ghost function HashInputs(c: Crypto, h: Bytes, xs: Inputs): set<Bytes> {
    match xs
    case Empty => {}
    case Then(before, x) => HashInputs(c, h, before) + {Transcript(c, h, before) + x}
  }

  /** The key derivation has no collision among the inputs in use. */
  ghost predicate KdfDistinguishes(c: Crypto, used: set<(Bytes, Bytes)>)
    requires HashLength(c)
  {
    forall x, y, m, n :: (x in used && y in used && m in {1, 2, 3} && n in {1, 2, 3} &&
                          Kdf(c, x.0, x.1, m) == Kdf(c, y.0, y.1, n)) ==> x == y && m == n
  }

  /** Nor has the hash. */
  ghost predicate HashDistinguishes(c: Crypto, used: set<Bytes>) {
    forall x, y :: x in used && y in used && c.hash(x) == c.hash(y) ==> x == y
  }

  /** Only what was sealed under a key, nonce and associated data can be opened with them. */
  ghost predicate SealBinds(c: Crypto) {
    forall k, n, ad, p, k', n', ad' ::
      c.open(k', n', ad', c.seal(k, n, ad, p)).Some? ==> k == k' && n == n' && ad == ad'
  }

  ghost function Length(xs: Inputs): nat {
    match xs
    case Empty => 0
    case Then(before, _) => Length(before) + 1
  }

  /** Equal chaining keys come from equal inputs. */
  lemma {:induction false} ChainBinds(c: Crypto, ck: Bytes, xs: Inputs, ck': Bytes, ys: Inputs,
                                      used: set<(Bytes, Bytes)>)
    requires HashLength(c) && KdfDistinguishes(c, used) && Length(xs) == Length(ys)
    requires KdfInputs(c, ck, xs) <= used && KdfInputs(c, ck', ys) <= used
    requires Chain(c, ck, xs) == Chain(c, ck', ys)
    ensures xs == ys && ck == ck'
  {
    hide Kdf;
    if xs.Then? {
      var x, y := (Chain(c, ck, xs.before), xs.last), (Chain(c, ck', ys.before), ys.last);
      assert x in used && y in used && Kdf(c, x.0, x.1, 1) == Kdf(c, y.0, y.1, 1);
      ChainBinds(c, ck, xs.before, ck', ys.before, used);
    }
  }

  lemma {:induction false} TranscriptLength(c: Crypto, h: Bytes, xs: Inputs)
    requires HashLength(c) && |h| == HASH_LEN
    ensures |Transcript(c, h, xs)| == HASH_LEN
  {
  }

  /** Equal transcripts are of equal messages. */
  lemma {:induction false} TranscriptBinds(c: Crypto, h: Bytes, xs: Inputs, ys: Inputs, used: set<Bytes>)
    requires HashLength(c) && HashDistinguishes(c, used) && Length(xs) == Length(ys) && |h| == HASH_LEN
    requires HashInputs(c, h, xs) <= used && HashInputs(c, h, ys) <= used
    requires Transcript(c, h, xs) == Transcript(c, h, ys)
    ensures xs == ys
  {
    if xs.Then? {
      var a, b := Transcript(c, h, xs.before), Transcript(c, h, ys.before);
      TranscriptLength(c, h, xs.before);
      TranscriptLength(c, h, ys.before);
      assert a + xs.last in used && b + ys.last in used;
      assert a == (a + xs.last)[..HASH_LEN] && b == (b + ys.last)[..HASH_LEN];
      assert xs.last == (a + xs.last)[HASH_LEN..] && ys.last == (b + ys.last)[HASH_LEN..];
      TranscriptBinds(c, h, xs.before, ys.before, used);
    }
  }

  // ---------------------------------------------------------------- what each step mixes in

  /** The first four inputs, written out. */
  lemma FourTexts(c: Crypto, h: Bytes, a: Bytes, b: Bytes, x: Bytes, y: Bytes)
    ensures Transcript(c, h, Then(Then(Empty, a), b)) == Mix(c, Mix(c, h, a), b)
    ensures Transcript(c, h, Then(Then(Then(Empty, a), b), x)) == Mix(c, Mix(c, Mix(c, h, a), b), x)
    ensures Transcript(c, h, Then(Then(Then(Then(Empty, a), b), x), y)) == Mix(c, Mix(c, Mix(c, Mix(c, h, a), b), x), y)
  {
    hide Mix;
    assert Transcript(c, h, Empty) == h && Transcript(c, h, Then(Empty, a)) == Mix(c, h, a);
    MoreTexts(c, h, Empty, a, b, x);
    MoreTexts(c, h, Then(Empty, a), b, x, y);
  }

  lemma FourKeys(c: Crypto, ck: Bytes, xs: Inputs, a: Bytes, b: Bytes, x: Bytes, y: Bytes)
    requires HashLength(c)
    ensures var ck0 := Chain(c, ck, xs);
      && Chain(c, ck, Then(xs, a)) == Kdf(c, ck0, a, 1)
      && Chain(c, ck, Then(Then(xs, a), b)) == Kdf(c, Kdf(c, ck0, a, 1), b, 1)
      && Chain(c, ck, Then(Then(Then(xs, a), b), x)) == Kdf(c, Kdf(c, Kdf(c, ck0, a, 1), b, 1), x, 1)
      && Chain(c, ck, Then(Then(Then(Then(xs, a), b), x), y)) ==
           Kdf(c, Kdf(c, Kdf(c, Kdf(c, ck0, a, 1), b, 1), x, 1), y, 1)
  {
    hide Kdf;
    var two := Then(Then(xs, a), b);
    assert Chain(c, ck, two) == Kdf(c, Chain(c, ck, Then(xs, a)), b, 1);
    assert Chain(c, ck, Then(two, x)) == Kdf(c, Chain(c, ck, two), x, 1);
    assert Chain(c, ck, Then(Then(two, x), y)) == Kdf(c, Chain(c, ck, Then(two, x)), y, 1);
  }

  /** Ephemeral key, the two key agreements of an initiation. */
  function InitiationKeys(e: Bytes, es: Bytes, ss: Bytes): Inputs {
    Then(Then(Then(Empty, e), es), ss)
  }

  /** Responder's static key, ephemeral key and the two sealed fields. */
  function InitiationTexts(s: Bytes, m: Initiation): Inputs {
    Then(Then(Then(Then(Empty, s), m.ephemeral), m.encStatic), m.encTimestamp)
  }

  /** The sender's keys and transcript: the ephemeral key, its agreement with the peer's static
      key, the agreement of the static keys. */
  lemma InitiationMixes(c: Crypto, s: Side, h: Handshake, eph: Bytes, time: Bytes, index: nat)
    requires HashLength(c) && CreateInitiation(c, s, h, eph, time, index).1.Some?
    ensures c.pub(eph).Some?
    ensures var (h1, m) := CreateInitiation(c, s, h, eph, time, index);
      var keys := InitiationKeys(c.pub(eph).value, c.dh(eph, s.peerPub), s.peerDh);
      && m.value.ephemeral == c.pub(eph).value && h1.ephPriv == eph && h1.valid && h1.initiator
      && m.value.encStatic == c.seal(Kdf(c, Chain(c, c.construction, keys.before.before), keys.before.last, 2), 0,
           Transcript(c, c.identifier, InitiationTexts(s.peerPub, m.value).before.before), s.pub)
      && m.value.encTimestamp == c.seal(Kdf(c, Chain(c, c.construction, keys.before), keys.last, 2), 0,
           Transcript(c, c.identifier, InitiationTexts(s.peerPub, m.value).before), time)
      && h1.ck == Chain(c, c.construction, keys)
      && h1.hash == Transcript(c, c.identifier, InitiationTexts(s.peerPub, m.value))
  {
    hide Kdf, Mix, Chain, Transcript;
    var (h1, m) := CreateInitiation(c, s, h, eph, time, index);
    FourTexts(c, c.identifier, s.peerPub, m.value.ephemeral, m.value.encStatic, m.value.encTimestamp);
    FourKeys(c, c.construction, Empty, c.pub(eph).value, c.dh(eph, s.peerPub), s.peerDh, []);
    ChainStart(c);
  }

  lemma ChainStart(c: Crypto)
    requires HashLength(c)
    ensures Chain(c, c.construction, Empty) == c.construction
  {
  }

  /** The receiver's. */
  lemma AcceptMixes(c: Crypto, s: Side, h: Handshake, later: Bytes -> bool, m: Initiation)
    requires HashLength(c) && ProcessInitiation(c, s, h, later, m).1
    ensures var h1 := ProcessInitiation(c, s, h, later, m).0;
      var keys := InitiationKeys(m.ephemeral, c.dh(s.priv, m.ephemeral), s.peerDh);
      var texts := InitiationTexts(s.pub, m);
      var time := c.open(Kdf(c, Chain(c, c.construction, keys.before), keys.last, 2), 0,
                         Transcript(c, c.identifier, texts.before), m.encTimestamp);
      && c.open(Kdf(c, Chain(c, c.construction, keys.before.before), keys.before.last, 2), 0,
                Transcript(c, c.identifier, texts.before.before), m.encStatic) == Some(s.peerPub)
      && time.Some? && later(time.value)
      && h1.ck == Chain(c, c.construction, keys) && h1.hash == Transcript(c, c.identifier, texts)
      && h1.valid && !h1.initiator && h1.remoteEph == m.ephemeral && h1.remote == m.sender
  {
    hide Kdf, Mix, Chain, Transcript;
    FourTexts(c, c.identifier, s.pub, m.ephemeral, m.encStatic, m.encTimestamp);
    FourKeys(c, c.construction, Empty, m.ephemeral, c.dh(s.priv, m.ephemeral), s.peerDh, []);
    ChainStart(c);
  }

  /** Ephemeral key and the two key agreements of a response. */
  function ResponseKeys(ck: Inputs, e: Bytes, ee: Bytes, se: Bytes): Inputs {
    Then(Then(Then(ck, e), ee), se)
  }

  /** The responder mixes in its ephemeral key, its agreement with both keys of the initiator
      and the preshared key. */
  lemma ResponseMixes(c: Crypto, s: Side, h: Handshake, eph: Bytes, index: nat, keys: Inputs, texts: Inputs)
    requires HashLength(c) && CreateResponse(c, s, h, eph, index).1.Some?
    requires h.ck == Chain(c, c.construction, keys) && h.hash == Transcript(c, c.identifier, texts)
    ensures c.pub(eph).Some?
    ensures var (h1, m) := CreateResponse(c, s, h, eph, index);
      var all := ResponseKeys(keys, c.pub(eph).value, c.dh(eph, h.remoteEph), c.dh(eph, s.peerPub));
      var ck := Chain(c, c.construction, all);
      var texts' := Then(Then(texts, m.value.ephemeral), Kdf(c, ck, s.psk, 2));
      && m.value.ephemeral == c.pub(eph).value
      && m.value.encEmpty == c.seal(Kdf(c, ck, s.psk, 3), 0, Transcript(c, c.identifier, texts'), [])
      && h1.ck == Chain(c, c.construction, Then(all, s.psk))
      && h1.hash == Transcript(c, c.identifier, Then(texts', m.value.encEmpty))
  {
    hide Kdf, Mix, Chain, Transcript;
    var (h1, m) := CreateResponse(c, s, h, eph, index);
    var e, ee, se := c.pub(eph).value, c.dh(eph, h.remoteEph), c.dh(eph, s.peerPub);
    FourKeys(c, c.construction, keys, e, ee, se, s.psk);
    var ck := Chain(c, c.construction, ResponseKeys(keys, e, ee, se));
    MoreTexts(c, c.identifier, texts, e, Kdf(c, ck, s.psk, 2), m.value.encEmpty);
  }

  lemma MoreTexts(c: Crypto, h: Bytes, xs: Inputs, a: Bytes, b: Bytes, x: Bytes)
    ensures var h0 := Transcript(c, h, xs);
      && Transcript(c, h, Then(Then(xs, a), b)) == Mix(c, Mix(c, h0, a), b)
      && Transcript(c, h, Then(Then(Then(xs, a), b), x)) == Mix(c, Mix(c, Mix(c, h0, a), b), x)
  {
    hide Mix;
    assert Transcript(c, h, Then(xs, a)) == Mix(c, Transcript(c, h, xs), a);
    assert Transcript(c, h, Then(Then(xs, a), b)) == Mix(c, Transcript(c, h, Then(xs, a)), b);
  }

  /** The initiator checks the same. */
  lemma FinishMixes(c: Crypto, s: Side, h: Handshake, m: Response, keys: Inputs, texts: Inputs)
    requires HashLength(c) && ProcessResponse(c, s, h, m).1
    requires h.ck == Chain(c, c.construction, keys) && h.hash == Transcript(c, c.identifier, texts)
    ensures var h1 := ProcessResponse(c, s, h, m).0;
      var all := ResponseKeys(keys, m.ephemeral, c.dh(h.ephPriv, m.ephemeral), c.dh(s.priv, m.ephemeral));
      var ck := Chain(c, c.construction, all);
      var texts' := Then(Then(texts, m.ephemeral), Kdf(c, ck, s.psk, 2));
      && c.open(Kdf(c, ck, s.psk, 3), 0, Transcript(c, c.identifier, texts'), m.encEmpty).Some?
      && h1.ck == Chain(c, c.construction, Then(all, s.psk)) && h1.hash == Transcript(c, c.identifier, texts')
  {
    hide Kdf, Mix, Chain, Transcript;
    var ee, se := c.dh(h.ephPriv, m.ephemeral), c.dh(s.priv, m.ephemeral);
    FourKeys(c, c.construction, keys, m.ephemeral, ee, se, s.psk);
    var ck := Chain(c, c.construction, ResponseKeys(keys, m.ephemeral, ee, se));
    MoreTexts(c, c.identifier, texts, m.ephemeral, Kdf(c, ck, s.psk, 2), []);
  }

  // ---------------------------------------------------------------- acceptance

  /** A responder that accepts an initiation is the one it was meant for, knows its sender, and
      takes its time for new. */
  lemma AcceptedInitiation(c: Crypto, i: Side, r: Side, hi: Handshake, hr: Handshake, eph: Bytes, time: Bytes,
                           index: nat,
                           later: Bytes -> bool, kdfs: set<(Bytes, Bytes)>, hashes: set<Bytes>)
    requires HashLength(c) && Lawful(c) && SealBinds(c) && |c.identifier| == HASH_LEN
    requires KdfDistinguishes(c, kdfs) && HashDistinguishes(c, hashes)
    requires CreateInitiation(c, i, hi, eph, time, index).1.Some? && c.pub(eph).Some?
    requires var m := CreateInitiation(c, i, hi, eph, time, index).1.value;
      && ProcessInitiation(c, r, hr, later, m).1
      && KdfInputs(c, c.construction, InitiationKeys(m.ephemeral, c.dh(eph, i.peerPub), i.peerDh)) <= kdfs
      && KdfInputs(c, c.construction, InitiationKeys(m.ephemeral, c.dh(r.priv, m.ephemeral), r.peerDh)) <= kdfs
      && HashInputs(c, c.identifier, InitiationTexts(i.peerPub, m)) <= hashes
      && HashInputs(c, c.identifier, InitiationTexts(r.pub, m)) <= hashes
    ensures i.pub == r.peerPub && i.peerPub == r.pub && i.peerDh == r.peerDh && later(time)
    ensures c.dh(eph, i.peerPub) == c.dh(r.priv, c.pub(eph).value)
  {
    var m := CreateInitiation(c, i, hi, eph, time, index).1.value;
    InitiationMixes(c, i, hi, eph, time, index);
    AcceptMixes(c, r, hr, later, m);
    hide *;
    var ki := InitiationKeys(m.ephemeral, c.dh(eph, i.peerPub), i.peerDh);
    var kr := InitiationKeys(m.ephemeral, c.dh(r.priv, m.ephemeral), r.peerDh);
    var ti, tr := InitiationTexts(i.peerPub, m), InitiationTexts(r.pub, m);
    InitiationForm(m.ephemeral, c.dh(eph, i.peerPub), i.peerDh, i.peerPub, m);
    InitiationForm(m.ephemeral, c.dh(r.priv, m.ephemeral), r.peerDh, r.pub, m);
    TextsBefore(c, c.identifier, ti, hashes);
    TextsBefore(c, c.identifier, tr, hashes);
    SealAgrees(c, ki, ti.before, time, kr, tr.before, 2, kdfs, hashes);
    OpensTo(c, Kdf(c, Chain(c, c.construction, ki.before), ki.last, 2), Transcript(c, c.identifier, ti.before), time);
    OpensTo(c, Kdf(c, Chain(c, c.construction, ki.before.before), ki.before.last, 2),
      Transcript(c, c.identifier, ti.before.before), i.pub);
  }

  lemma InitiationForm(e: Bytes, es: Bytes, ss: Bytes, s: Bytes, m: Initiation)
    ensures var keys := InitiationKeys(e, es, ss);
      keys.Then? && keys.before.Then? && keys.last == ss && keys.before.last == es && Length(keys) == 3
    ensures var texts := InitiationTexts(s, m);
      && texts.Then? && texts.before.Then? && texts.before.before.Then? && texts.before.before.before.Then?
      && texts.before.before.before.last == s && Length(texts.before) == 3
  {
    assert Length(Then(Empty, e)) == 1 && Length(Then(Empty, s)) == 1;
    assert Length(InitiationKeys(e, es, ss).before) == 2;
    assert Length(InitiationTexts(s, m).before.before) == 2;
  }

  lemma OpensTo(c: Crypto, k: Bytes, ad: Bytes, p: Bytes)
    requires Lawful(c)
    ensures c.open(k, 0, ad, c.seal(k, 0, ad, p)) == Some(p)
  {
  }

  lemma KeysBefore(c: Crypto, ck: Bytes, xs: Inputs, used: set<(Bytes, Bytes)>)
    requires HashLength(c) && xs.Then? && KdfInputs(c, ck, xs) <= used
    ensures KdfInputs(c, ck, xs.before) <= used && (Chain(c, ck, xs.before), xs.last) in used
  {
    hide Kdf;
  }

  lemma TextsBefore(c: Crypto, h: Bytes, xs: Inputs, used: set<Bytes>)
    requires xs.Then? && HashInputs(c, h, xs) <= used
    ensures HashInputs(c, h, xs.before) <= used
  {
  }

  lemma LengthsBefore(xs: Inputs, ys: Inputs)
    requires xs.Then? && ys.Then? && Length(xs) == Length(ys)
    ensures Length(xs.before) == Length(ys.before)
  {
  }

  lemma SealSame(c: Crypto, k: Bytes, ad: Bytes, p: Bytes, k': Bytes, ad': Bytes)
    requires SealBinds(c) && c.open(k', 0, ad', c.seal(k, 0, ad, p)).Some?
    ensures k == k' && ad == ad'
  {
  }

  /** A seal under output `n` of one side's key derivation that opens under the other's binds
      all inputs of both. */
  lemma SealAgrees(c: Crypto, xs: Inputs, ts: Inputs, p: Bytes, ys: Inputs, us: Inputs, n: nat,
                   kdfs: set<(Bytes, Bytes)>, hashes: set<Bytes>)
    requires HashLength(c) && SealBinds(c) && |c.identifier| == HASH_LEN && n in {1, 2, 3}
    requires KdfDistinguishes(c, kdfs) && HashDistinguishes(c, hashes)
    requires xs.Then? && ys.Then? && Length(xs) == Length(ys) && Length(ts) == Length(us)
    requires KdfInputs(c, c.construction, xs) <= kdfs && KdfInputs(c, c.construction, ys) <= kdfs
    requires HashInputs(c, c.identifier, ts) <= hashes && HashInputs(c, c.identifier, us) <= hashes
    requires c.open(Kdf(c, Chain(c, c.construction, ys.before), ys.last, n), 0, Transcript(c, c.identifier, us),
               c.seal(Kdf(c, Chain(c, c.construction, xs.before), xs.last, n), 0, Transcript(c, c.identifier, ts),
                 p)).Some?
    ensures xs == ys && ts == us
  {
    hide *;
    SealSame(c, Kdf(c, Chain(c, c.construction, xs.before), xs.last, n), Transcript(c, c.identifier, ts), p,
      Kdf(c, Chain(c, c.construction, ys.before), ys.last, n), Transcript(c, c.identifier, us));
    LengthsBefore(xs, ys);
    KeysBefore(c, c.construction, xs, kdfs);
    KeysBefore(c, c.construction, ys, kdfs);
    SameKdf(c, Chain(c, c.construction, xs.before), xs.last, Chain(c, c.construction, ys.before), ys.last, n, kdfs);
    ChainBinds(c, c.construction, xs.before, c.construction, ys.before, kdfs);
    TranscriptBinds(c, c.identifier, ts, us, hashes);
  }

  lemma SameKdf(c: Crypto, ck: Bytes, x: Bytes, ck': Bytes, y: Bytes, n: nat, used: set<(Bytes, Bytes)>)
    requires HashLength(c) && KdfDistinguishes(c, used) && (ck, x) in used && (ck', y) in used && n in {1, 2, 3}
    requires Kdf(c, ck, x, n) == Kdf(c, ck', y, n)
    ensures ck == ck' && x == y
  {
    hide Kdf;
    var p, q := (ck, x), (ck', y);
    assert Kdf(c, p.0, p.1, n) == Kdf(c, q.0, q.1, n);
  }

  /** All key inputs of the initiator's side of a run. */
  ghost function InitiatorKeys(c: Crypto, i: Side, eph: Bytes, e: Bytes, m2: Response): Inputs {
    Then(ResponseKeys(InitiationKeys(e, c.dh(eph, i.peerPub), i.peerDh), m2.ephemeral,
                      c.dh(eph, m2.ephemeral), c.dh(i.priv, m2.ephemeral)), i.psk)
  }

  /** ... and of the responder's. */
  ghost function ResponderKeys(c: Crypto, r: Side, m1: Initiation, eph: Bytes, e: Bytes): Inputs {
    Then(ResponseKeys(InitiationKeys(m1.ephemeral, c.dh(r.priv, m1.ephemeral), r.peerDh), e,
                      c.dh(eph, m1.ephemeral), c.dh(eph, r.peerPub)), r.psk)
  }

  /** The transcript of a run, up to the sealed confirmation. */
  ghost function RunTexts(c: Crypto, s: Bytes, m1: Initiation, m2: Response, keys: Inputs): Inputs
    requires HashLength(c) && keys.Then?
  {
    Then(Then(InitiationTexts(s, m1), m2.ephemeral), Kdf(c, Chain(c, c.construction, keys.before), keys.last, 2))
  }

  lemma RunForm(c: Crypto, s: Bytes, m1: Initiation, m2: Response, keys: Inputs)
    requires HashLength(c) && keys.Then?
    ensures Length(RunTexts(c, s, m1, m2, keys)) == 6
  {
    var t := InitiationTexts(s, m1);
    InitiationForm([], [], [], s, m1);
    assert Length(t) == 4 && Length(Then(t, m2.ephemeral)) == 5;
  }

  lemma KeysForm(a: Inputs, e: Bytes, ee: Bytes, se: Bytes, psk: Bytes)
    ensures Length(Then(ResponseKeys(a, e, ee, se), psk)) == Length(a) + 4
  {
    assert Length(Then(a, e)) == Length(a) + 1;
    assert Length(Then(Then(a, e), ee)) == Length(a) + 2;
    assert Length(ResponseKeys(a, e, ee, se)) == Length(a) + 3;
  }

  /** The two sides of a run that the initiator completes: whatever initiation `m1` the
      responder took, and whatever each side believes about the other. */
  datatype Run = Run(i: Side, hi: Handshake, ephI: Bytes, time: Bytes, indexI: nat,
                     r: Side, hr: Handshake, later: Bytes -> bool, m1: Initiation, ephR: Bytes, indexR: nat)

  ghost predicate Completes(c: Crypto, x: Run)
    requires HashLength(c)
  {
    var (hi1, m) := CreateInitiation(c, x.i, x.hi, x.ephI, x.time, x.indexI);
    var (hr1, ok1) := ProcessInitiation(c, x.r, x.hr, x.later, x.m1);
    var (hr2, m2) := CreateResponse(c, x.r, hr1, x.ephR, x.indexR);
    m.Some? && ok1 && m2.Some? && ProcessResponse(c, x.i, hi1, m2.value).1
  }

  /** The initiation that the initiator made, the response it took, and the final states. */
  ghost function Made(c: Crypto, x: Run): Initiation
    requires HashLength(c) && Completes(c, x)
  {
    CreateInitiation(c, x.i, x.hi, x.ephI, x.time, x.indexI).1.value
  }

  ghost function Answer(c: Crypto, x: Run): Response
    requires HashLength(c) && Completes(c, x)
  {
    CreateResponse(c, x.r, ProcessInitiation(c, x.r, x.hr, x.later, x.m1).0, x.ephR, x.indexR).1.value
  }

  ghost function InitiatorEnd(c: Crypto, x: Run): Handshake
    requires HashLength(c) && Completes(c, x)
  {
    ProcessResponse(c, x.i, CreateInitiation(c, x.i, x.hi, x.ephI, x.time, x.indexI).0, Answer(c, x)).0
  }

  ghost function ResponderEnd(c: Crypto, x: Run): Handshake
    requires HashLength(c) && Completes(c, x)
  {
    CreateResponse(c, x.r, ProcessInitiation(c, x.r, x.hr, x.later, x.m1).0, x.ephR, x.indexR).0
  }

  /** What the two sides put in, and the seal between them. */
  lemma RunMixes(c: Crypto, x: Run, ki: Inputs, kr: Inputs)
    requires HashLength(c) && Completes(c, x)
    requires ki == InitiatorKeys(c, x.i, x.ephI, Made(c, x).ephemeral, Answer(c, x))
    requires kr == ResponderKeys(c, x.r, x.m1, x.ephR, Answer(c, x).ephemeral)
    ensures var m2 := Answer(c, x);
      && c.open(Kdf(c, Chain(c, c.construction, ki.before), ki.last, 3), 0,
                Transcript(c, c.identifier, RunTexts(c, x.i.peerPub, Made(c, x), m2, ki)), m2.encEmpty).Some?
      && m2.encEmpty == c.seal(Kdf(c, Chain(c, c.construction, kr.before), kr.last, 3), 0,
                Transcript(c, c.identifier, RunTexts(c, x.r.pub, x.m1, m2, kr)), [])
      && InitiatorEnd(c, x).ck == Chain(c, c.construction, ki) && ResponderEnd(c, x).ck == Chain(c, c.construction, kr)
      && c.pub(x.ephI) == Some(Made(c, x).ephemeral) && c.pub(x.ephR) == Some(m2.ephemeral)
  {
    hide Kdf, CreateInitiation, ProcessInitiation, CreateResponse, ProcessResponse, Chain, Transcript;
    var (hi1, m) := CreateInitiation(c, x.i, x.hi, x.ephI, x.time, x.indexI);
    var hr1 := ProcessInitiation(c, x.r, x.hr, x.later, x.m1).0;
    InitiationMixes(c, x.i, x.hi, x.ephI, x.time, x.indexI);
    AcceptMixes(c, x.r, x.hr, x.later, x.m1);
    var a := InitiationKeys(m.value.ephemeral, c.dh(x.ephI, x.i.peerPub), x.i.peerDh);
    var b := InitiationKeys(x.m1.ephemeral, c.dh(x.r.priv, x.m1.ephemeral), x.r.peerDh);
    ResponseMixes(c, x.r, hr1, x.ephR, x.indexR, b, InitiationTexts(x.r.pub, x.m1));
    FinishMixes(c, x.i, hi1, Answer(c, x), a, InitiationTexts(x.i.peerPub, m.value));
  }

  /** Everything in use: no collisions among these. */
  ghost predicate NoCollisions(c: Crypto, x: Run)
    requires HashLength(c) && Completes(c, x)
  {
    var m2 := Answer(c, x);
    var ki := InitiatorKeys(c, x.i, x.ephI, Made(c, x).ephemeral, m2);
    var kr := ResponderKeys(c, x.r, x.m1, x.ephR, m2.ephemeral);
    && KdfDistinguishes(c, KdfInputs(c, c.construction, ki) + KdfInputs(c, c.construction, kr))
    && HashDistinguishes(c, HashInputs(c, c.identifier, RunTexts(c, x.i.peerPub, Made(c, x), m2, ki))
                            + HashInputs(c, c.identifier, RunTexts(c, x.r.pub, x.m1, m2, kr)))
  }

  /** The two sides hold the same keys and saw the same messages. */
  ghost predicate Agreed(c: Crypto, x: Run)
    requires HashLength(c) && Completes(c, x)
  {
    var m, m2 := Made(c, x), Answer(c, x);
    && x.i.psk == x.r.psk && x.i.peerPub == x.r.pub && x.i.peerDh == x.r.peerDh
    && x.m1.(sender := m.sender) == m
    && c.dh(x.ephI, x.i.peerPub) == c.dh(x.r.priv, m.ephemeral)
    && c.dh(x.ephI, m2.ephemeral) == c.dh(x.ephR, m.ephemeral)
    && c.dh(x.i.priv, m2.ephemeral) == c.dh(x.ephR, x.r.peerPub)
    && InitiatorEnd(c, x).ck == ResponderEnd(c, x).ck
  }

  /** A run that the initiator completes is one in which both sides agree on the preshared key,
      on all key agreements and on both messages (but for the plain sender index), and each
      has the other's static key. */
  lemma AcceptedResponse(c: Crypto, x: Run)
    requires HashLength(c) && Lawful(c) && SealBinds(c) && |c.identifier| == HASH_LEN
    requires Completes(c, x) && NoCollisions(c, x)
    ensures Agreed(c, x) && x.i.pub == x.r.peerPub && x.later(x.time)
  {
    hide Kdf, Completes, Made, Answer, InitiatorEnd, ResponderEnd, Chain, Transcript, KdfDistinguishes,
         HashDistinguishes,
         KdfInputs, HashInputs, SealBinds, Lawful;
    var m, m2 := Made(c, x), Answer(c, x);
    var ki := InitiatorKeys(c, x.i, x.ephI, m.ephemeral, m2);
    var kr := ResponderKeys(c, x.r, x.m1, x.ephR, m2.ephemeral);
    var ti, tr := RunTexts(c, x.i.peerPub, m, m2, ki), RunTexts(c, x.r.pub, x.m1, m2, kr);
    RunMixes(c, x, ki, kr);
    RunForm(c, x.i.peerPub, m, m2, ki);
    RunForm(c, x.r.pub, x.m1, m2, kr);
    RunLengths(c, x, m, m2, ki, kr);
    SealAgrees(c, kr, tr, [], ki, ti, 3, KdfInputs(c, c.construction, ki) + KdfInputs(c, c.construction, kr),
      HashInputs(c, c.identifier, ti) + HashInputs(c, c.identifier, tr));
    OwnInitiation(c, x);
  }

  lemma RunLengths(c: Crypto, x: Run, m: Initiation, m2: Response, ki: Inputs, kr: Inputs)
    requires ki == InitiatorKeys(c, x.i, x.ephI, m.ephemeral, m2)
    requires kr == ResponderKeys(c, x.r, x.m1, x.ephR, m2.ephemeral)
    ensures Length(ki) == Length(kr)
  {
    var a := InitiationKeys(m.ephemeral, c.dh(x.ephI, x.i.peerPub), x.i.peerDh);
    var b := InitiationKeys(x.m1.ephemeral, c.dh(x.r.priv, x.m1.ephemeral), x.r.peerDh);
    InitiationForm(m.ephemeral, c.dh(x.ephI, x.i.peerPub), x.i.peerDh, [], m);
    InitiationForm(x.m1.ephemeral, c.dh(x.r.priv, x.m1.ephemeral), x.r.peerDh, [], m);
    KeysForm(a, m2.ephemeral, c.dh(x.ephI, m2.ephemeral), c.dh(x.i.priv, m2.ephemeral), x.i.psk);
    KeysForm(b, m2.ephemeral, c.dh(x.ephR, x.m1.ephemeral), c.dh(x.ephR, x.r.peerPub), x.r.psk);
  }

  /** The responder opened what the initiator sealed. */
  lemma OwnInitiation(c: Crypto, x: Run)
    requires HashLength(c) && Lawful(c) && Completes(c, x) && Agreed(c, x)
    ensures x.i.pub == x.r.peerPub && x.later(x.time)
  {
    InitiationMixes(c, x.i, x.hi, x.ephI, x.time, x.indexI);
    AcceptMixes(c, x.r, x.hr, x.later, x.m1);
    hide Kdf, Chain, Transcript, CreateInitiation, ProcessInitiation, CreateResponse, ProcessResponse, Lawful;
    var m := Made(c, x);
    var keys := InitiationKeys(m.ephemeral, c.dh(x.ephI, x.i.peerPub), x.i.peerDh);
    var texts := InitiationTexts(x.i.peerPub, m);
    assert texts == InitiationTexts(x.r.pub, x.m1);
    assert keys == InitiationKeys(x.m1.ephemeral, c.dh(x.r.priv, x.m1.ephemeral), x.r.peerDh);
    OpensTo(c, Kdf(c, Chain(c, c.construction, keys.before.before), keys.before.last, 2),
      Transcript(c, c.identifier, texts.before.before), x.i.pub);
    OpensTo(c, Kdf(c, Chain(c, c.construction, keys.before), keys.last, 2),
      Transcript(c, c.identifier, texts.before), x.time);
  }

  /** The session keys (section 5.4.5 of the WireGuard paper): the initiator sends under the
      first output block for the chaining key and receives under the second, the responder
      the other way round. */
  lemma SessionKeys(c: Crypto, h: Handshake)
    requires HashLength(c)
    ensures var a, b := StartSession(c, h, true), StartSession(c, h, false);
      var prk := Hmac(c, h.ck, []);
      && a.sending == Hmac(c, prk, [1]) && a.receiving == Hmac(c, prk, a.sending + [2])
      && b.receiving == a.sending && b.sending == a.receiving
      && a.local == b.local == h.local && a.remote == b.remote == h.remote
  {
    var prk := Hmac(c, h.ck, []);
    assert Expand(c, prk, 0) + [1] == [1];
    assert Expand(c, prk, 1) == Hmac(c, prk, [1]);
    hide Hmac;
  }

  /** Byte `i` of a key, which is padded with zeros. */
  function KeyByte(key: Bytes, i: nat): bv8 {
    if i < |key| then (key[i] % 256) as bv8 else 0
  }

  /** The keyed hash of RFC 2104: the key, hashed first if it is longer than a block, is added
      with 0x36 in front of the text and with 0x5c in front of the inner hash. */
  lemma HmacIs(c: Crypto, key: Bytes, text: Bytes) returns (inner: Bytes, outer: Bytes)
    requires HashLength(c)
    ensures Hmac(c, key, text) == c.hash(outer + c.hash(inner + text)) && |inner| == |outer| == 64
    ensures var k := if |key| > 64 then c.hash(key) else key;
      forall i :: 0 <= i < 64 ==>
        && inner[i] == (KeyByte(k, i) ^ 0x36) as nat && outer[i] == (KeyByte(k, i) ^ 0x5c) as nat
  {
    var k := if |key| > 64 then c.hash(key) else key;
    inner, outer := Padded(k, 0x36), Padded(k, 0x5c);
    forall i | 0 <= i < 64
      ensures inner[i] == (KeyByte(k, i) ^ 0x36) as nat && outer[i] == (KeyByte(k, i) ^ 0x5c) as nat
    {
      PadByte(k, i);
    }
    hide Padded;
  }

  lemma XorIs(a: nat, b: nat, v: bv8)
    requires b < 256 && b as bv8 == v
    ensures Xor(a, b) == (((a % 256) as bv8) ^ v) as nat
  {
  }

  lemma Pads(b: nat)
    ensures b == 0x36 ==> b as bv8 == 0x36
    ensures b == 0x5c ==> b as bv8 == 0x5c
  {
  }

  lemma PadByte(k: Bytes, i: nat)
    requires |k| <= 64 && i < 64
    ensures Padded(k, 0x36)[i] == (KeyByte(k, i) ^ 0x36) as nat && Padded(k, 0x5c)[i] == (KeyByte(k, i) ^ 0x5c) as nat
  {
    var a := if i < |k| then k[i] else 0;
    Pads(0x36);
    Pads(0x5c);
    XorIs(a, 0x36, 0x36);
    XorIs(a, 0x5c, 0x5c);
    assert KeyByte(k, i) == (a % 256) as bv8;
    assert Padded(k, 0x36)[i] == Xor(a, 0x36) && Padded(k, 0x5c)[i] == Xor(a, 0x5c);
    hide Xor;
  }
}
