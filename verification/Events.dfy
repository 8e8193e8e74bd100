/** Ledger entries, the keys they are written under and the message each MAC covers. */
module Events {
  import opened Basics
  import opened SealRecords
  import Merkle

  /** One parsed line of the ledger file. */
  datatype Event = Event(v: u32, seqNo: u64, ts: u64, eventType: Bytes, body: Bytes, epoch: u32,
                         prevHash: Bytes, hash: Bytes)

  const FORMAT_VERSION: u32 := 3
  const SEAL_EVENT := Ascii("sovereign:seal")
  const KEY_ROTATION_EVENT := Ascii("sovereign:key-rotation")

  /**
   * The parts of the program that come from libraries. Nothing is assumed about the hash, the MAC, the
   * signature check or the record parser except where a lemma says so.
   */
  datatype Env = Env(
    sha: Sha,
    hmac: (Digest, Bytes) -> Digest,
    parseSeal: Bytes -> Option<SealRecord>,
    renderSeal: SealRecord -> Bytes,
    // scheme, public key, signature, payload: `None` is a scheme or an encoding that cannot be checked
    checkSignature: (Bytes, Bytes, Bytes, Bytes) -> Option<bool>)
  {
    function TreeHasher(): Merkle.Hasher {
      Merkle.ShaHasher(sha)
    }

    /** A record written by the serializer parses back. */
    ghost predicate Faithful() {
      forall r :: parseSeal(renderSeal(r)) == Some(r)
    }

    /** Every signature the signer gives is one a key-free verifier accepts. */
    ghost predicate Genuine(signer: Signer) {
      signer.publicKey.Some? ==>
        forall p :: signer.sign(p).Some? ==>
          checkSignature(signer.scheme, signer.publicKey.value, signer.sign(p).value, p) == Some(true)
    }
  }

  // ----- the MAC message -----

  /** x in n little-endian bytes. */
  function LittleEndian(x: nat, n: nat): (b: Bytes)
    ensures |b| == n
  {
    if n == 0 then [] else [x % 256] + LittleEndian(x / 256, n - 1)
  }

  function Pow256(n: nat): nat {
    if n == 0 then 1 else 256 * Pow256(n - 1)
  }

  /** The number that some bytes stand for, the lowest first. */
  function FromLittleEndian(b: Bytes): nat {
    if b == [] then 0 else b[0] + 256 * FromLittleEndian(b[1..])
  }

  lemma {:induction false} LittleEndianRoundTrip(x: nat, n: nat)
    requires x < Pow256(n)
    ensures FromLittleEndian(LittleEndian(x, n)) == x
  {
    if n > 0 {
      LittleEndianRoundTrip(x / 256, n - 1);
      assert LittleEndian(x, n)[1..] == LittleEndian(x / 256, n - 1);
    }
  }

  lemma LittleEndianInjective(x: nat, y: nat, n: nat)
    requires x < Pow256(n) && y < Pow256(n) && LittleEndian(x, n) == LittleEndian(y, n)
    ensures x == y
  {
    LittleEndianRoundTrip(x, n);
    LittleEndianRoundTrip(y, n);
  }

  lemma Pow256Values()
    ensures Pow256(4) == TWO32 && Pow256(8) == TWO64
  {
    assert Pow256(2) == 0x1_0000;
  }

  /** The fields after the previous hash: numbers, and texts behind their lengths. */
  function MacFields(seqNo: u64, ts: u64, eventType: Bytes, body: Bytes): Bytes {
    LittleEndian(seqNo, 8) + (LittleEndian(ts, 8)
    + (LittleEndian(|eventType| % TWO32, 4) + (eventType + (LittleEndian(|body| % TWO64, 8) + body))))
  }

  const MAC_TAG := Ascii("SL2")

  /** The message of a version 2 or 3 MAC. The length of the type is truncated to 32 bits. */
  function MacMessage(prev: Digest, seqNo: u64, ts: u64, eventType: Bytes, body: Bytes): Bytes {
    MAC_TAG + (prev.bytes + MacFields(seqNo, ts, eventType, body))
  }

  /** Two messages are equal only if every field is, for event types below 2^32 bytes. */
  lemma MacMessageInjective(prev: Digest, seqNo: u64, ts: u64, eventType: Bytes, body: Bytes,
                            prev': Digest, seqNo': u64, ts': u64, eventType': Bytes, body': Bytes)
    requires |eventType| < TWO32 && |eventType'| < TWO32
    requires MacMessage(prev, seqNo, ts, eventType, body) == MacMessage(prev', seqNo', ts', eventType', body')
    ensures prev == prev' && seqNo == seqNo' && ts == ts' && eventType == eventType' && body == body'
  {
    ConcatCut(MAC_TAG, prev.bytes + MacFields(seqNo, ts, eventType, body),
              MAC_TAG, prev'.bytes + MacFields(seqNo', ts', eventType', body'));
    ConcatCut(prev.bytes, MacFields(seqNo, ts, eventType, body),
              prev'.bytes, MacFields(seqNo', ts', eventType', body'));
    MacFieldsInjective(seqNo, ts, eventType, body, seqNo', ts', eventType', body');
  }

  lemma MacFieldsInjective(seqNo: u64, ts: u64, eventType: Bytes, body: Bytes,
                           seqNo': u64, ts': u64, eventType': Bytes, body': Bytes)
    requires |eventType| < TWO32 && |eventType'| < TWO32
    requires MacFields(seqNo, ts, eventType, body) == MacFields(seqNo', ts', eventType', body')
    ensures seqNo == seqNo' && ts == ts' && eventType == eventType' && body == body'
  {
    Pow256Values();
    hide LittleEndian, Pow256;
    var (a, a') := (LittleEndian(|body| % TWO64, 8) + body, LittleEndian(|body'| % TWO64, 8) + body');
    var (b, b') := (LittleEndian(|eventType|, 4) + (eventType + a), LittleEndian(|eventType'|, 4) + (eventType' + a'));
    var (c, c') := (LittleEndian(ts, 8) + b, LittleEndian(ts', 8) + b');
    ConcatCut(LittleEndian(seqNo, 8), c, LittleEndian(seqNo', 8), c');
    LittleEndianInjective(seqNo, seqNo', 8);
    ConcatCut(LittleEndian(ts, 8), b, LittleEndian(ts', 8), b');
    LittleEndianInjective(ts, ts', 8);
    ConcatCut(LittleEndian(|eventType|, 4), eventType + a, LittleEndian(|eventType'|, 4), eventType' + a');
    LittleEndianInjective(|eventType|, |eventType'|, 4);
    ConcatCut(eventType, a, eventType', a');
    ConcatCut(LittleEndian(|body| % TWO64, 8), body, LittleEndian(|body'| % TWO64, 8), body');
  }

  lemma {:induction false} ZerosConcat(m: nat, n: nat)
    ensures Zeros(m) + Zeros(n) == Zeros(m + n)
  {
    if m > 0 {
      ZerosConcat(m - 1, n);
      assert [0] + Zeros(m - 1) + Zeros(n) == [0] + (Zeros(m - 1) + Zeros(n));
    }
  }

  lemma {:induction false} LittleEndianZero(n: nat)
    ensures LittleEndian(0, n) == Zeros(n)
  {
    if n > 0 { LittleEndianZero(n - 1); }
  }

  /**
   * Beyond 2^32 bytes the truncated length lets two splits of one message pass for each other: an empty
   * type before 2^32 zero bytes of body, or all of that as the type of an entry with no body.
   */
  lemma LongTypesCollide(prev: Digest, seqNo: u64, ts: u64, long: Bytes)
    requires long == LittleEndian(TWO32, 8) + Zeros(TWO32 - 8)
    ensures |long| == TWO32
    ensures MacMessage(prev, seqNo, ts, [], Zeros(TWO32)) == MacMessage(prev, seqNo, ts, long, [])
  {
    LittleEndianZero(8);
    hide LittleEndian, Zeros;
    ZerosConcat(TWO32 - 8, 8);
    assert [] + (LittleEndian(TWO32, 8) + Zeros(TWO32)) == long + (LittleEndian(0, 8) + []);
  }

  /** The message of version 2 and 3 as one line: tag, previous hash, number, time, and both texts behind their lengths. */
  lemma MacLayout(prev: Digest, seqNo: u64, ts: u64, eventType: Bytes, body: Bytes)
    ensures MacMessage(prev, seqNo, ts, eventType, body)
            == Ascii("SL2") + prev.bytes + LittleEndian(seqNo, 8) + LittleEndian(ts, 8)
               + LittleEndian(|eventType| % TWO32, 4) + eventType + LittleEndian(|body| % TWO64, 8) + body
  {
    hide LittleEndian, Ascii;
    Flat(MAC_TAG, prev.bytes, LittleEndian(seqNo, 8), LittleEndian(ts, 8),
         LittleEndian(|eventType| % TWO32, 4), eventType, LittleEndian(|body| % TWO64, 8), body);
  }

  lemma Flat(a: Bytes, b: Bytes, c: Bytes, d: Bytes, e: Bytes, f: Bytes, g: Bytes, h: Bytes)
    ensures a + b + c + d + e + f + g + h == a + (b + (c + (d + (e + (f + (g + h))))))
  {
    var (s1, s2, s3) := (a + b, a + b + c, a + b + c + d);
    var (s4, s5, r5) := (s3 + e, s3 + e + f, g + h);
    var (r4, r3, r2, r1) := (f + r5, e + (f + r5), d + (e + (f + r5)), c + (d + (e + (f + r5))));
    Reassociate(s5, g, h);
    Reassociate(s4, f, r5);
    Reassociate(s3, e, r4);
    Reassociate(s2, d, r3);
    Reassociate(s1, c, r2);
    Reassociate(a, b, r1);
  }

  lemma Reassociate(a: Bytes, b: Bytes, c: Bytes)
    ensures a + b + c == a + (b + c)
  {
  }

  // ----- hashes and keys -----

  /** One call of the MAC. */
  datatype MacQuery = MacQuery(key: Digest, message: Bytes)

  function Mac(env: Env, q: MacQuery): Digest {
    env.hmac(q.key, q.message)
  }

  /** What the suffix-keyed hash of version 1 covers. */
  function V1Message(prev: Digest, seqNo: u64, ts: u64, eventType: Bytes, body: Bytes, key: Digest): Bytes {
    prev.bytes + (LittleEndian(seqNo, 8) + (LittleEndian(ts, 8) + ((eventType + body) + key.bytes)))
  }

  function EventHashV1(env: Env, prev: Digest, seqNo: u64, ts: u64, eventType: Bytes, body: Bytes, key: Digest): Digest {
    env.sha(V1Message(prev, seqNo, ts, eventType, body, key))
  }

  function EventHashV2(env: Env, prev: Digest, seqNo: u64, ts: u64, eventType: Bytes, body: Bytes, key: Digest): Digest {
    env.hmac(key, MacMessage(prev, seqNo, ts, eventType, body))
  }

  /** The hash an entry must carry; `None` is an unsupported version. */
  function EventHash(env: Env, e: Event, prev: Digest, key: Digest): Option<Digest> {
    if e.v == 1 then Some(EventHashV1(env, prev, e.seqNo, e.ts, e.eventType, e.body, key))
    else if e.v == 2 || e.v == 3 then Some(EventHashV2(env, prev, e.seqNo, e.ts, e.eventType, e.body, key))
    else None
  }

  // ----- what a version 1 hash covers -----

  /** A stand-in for SHA-256 that shows 32 bytes of its input, from position a on. */
  function Window(a: nat): Sha {
    (x: Bytes) => if a + HASH_SIZE <= |x| then Digest(x[a..a + HASH_SIZE]) else ZERO_DIGEST
  }

  /** What a version 1 hash shows of its input through a window. */
  function Seen(env: Env, e: Event, prev: Digest, key: Digest, a: nat): (d: Digest)
    requires e.v == 1
  {
    EventHash(env.(sha := Window(a)), e, prev, key).value
  }

  /**
   * Every field enters the hash of a version 1 entry at its place: the previous hash first, number and time
   * in eight bytes each, type and body without lengths, and the key last.
   */
  lemma V1Covers(env: Env, e: Event, prev: Digest, key: Digest)
    requires e.v == 1
    ensures Seen(env, e, prev, key, 0) == prev
    ensures Seen(env, e, prev, key, 48 + |e.eventType| + |e.body|) == key
    ensures Seen(env, e, prev, key, 32).bytes[..8] == LittleEndian(e.seqNo, 8)
    ensures Seen(env, e, prev, key, 32).bytes[8..16] == LittleEndian(e.ts, 8)
    ensures forall i :: 0 <= i < |e.eventType| ==> Seen(env, e, prev, key, 17 + i).bytes[31] == e.eventType[i]
    ensures forall i :: 0 <= i < |e.body| ==> Seen(env, e, prev, key, 17 + |e.eventType| + i).bytes[31] == e.body[i]
  {
    hide LittleEndian;
    var m := V1Message(prev, e.seqNo, e.ts, e.eventType, e.body, key);
    var text := e.eventType + e.body;
    V1Layout(prev, e.seqNo, e.ts, e.eventType, e.body, key, m);
    assert m[48 + |text|..48 + |text| + 32] == m[48 + |text|..];
    assert m[32..64][..8] == m[32..40] && m[32..64][8..16] == m[40..48];
    forall i | 0 <= i < |text| ensures m[17 + i..17 + i + 32][31] == text[i] {
      assert m[48..48 + |text|][i] == m[48 + i];
    }
    hide V1Message;
    forall i | 0 <= i < |e.eventType| ensures Seen(env, e, prev, key, 17 + i).bytes[31] == e.eventType[i] {
      assert text[i] == e.eventType[i];
    }
    forall i | 0 <= i < |e.body| ensures Seen(env, e, prev, key, 17 + |e.eventType| + i).bytes[31] == e.body[i] {
      assert text[|e.eventType| + i] == e.body[i];
    }
  }

  lemma V1Layout(prev: Digest, seqNo: u64, ts: u64, eventType: Bytes, body: Bytes, key: Digest, m: Bytes)
    requires m == V1Message(prev, seqNo, ts, eventType, body, key)
    ensures var text := eventType + body;
            && |m| == 80 + |text|
            && m[0..32] == prev.bytes && m[32..40] == LittleEndian(seqNo, 8) && m[40..48] == LittleEndian(ts, 8)
            && m[48..48 + |text|] == text && m[48 + |text|..] == key.bytes
  {
    hide LittleEndian;
  }

  /** Two version 1 messages are equal exactly when all fields are, type and body taken together. */
  lemma V1MessageDetermines(prev: Digest, seqNo: u64, ts: u64, eventType: Bytes, body: Bytes, key: Digest,
                            prev': Digest, seqNo': u64, ts': u64, eventType': Bytes, body': Bytes, key': Digest)
    ensures V1Message(prev, seqNo, ts, eventType, body, key) == V1Message(prev', seqNo', ts', eventType', body', key')
            <==> prev == prev' && seqNo == seqNo' && ts == ts' && eventType + body == eventType' + body' && key == key'
  {
    Pow256Values();
    hide LittleEndian, Pow256;
    var (m, m') := (V1Message(prev, seqNo, ts, eventType, body, key),
                    V1Message(prev', seqNo', ts', eventType', body', key'));
    if m == m' {
      var (a, a') := ((eventType + body) + key.bytes, (eventType' + body') + key'.bytes);
      var (b, b') := (LittleEndian(ts, 8) + a, LittleEndian(ts', 8) + a');
      ConcatCut(prev.bytes, LittleEndian(seqNo, 8) + b, prev'.bytes, LittleEndian(seqNo', 8) + b');
      ConcatCut(LittleEndian(seqNo, 8), b, LittleEndian(seqNo', 8), b');
      LittleEndianInjective(seqNo, seqNo', 8);
      ConcatCut(LittleEndian(ts, 8), a, LittleEndian(ts', 8), a');
      LittleEndianInjective(ts, ts', 8);
      ConcatCut(eventType + body, key.bytes, eventType' + body', key'.bytes);
    }
  }

  /** Version 1 entries with one hash have one key and one content, or their two messages collide in SHA-256. */
  lemma V1HashBinds(env: Env, e: Event, prev: Digest, key: Digest, e': Event, prev': Digest, key': Digest)
    requires e.v == 1 && e'.v == 1 && EventHash(env, e, prev, key) == EventHash(env, e', prev', key')
    ensures var (m, m') := (V1Message(prev, e.seqNo, e.ts, e.eventType, e.body, key),
                            V1Message(prev', e'.seqNo, e'.ts, e'.eventType, e'.body, key'));
            || (prev == prev' && key == key' && e.seqNo == e'.seqNo && e.ts == e'.ts
                && e.eventType + e.body == e'.eventType + e'.body)
            || (m != m' && env.sha(m) == env.sha(m'))
  {
    hide V1Message;
    V1MessageDetermines(prev, e.seqNo, e.ts, e.eventType, e.body, key,
                        prev', e'.seqNo, e'.ts, e'.eventType, e'.body, key');
  }

  /**
   * Entries of versions 2 and 3 with one hash were hashed by one MAC call, so under one key and with one
   * content, or two different MAC calls collide. Other versions have no hash.
   */
  lemma MacHashBinds(env: Env, e: Event, prev: Digest, key: Digest, e': Event, prev': Digest, key': Digest)
    requires 2 <= e.v <= 3 && 2 <= e'.v <= 3 && |e.eventType| < TWO32 && |e'.eventType| < TWO32
    requires EventHash(env, e, prev, key) == EventHash(env, e', prev', key')
    ensures var (q, q') := (MacQuery(key, MacMessage(prev, e.seqNo, e.ts, e.eventType, e.body)),
                            MacQuery(key', MacMessage(prev', e'.seqNo, e'.ts, e'.eventType, e'.body)));
            || (prev == prev' && key == key' && e.seqNo == e'.seqNo && e.ts == e'.ts
                && e.eventType == e'.eventType && e.body == e'.body)
            || (q != q' && Mac(env, q) == Mac(env, q'))
  {
    hide MacMessage;
    if MacMessage(prev, e.seqNo, e.ts, e.eventType, e.body)
       == MacMessage(prev', e'.seqNo, e'.ts, e'.eventType, e'.body) {
      MacMessageInjective(prev, e.seqNo, e.ts, e.eventType, e.body, prev', e'.seqNo, e'.ts, e'.eventType, e'.body);
    }
  }

  // ----- keys -----

  /** What a seed's base key is the hash of. */
  function SeedInput(seed: Bytes): Bytes {
    Ascii("SOVEREIGN_LEDGER:") + seed
  }

  /** The base key of an epoch, derived from its seed. */
  function BaseKey(env: Env, seed: Bytes): Digest {
    env.sha(SeedInput(seed))
  }

  /** Two seeds with one base key are one seed, or their inputs collide in SHA-256. */
  lemma BaseKeyBinds(env: Env, seed: Bytes, seed': Bytes)
    requires BaseKey(env, seed) == BaseKey(env, seed')
    ensures seed == seed' || (SeedInput(seed) != SeedInput(seed') && env.sha(SeedInput(seed)) == env.sha(SeedInput(seed')))
  {
    if SeedInput(seed) == SeedInput(seed') {
      ConcatCut(Ascii("SOVEREIGN_LEDGER:"), seed, Ascii("SOVEREIGN_LEDGER:"), seed');
    }
  }

  const SEGMENT_TAG := Ascii("sovereign-segment-v1")

  function SegmentKey(env: Env, base: Digest, segment: u64): Digest {
    env.hmac(base, SEGMENT_TAG + LittleEndian(segment, 8))
  }

  /** The MAC call that derives the key of a segment from a base key. */
  function SegmentQuery(base: Digest, segment: u64): MacQuery {
    MacQuery(base, SEGMENT_TAG + LittleEndian(segment, 8))
  }

  /** Under every MAC the key of a segment is the answer to its own query. */
  lemma SegmentKeyIsMac(env: Env, base: Digest, segment: u64)
    ensures SegmentKey(env, base, segment) == Mac(env, SegmentQuery(base, segment))
  {
  }

  /** No two segments, and no two base keys, share a derivation query. */
  lemma SegmentQueryInjective(base: Digest, segment: u64, base': Digest, segment': u64)
    ensures SegmentQuery(base, segment) == SegmentQuery(base', segment') <==> base == base' && segment == segment'
  {
    if SegmentQuery(base, segment) == SegmentQuery(base', segment') {
      Pow256Values();
      hide LittleEndian, Pow256;
      ConcatCut(SEGMENT_TAG, LittleEndian(segment, 8), SEGMENT_TAG, LittleEndian(segment', 8));
      LittleEndianInjective(segment, segment', 8);
    }
  }

  /** No query that derives a key authenticates an entry. */
  lemma QueriesApart(base: Digest, segment: u64, prev: Digest, seqNo: u64, ts: u64, eventType: Bytes, body: Bytes)
    ensures SegmentQuery(base, segment).message != MacMessage(prev, seqNo, ts, eventType, body)
  {
    hide LittleEndian, MacFields;
    assert SegmentQuery(base, segment).message[0] == SEGMENT_TAG[0] == 's' as int;
    assert MacMessage(prev, seqNo, ts, eventType, body)[0] == MAC_TAG[0] == 'S' as int;
  }

  /** The key of an entry: the base key before version 3, the key of its segment from then on. */
  function EntryKey(env: Env, keys: seq<Digest>, epoch: u32, segment: u64, v: u32): Option<Digest> {
    if epoch >= |keys| then None
    else if v < 3 then Some(keys[epoch])
    else Some(SegmentKey(env, keys[epoch], segment))
  }
}
