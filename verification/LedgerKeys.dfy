/** Which key each entry is written under, and when the file gives that key away. */
module LedgerKeys {
  import opened Basics
  import opened Hex
  import opened SealRecords
  import opened Events
  import opened Segments
  import PublicVerify
  import opened SealedPrefix
  import opened LedgerScan
  import opened Ledger
  import opened LedgerInvariant
  import opened LedgerSealing
  import opened LedgerRuns

  // ----- one key per epoch and segment -----

  lemma HistoryAt(env: Env, keys: seq<Digest>, legacy: bool, log: seq<Event>, i: nat)
    requires History(env, keys, legacy, log) && i < |log|
    ensures Wrote(env, keys, legacy, log[..i], log[i])
  {
    hide Wrote;
  }

  /** What having been written by the rules says about version and key. */
  lemma WroteUniform(env: Env, keys: seq<Digest>, legacy: bool, before: seq<Event>, e: Event, n: nat)
    requires Wrote(env, keys, legacy, before, e) && n == SegmentOf(before, e)
    ensures (e.v < 3 <==> n == 0 && legacy) && (e.v >= 3 ==> e.v == 3)
    ensures n <= U64_MAX && e.epoch < |keys| && KeyedAuthentic(env, keys, before, e, n)
    ensures EntryKey(env, keys, e.epoch, n, e.v) == Some(RevealedKey(env, keys[e.epoch], n, legacy))
  {
    hide SegmentOf, EventHash, EncodeHash, DecodeHash, Tip, SegmentKey, HonestSeal;
  }

  /**
   * In every reachable log segment 0 is all of version 2 or below, or all of version 3, and later segments
   * are all of version 3; entry i carries its MAC under the one key its epoch has in its segment.
   */
  lemma SegmentsAreUniform(env: Env, signer: Signer, s: State, i: nat)
    requires Inv(env, signer, s) && i < |s.log|
    ensures var (before, e) := (s.log[..i], s.log[i]);
            var n := SegmentOf(before, e);
            && (e.v < 3 <==> n == 0 && s.mem.legacySegment0) && (e.v >= 3 ==> e.v == 3)
            && n <= U64_MAX && e.epoch < |s.keys|
            && KeyedAuthentic(env, s.keys, before, e, n)
            && EntryKey(env, s.keys, e.epoch, n, e.v)
               == Some(RevealedKey(env, s.keys[e.epoch], n, s.mem.legacySegment0))
  {
    InvIsHistory(env, signer, s);
    hide *;
    HistoryAt(env, s.keys, s.mem.legacySegment0, s.log, i);
    WroteUniform(env, s.keys, s.mem.legacySegment0, s.log[..i], s.log[i], SegmentOf(s.log[..i], s.log[i]));
  }

  lemma InvIsHistory(env: Env, signer: Signer, s: State)
    requires Inv(env, signer, s)
    ensures History(env, s.keys, s.mem.legacySegment0, s.log)
    ensures RemembersPublished(env, s.mem.legacySegment0, s.mem.revealedEpochs, s.log)
    ensures s.mem.sealsSeen == SealCount(s.log) && !s.mem.compromised
    ensures s.mem.lastHash == Tip(s.log) && s.mem.seqNo == |s.log|
  {
    hide Open, Verify, History, SegmentStart, SignedBy, PublicVerify.PublicOk, RemembersPublished, Epochs, SealCount,
         Tip;
    CleanCounts(env, s.keys, s.log);
  }

  /** What an honest seal says of one entry of the segment it closes. */
  lemma HonestReveals(env: Env, keys: seq<Digest>, legacy: bool, before: seq<Event>, seal: Event, epoch: u32)
    requires HonestSeal(env, keys, legacy, before, seal) && epoch in Epochs(before[SegmentStart(before)..])
    ensures env.parseSeal(seal.body).Some?
    ensures var r := env.parseSeal(seal.body).value;
            && epoch in r.revealed && epoch < |keys| && SealCount(before) <= U64_MAX
            && r.revealed[epoch] == EncodeHash(RevealedKey(env, keys[epoch], SealCount(before), legacy))
  {
    hide SegmentStart, Epochs, SealCount, EncodeHash, RevealedKey;
  }

  lemma SealedSegment(log: seq<Event>, p: nat, j: nat)
    requires p < |log| && SegmentStart(log[..p]) <= j < p
    ensures SegmentOf(log[..j], log[j]) == SealCount(log[..p])
    ensures log[j].epoch in Epochs(log[..p][SegmentStart(log[..p])..])
  {
    hide SegmentStart, SealCount;
    var before := log[..p];
    OpenSegmentCount(before, j);
    assert before[..j + 1] == log[..j] + [log[j]];
    SegmentsSnoc(log[..j], log[j]);
    assert before[SegmentStart(before)..][j - SegmentStart(before)] == log[j];
  }

  lemma WroteSeal(env: Env, keys: seq<Digest>, legacy: bool, before: seq<Event>, e: Event)
    requires Wrote(env, keys, legacy, before, e) && IsSeal(e)
    ensures HonestSeal(env, keys, legacy, before, e)
  {
    hide HonestSeal, KeyedAuthentic, SegmentOf;
  }

  /**
   * The one key per epoch that a seal reveals is the key that every entry of that epoch in the closed
   * segment was written under.
   */
  lemma SealRevealsWriteKeys(env: Env, signer: Signer, s: State, p: nat, j: nat)
    requires Inv(env, signer, s) && p < |s.log| && IsSeal(s.log[p]) && SegmentStart(s.log[..p]) <= j < p
    ensures env.parseSeal(s.log[p].body).Some?
    ensures var (r, e) := (env.parseSeal(s.log[p].body).value, s.log[j]);
            var n := SegmentOf(s.log[..j], e);
            && n == SealCount(s.log[..p]) <= U64_MAX && e.epoch in r.revealed
            && var key := EntryKey(env, s.keys, e.epoch, n, e.v);
               key.Some? && r.revealed[e.epoch] == EncodeHash(key.value)
  {
    InvIsHistory(env, signer, s);
    hide *;
    SealedSegment(s.log, p, j);
    SegmentsAreUniform(env, signer, s, j);
    HistoryAt(env, s.keys, s.mem.legacySegment0, s.log, p);
    WroteSeal(env, s.keys, s.mem.legacySegment0, s.log[..p], s.log[p]);
    HonestReveals(env, s.keys, s.mem.legacySegment0, s.log[..p], s.log[p], s.log[j].epoch);
  }

  /**
   * In any ledger that passes keyed verification, the key that a seal lists for an epoch is the base key of a
   * legacy segment 0, or else the answer of the derivation query of the segment the record names.
   */
  lemma VerifiedRevealsKeys(env: Env, keys: seq<Digest>, log: seq<Event>, p: nat, k: u32)
    requires Verify(env, keys, log).Ok? && p < |log| && IsSeal(log[p])
    ensures env.parseSeal(log[p].body).Some?
    ensures var r := env.parseSeal(log[p].body).value;
            var legacy := exists i :: 0 <= i <= p && SealCount(log[..i]) == 0 && log[i].v < 3;
            k in r.revealed ==>
              k < |keys|
              && DecodeHash(r.revealed[k])
                 == Some(if r.segment == 0 && legacy then keys[k] else Mac(env, SegmentQuery(keys[k], r.segment)))
  {
    hide Verify, DecodeHash, SegmentKey, SealCount, IsSeal, LegacyStart, SegmentQuery, Mac, RevealsRight;
    VerifiedSeal(env, keys, log, p);
    RevealedIs(env, keys, log[p], LegacyStart(log[..p + 1]), k);
    LegacyThrough(log, p);
    var r := env.parseSeal(log[p].body).value;
    if k in r.revealed { SegmentKeyIsMac(env, keys[k], r.segment); }
  }

  lemma LegacyThrough(log: seq<Event>, p: nat)
    requires p < |log|
    ensures LegacyStart(log[..p + 1]) <==> exists i :: 0 <= i <= p && SealCount(log[..i]) == 0 && log[i].v < 3
  {
    hide SealCount;
    var s := log[..p + 1];
    assert forall i :: 0 <= i <= p ==> s[..i] == log[..i] && s[i] == log[i];
    if i :| 0 <= i <= p && SealCount(log[..i]) == 0 && log[i].v < 3 { assert SealCount(s[..i]) == 0 && s[i].v < 3; }
    if i :| 0 <= i < |s| && SealCount(s[..i]) == 0 && s[i].v < 3 { assert SealCount(log[..i]) == 0 && log[i].v < 3; }
  }

  /**
   * So it authenticates every entry of that epoch and segment, as long as the entry has the version its
   * segment calls for.
   */
  lemma VerifiedRevealsAuthenticate(env: Env, keys: seq<Digest>, log: seq<Event>, p: nat, j: nat)
    requires Verify(env, keys, log).Ok? && p < |log| && IsSeal(log[p]) && j < |log|
    requires var (parsed, e) := (env.parseSeal(log[p].body), log[j]);
             && parsed.Some? && e.epoch in parsed.value.revealed
             && SegmentOf(log[..j], e) == parsed.value.segment
             && (e.v < 3 <==> parsed.value.segment == 0 && LegacyStart(log[..p + 1]))
    ensures CarriesMac(env, env.parseSeal(log[p].body).value, log[j])
  {
    var (r, e) := (env.parseSeal(log[p].body).value, log[j]);
    var legacy := LegacyStart(log[..p + 1]);
    VerifiedSeal(env, keys, log, p);
    VerifiedEntry(env, keys, log, j);
    RevealedIs(env, keys, log[p], legacy, e.epoch);
    hide *;
    RightKeyAuthenticates(env, keys, log[..j], e, r, legacy);
  }

  lemma VerifiedEntry(env: Env, keys: seq<Digest>, log: seq<Event>, j: nat)
    requires Verify(env, keys, log).Ok? && j < |log|
    ensures SegmentOf(log[..j], log[j]) <= U64_MAX
    ensures KeyedAuthentic(env, keys, log[..j], log[j], SegmentOf(log[..j], log[j]))
  {
    hide Verify, KeyedAuthentic, SegmentOf, RevealsRight, LegacyStart, IsSeal;
    VerifyIsKeyedOk(env, keys, log);
    assert KeyedHolds(env, keys, log[..j], log[j]);
  }

  lemma VerifiedSeal(env: Env, keys: seq<Digest>, log: seq<Event>, p: nat)
    requires Verify(env, keys, log).Ok? && p < |log| && IsSeal(log[p])
    ensures RevealsRight(env, keys, log[p], LegacyStart(log[..p + 1]))
  {
    hide Verify, KeyedAuthentic, SegmentOf, RevealsRight, LegacyStart, IsSeal;
    VerifyIsKeyedOk(env, keys, log);
    assert KeyedHolds(env, keys, log[..p], log[p]);
    assert log[..p] + [log[p]] == log[..p + 1];
  }

  lemma RevealedIs(env: Env, keys: seq<Digest>, e: Event, legacy: bool, k: u32)
    requires RevealsRight(env, keys, e, legacy)
    ensures env.parseSeal(e.body).Some?
    ensures var r := env.parseSeal(e.body).value;
            k in r.revealed ==>
              k < |keys| && DecodeHash(r.revealed[k]) == Some(RevealedKey(env, keys[k], r.segment, legacy))
  {
    hide DecodeHash, RevealedKey;
  }

  lemma RightKeyAuthenticates(env: Env, keys: seq<Digest>, before: seq<Event>, e: Event, r: SealRecord, legacy: bool)
    requires KeyedAuthentic(env, keys, before, e, r.segment) && e.epoch in r.revealed && e.epoch < |keys|
    requires DecodeHash(r.revealed[e.epoch]) == Some(RevealedKey(env, keys[e.epoch], r.segment, legacy))
    requires e.v < 3 <==> r.segment == 0 && legacy
    ensures CarriesMac(env, r, e)
  {
    hide EventHash, EncodeHash, DecodeHash, SegmentKey, Tip;
  }

  // ----- what a reader of the file can compute -----

  /** Seal e shows this key for epoch k. */
  predicate Reveals(env: Env, e: Event, k: u32, key: Digest) {
    var r := env.parseSeal(e.body);
    IsSeal(e) && r.Some? && k in r.value.revealed && DecodeHash(r.value.revealed[k]) == Some(key)
  }

  /** Some seal of the file shows this key. */
  ghost predicate Shown(env: Env, log: seq<Event>, key: Digest) {
    exists p: nat, k: u32 :: p < |log| && Reveals(env, log[p], k, key)
  }

  /** A reader of the file has the key: it is shown, or is the key of some segment under a base that is shown. */
  ghost predicate GivenAway(env: Env, log: seq<Event>, key: Digest) {
    Shown(env, log, key) || exists base: Digest, n: u64 :: Shown(env, log, base) && SegmentKey(env, base, n) == key
  }

  /** The current base key stands in the ring for a published epoch too: a seed was used again. */
  ghost predicate Reuses(keys: seq<Digest>, published: set<u32>, epoch: u32)
    requires epoch < |keys|
  {
    exists k: u32 :: k in published && k < |keys| && keys[k] == keys[epoch]
  }

  /**
   * Keys that nobody reused coincide: the key of segment n under `base` is a base key, or `base` is itself a
   * derived key, or the MAC query that derives the key has the answer of a different derivation query.
   */
  ghost predicate Coincidence(env: Env, keys: seq<Digest>, log: seq<Event>, base: Digest, n: u64) {
    || SegmentKey(env, base, n) in keys
    || (exists b: Digest, m: u64 :: b in keys && SegmentKey(env, b, m) == base)
    || exists b: Digest, m: u64 :: (b in keys || Shown(env, log, b)) && SegmentQuery(b, m) != SegmentQuery(base, n)
                                   && Mac(env, SegmentQuery(b, m)) == Mac(env, SegmentQuery(base, n))
  }

  /** A shown key is the base of a published epoch, or the key of a closed segment. */
  ghost predicate Origin(env: Env, keys: seq<Digest>, published: set<u32>, closed: nat, key: Digest) {
    || (exists k: u32 :: k in published && k < |keys| && keys[k] == key)
    || exists b: Digest, m: u64 :: b in keys && m < closed && SegmentKey(env, b, m) == key
  }

  lemma RevealsOrigin(env: Env, keys: seq<Digest>, legacy: bool, published: set<u32>, log: seq<Event>, p: nat, k: u32,
                      key: Digest)
    requires RemembersPublished(env, legacy, published, log) && p < |log| && Reveals(env, log[p], k, key)
    requires HonestSeal(env, keys, legacy, log[..p], log[p]) && SealCount(log[..p]) < SealCount(log)
    ensures Origin(env, keys, published, SealCount(log), key)
  {
    hide DecodeHash, EncodeHash, SegmentKey, SealCount, SegmentStart, Epochs, IsSeal;
    var r := env.parseSeal(log[p].body).value;
    HashRoundTrip(RevealedKey(env, keys[k], r.segment, legacy));
    if r.segment == 0 && legacy {
      assert PublishesBase(env, legacy, log[p], k);
    } else {
      assert keys[k] in keys && SegmentKey(env, keys[k], r.segment) == key;
    }
  }

  lemma {:induction false} EarlierSeals(log: seq<Event>, p: nat)
    requires p < |log| && IsSeal(log[p])
    ensures SealCount(log[..p]) < SealCount(log)
    decreases |log|
  {
    hide IsSeal;
    var before := log[..|log| - 1];
    if p < |log| - 1 {
      assert before[..p] == log[..p];
      EarlierSeals(before, p);
    }
  }

  lemma ShownOrigin(env: Env, keys: seq<Digest>, legacy: bool, published: set<u32>, log: seq<Event>, key: Digest)
    requires History(env, keys, legacy, log) && RemembersPublished(env, legacy, published, log)
    requires Shown(env, log, key)
    ensures Origin(env, keys, published, SealCount(log), key)
  {
    var p: nat, k: u32 :| p < |log| && Reveals(env, log[p], k, key);
    assert IsSeal(log[p]);
    hide *;
    HistoryAt(env, keys, legacy, log, p);
    WroteSeal(env, keys, legacy, log[..p], log[p]);
    EarlierSeals(log, p);
    RevealsOrigin(env, keys, legacy, published, log, p, k, key);
  }

  /** The base key of every published epoch is shown. */
  lemma PublishedIsShown(env: Env, keys: seq<Digest>, legacy: bool, published: set<u32>, log: seq<Event>, k: u32)
    requires History(env, keys, legacy, log) && RemembersPublished(env, legacy, published, log) && k in published
    ensures k < |keys| && Shown(env, log, keys[k])
  {
    hide History, Wrote, HonestSeal, DecodeHash, Reveals;
    var p :| 0 <= p < |log| && PublishesBase(env, legacy, log[p], k);
    HistoryAt(env, keys, legacy, log, p);
    WroteSeal(env, keys, legacy, log[..p], log[p]);
    BaseReveals(env, keys, legacy, log[..p], log[p], k);
  }

  lemma PublishedBaseIsShown(env: Env, signer: Signer, s: State, k: u32)
    requires Inv(env, signer, s) && k in s.mem.revealedEpochs
    ensures k < |s.keys| && Shown(env, s.log, s.keys[k])
  {
    hide *;
    InvIsHistory(env, signer, s);
    PublishedIsShown(env, s.keys, s.mem.legacySegment0, s.mem.revealedEpochs, s.log, k);
  }

  lemma BaseReveals(env: Env, keys: seq<Digest>, legacy: bool, before: seq<Event>, e: Event, k: u32)
    requires HonestSeal(env, keys, legacy, before, e) && PublishesBase(env, legacy, e, k)
    ensures k < |keys| && Reveals(env, e, k, keys[k])
  {
    hide DecodeHash, EncodeHash, SegmentKey, SealCount, SegmentStart, Epochs, IsSeal;
    HashRoundTrip(keys[k]);
  }

  // ----- when the file gives away the next key -----

  /** If every shown key has an origin before segment n, the key of segment n is known only by reuse or coincidence. */
  lemma GivenAwayMeans(env: Env, keys: seq<Digest>, published: set<u32>, log: seq<Event>, epoch: u32, n: u64,
                       closed: nat)
    requires epoch < |keys| && closed <= n
    requires forall key :: Shown(env, log, key) ==> Origin(env, keys, published, closed, key)
    requires GivenAway(env, log, SegmentKey(env, keys[epoch], n))
    ensures Reuses(keys, published, epoch) || Coincidence(env, keys, log, keys[epoch], n)
  {
    hide Shown, SegmentKey, Coincidence;
    var base := keys[epoch];
    if Shown(env, log, SegmentKey(env, base, n)) {
      OriginOfKey(env, keys, published, log, base, n, closed);
    } else {
      var b: Digest, m: u64 :| Shown(env, log, b) && SegmentKey(env, b, m) == SegmentKey(env, base, n);
      if b == base && m == n {
        OriginOfBase(env, keys, published, log, epoch, n, closed);
      } else {
        OtherDerivation(env, keys, log, base, n, b, m);
      }
    }
  }

  /** Another derivation with the same key is another query with the same answer. */
  lemma OtherDerivation(env: Env, keys: seq<Digest>, log: seq<Event>, base: Digest, n: u64, b: Digest, m: u64)
    requires (b in keys || Shown(env, log, b)) && (b != base || m != n)
    requires SegmentKey(env, b, m) == SegmentKey(env, base, n)
    ensures Coincidence(env, keys, log, base, n)
  {
    SegmentKeyIsMac(env, b, m);
    SegmentKeyIsMac(env, base, n);
    SegmentQueryInjective(b, m, base, n);
    hide Shown, SegmentKey, SegmentQuery, Mac;
  }

  lemma OriginOfKey(env: Env, keys: seq<Digest>, published: set<u32>, log: seq<Event>, base: Digest, n: u64,
                    closed: nat)
    requires closed <= n && Origin(env, keys, published, closed, SegmentKey(env, base, n))
    ensures Coincidence(env, keys, log, base, n)
  {
    hide Shown, SegmentKey, Mac, SegmentQuery;
    if SegmentKey(env, base, n) !in keys {
      var b: Digest, m: u64 :| b in keys && m < closed && SegmentKey(env, b, m) == SegmentKey(env, base, n);
      OtherDerivation(env, keys, log, base, n, b, m);
    }
  }

  lemma OriginOfBase(env: Env, keys: seq<Digest>, published: set<u32>, log: seq<Event>, epoch: u32, n: u64,
                     closed: nat)
    requires epoch < |keys| && Origin(env, keys, published, closed, keys[epoch])
    ensures Reuses(keys, published, epoch) || Coincidence(env, keys, log, keys[epoch], n)
  {
    hide Shown, SegmentKey, Mac, SegmentQuery;
  }

  /** Entry e of s' is the only new one, and the file before it gave its key away only by reuse or coincidence. */
  ghost predicate WritesHidden(env: Env, s: State, s': State, e: Event) {
    var n := SegmentOf(s.log, e);
    && s'.log == s.log + [e]
    && n <= U64_MAX && KeyedAuthentic(env, s'.keys, s.log, e, n) && e.epoch < |s'.keys|
    && var key := EntryKey(env, s'.keys, e.epoch, n, e.v).value;
       var published := s.mem.revealedEpochs;
       && (Reuses(s'.keys, published, e.epoch) ==> GivenAway(env, s.log, key))
       && (GivenAway(env, s.log, key) ==>
             Reuses(s'.keys, published, e.epoch) || Coincidence(env, s'.keys, s.log, s'.keys[e.epoch], n))
  }

  /** What is known of a file under a ring at least as long as the one it was written with. */
  ghost predicate Known(env: Env, keys: seq<Digest>, mem: Memory, log: seq<Event>) {
    && History(env, keys, mem.legacySegment0, log)
    && RemembersPublished(env, mem.legacySegment0, mem.revealedEpochs, log)
    && mem.sealsSeen == SealCount(log)
  }

  lemma InvKnows(env: Env, signer: Signer, s: State, keys: seq<Digest>)
    requires Inv(env, signer, s) && s.keys <= keys
    ensures Known(env, keys, s.mem, s.log)
  {
    InvIsHistory(env, signer, s);
    hide *;
    HistoryMoreKeys(env, s.keys, keys, s.mem.legacySegment0, s.log);
    KnownIs(env, keys, s.mem, s.log);
  }

  lemma KnownIs(env: Env, keys: seq<Digest>, mem: Memory, log: seq<Event>)
    requires History(env, keys, mem.legacySegment0, log)
    requires RemembersPublished(env, mem.legacySegment0, mem.revealedEpochs, log)
    requires mem.sealsSeen == SealCount(log)
    ensures Known(env, keys, mem, log)
  {
    hide History, RemembersPublished, SealCount;
  }

  /** Before the first seal the file shows nothing. */
  lemma UnsealedShowsNothing(env: Env, keys: seq<Digest>, mem: Memory, log: seq<Event>, key: Digest)
    requires Known(env, keys, mem, log) && SealCount(log) == 0
    ensures !GivenAway(env, log, key) && mem.revealedEpochs == {}
  {
    hide History, Reveals, SealCount, IsSeal, SegmentKey;
    forall p: nat, k: u32, b: Digest | p < |log| ensures !Reveals(env, log[p], k, b) {
      if Reveals(env, log[p], k, b) { RevealsIsSeal(env, log[p], k, b); EarlierSeals(log, p); }
    }
    forall p: nat, k: u32 | p < |log| ensures !PublishesBase(env, mem.legacySegment0, log[p], k) {
      if IsSeal(log[p]) { EarlierSeals(log, p); }
    }
    assert forall k: u32 :: k !in mem.revealedEpochs;
  }

  lemma RevealsIsSeal(env: Env, e: Event, k: u32, key: Digest)
    requires Reveals(env, e, k, key)
    ensures IsSeal(e)
  {
  }

  /** The key of a segment at or after the open one, against what the file shows. */
  lemma NextKeyHidden(env: Env, keys: seq<Digest>, mem: Memory, log: seq<Event>, epoch: u32, n: u64)
    requires Known(env, keys, mem, log) && epoch < |keys| && SealCount(log) <= n
    ensures var key := SegmentKey(env, keys[epoch], n);
            && (Reuses(keys, mem.revealedEpochs, epoch) ==> GivenAway(env, log, key))
            && (GivenAway(env, log, key) ==>
                  Reuses(keys, mem.revealedEpochs, epoch) || Coincidence(env, keys, log, keys[epoch], n))
  {
    var key := SegmentKey(env, keys[epoch], n);
    hide History, Shown, SegmentKey, SealCount, RemembersPublished, Coincidence, Origin;
    if Reuses(keys, mem.revealedEpochs, epoch) {
      var k: u32 :| k in mem.revealedEpochs && k < |keys| && keys[k] == keys[epoch];
      PublishedIsShown(env, keys, mem.legacySegment0, mem.revealedEpochs, log, k);
    }
    if GivenAway(env, log, key) {
      hide GivenAway, Reuses;
      forall b | Shown(env, log, b) ensures Origin(env, keys, mem.revealedEpochs, SealCount(log), b) {
        ShownOrigin(env, keys, mem.legacySegment0, mem.revealedEpochs, log, b);
      }
      GivenAwayMeans(env, keys, mem.revealedEpochs, log, epoch, n, SealCount(log));
    }
  }

  /** One more entry by the rules, of any kind. */
  lemma NextIsHidden(env: Env, s: State, s': State, e: Event)
    requires Known(env, s'.keys, s.mem, s.log) && s'.log == s.log + [e]
    requires Wrote(env, s'.keys, s.mem.legacySegment0, s.log, e)
    ensures WritesHidden(env, s, s', e)
  {
    var n := SegmentOf(s.log, e);
    WroteUniform(env, s'.keys, s.mem.legacySegment0, s.log, e, n);
    hide Wrote, History, RemembersPublished, KeyedAuthentic, SealCount, GivenAway, Coincidence, SegmentKey, IsSeal;
    if e.v < 3 {
      UnsealedShowsNothing(env, s'.keys, s.mem, s.log, s'.keys[e.epoch]);
    } else {
      NextKeyHidden(env, s'.keys, s.mem, s.log, e.epoch, n);
    }
  }

  // ----- every step, and every run -----

  /** The file is as it was, or has one more entry whose key it gave away only by reuse or coincidence. */
  ghost predicate StepHidden(env: Env, s: State, s': State) {
    s'.log == s.log || exists e :: WritesHidden(env, s, s', e)
  }

  /** A step that adds an entry keeps the rules, so the last entry was written by them. */
  lemma GrownIsHidden(env: Env, signer: Signer, s: State, s': State)
    requires Inv(env, signer, s) && Inv(env, signer, s') && s.keys <= s'.keys
    requires s.mem.legacySegment0 == s'.mem.legacySegment0
    requires |s'.log| == |s.log| + 1 && s.log <= s'.log
    ensures StepHidden(env, s, s')
  {
    hide *;
    LastOf(s.log, s'.log);
    InvIsHistory(env, signer, s');
    InvKnows(env, signer, s, s'.keys);
    HistoryAt(env, s'.keys, s'.mem.legacySegment0, s'.log, |s.log|);
    NextIsHidden(env, s, s', s'.log[|s.log|]);
    StepIs(env, s, s', s'.log[|s.log|]);
  }

  lemma LastOf(before: seq<Event>, log: seq<Event>)
    requires |log| == |before| + 1 && before <= log
    ensures log[..|before|] == before && log == before + [log[|before|]]
  {
  }

  lemma StepIs(env: Env, s: State, s': State, e: Event)
    requires WritesHidden(env, s, s', e)
    ensures StepHidden(env, s, s')
  {
    hide WritesHidden;
  }

  /** A successful step adds at most one entry, and only adds keys. */
  lemma StepGrows(env: Env, signer: Signer, s: State, op: Op)
    requires Exec(env, signer, s, op).Some?
    ensures var s' := Exec(env, signer, s, op).value;
            && s.log <= s'.log && |s'.log| <= |s.log| + 1 && s.keys <= s'.keys
            && (!op.ReopenOp? ==> s.mem.legacySegment0 == s'.mem.legacySegment0)
            && (op.ReopenOp? ==> s'.log == s.log)
  {
    hide AppendRefusal, NextEvent, PlanSeal, RotationBody, BaseKey, Open;
    match op
    case SealOp(ts) =>
      var plan := PlanSeal(env, s, signer);
      if plan.Write? { SealResult(env, s, signer, ts, plan.record); } else { UnwrittenSeal(env, s, signer, ts); }
    case _ =>
  }

  /**
   * The key of every entry that a successful step writes is unknown to a reader of the file so far, unless
   * the ring holds it for a published epoch too: exactly then the file gives it away, coincidences aside.
   */
  lemma StepWritesHidden(env: Env, signer: Signer, s: State, op: Op)
    requires Inv(env, signer, s) && env.Faithful() && env.Genuine(signer) && Exec(env, signer, s, op).Some?
    ensures StepHidden(env, s, Exec(env, signer, s, op).value)
  {
    hide Exec, Inv, WritesHidden;
    var s' := Exec(env, signer, s, op).value;
    StepGrows(env, signer, s, op);
    StepKeeps(env, signer, s, op);
    if |s'.log| > |s.log| {
      GrownIsHidden(env, signer, s, s');
    } else {
      assert s'.log == s.log;
    }
  }

  /** The same for the next step after any run. */
  lemma RunWritesHidden(env: Env, signer: Signer, start: State, ops: seq<Op>, op: Op)
    requires Start(env, start) && env.Faithful() && env.Genuine(signer) && Run(env, signer, start, ops).Some?
    requires Exec(env, signer, Run(env, signer, start, ops).value, op).Some?
    ensures var s := Run(env, signer, start, ops).value;
            StepHidden(env, s, Exec(env, signer, s, op).value)
  {
    hide *;
    StartIsSound(env, signer, start);
    RunKeeps(env, signer, start, ops);
    StepWritesHidden(env, signer, Run(env, signer, start, ops).value, op);
  }

  // ----- choosing the next seed -----

  /** An unpublished epoch on a ring without repeated keys is never a reuse. */
  lemma DistinctRingIsFresh(keys: seq<Digest>, published: set<u32>, epoch: u32)
    requires forall i, j :: 0 <= i < j < |keys| ==> keys[i] != keys[j]
    requires epoch < |keys| && epoch !in published
    ensures !Reuses(keys, published, epoch)
  {
  }

  /** On a ring without spare keys, a rotation reuses a published key exactly when its seed is that of one. */
  lemma RotationReusesIff(env: Env, signer: Signer, s: State, seed: Bytes)
    requires Inv(env, signer, s) && s.mem.epoch < U32_MAX && |s.keys| == s.mem.epoch + 1
    ensures var w := Rotated(env, s, seed);
            && w.mem.epoch < |w.keys|
            && (Reuses(w.keys, w.mem.revealedEpochs, w.mem.epoch)
                <==> exists k: u32 :: k in s.mem.revealedEpochs && k < |s.keys| && s.keys[k] == BaseKey(env, seed))
  {
    hide Inv, BaseKey;
    var w := Rotated(env, s, seed);
    var published := s.mem.revealedEpochs;
    RotatedRefusal(env, signer, s, seed);
    if Reuses(w.keys, published, w.mem.epoch) {
      var k: u32 :| k in published && k < |w.keys| && w.keys[k] == w.keys[w.mem.epoch];
      assert k != s.mem.epoch + 1 && w.keys[k] == s.keys[k];
    }
    if exists k: u32 :: k in published && k < |s.keys| && s.keys[k] == BaseKey(env, seed) {
      var k: u32 :| k in published && k < |s.keys| && s.keys[k] == BaseKey(env, seed);
      assert w.keys[k] == w.keys[w.mem.epoch];
    }
  }

  /** A rotation that can write always succeeds, and leaves the published epochs behind. */
  lemma RotationLeavesPublished(env: Env, signer: Signer, s: State, seed: Bytes, ts: u64)
    requires Inv(env, signer, s) && s.mem.epoch < U32_MAX && !s.readOnly && s.mem.seqNo < U64_MAX && s.keys != []
    ensures var (after, r) := Rotate(env, s, seed, ts);
            && r == Ok(s.mem.epoch + 1) && after.mem.epoch == s.mem.epoch + 1
            && after.mem.epoch !in after.mem.revealedEpochs
            && after.keys == s.keys + [BaseKey(env, seed)] && after.mem.revealedEpochs == s.mem.revealedEpochs
  {
    hide Inv, BaseKey, AppendRefusal, NextEvent, RotationBody;
    RotatedRefusal(env, signer, s, seed);
  }

  /**
   * Nothing stops a rotation from taking the seed of a published epoch: it succeeds, the new epoch does not
   * count as published, and a reader of the file computes the key of every entry to come.
   */
  lemma ReusedSeedIsAccepted(env: Env, signer: Signer, s: State, seed: Bytes, ts: u64, k: u32)
    requires Inv(env, signer, s) && s.mem.epoch < U32_MAX && |s.keys| == s.mem.epoch + 1
    requires !s.readOnly && s.mem.seqNo < U64_MAX
    requires k in s.mem.revealedEpochs && k < |s.keys| && s.keys[k] == BaseKey(env, seed)
    ensures var (after, r) := Rotate(env, s, seed, ts);
            && r.Ok? && after.mem.epoch !in after.mem.revealedEpochs && after.mem.epoch < |after.keys|
            && forall n: u64 :: GivenAway(env, s.log, SegmentKey(env, after.keys[after.mem.epoch], n))
  {
    hide *;
    RotationLeavesPublished(env, signer, s, seed, ts);
    PublishedBaseIsShown(env, signer, s, k);
    var base := s.keys[k];
    assert (s.keys + [BaseKey(env, seed)])[s.mem.epoch + 1] == base;
    forall n: u64 ensures GivenAway(env, s.log, SegmentKey(env, base, n)) {
      ShownGives(env, s.log, base, n);
    }
  }

  /** A seal that closes a legacy segment 0 publishes the current epoch. */
  lemma LegacySealPublishes(env: Env, signer: Signer, s: State, ts: u64)
    requires Inv(env, signer, s) && s.mem.sealsSeen == 0 && s.mem.legacySegment0
    requires Seal(env, s, signer, ts).1.Ok? && Seal(env, s, signer, ts).1.value.Some?
    ensures var after := Seal(env, s, signer, ts).0;
            after.keys == s.keys && after.mem.epoch == s.mem.epoch && s.mem.epoch in after.mem.revealedEpochs
  {
    var plan := PlanSeal(env, s, signer);
    PlanIsPlanned(env, signer, s);
    SealResult(env, s, signer, ts, plan.record);
    InvIsHistory(env, signer, s);
    Segment0IsAll(s.log);
    hide Open, Verify, History, SegmentStart, SignedBy, PublicVerify.PublicOk, RemembersPublished, SealCount, Tip,
         PlanSeal, AppendRefusal, NextEvent, Seal, Epochs, PrevSealHash, SealPayload, EncodeHash, EntryKey, Decoded;
    assert s.log != [];
  }

  /** So a legacy ledger that is sealed and then rotated to its own old seed goes on under a key in the file. */
  lemma SameSeedAfterLegacySeal(env: Env, signer: Signer, s: State, seed: Bytes, ts: u64, later: u64)
    requires Inv(env, signer, s) && env.Faithful() && env.Genuine(signer)
    requires s.mem.sealsSeen == 0 && s.mem.legacySegment0
    requires s.keys == [BaseKey(env, seed)] && !s.readOnly
    requires Seal(env, s, signer, ts).1.Ok? && Seal(env, s, signer, ts).1.value.Some?
    requires Seal(env, s, signer, ts).0.mem.seqNo < U64_MAX
    ensures var sealed := Seal(env, s, signer, ts).0;
            var (after, r) := Rotate(env, sealed, seed, later);
            && r.Ok? && after.mem.epoch !in after.mem.revealedEpochs && after.mem.epoch < |after.keys|
            && forall n: u64 :: GivenAway(env, sealed.log, SegmentKey(env, after.keys[after.mem.epoch], n))
  {
    LegacySealPublishes(env, signer, s, ts);
    SealCallKeeps(env, signer, s, ts);
    InvIsClean(env, signer, s);
    EpochInRing(env, s.keys, s.log);
    SealIsWritable(env, signer, s, ts);
    hide *;
    ReusedSeedIsAccepted(env, signer, Seal(env, s, signer, ts).0, seed, later, 0);
  }

  lemma SealIsWritable(env: Env, signer: Signer, s: State, ts: u64)
    ensures Seal(env, s, signer, ts).0.readOnly == s.readOnly
  {
    hide PlanSeal, AppendRefusal, NextEvent;
  }

  /**
   * The record that closes a legacy segment 0 gives away the key its own entry is written under. Any other
   * record does so only by coincidence.
   */
  lemma LegacySealShowsItsOwnKey(env: Env, signer: Signer, s: State, r: SealRecord, e: Event)
    requires Inv(env, signer, s) && Planned(env, s, signer, r) && SealEntry(env, s, r, e)
    ensures s.mem.epoch < |s.keys|
    ensures var (base, n) := (s.keys[s.mem.epoch], s.mem.sealsSeen + 1);
            var key := SegmentKey(env, base, n);
            && KeyedAuthentic(env, s.keys, s.log, e, n) && EntryKey(env, s.keys, e.epoch, n, e.v) == Some(key)
            && (s.mem.sealsSeen == 0 && s.mem.legacySegment0 ==> GivenAway(env, [e], key))
            && (GivenAway(env, [e], key) ==>
                  (s.mem.sealsSeen == 0 && s.mem.legacySegment0) || Coincidence(env, s.keys, [e], base, n))
  {
    SealEntryKey(env, s, r, e);
    var (base, n) := (s.keys[s.mem.epoch], s.mem.sealsSeen + 1);
    var key := SegmentKey(env, base, n);
    hide Inv, Planned, SealEntry, KeyedAuthentic, EntryKey, SegmentKey, GivenAway, Coincidence, Origin, Shown;
    if s.mem.sealsSeen == 0 && s.mem.legacySegment0 {
      OwnEpochRevealed(env, signer, s, r);
      RecordShows(env, s, signer, r, e, s.mem.epoch);
      ShownGives(env, [e], base, n);
    } else if GivenAway(env, [e], key) {
      forall b | Shown(env, [e], b) ensures Origin(env, s.keys, {}, n, b) {
        ShownByRecord(env, s, signer, r, e, b);
      }
      GivenAwayMeans(env, s.keys, {}, [e], s.mem.epoch, n, n);
    }
  }

  lemma SealEntryKey(env: Env, s: State, r: SealRecord, e: Event)
    requires SealEntry(env, s, r, e)
    ensures s.mem.sealsSeen < U64_MAX && s.mem.epoch < |s.keys|
    ensures var n := s.mem.sealsSeen + 1;
            && KeyedAuthentic(env, s.keys, s.log, e, n)
            && EntryKey(env, s.keys, e.epoch, n, e.v) == Some(SegmentKey(env, s.keys[s.mem.epoch], n))
  {
    hide EventHash, EncodeHash, DecodeHash, Tip, SegmentKey;
  }

  lemma OwnEpochRevealed(env: Env, signer: Signer, s: State, r: SealRecord)
    requires Inv(env, signer, s) && Planned(env, s, signer, r) && s.mem.sealsSeen == 0
    ensures s.mem.epoch in r.revealed
  {
    InvIsHistory(env, signer, s);
    Segment0IsAll(s.log);
    hide Open, Verify, History, SegmentStart, SignedBy, PublicVerify.PublicOk, RemembersPublished, SealCount, Tip,
         Epochs, PrevSealHash, SealPayload, EncodeHash, EntryKey, Decoded;
    assert s.log != [];
  }

  lemma RecordShows(env: Env, s: State, signer: Signer, r: SealRecord, e: Event, k: u32)
    requires Planned(env, s, signer, r) && SealEntry(env, s, r, e) && k in r.revealed
    ensures k < |s.keys|
    ensures Shown(env, [e], EntryKey(env, s.keys, k, s.mem.sealsSeen, WriteVersion(s.mem)).value)
  {
    hide KeyedAuthentic, EncodeHash, DecodeHash, SegmentKey, SegmentStart, PrevSealHash, SealPayload, Epochs, IsSeal;
    var key := EntryKey(env, s.keys, k, s.mem.sealsSeen, WriteVersion(s.mem)).value;
    HashRoundTrip(key);
    assert Reveals(env, [e][0], k, key);
  }

  lemma ShownGives(env: Env, log: seq<Event>, base: Digest, n: u64)
    requires Shown(env, log, base)
    ensures GivenAway(env, log, SegmentKey(env, base, n))
  {
    hide Shown, SegmentKey;
  }

  lemma ShownByRecord(env: Env, s: State, signer: Signer, r: SealRecord, e: Event, b: Digest)
    requires Planned(env, s, signer, r) && SealEntry(env, s, r, e) && Shown(env, [e], b)
    requires !(s.mem.sealsSeen == 0 && s.mem.legacySegment0)
    ensures Origin(env, s.keys, {}, s.mem.sealsSeen + 1, b)
  {
    hide KeyedAuthentic, EncodeHash, DecodeHash, SegmentKey, SegmentStart, PrevSealHash, SealPayload, Epochs, IsSeal;
    var k: u32 :| Reveals(env, [e][0], k, b);
    HashRoundTrip(SegmentKey(env, s.keys[k], s.mem.sealsSeen));
    assert s.keys[k] in s.keys;
  }

  /**
   * The entry of a rotation is authenticated under the key of the new seed exactly when the ring held no
   * other key for the new epoch: the seed goes to the end of the ring, the epoch selects by position.
   */
  lemma RotationUsesItsSeed(env: Env, s: State, seed: Bytes)
    requires s.mem.epoch < U32_MAX && s.mem.epoch < |s.keys|
    ensures var w := Rotated(env, s, seed);
            && w.mem.epoch < |w.keys|
            && (w.keys[w.mem.epoch] == BaseKey(env, seed)
                <==> |s.keys| == s.mem.epoch + 1 || s.keys[s.mem.epoch + 1] == BaseKey(env, seed))
  {
    hide BaseKey;
  }
}
