/**
 * What every successful step of the ledger keeps: the fields are exactly what a rescan would give, the
 * keyed and the public verification both accept the file, and every entry was written under the key of its
 * own segment.
 */
module LedgerInvariant {
  import opened Basics
  import opened Hex
  import opened SealRecords
  import opened Events
  import opened Segments
  import PublicVerify
  import opened LedgerScan
  import opened Ledger

  // ----- how entries were written -----

  function Epochs(log: seq<Event>): set<u32> {
    set e | e in log :: e.epoch
  }

  /** A seal that reveals, for exactly the epochs of the segment it closes, the key of each in that segment. */
  ghost predicate HonestSeal(env: Env, keys: seq<Digest>, legacy: bool, before: seq<Event>, e: Event) {
    var r := env.parseSeal(e.body);
    && r.Some?
    && r.value.segment == SealCount(before)
    && r.value.revealed.Keys == Epochs(before[SegmentStart(before)..])
    && forall k :: k in r.value.revealed ==>
         k < |keys| && r.value.revealed[k] == EncodeHash(RevealedKey(env, keys[k], r.value.segment, legacy))
  }

  /** Entry e was written by a ledger that follows its own rules. */
  ghost predicate Wrote(env: Env, keys: seq<Digest>, legacy: bool, before: seq<Event>, e: Event) {
    var n := SegmentOf(before, e);
    && n <= U64_MAX
    && KeyedAuthentic(env, keys, before, e, n)
    && (if n == 0 && legacy then e.v < 3 else e.v == 3)
    && (IsSeal(e) ==> HonestSeal(env, keys, legacy, before, e))
  }

  ghost predicate History(env: Env, keys: seq<Digest>, legacy: bool, log: seq<Event>) {
    forall i :: 0 <= i < |log| ==> Wrote(env, keys, legacy, log[..i], log[i])
  }

  lemma HistorySnoc(env: Env, keys: seq<Digest>, legacy: bool, log: seq<Event>, e: Event)
    requires History(env, keys, legacy, log) && Wrote(env, keys, legacy, log, e)
    ensures History(env, keys, legacy, log + [e])
  {
    hide Wrote;
    var s := log + [e];
    forall i | 0 <= i < |s| ensures Wrote(env, keys, legacy, s[..i], s[i]) {
      if i < |log| {
        assert s[..i] == log[..i] && s[i] == log[i];
        assert Wrote(env, keys, legacy, log[..i], log[i]);
      } else {
        assert s[..i] == log && s[i] == e;
      }
    }
  }

  lemma WroteMoreKeys(env: Env, keys: seq<Digest>, more: seq<Digest>, legacy: bool, before: seq<Event>, e: Event)
    requires keys <= more && Wrote(env, keys, legacy, before, e)
    ensures Wrote(env, more, legacy, before, e)
  {
    hide EventHash, EncodeHash, DecodeHash, Tip, SegmentOf, SegmentStart, SegmentKey, RevealedKey, Epochs;
  }

  lemma HistoryMoreKeys(env: Env, keys: seq<Digest>, more: seq<Digest>, legacy: bool, log: seq<Event>)
    requires keys <= more && History(env, keys, legacy, log)
    ensures History(env, more, legacy, log)
  {
    hide Wrote;
    forall i | 0 <= i < |log| ensures Wrote(env, more, legacy, log[..i], log[i]) {
      WroteMoreKeys(env, keys, more, legacy, log[..i], log[i]);
    }
  }

  // ----- the passes over one more entry -----

  /** An authentic entry keeps the scan clean and moves its memory as an append does. */
  lemma OpenGrows(env: Env, keys: seq<Digest>, log: seq<Event>, e: Event)
    requires Clean(Open(env, keys, log)) && SegmentOf(log, e) <= U64_MAX
    requires KeyedAuthentic(env, keys, log, e, SegmentOf(log, e))
    requires IsSeal(e) ==> env.parseSeal(e.body).Some?
    ensures var st := Open(env, keys, log).value;
            var counted := Count(env, st, e);
            counted.Some? && Open(env, keys, log + [e]) ==
              Ok(counted.value.(mem := counted.value.mem.(lastHash := Decoded(e.hash), seqNo := e.seqNo,
                                                          epoch := Max(st.mem.epoch, e.epoch))))
  {
    hide EventHash, EncodeHash, DecodeHash, EntryKey, Tip, SealCount, Open;
    OpenSnoc(env, keys, log, e);
    CleanCounts(env, keys, log);
    DecodedHash(env, keys, log, e, SegmentOf(log, e));
  }

  lemma DecodedHash(env: Env, keys: seq<Digest>, before: seq<Event>, e: Event, n: u64)
    requires KeyedAuthentic(env, keys, before, e, n)
    ensures var expected := EventHash(env, e, Tip(before), EntryKey(env, keys, e.epoch, n, e.v).value);
            Decoded(e.hash) == expected.value && DecodeHash(e.hash) == Some(expected.value)
    ensures e.hash == EncodeHash(Decoded(e.hash))
  {
    hide EventHash, EncodeHash, DecodeHash, EntryKey, Tip;
    HashRoundTrip(EventHash(env, e, Tip(before), EntryKey(env, keys, e.epoch, n, e.v).value).value);
  }

  /** An authentic entry, and for a seal honest keys, keep the ledger verified. */
  lemma VerifyGrows(env: Env, keys: seq<Digest>, log: seq<Event>, e: Event, legacy: bool)
    requires Verify(env, keys, log).Ok? && SegmentOf(log, e) <= U64_MAX
    requires KeyedAuthentic(env, keys, log, e, SegmentOf(log, e))
    requires legacy == (Verify(env, keys, log).value.legacy || (e.v < 3 && SealCount(log) == 0))
    requires IsSeal(e) ==> SealFault(env, keys, e, legacy, |log|).None?
    ensures Verify(env, keys, log + [e]).Ok?
  {
    hide EventHash, EncodeHash, DecodeHash, EntryKey, Tip, SealCount, Open, Verify, SealFault;
    VerifySnoc(env, keys, log, e);
    PassesAgree(env, keys, log);
    CleanCounts(env, keys, log);
  }

  lemma HonestSealPasses(env: Env, keys: seq<Digest>, legacy: bool, before: seq<Event>, e: Event)
    requires HonestSeal(env, keys, legacy, before, e)
    ensures SealFault(env, keys, e, legacy, |before|).None?
  {
    hide SortedKeys, RevealFault, EncodeHash, DecodeHash, RevealedKey, SegmentStart, SealCount, Epochs;
    var r := env.parseSeal(e.body).value;
    forall k | k in r.revealed
      ensures k < |keys| && DecodeHash(r.revealed[k]) == Some(RevealedKey(env, keys[k], r.segment, legacy))
    {
      HashRoundTrip(RevealedKey(env, keys[k], r.segment, legacy));
    }
    NoSealFault(env, keys, e, legacy, |before|);
  }

  /** While no seal is recorded the scan has collected the epochs of the whole log. */
  lemma {:induction false} Seg0IsAll(env: Env, keys: seq<Digest>, log: seq<Event>)
    requires Clean(Open(env, keys, log)) && SealCount(log) == 0
    ensures Open(env, keys, log).value.seg0Epochs == Epochs(log)
  {
    if log != [] {
      hide CheckEntry, Open, Tip, KeyedAuthentic, Epochs, IsSeal;
      var (before, e) := (log[..|log| - 1], log[|log| - 1]);
      assert log == before + [e];
      CleanSnoc(env, keys, before, e);
      CleanCounts(env, keys, before);
      Seg0IsAll(env, keys, before);
      EpochsSnoc(before, e);
    }
  }

  lemma EpochsSnoc(before: seq<Event>, e: Event)
    ensures Epochs(before + [e]) == Epochs(before) + {e.epoch}
  {
  }

  // ----- the invariant -----

  /** The identity pinned in the log, if any, is this signer's. */
  predicate SignedBy(env: Env, signer: Signer, log: seq<Event>) {
    var a := Anchor(env, log);
    a.Some? ==> signer.publicKey.Some? && a.value == (signer.scheme, signer.publicKey.value)
  }

  /** Seal e publishes the base key of epoch k: it closes a legacy segment 0 and reveals that epoch. */
  predicate PublishesBase(env: Env, legacy: bool, e: Event, k: u32) {
    var r := env.parseSeal(e.body);
    legacy && IsSeal(e) && r.Some? && r.value.segment == 0 && k in r.value.revealed
  }

  ghost predicate BasePublished(env: Env, legacy: bool, log: seq<Event>, k: u32) {
    exists i :: 0 <= i < |log| && PublishesBase(env, legacy, log[i], k)
  }

  lemma BasePublishedSnoc(env: Env, legacy: bool, log: seq<Event>, e: Event, k: u32)
    ensures BasePublished(env, legacy, log + [e], k)
            <==> BasePublished(env, legacy, log, k) || PublishesBase(env, legacy, e, k)
  {
    hide PublishesBase;
    var s := log + [e];
    assert s[|log|] == e;
    if BasePublished(env, legacy, log, k) {
      var i :| 0 <= i < |log| && PublishesBase(env, legacy, log[i], k);
      assert s[i] == log[i];
    }
  }

  /** The epochs remembered as revealed are exactly those whose base key a seal has published. */
  ghost predicate RemembersPublished(env: Env, legacy: bool, revealed: set<u32>, log: seq<Event>) {
    forall k: u32 :: k in revealed <==> BasePublished(env, legacy, log, k)
  }

  /** The file and what a scan of it remembers, under one signer. */
  ghost predicate Sound(env: Env, signer: Signer, keys: seq<Digest>, log: seq<Event>, mem: Memory) {
    && Clean(Open(env, keys, log)) && Open(env, keys, log).value.mem == mem
    && Verify(env, keys, log).Ok?
    && PublicVerify.PublicOk(env, log)
    && SignedBy(env, signer, log)
    && mem.sealedThrough == SegmentStart(log)
    && History(env, keys, mem.legacySegment0, log)
    && RemembersPublished(env, mem.legacySegment0, mem.revealedEpochs, log)
  }

  /** The fields of an open ledger are a faithful cache of a sound file. */
  ghost predicate Inv(env: Env, signer: Signer, s: State) {
    && Sound(env, signer, s.keys, s.log, s.mem)
    && (s.log != [] && s.mem.sealsSeen == 0 ==> s.mem.epoch in Epochs(s.log))
    && (s.log == [] ==> !s.mem.legacySegment0)
  }

  /** The same up to a rotation that has been announced but not yet recorded. */
  ghost predicate Ready(env: Env, signer: Signer, s: State, scanned: u32) {
    Sound(env, signer, s.keys, s.log, s.mem.(epoch := scanned)) && scanned <= s.mem.epoch
    && (s.log == [] ==> !s.mem.legacySegment0)
  }

  lemma NextIsAuthentic(env: Env, s: State, eventType: Bytes, body: Bytes, ts: u64)
    requires AppendRefusal(env, s).None? && s.mem.lastHash == Tip(s.log) && s.mem.seqNo == |s.log|
    ensures KeyedAuthentic(env, s.keys, s.log, NextEvent(env, s, eventType, body, ts), s.mem.sealsSeen)
  {
    hide EncodeHash, DecodeHash, Tip, EventHashV2, SegmentKey;
    HashRoundTrip(s.mem.lastHash);
  }

  /** What is known of the next entry of a ready ledger. */
  lemma ReadyFacts(env: Env, signer: Signer, s: State, scanned: u32)
    requires Ready(env, signer, s, scanned)
    ensures s.mem.lastHash == Tip(s.log) && s.mem.seqNo == |s.log| && s.mem.sealsSeen == SealCount(s.log)
    ensures Verify(env, s.keys, s.log).value.legacy == s.mem.legacySegment0
    ensures !s.mem.compromised
  {
    hide Open, Verify, History, Tip, SealCount, SegmentStart, Anchor;
    CleanCounts(env, s.keys, s.log);
    PassesAgree(env, s.keys, s.log);
  }

  /** One more ordinary entry keeps everything and makes the memory an exact cache again. */
  lemma PlainKeeps(env: Env, signer: Signer, s: State, scanned: u32, eventType: Bytes, body: Bytes, ts: u64)
    requires Ready(env, signer, s, scanned) && AppendRefusal(env, s).None? && eventType != SEAL_EVENT
    ensures Inv(env, signer, Extend(s, NextEvent(env, s, eventType, body, ts)))
  {
    var e := NextEvent(env, s, eventType, body, ts);
    ReadyFacts(env, signer, s, scanned);
    NextIsAuthentic(env, s, eventType, body, ts);
    PlainGrows(env, signer, s, scanned, e);
    hide *;
    PlainExtends(env, signer, s, scanned, e);
  }

  /** Entry e is an ordinary next entry of s. */
  predicate Plain(env: Env, s: State, e: Event) {
    && KeyedAuthentic(env, s.keys, s.log, e, s.mem.sealsSeen) && !IsSeal(e)
    && e.v == WriteVersion(s.mem) && e.epoch == s.mem.epoch
  }

  lemma PlainGrows(env: Env, signer: Signer, s: State, scanned: u32, e: Event)
    requires Ready(env, signer, s, scanned) && Plain(env, s, e)
    ensures Clean(Open(env, s.keys, s.log + [e])) && Open(env, s.keys, s.log + [e]).value.mem == Extend(s, e).mem
    ensures Verify(env, s.keys, s.log + [e]).Ok?
    ensures History(env, s.keys, s.mem.legacySegment0, s.log + [e])
  {
    hide Open, Verify, History, RemembersPublished, Tip, SegmentStart, SignedBy, KeyedAuthentic, SealCount, Decoded;
    ReadyFacts(env, signer, s, scanned);
    OpenGrows(env, s.keys, s.log, e);
    VerifyGrows(env, s.keys, s.log, e, s.mem.legacySegment0);
    HistorySnoc(env, s.keys, s.mem.legacySegment0, s.log, e);
  }

  lemma PlainExtends(env: Env, signer: Signer, s: State, scanned: u32, e: Event)
    requires Ready(env, signer, s, scanned) && Plain(env, s, e)
    requires Clean(Open(env, s.keys, s.log + [e])) && Open(env, s.keys, s.log + [e]).value.mem == Extend(s, e).mem
    requires Verify(env, s.keys, s.log + [e]).Ok?
    requires History(env, s.keys, s.mem.legacySegment0, s.log + [e])
    ensures Inv(env, signer, Extend(s, e))
  {
    hide Open, Verify, History, RemembersPublished, Tip, SegmentStart, Anchor, KeyedAuthentic, SealCount, Decoded,
         PublicVerify.PublicOk, Clean;
    Snoc(env, s.log, e);
    PlainIsPublic(env, s.keys, s.log, e, s.mem.sealsSeen);
    PublishedKept(env, s.mem.legacySegment0, s.mem.revealedEpochs, s.log, e);
    assert (s.log + [e])[|s.log|] == e;
  }

  lemma PlainIsPublic(env: Env, keys: seq<Digest>, log: seq<Event>, e: Event, n: u64)
    requires PublicVerify.PublicOk(env, log) && KeyedAuthentic(env, keys, log, e, n) && !IsSeal(e)
    ensures PublicVerify.PublicOk(env, log + [e])
  {
    hide EventHash, EncodeHash, DecodeHash, EntryKey, Tip, PublicVerify.PublicOk;
    DecodedHash(env, keys, log, e, n);
    PublicVerify.PublicOkSnoc(env, log, e);
  }

  lemma PublishedKept(env: Env, legacy: bool, revealed: set<u32>, log: seq<Event>, e: Event)
    requires RemembersPublished(env, legacy, revealed, log) && !IsSeal(e)
    ensures RemembersPublished(env, legacy, revealed, log + [e])
  {
    hide BasePublished;
    forall k: u32 ensures k in revealed <==> BasePublished(env, legacy, log + [e], k) {
      BasePublishedSnoc(env, legacy, log, e, k);
    }
  }

  lemma PublishedGrows(env: Env, legacy: bool, revealed: set<u32>, more: set<u32>, log: seq<Event>, e: Event,
                       r: SealRecord)
    requires RemembersPublished(env, legacy, revealed, log) && IsSeal(e) && env.parseSeal(e.body) == Some(r)
    requires more == if r.segment == 0 && legacy then revealed + r.revealed.Keys else revealed
    ensures RemembersPublished(env, legacy, more, log + [e])
  {
    hide BasePublished;
    forall k: u32 ensures k in more <==> BasePublished(env, legacy, log + [e], k) {
      BasePublishedSnoc(env, legacy, log, e, k);
    }
  }
}
