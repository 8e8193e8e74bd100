/** A seal call collects exactly the open segment, and what it writes keeps the invariant. */
module LedgerSealing {
  import opened Basics
  import opened Hex
  import opened SealRecords
  import opened Events
  import opened Segments
  import opened Merkle
  import SealPayloads
  import PublicVerify
  import opened LedgerScan
  import opened Ledger
  import opened LedgerInvariant

  // ----- the range of sequence numbers is the open segment -----

  lemma {:induction false} NoneInRange(log: seq<Event>, lo: nat, hi: nat)
    requires forall i :: 0 <= i < |log| ==> log[i].seqNo < lo
    ensures InRange(log, lo, hi) == []
  {
    if log != [] { NoneInRange(log[..|log| - 1], lo, hi); }
  }

  /** With dense numbering, the numbers from start + 1 on are the entries from position start on. */
  lemma {:induction false} InRangeIsSuffix(log: seq<Event>, start: nat, lo: nat, hi: nat)
    requires forall i :: 0 <= i < |log| ==> log[i].seqNo == i + 1
    requires start <= |log| <= hi && lo == start + 1
    ensures InRange(log, lo, hi) == log[start..]
    decreases |log|
  {
    if start == |log| {
      NoneInRange(log, lo, hi);
    } else {
      var before := log[..|log| - 1];
      InRangeIsSuffix(before, start, lo, hi);
      assert log[start..] == before[start..] + [log[|log| - 1]];
    }
  }

  // ----- what a pass over a segment collects -----

  /** Hash of the last seal among some entries. */
  function LastSealHash(entries: seq<Event>): Bytes {
    if entries == [] then []
    else if IsSeal(entries[|entries| - 1]) then entries[|entries| - 1].hash
    else LastSealHash(entries[..|entries| - 1])
  }

  /** Every leaf is collected and, for exactly the epochs seen, the key of each. */
  ghost predicate Collected(env: Env, keys: seq<Digest>, segment: u64, v: u32, entries: seq<Event>, g: Gathered) {
    && g.leaves == Leaves(entries)
    && g.prevSeal == LastSealHash(entries)
    && g.revealed.Keys == Epochs(entries)
    && (forall k :: k in g.revealed ==>
          k < |keys| && g.revealed[k] == EncodeHash(EntryKey(env, keys, k, segment, v).value))
    && (g.hasNonSeal <==> exists i :: 0 <= i < |entries| && !IsSeal(entries[i]))
  }

  lemma {:induction false} GatherCollects(env: Env, keys: seq<Digest>, segment: u64, v: u32, entries: seq<Event>)
    requires Gather(env, keys, segment, v, entries).Ok?
    ensures Collected(env, keys, segment, v, entries, Gather(env, keys, segment, v, entries).value)
  {
    if entries != [] {
      hide Gather, GatherStep, Collected;
      var (before, e) := (entries[..|entries| - 1], entries[|entries| - 1]);
      assert entries == before + [e];
      GatherSnoc(env, keys, segment, v, before, e);
      GatherCollects(env, keys, segment, v, before);
      CollectsOne(env, keys, segment, v, before, Gather(env, keys, segment, v, before).value, e);
    }
  }

  lemma CollectsOne(env: Env, keys: seq<Digest>, segment: u64, v: u32, before: seq<Event>, g: Gathered, e: Event)
    requires Collected(env, keys, segment, v, before, g) && GatherStep(env, keys, segment, v, g, e).Ok?
    ensures Collected(env, keys, segment, v, before + [e], GatherStep(env, keys, segment, v, g, e).value)
  {
    CollectedOne(before, e);
    GatherNonSeal(before, e);
    hide EncodeHash, DecodeHash, SegmentKey, IsSeal, Leaves, LastSealHash, Epochs;
  }

  lemma CollectedOne(before: seq<Event>, e: Event)
    ensures Leaves(before + [e]) == Leaves(before) + [Decoded(e.hash)]
    ensures LastSealHash(before + [e]) == if IsSeal(e) then e.hash else LastSealHash(before)
    ensures Epochs(before + [e]) == Epochs(before) + {e.epoch}
  {
    hide Decoded, IsSeal;
    assert (before + [e])[..|before|] == before;
  }

  lemma GatherNonSeal(before: seq<Event>, e: Event)
    ensures (exists i :: 0 <= i < |before + [e]| && !IsSeal((before + [e])[i]))
            <==> !IsSeal(e) || exists i :: 0 <= i < |before| && !IsSeal(before[i])
  {
    hide IsSeal;
    var s := before + [e];
    assert s[|before|] == e;
    assert forall i :: 0 <= i < |before| ==> s[i] == before[i];
  }

  /** In the open segment the only seal is its first entry, the previous seal of the log. */
  lemma {:induction false} OpenSegmentSeal(log: seq<Event>)
    ensures LastSealHash(log[SegmentStart(log)..]) == PrevSealHash(log)
  {
    hide IsSeal;
    if log != [] {
      hide PrevSealHash;
      var (before, e) := (log[..|log| - 1], log[|log| - 1]);
      var start := SegmentStart(log);
      var entries := log[start..];
      assert log == before + [e] && entries[..|entries| - 1] == before[start..];
      if !IsSeal(e) {
        OpenSegmentSeal(before);
      }
      SegmentsSnoc(before, e);
    }
  }

  /** No seal lies after the first entry of the open segment. */
  lemma {:induction false} OpenSegmentCount(log: seq<Event>, j: nat)
    requires SegmentStart(log) <= j < |log|
    ensures SealCount(log[..j + 1]) == SealCount(log)
    decreases |log|
  {
    hide IsSeal;
    if j == |log| - 1 {
      assert log[..j + 1] == log;
    } else {
      var before := log[..|log| - 1];
      assert before[..j + 1] == log[..j + 1];
      OpenSegmentCount(before, j);
    }
  }

  // ----- every entry of the open segment authenticates under the revealed key -----

  lemma AuthenticUnder(env: Env, keys: seq<Digest>, before: seq<Event>, e: Event, n: u64, r: SealRecord)
    requires KeyedAuthentic(env, keys, before, e, n) && e.epoch in r.revealed
    requires r.revealed[e.epoch] == EncodeHash(EntryKey(env, keys, e.epoch, n, e.v).value)
    ensures PublicVerify.Authentic(env, r, e) && e.hash == EncodeHash(Decoded(e.hash))
  {
    hide EventHash, EncodeHash, DecodeHash, Tip, EntryKey;
    HashRoundTrip(EntryKey(env, keys, e.epoch, n, e.v).value);
    DecodedHash(env, keys, before, e, n);
  }

  lemma WroteUnder(env: Env, keys: seq<Digest>, mem: Memory, before: seq<Event>, e: Event)
    requires Wrote(env, keys, mem.legacySegment0, before, e) && SegmentOf(before, e) == mem.sealsSeen
    ensures KeyedAuthentic(env, keys, before, e, mem.sealsSeen) && e.epoch < |keys|
    ensures EntryKey(env, keys, e.epoch, mem.sealsSeen, e.v)
            == EntryKey(env, keys, e.epoch, mem.sealsSeen, WriteVersion(mem))
  {
    hide EventHash, EncodeHash, DecodeHash, Tip, SegmentKey, HonestSeal, SegmentOf;
  }

  /** Every entry of the open segment was written under the key its epoch has there. */
  lemma OpenSegmentKey(env: Env, keys: seq<Digest>, log: seq<Event>, mem: Memory, j: nat)
    requires History(env, keys, mem.legacySegment0, log) && SegmentStart(log) <= j < |log|
    requires mem.sealsSeen == SealCount(log)
    ensures KeyedAuthentic(env, keys, log[..j], log[j], mem.sealsSeen)
    ensures log[j].epoch < |keys|
    ensures EntryKey(env, keys, log[j].epoch, mem.sealsSeen, log[j].v)
            == EntryKey(env, keys, log[j].epoch, mem.sealsSeen, WriteVersion(mem))
  {
    hide Wrote, SegmentStart, SealCount, KeyedAuthentic, EntryKey;
    OpenSegmentCount(log, j);
    assert log[..j + 1] == log[..j] + [log[j]];
    Snoc(env, log[..j], log[j]);
    assert Wrote(env, keys, mem.legacySegment0, log[..j], log[j]);
    WroteUnder(env, keys, mem, log[..j], log[j]);
  }

  /** The revealed keys are those the entries of the segment were written under. */
  lemma RevealAuthenticates(env: Env, keys: seq<Digest>, log: seq<Event>, mem: Memory, r: SealRecord, j: nat)
    requires History(env, keys, mem.legacySegment0, log) && SegmentStart(log) <= j < |log|
    requires mem.sealsSeen == SealCount(log)
    requires log[j].epoch in r.revealed && log[j].epoch < |keys|
    requires r.revealed[log[j].epoch]
             == EncodeHash(EntryKey(env, keys, log[j].epoch, mem.sealsSeen, WriteVersion(mem)).value)
    ensures PublicVerify.Authentic(env, r, log[j])
    ensures log[j].hash == EncodeHash(Decoded(log[j].hash))
  {
    hide *;
    OpenSegmentKey(env, keys, log, mem, j);
    AuthenticUnder(env, keys, log[..j], log[j], mem.sealsSeen, r);
  }

  // ----- the record a seal call writes -----

  /** Record r describes the open segment. */
  ghost predicate Describes(env: Env, s: State, r: SealRecord) {
    var segment := s.log[SegmentStart(s.log)..];
    && segment != []
    && r.segment == s.mem.sealsSeen < U64_MAX
    && r.startSeq == SegmentStart(s.log) + 1 && r.endSeq == |s.log|
    && r.tipHash == EncodeHash(Decoded(segment[|segment| - 1].hash))
    && r.merkleRoot == EncodeHash(Mth(env.TreeHasher(), Leaves(segment)))
    && r.prevSeal == PrevSealHash(s.log)
    && r.revealed.Keys == Epochs(segment)
    && forall k :: k in r.revealed ==>
         k < |s.keys|
         && r.revealed[k] == EncodeHash(EntryKey(env, s.keys, k, s.mem.sealsSeen, WriteVersion(s.mem)).value)
  }

  /** What a plan to write says about the record. */
  ghost predicate Planned(env: Env, s: State, signer: Signer, r: SealRecord) {
    && Describes(env, s, r)
    && signer.publicKey == Some(r.publicKey) && r.scheme == signer.scheme
    && r.payload == SealPayload(r) && signer.sign(SealPayload(r)) == Some(r.signature)
  }

  lemma SignedPayload(r: SealRecord, signer: Signer)
    requires SignRecord(r, signer).Some?
    ensures var signed := SignRecord(r, signer).value;
            && signed == r.(payload := SealPayload(r), signature := signed.signature)
            && SealPayload(signed) == SealPayload(r) && signer.sign(SealPayload(r)) == Some(signed.signature)
  {
    hide Decimal, RenderEntries, SortedKeys;
  }

  lemma DenseNumbers(env: Env, keys: seq<Digest>, legacy: bool, log: seq<Event>)
    requires History(env, keys, legacy, log)
    ensures forall i :: 0 <= i < |log| ==> log[i].seqNo == i + 1
  {
    hide EventHash, EncodeHash, DecodeHash, Tip, EntryKey, HonestSeal, SegmentOf;
    forall i | 0 <= i < |log| ensures log[i].seqNo == i + 1 {
      assert Wrote(env, keys, legacy, log[..i], log[i]);
    }
  }

  // ----- what a seal call decides -----

  /** The open segment has an entry that is not itself a seal. */
  predicate HasNew(log: seq<Event>) {
    exists i :: SegmentStart(log) <= i < |log| && !IsSeal(log[i])
  }

  /** The key of each epoch of the open segment. */
  function SegmentKeys(env: Env, s: State): map<u32, Bytes> {
    map k: u32 | k in Epochs(s.log[SegmentStart(s.log)..]) && k < |s.keys| ::
      EncodeHash(EntryKey(env, s.keys, k, s.mem.sealsSeen, WriteVersion(s.mem)).value)
  }

  /** The record that closes the open segment, before it is signed. */
  function OpenRecord(env: Env, s: State, signer: Signer): SealRecord
    requires signer.publicKey.Some? && |s.log| <= U64_MAX
  {
    SealRecord(s.mem.sealsSeen, SegmentStart(s.log) + 1, |s.log|, EncodeHash(Tip(s.log)),
               EncodeHash(Mth(env.TreeHasher(), Leaves(s.log[SegmentStart(s.log)..]))), SegmentKeys(env, s),
               PrevSealHash(s.log), signer.scheme, signer.publicKey.value, [], [])
  }

  /** The signer has a public key to give and signs the record of the open segment. */
  predicate CanSign(env: Env, s: State, signer: Signer) {
    signer.publicKey.Some? && |s.log| <= U64_MAX && SignRecord(OpenRecord(env, s, signer), signer).Some?
  }

  lemma {:induction false} GatherSucceeds(env: Env, keys: seq<Digest>, segment: u64, v: u32, entries: seq<Event>)
    requires forall i :: 0 <= i < |entries| ==> DecodeHash(entries[i].hash).Some? && entries[i].epoch < |keys|
    ensures Gather(env, keys, segment, v, entries).Ok?
  {
    if entries != [] {
      hide DecodeHash, EncodeHash, SegmentKey;
      GatherSucceeds(env, keys, segment, v, entries[..|entries| - 1]);
    }
  }

  lemma WroteDecodes(env: Env, keys: seq<Digest>, legacy: bool, log: seq<Event>, i: nat)
    requires History(env, keys, legacy, log) && i < |log|
    ensures DecodeHash(log[i].hash).Some? && log[i].epoch < |keys|
  {
    hide DecodeHash, EventHash, EncodeHash, SegmentKey, HonestSeal, SegmentOf, Tip;
    assert Wrote(env, keys, legacy, log[..i], log[i]);
    DecodedHash(env, keys, log[..i], log[i], SegmentOf(log[..i], log[i]));
  }

  /** What one pass collects from the open segment is what the declared record says. */
  ghost predicate GatheredOpen(env: Env, s: State, g: Gathered) {
    && g.leaves == Leaves(s.log[SegmentStart(s.log)..]) && g.leaves != [] && g.leaves[|g.leaves| - 1] == Tip(s.log)
    && g.revealed == SegmentKeys(env, s) && g.prevSeal == PrevSealHash(s.log) && (g.hasNonSeal <==> HasNew(s.log))
  }

  lemma GathersOpenSegment(env: Env, s: State, segment: seq<Event>)
    requires History(env, s.keys, s.mem.legacySegment0, s.log) && s.log != []
    requires segment == s.log[SegmentStart(s.log)..]
    ensures var g := Gather(env, s.keys, s.mem.sealsSeen, WriteVersion(s.mem), segment);
            g.Ok? && GatheredOpen(env, s, g.value)
  {
    hide *;
    SegmentDecodes(env, s, segment);
    GatherSucceeds(env, s.keys, s.mem.sealsSeen, WriteVersion(s.mem), segment);
    GatherCollects(env, s.keys, s.mem.sealsSeen, WriteVersion(s.mem), segment);
    OpenSegmentSeal(s.log);
    NewInSuffix(s.log, segment);
    TipIsLastLeaf(s.log, segment);
    CollectedIsOpen(env, s, segment, Gather(env, s.keys, s.mem.sealsSeen, WriteVersion(s.mem), segment).value);
  }

  lemma SegmentDecodes(env: Env, s: State, segment: seq<Event>)
    requires History(env, s.keys, s.mem.legacySegment0, s.log) && segment == s.log[SegmentStart(s.log)..]
    ensures forall i :: 0 <= i < |segment| ==> DecodeHash(segment[i].hash).Some? && segment[i].epoch < |s.keys|
  {
    hide History, SegmentStart, DecodeHash;
    forall i | 0 <= i < |segment| ensures DecodeHash(segment[i].hash).Some? && segment[i].epoch < |s.keys| {
      WroteDecodes(env, s.keys, s.mem.legacySegment0, s.log, SegmentStart(s.log) + i);
    }
  }

  lemma TipIsLastLeaf(log: seq<Event>, segment: seq<Event>)
    requires log != [] && segment == log[SegmentStart(log)..]
    ensures segment != [] && Leaves(segment)[|segment| - 1] == Tip(log)
  {
    hide SegmentStart, Leaves, Decoded;
    LeafAt(segment, |segment| - 1);
  }

  lemma CollectedIsOpen(env: Env, s: State, segment: seq<Event>, g: Gathered)
    requires s.log != [] && segment == s.log[SegmentStart(s.log)..] && segment != []
    requires Collected(env, s.keys, s.mem.sealsSeen, WriteVersion(s.mem), segment, g)
    requires Leaves(segment)[|segment| - 1] == Tip(s.log) && LastSealHash(segment) == PrevSealHash(s.log)
    requires HasNew(s.log) <==> exists i :: 0 <= i < |segment| && !IsSeal(segment[i])
    ensures GatheredOpen(env, s, g)
  {
    hide SegmentStart, Leaves, LastSealHash, Tip, PrevSealHash, Epochs, EncodeHash, SegmentKey, HasNew, IsSeal;
  }

  lemma NewInSuffix(log: seq<Event>, segment: seq<Event>)
    requires segment == log[SegmentStart(log)..]
    ensures HasNew(log) <==> exists i :: 0 <= i < |segment| && !IsSeal(segment[i])
  {
    hide SegmentStart, IsSeal;
    var start := SegmentStart(log);
    if HasNew(log) {
      var i :| start <= i < |log| && !IsSeal(log[i]);
      assert !IsSeal(segment[i - start]);
    }
    if exists i :: 0 <= i < |segment| && !IsSeal(segment[i]) {
      var i :| 0 <= i < |segment| && !IsSeal(segment[i]);
      assert !IsSeal(log[start + i]);
    }
  }

  /** The first entry of an accepted file is no seal, so the seal counter stays below its end. */
  lemma SealsStayBelow(env: Env, log: seq<Event>)
    requires PublicVerify.PublicOk(env, log) && log != []
    ensures SealCount(log) < |log|
  {
    hide PublicVerify.Covers, PublicVerify.Signed, PublicVerify.Linked, Anchor, SealCount;
    assert log[..0] == [];
    assert PublicVerify.EntryHolds(env, log[..0], log[0]);
    FewerSeals(log);
  }

  lemma {:induction false} FewerSeals(log: seq<Event>)
    requires log != [] && !IsSeal(log[0])
    ensures SealCount(log) < |log|
  {
    if |log| > 1 { FewerSeals(log[..|log| - 1]); }
  }

  /**
   * In a sound state a seal call does nothing when the open segment holds only seals, is refused only by the
   * signer, and otherwise writes the record of the open segment.
   */
  lemma SealDecision(env: Env, signer: Signer, s: State)
    requires Inv(env, signer, s)
    ensures PlanSeal(env, s, signer)
            == if !HasNew(s.log) then NothingToSeal
               else if !CanSign(env, s, signer) then Refuse(AnchorFailed)
               else Write(SignRecord(OpenRecord(env, s, signer), signer).value)
  {
    hide Open, Verify, History, Tip, SealCount, SegmentStart, PrevSealHash, Anchor, Leaves, Mth, Gather, InRange,
         SegmentKeys, EncodeHash, EntryKey, SignRecord, RemembersPublished, Epochs, PublicVerify.PublicOk;
    CleanCounts(env, s.keys, s.log);
    if s.log != [] {
      DenseNumbers(env, s.keys, s.mem.legacySegment0, s.log);
      var start := SegmentStart(s.log);
      InRangeIsSuffix(s.log, start, start + 1, |s.log|);
      GathersOpenSegment(env, s, s.log[start..]);
      SealsStayBelow(env, s.log);
    }
  }

  lemma PlanIsPlanned(env: Env, signer: Signer, s: State)
    requires Inv(env, signer, s) && PlanSeal(env, s, signer).Write?
    ensures Planned(env, s, signer, PlanSeal(env, s, signer).record)
  {
    SealDecision(env, signer, s);
    OpenRecordIsPlanned(env, signer, s);
    hide *;
  }

  lemma OpenRecordIsPlanned(env: Env, signer: Signer, s: State)
    requires Inv(env, signer, s) && HasNew(s.log) && CanSign(env, s, signer)
    ensures Planned(env, s, signer, SignRecord(OpenRecord(env, s, signer), signer).value)
  {
    var r := OpenRecord(env, s, signer);
    OpenRecordDescribes(env, signer, s);
    SignedPayload(r, signer);
    hide Inv, Describes, SealPayload, SignRecord, HasNew;
    SameDescription(env, s, r, SignRecord(r, signer).value);
  }

  lemma OpenRecordDescribes(env: Env, signer: Signer, s: State)
    requires Inv(env, signer, s) && HasNew(s.log) && signer.publicKey.Some? && |s.log| <= U64_MAX
    ensures Describes(env, s, OpenRecord(env, s, signer))
  {
    hide Inv, SegmentStart, PrevSealHash, Leaves, Mth, Decoded, EncodeHash, EntryKey, Epochs, History, SegmentKeys,
         Tip, IsSeal, HasNew;
    NewIsSomething(s.log);
    InvCounts(env, signer, s);
    RevealsSegment(env, s);
    LastOfSegment(s.log);
  }

  lemma SameDescription(env: Env, s: State, r: SealRecord, signed: SealRecord)
    requires Describes(env, s, r) && signed == r.(payload := signed.payload, signature := signed.signature)
    ensures Describes(env, s, signed)
  {
    hide SegmentStart, PrevSealHash, Leaves, Mth, Decoded, EncodeHash, EntryKey, Epochs;
  }

  lemma NewIsSomething(log: seq<Event>)
    requires HasNew(log)
    ensures log != []
  {
    hide SegmentStart, IsSeal;
  }

  lemma LastOfSegment(log: seq<Event>)
    requires log != []
    ensures var segment := log[SegmentStart(log)..];
            segment != [] && Tip(log) == Decoded(segment[|segment| - 1].hash)
  {
    hide SegmentStart, Decoded;
  }

  lemma InvCounts(env: Env, signer: Signer, s: State)
    requires Inv(env, signer, s) && s.log != []
    ensures History(env, s.keys, s.mem.legacySegment0, s.log)
    ensures s.mem.sealsSeen == SealCount(s.log) < |s.log| && s.mem.seqNo == |s.log|
  {
    hide Open, Verify, History, SegmentStart, SignedBy, PublicVerify.PublicOk, RemembersPublished, Epochs, SealCount,
         Tip;
    CleanCounts(env, s.keys, s.log);
    SealsStayBelow(env, s.log);
  }

  lemma RevealsSegment(env: Env, s: State)
    requires History(env, s.keys, s.mem.legacySegment0, s.log)
    ensures SegmentKeys(env, s).Keys == Epochs(s.log[SegmentStart(s.log)..])
    ensures forall k :: k in SegmentKeys(env, s) ==>
              k < |s.keys| && SegmentKeys(env, s)[k]
                              == EncodeHash(EntryKey(env, s.keys, k, s.mem.sealsSeen, WriteVersion(s.mem)).value)
  {
    hide History, SegmentStart, EncodeHash, DecodeHash, SegmentKey;
    SegmentDecodes(env, s, s.log[SegmentStart(s.log)..]);
  }

  /** Every record a seal call writes is quote-free, so its signed payload reads back as its own fields. */
  lemma WrittenPayloadReadsBack(env: Env, signer: Signer, s: State)
    requires Inv(env, signer, s) && PlanSeal(env, s, signer).Write?
    ensures var r := PlanSeal(env, s, signer).record;
            && r.payload == SealPayload(r)
            && SealPayloads.ReadPayload(r.payload) == Some(SealPayloads.FieldsOf(r))
  {
    PlanIsPlanned(env, signer, s);
    hide Inv, PlanSeal;
    PlannedIsPlain(env, signer, s, PlanSeal(env, s, signer).record);
    SealPayloads.PayloadRoundTrip(PlanSeal(env, s, signer).record);
  }

  lemma PlannedIsPlain(env: Env, signer: Signer, s: State, r: SealRecord)
    requires Planned(env, s, signer, r)
    ensures SealPayloads.PlainRecord(r) && r.payload == SealPayload(r)
  {
    hide EncodeHash, SegmentKey, SegmentStart, PrevSealHash, Epochs, Mth, Leaves, SealPayload, SealPayloads.QuoteFree;
    var segment := s.log[SegmentStart(s.log)..];
    SealPayloads.HexIsPlain(Decoded(segment[|segment| - 1].hash));
    SealPayloads.HexIsPlain(Mth(env.TreeHasher(), Leaves(segment)));
    forall k | k in r.revealed ensures SealPayloads.QuoteFree(r.revealed[k]) {
      SealPayloads.HexIsPlain(EntryKey(env, s.keys, k, s.mem.sealsSeen, WriteVersion(s.mem)).value);
    }
  }

  /** The planned record closes the open segment for a verifier without keys. */
  lemma PlannedCloses(env: Env, signer: Signer, s: State, r: SealRecord)
    requires Inv(env, signer, s) && Planned(env, s, signer, r) && env.Genuine(signer)
    ensures PublicVerify.Closes(env, r, s.log[SegmentStart(s.log)..], SealCount(s.log), SegmentStart(s.log) + 1,
                                PrevSealHash(s.log), Anchor(env, s.log))
  {
    hide Open, Verify, History, Tip, SealCount, SegmentStart, PrevSealHash, Anchor, Leaves, Mth, SealPayload, EncodeHash,
         EntryKey, RemembersPublished, PublicVerify.Authentic, PublicVerify.PublicOk;
    CleanCounts(env, s.keys, s.log);
    var start := SegmentStart(s.log);
    var segment := s.log[start..];
    forall j | 0 <= j < |segment|
      ensures PublicVerify.Authentic(env, r, segment[j]) && segment[j].hash == EncodeHash(Decoded(segment[j].hash))
    {
      assert segment[j] == s.log[start + j] && segment[j] in segment && segment[j].epoch in Epochs(segment);
      RevealAuthenticates(env, s.keys, s.log, s.mem, r, start + j);
    }
  }

  // ----- the seal entry -----

  /** Entry e is the seal that records r in the segment it opens. */
  ghost predicate SealEntry(env: Env, s: State, r: SealRecord, e: Event) {
    && s.mem.sealsSeen < U64_MAX && KeyedAuthentic(env, s.keys, s.log, e, s.mem.sealsSeen + 1)
    && IsSeal(e) && e.v == 3 && e.epoch == s.mem.epoch && env.parseSeal(e.body) == Some(r)
  }

  lemma SealHonest(env: Env, signer: Signer, s: State, r: SealRecord, e: Event)
    requires s.mem.sealsSeen == SealCount(s.log) && Planned(env, s, signer, r) && SealEntry(env, s, r, e)
    ensures HonestSeal(env, s.keys, s.mem.legacySegment0, s.log, e)
    ensures Wrote(env, s.keys, s.mem.legacySegment0, s.log, e)
  {
    hide EventHash, EncodeHash, DecodeHash, Tip, SegmentStart, SegmentKey, SealCount, Epochs, SealPayload, Mth, Leaves,
         PrevSealHash;
  }

  /** Without a seal so far the open segment is the whole log. */
  lemma Segment0IsAll(log: seq<Event>)
    requires SealCount(log) == 0
    ensures log[SegmentStart(log)..] == log
  {
    SegmentStartIsSeal(log);
  }

  /** A scan publishes the epochs of a legacy segment 0 and of its seal: the ones the record reveals. */
  lemma ScanPublishes(env: Env, keys: seq<Digest>, log: seq<Event>, epoch: u32)
    requires Clean(Open(env, keys, log)) && SealCount(log) == 0 && epoch in Epochs(log)
    ensures Open(env, keys, log).value.seg0Epochs + {epoch} == Epochs(log[SegmentStart(log)..])
  {
    hide *;
    Seg0IsAll(env, keys, log);
    Segment0IsAll(log);
    AddMember(Epochs(log), epoch);
  }

  lemma AddMember<T>(s: set<T>, x: T)
    requires x in s
    ensures s + {x} == s
  {
  }

  /** The scan of the file with the seal remembers what the handle remembers. */
  lemma SealScan(env: Env, signer: Signer, s: State, r: SealRecord, e: Event)
    requires Inv(env, signer, s) && Planned(env, s, signer, r) && SealEntry(env, s, r, e)
    ensures Clean(Open(env, s.keys, s.log + [e]))
    ensures Open(env, s.keys, s.log + [e]).value.mem == Published(Extend(Opened(s), e), r).mem
  {
    hide Open, Verify, History, Tip, SealCount, SegmentStart, PrevSealHash, SignedBy, Leaves, Mth, SealPayload, EncodeHash,
         EntryKey, RemembersPublished, Decoded, Epochs, PublicVerify.PublicOk, KeyedAuthentic;
    CleanCounts(env, s.keys, s.log);
    OpenGrows(env, s.keys, s.log, e);
    if s.mem.sealsSeen == 0 {
      assert s.log != [];
      ScanPublishes(env, s.keys, s.log, e.epoch);
    }
    SealCounted(env, s, Open(env, s.keys, s.log).value, r, e);
  }

  lemma SealCounted(env: Env, s: State, st: Scan, r: SealRecord, e: Event)
    requires st.mem == s.mem && SealEntry(env, s, r, e) && r.segment == s.mem.sealsSeen
    requires r.endSeq == s.mem.seqNo && s.mem.sealedThrough <= s.mem.seqNo
    requires s.mem.sealsSeen == 0 ==> st.seg0Epochs + {e.epoch} == r.revealed.Keys
    ensures var counted := Count(env, st, e);
            counted.Some? && counted.value.mem.(lastHash := Decoded(e.hash), seqNo := e.seqNo, epoch := s.mem.epoch)
                             == Published(Extend(Opened(s), e), r).mem
  {
    hide KeyedAuthentic, Decoded;
  }

  /** Recording the planned seal keeps the invariant. */
  lemma SealKeeps(env: Env, signer: Signer, s: State, r: SealRecord, e: Event)
    requires Inv(env, signer, s) && Planned(env, s, signer, r) && SealEntry(env, s, r, e) && env.Genuine(signer)
    ensures Inv(env, signer, Published(Extend(Opened(s), e), r))
  {
    SealScan(env, signer, s, r, e);
    SealVerifies(env, signer, s, r, e);
    SealIsPublic(env, signer, s, r, e);
    hide *;
    SealExtends(env, signer, s, r, e);
  }

  lemma SealVerifies(env: Env, signer: Signer, s: State, r: SealRecord, e: Event)
    requires Inv(env, signer, s) && Planned(env, s, signer, r) && SealEntry(env, s, r, e)
    ensures Verify(env, s.keys, s.log + [e]).Ok?
    ensures History(env, s.keys, s.mem.legacySegment0, s.log + [e])
  {
    hide Open, Verify, History, Tip, SealCount, SegmentStart, PrevSealHash, Anchor, Leaves, Mth, SealPayload, EncodeHash,
         DecodeHash, EventHash, EntryKey, RemembersPublished, Epochs, HonestSeal, Wrote, SealFault, KeyedAuthentic,
         PublicVerify.PublicOk;
    CleanCounts(env, s.keys, s.log);
    PassesAgree(env, s.keys, s.log);
    SealHonest(env, signer, s, r, e);
    HonestSealPasses(env, s.keys, s.mem.legacySegment0, s.log, e);
    VerifyGrows(env, s.keys, s.log, e, s.mem.legacySegment0);
    HistorySnoc(env, s.keys, s.mem.legacySegment0, s.log, e);
  }

  lemma SealIsPublic(env: Env, signer: Signer, s: State, r: SealRecord, e: Event)
    requires Inv(env, signer, s) && Planned(env, s, signer, r) && SealEntry(env, s, r, e) && env.Genuine(signer)
    ensures PublicVerify.PublicOk(env, s.log + [e])
    ensures SignedBy(env, signer, s.log + [e])
  {
    hide Open, Verify, History, Tip, SealCount, SegmentStart, PrevSealHash, Anchor, Leaves, Mth, SealPayload, EncodeHash,
         DecodeHash, EventHash, EntryKey, RemembersPublished, Epochs, PublicVerify.Closes, PublicVerify.PublicOk;
    PlannedCloses(env, signer, s, r);
    DecodedHash(env, s.keys, s.log, e, s.mem.sealsSeen + 1);
    PublicVerify.PublicOkSnoc(env, s.log, e);
    Snoc(env, s.log, e);
  }

  lemma SealExtends(env: Env, signer: Signer, s: State, r: SealRecord, e: Event)
    requires Inv(env, signer, s) && Planned(env, s, signer, r) && SealEntry(env, s, r, e)
    requires Clean(Open(env, s.keys, s.log + [e]))
    requires Open(env, s.keys, s.log + [e]).value.mem == Published(Extend(Opened(s), e), r).mem
    requires Verify(env, s.keys, s.log + [e]).Ok?
    requires History(env, s.keys, s.mem.legacySegment0, s.log + [e])
    requires PublicVerify.PublicOk(env, s.log + [e]) && SignedBy(env, signer, s.log + [e])
    ensures Inv(env, signer, Published(Extend(Opened(s), e), r))
  {
    hide Open, Verify, History, Tip, SealCount, SegmentStart, PrevSealHash, SignedBy, Leaves, Mth, SealPayload, EncodeHash,
         KeyedAuthentic, EntryKey, RemembersPublished, Epochs, PublicVerify.PublicOk, Decoded, Clean;
    CleanOk(Open(env, s.keys, s.log));
    CleanCounts(env, s.keys, s.log);
    Snoc(env, s.log, e);
    var after := Published(Extend(Opened(s), e), r);
    PublishedGrows(env, s.mem.legacySegment0, s.mem.revealedEpochs, after.mem.revealedEpochs, s.log, e, r);
  }

  lemma CleanOk(r: Result<Scan, Found>)
    requires Clean(r)
    ensures r.Ok? && !r.value.mem.compromised
  {
  }
}
