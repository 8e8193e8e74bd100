/** The open ledger as an object: fields that each call updates, over an append-only file. */
module SovereignLedgers {
  import opened Basics
  import opened Hex
  import opened SealRecords
  import opened Events
  import opened Segments
  import opened Merkle
  import Inclusion
  import Consistency
  import opened LedgerScan
  import Ledger
  import LedgerInvariant
  import LedgerRuns
  import LedgerKeys
  import LedgerCalls
  import LedgerProofs

  /** One key per seed; without seeds a single random one. */
  function Ring(env: Env, seeds: seq<Bytes>, random: Digest): (keys: seq<Digest>)
    ensures |keys| == if seeds == [] then 1 else |seeds|
  {
    if seeds == [] then [random] else LedgerCalls.RingOf(env, seeds)
  }

  class SovereignLedger {
    const env: Env
    /** The entries in the file. */
    var log: seq<Event>
    var keys: seq<Digest>
    var lastHash: Digest
    var seqNo: u64
    var epoch: u32
    var sealsSeen: u64
    var sealedThrough: u64
    var legacySegment0: bool
    var revealedEpochs: set<u32>
    var readOnly: bool
    var compromised: bool

    ghost function State(): Ledger.State
      reads this
    {
      Ledger.State(log, keys,
                   Memory(lastHash, seqNo, epoch, sealsSeen, sealedThrough, legacySegment0, revealedEpochs, compromised),
                   readOnly)
    }

    constructor (env: Env, log: seq<Event>, keys: seq<Digest>, mem: Memory)
      ensures this.env == env && State() == Ledger.State(log, keys, mem, false)
    {
      this.env := env;
      this.log, this.keys := log, keys;
      lastHash, seqNo, epoch, sealsSeen := mem.lastHash, mem.seqNo, mem.epoch, mem.sealsSeen;
      sealedThrough, legacySegment0 := mem.sealedThrough, mem.legacySegment0;
      revealedEpochs, compromised, readOnly := mem.revealedEpochs, mem.compromised, false;
    }

    /** The counters of the opening pass, moved before the entry is authenticated. */
    static method CountEntry(env: Env, event: Event, st: Scan) returns (r: Option<Scan>)
      ensures r == Count(env, st, event)
    {
      var mem, seg0Epochs := st.mem, st.seg0Epochs;
      if mem.sealsSeen == 0 {
        if event.v < 3 {
          mem := mem.(legacySegment0 := true);
        }
        seg0Epochs := seg0Epochs + {event.epoch};
      }
      if event.eventType == SEAL_EVENT {
        var seal := env.parseSeal(event.body);
        if seal.None? || mem.sealsSeen == U64_MAX {
          return None;
        }
        mem := mem.(sealsSeen := mem.sealsSeen + 1, sealedThrough := Max(mem.sealedThrough, seal.value.endSeq));
        if mem.legacySegment0 && mem.sealsSeen == 1 {
          mem := mem.(revealedEpochs := mem.revealedEpochs + seg0Epochs);
        }
      }
      return Some(Scan(mem, seg0Epochs));
    }

    /** Open a file under a keyring: one pass over its entries that stops at the first broken one. */
    static method OpenWithSeeds(env: Env, log: seq<Event>, seeds: seq<Bytes>, random: Digest)
      returns (r: Result<SovereignLedger, Error>)
      ensures match Open(env, Ring(env, seeds, random), log)
              case Err(found) => r == Err(found.error)
              case Ok(scan) => r.Ok? && fresh(r.value) && r.value.env == env
                               && r.value.State() == Ledger.State(log, Ring(env, seeds, random), scan.mem, false)
      ensures r.Ok? ==> forall i :: 0 <= i < |seeds| ==> |r.value.keys| == |seeds| && r.value.keys[i] == BaseKey(env, seeds[i])
    {
      hide Open, CheckEntry, Count, BaseKey, LedgerCalls.RingOf;
      var keys := Ring(env, seeds, random);
      var st := FRESH_SCAN;
      var idx := 0;
      assert log[..0] == [] && log[..|log|] == log;
      LedgerRuns.EmptyScan(env, keys);
      while idx < |log| && !st.mem.compromised
        invariant 0 <= idx <= |log|
        invariant Open(env, keys, log[..idx]) == Ok(st)
      {
        var event := log[idx];
        TakeSnoc(log, idx);
        OpenSnoc(env, keys, log[..idx], event);
        if !Clean(Open(env, keys, log[..idx + 1])) { OpenSticks(env, keys, log, idx + 1); }
        var counted := CountEntry(env, event, st);
        if counted.None? {
          return Err(InvalidLine(idx));
        }
        st := counted.value;
        var checked := CheckEntry(env, keys, event, idx, st.mem.lastHash, st.mem.seqNo, st.mem.sealsSeen);
        if checked.Err? {
          return Err(checked.error);
        }
        if checked.value.None? {
          st := st.(mem := st.mem.(compromised := true));
        } else {
          st := st.(mem := st.mem.(lastHash := checked.value.value, seqNo := event.seqNo,
                                   epoch := Max(st.mem.epoch, event.epoch)));
        }
        idx := idx + 1;
      }
      if st.mem.compromised { OpenSticks(env, keys, log, idx); }
      forall i | 0 <= i < |seeds| ensures keys[i] == BaseKey(env, seeds[i]) {
        LedgerCalls.RingAt(env, seeds, i);
      }
      var ledger := new SovereignLedger(env, log, keys, st.mem);
      return Ok(ledger);
    }

    /** Append an event. A refused call changes nothing. */
    method Append(eventType: Bytes, body: Bytes, ts: u64) returns (r: Result<u64, Error>)
      modifies this
      ensures (State(), r) == Ledger.Append(env, old(State()), eventType, body, ts)
    {
      hide EventHashV2, EncodeHash, SegmentKey, HexDecode, HexEncode;
      if compromised {
        return Err(Compromised);
      }
      if readOnly {
        return Err(ReadOnly);
      }
      if epoch in revealedEpochs {
        return Err(EpochPublished(epoch));
      }
      var v := if sealsSeen == 0 && legacySegment0 then 2 else FORMAT_VERSION;
      var key := EntryKey(env, keys, epoch, sealsSeen, v);
      if key.None? {
        return Err(MissingKey(epoch));
      }
      if seqNo == U64_MAX {
        return Err(SequenceOverflow);
      }
      var nextSeq := seqNo + 1;
      var hash := EventHashV2(env, lastHash, nextSeq, ts, eventType, body, key.value);
      log := log + [Event(v, nextSeq, ts, eventType, body, epoch, EncodeHash(lastHash), EncodeHash(hash))];
      HashRoundTrip(hash);
      lastHash := hash;
      seqNo := nextSeq;
      return Ok(nextSeq);
    }

    /** Move to a new key and record it. The ring and the epoch have changed even if the entry is refused. */
    method RotateKey(newSeed: Bytes, ts: u64) returns (r: Result<u32, Error>)
      modifies this
      ensures (State(), r) == Ledger.Rotate(env, old(State()), newSeed, ts)
    {
      keys := keys + [BaseKey(env, newSeed)];
      if epoch == U32_MAX {
        return Err(EpochOverflow);
      }
      epoch := epoch + 1;
      hide Ledger.Append, BaseKey;
      var appended := Append(KEY_ROTATION_EVENT, Ledger.RotationBody(epoch), ts);
      return if appended.Err? then Err(appended.error) else Ok(epoch);
    }

    /** What a seal call would write: one pass over the file, then the signer. */
    method DraftSeal(signer: Signer) returns (plan: Ledger.Plan)
      requires |log| <= TWO63
      ensures plan == Ledger.PlanSeal(env, State(), signer)
    {
      hide Ledger.Gather, Ledger.InRange, Ledger.WriteVersion, Ledger.PlanRecord;
      if compromised {
        return Ledger.Refuse(Compromised);
      }
      if sealedThrough == U64_MAX {
        return Ledger.Refuse(ArithmeticOverflow);
      }
      var startSeq, endSeq := sealedThrough + 1, seqNo;
      if endSeq < startSeq {
        return Ledger.NothingToSeal;
      }
      var gathered := GatherSegment(startSeq, endSeq);
      if gathered.Err? {
        return Ledger.Refuse(gathered.error);
      }
      GatheredLength(startSeq, endSeq, gathered.value);
      plan := DraftRecord(gathered.value, signer);
    }

    /** The signed record of a collected segment. */
    method DraftRecord(g: Ledger.Gathered, signer: Signer) returns (plan: Ledger.Plan)
      requires sealedThrough < seqNo && |g.leaves| <= TWO63
      ensures plan == Ledger.PlanRecord(env, State().mem, g, signer)
    {
      hide Mth, SignRecord, EncodeHash;
      var startSeq, endSeq := sealedThrough + 1, seqNo;
      if |g.leaves| != endSeq - startSeq + 1 {
        return Ledger.Refuse(BoundsMismatch);
      }
      if !g.hasNonSeal {
        return Ledger.NothingToSeal;
      }
      if signer.publicKey.None? {
        return Ledger.Refuse(AnchorFailed);
      }
      var root := ComputeMth(env.TreeHasher(), g.leaves);
      var draft := SealRecord(sealsSeen, startSeq, endSeq, EncodeHash(g.leaves[|g.leaves| - 1]), EncodeHash(root),
                              g.revealed, g.prevSeal, signer.scheme, signer.publicKey.value, [], []);
      var signed := SignRecord(draft, signer);
      if signed.None? {
        return Ledger.Refuse(AnchorFailed);
      }
      if sealsSeen == U64_MAX {
        return Ledger.Refuse(ArithmeticOverflow);
      }
      return Ledger.Write(signed.value);
    }

    /** Close the open segment: the signed record is the first entry of the next one. */
    method Seal(signer: Signer, ts: u64) returns (r: Result<Option<u64>, Error>)
      requires |log| <= TWO63
      modifies this
      ensures (State(), r) == Ledger.Seal(env, old(State()), signer, ts)
    {
      hide Ledger.Append, Ledger.PlanSeal;
      var plan := DraftSeal(signer);
      if plan.Refuse? {
        return Err(plan.error);
      }
      if plan.NothingToSeal? {
        return Ok(None);
      }
      var record := plan.record;
      PlanFits(signer);
      sealsSeen := sealsSeen + 1;
      sealedThrough := seqNo;
      var appended := Append(SEAL_EVENT, env.renderSeal(record), ts);
      if appended.Err? {
        return Err(appended.error);
      }
      if record.segment == 0 && legacySegment0 {
        revealedEpochs := revealedEpochs + record.revealed.Keys;
      }
      return Ok(Some(appended.value));
    }

    lemma PlanFits(signer: Signer)
      requires Ledger.PlanSeal(env, State(), signer).Write?
      ensures sealsSeen < U64_MAX
    {
      hide Ledger.Gather, Ledger.InRange, Mth, SignRecord;
    }

    /** The entries of a range of sequence numbers, in one pass over the whole file. */
    method GatherSegment(startSeq: u64, endSeq: u64) returns (r: Result<Ledger.Gathered, Error>)
      ensures r == Ledger.Gather(env, keys, sealsSeen, Ledger.WriteVersion(State().mem),
                                 Ledger.InRange(log, startSeq, endSeq))
    {
      hide Ledger.Gather, Ledger.InRange, DecodeHash, EncodeHash, EntryKey;
      var segV := if sealsSeen == 0 && legacySegment0 then 2 else FORMAT_VERSION;
      var g := Ledger.Gathered([], map[], [], false);
      EmptyGather(segV, startSeq, endSeq);
      assert log[..0] == [] && log[..|log|] == log;
      for i := 0 to |log|
        invariant Ledger.Gather(env, keys, sealsSeen, segV, Ledger.InRange(log[..i], startSeq, endSeq)) == Ok(g)
      {
        var event := log[i];
        TakeSnoc(log, i);
        Ledger.InRangeSnoc(log[..i], event, startSeq, endSeq);
        if event.seqNo < startSeq || event.seqNo > endSeq {
          assert Ledger.InRange(log[..i], startSeq, endSeq) + [] == Ledger.InRange(log[..i], startSeq, endSeq);
          continue;
        }
        ghost var before := Ledger.InRange(log[..i], startSeq, endSeq);
        Ledger.GatherSnoc(env, keys, sealsSeen, segV, before, event);
        if Ledger.Gather(env, keys, sealsSeen, segV, Ledger.InRange(log[..i + 1], startSeq, endSeq)).Err? {
          Ledger.GatherPrefix(env, keys, sealsSeen, segV, log, i + 1, startSeq, endSeq);
        }
        if event.eventType == SEAL_EVENT {
          g := g.(prevSeal := event.hash);
        } else {
          g := g.(hasNonSeal := true);
        }
        var leaf := DecodeHash(event.hash);
        if leaf.None? {
          return Err(BadStoredHash);
        }
        g := g.(leaves := g.leaves + [leaf.value]);
        if event.epoch !in g.revealed {
          var key := EntryKey(env, keys, event.epoch, sealsSeen, segV);
          if key.None? {
            return Err(MissingKey(event.epoch));
          }
          g := g.(revealed := g.revealed[event.epoch := EncodeHash(key.value)]);
        }
      }
      return Ok(g);
    }

    lemma EmptyGather(v: u32, lo: nat, hi: nat)
      ensures Ledger.Gather(env, keys, sealsSeen, v, Ledger.InRange([], lo, hi)) == Ok(Ledger.Gathered([], map[], [], false))
    {
    }

    /** No more leaves are collected than the file has entries. */
    lemma GatheredLength(lo: nat, hi: nat, g: Ledger.Gathered)
      requires Ledger.Gather(env, keys, sealsSeen, Ledger.WriteVersion(State().mem), Ledger.InRange(log, lo, hi)) == Ok(g)
      ensures |g.leaves| <= |log|
    {
      hide Ledger.Gather, Ledger.InRange;
      Ledger.InRangeLength(log, lo, hi);
      Ledger.GatherLength(env, keys, sealsSeen, Ledger.WriteVersion(State().mem), Ledger.InRange(log, lo, hi));
    }

    /** Check the whole file again with the keyring, and every seal's revealed keys. */
    method Verify() returns (r: Result<(), Error>)
      ensures var v := LedgerScan.Verify(env, keys, log);
              r == if v.Ok? then Ok(()) else Err(v.error.error)
    {
      hide LedgerScan.Verify, EntryKey, EventHash, EncodeHash, DecodeHash, SealFault;
      var lastHash, sealsSeen, seg0HadLegacy := ZERO_DIGEST, 0, false;
      EmptyVerify();
      assert log[..0] == [] && log[..|log|] == log;
      for idx := 0 to |log|
        invariant LedgerScan.Verify(env, keys, log[..idx]) == Ok(Pass(lastHash, sealsSeen, seg0HadLegacy))
        invariant 0 <= sealsSeen <= U64_MAX
      {
        var event := log[idx];
        TakeSnoc(log, idx);
        VerifySnoc(env, keys, log[..idx], event);
        if LedgerScan.Verify(env, keys, log[..idx + 1]).Err? { VerifySticks(env, keys, log, idx + 1); }
        var isSeal := event.eventType == SEAL_EVENT;
        if sealsSeen == 0 && event.v < 3 {
          seg0HadLegacy := true;
        }
        if isSeal {
          if sealsSeen == U64_MAX {
            return Err(ArithmeticOverflow);
          }
          sealsSeen := sealsSeen + 1;
        }
        var key := EntryKey(env, keys, event.epoch, sealsSeen, event.v);
        if key.None? {
          return Err(MissingKey(event.epoch));
        }
        var prevHash := DecodeHash(event.prevHash);
        if prevHash.None? {
          return Err(InvalidLine(idx));
        }
        if prevHash.value != lastHash || event.seqNo != idx + 1 {
          return Err(BrokenChain(idx));
        }
        var expected := EventHash(env, event, lastHash, key.value);
        if expected.None? {
          return Err(UnsupportedVersion(event.v));
        }
        if event.hash != EncodeHash(expected.value) {
          return Err(BrokenChain(idx));
        }
        lastHash := expected.value;
        if isSeal {
          var fault := CheckReveals(event, seg0HadLegacy, idx);
          if fault.Some? {
            return Err(fault.value);
          }
        }
      }
      return Ok(());
    }

    lemma EmptyVerify()
      ensures LedgerScan.Verify(env, keys, []) == Ok(Pass(ZERO_DIGEST, 0, false))
    {
    }

    /** A seal must disclose the right key for every epoch it lists. */
    method CheckReveals(event: Event, seg0HadLegacy: bool, idx: nat) returns (fault: Option<Error>)
      ensures fault == SealFault(env, keys, event, seg0HadLegacy, idx)
    {
      var parsed := env.parseSeal(event.body);
      if parsed.None? {
        return Some(InvalidLine(idx));
      }
      hide DecodeHash, SegmentKey, SortedKeys;
      var record := parsed.value;
      var epochs := SortedKeys(record.revealed.Keys);
      for i := 0 to |epochs|
        invariant RevealFault(env, keys, record, seg0HadLegacy, epochs, idx)
                  == RevealFault(env, keys, record, seg0HadLegacy, epochs[i..], idx)
      {
        var e := epochs[i];
        assert epochs[i..][0] == e && epochs[i..][1..] == epochs[i + 1..];
        if e >= |keys| {
          return Some(MissingKey(e));
        }
        var expected := if record.segment == 0 && seg0HadLegacy then keys[e] else SegmentKey(env, keys[e], record.segment);
        if DecodeHash(record.revealed[e]) != Some(expected) {
          return Some(WrongReveal(idx, e));
        }
      }
      return None;
    }

    // ----- Merkle proofs over the file -----

    /** The stored hashes of all entries; a hash that does not decode is an error. */
    method LeafHashes() returns (r: Result<seq<Digest>, Error>)
      ensures r.Ok? <==> forall i :: 0 <= i < |log| ==> DecodeHash(log[i].hash).Some?
      ensures r.Ok? ==> r.value == Leaves(log)
    {
      hide DecodeHash, Leaves, SealCount, SegmentStart, PrevSealHash, Anchor, Tip;
      var out := [];
      NoLeaves(log);
      for i := 0 to |log|
        invariant out == Leaves(log[..i])
        invariant forall j :: 0 <= j < i ==> DecodeHash(log[j].hash).Some?
      {
        var leaf := DecodeHash(log[i].hash);
        if leaf.None? {
          return Err(BadStoredHash);
        }
        TakeSnoc(log, i);
        Snoc(env, log[..i], log[i]);
        out := out + [leaf.value];
      }
      return Ok(out);
    }

    lemma NoLeaves(log: seq<Event>)
      ensures Leaves(log[..0]) == [] && log[..|log|] == log
    {
    }

    method MerkleRoot() returns (r: Result<Digest, Error>)
      requires |log| <= TWO63
      ensures r.Ok? ==> r.value == LedgerProofs.RootOf(env, log)
      ensures r.Ok? <==> forall i :: 0 <= i < |log| ==> DecodeHash(log[i].hash).Some?
    {
      hide DecodeHash, Mth, Leaves;
      var leaves := LeafHashes();
      if leaves.Err? {
        return Err(leaves.error);
      }
      var root := ComputeMth(env.TreeHasher(), leaves.value);
      return Ok(root);
    }

    /** The proof for an entry convinces anyone who holds the root; numbers outside the file have none. */
    method ProveInclusion(number: u64) returns (r: Result<Inclusion.InclusionProof, Error>)
      requires |log| <= TWO63
      ensures r.Ok? ==> 0 < number <= |log| && r.value == LedgerProofs.InclusionOf(env, log, number)
      ensures r.Ok? ==> r.value.Proves(env.TreeHasher(), Decoded(log[number - 1].hash), LedgerProofs.RootOf(env, log))
      ensures r.Ok? <==> 0 < number <= |log| && forall i :: 0 <= i < |log| ==> DecodeHash(log[i].hash).Some?
    {
      hide DecodeHash, Mth, Leaves, AuditPath, Decoded, Inclusion.InclusionProof.Proves;
      var leaves := LeafHashes();
      if leaves.Err? {
        return Err(leaves.error);
      }
      if number == 0 || number > |leaves.value| {
        return Err(NoSuchProof);
      }
      var path := ComputeAuditPath(env.TreeHasher(), number - 1, leaves.value);
      LedgerProofs.EveryEntryIsIncluded(env, log, number);
      return Ok(Inclusion.InclusionProof(number - 1, |leaves.value|, path));
    }

    /** The proof from an old size convinces anyone who holds the root of that prefix and the current root. */
    method ProveConsistency(oldSize: u64) returns (r: Result<Consistency.ConsistencyProof, Error>)
      requires |log| <= TWO63
      ensures r.Ok? ==> oldSize <= |log| && r.value == LedgerProofs.ConsistencyOf(env, log, oldSize)
      ensures r.Ok? ==>
                r.value.Proves(env.TreeHasher(), LedgerProofs.RootOf(env, log[..oldSize]), LedgerProofs.RootOf(env, log))
      ensures r.Ok? <==> oldSize <= |log| && forall i :: 0 <= i < |log| ==> DecodeHash(log[i].hash).Some?
    {
      hide DecodeHash, Mth, Leaves, ConsistencyNodes, Consistency.ConsistencyProof.Proves;
      var leaves := LeafHashes();
      if leaves.Err? {
        return Err(leaves.error);
      }
      if oldSize > |leaves.value| {
        return Err(NoSuchProof);
      }
      var nodes := ComputeConsistencyNodes(env.TreeHasher(), oldSize, leaves.value);
      LedgerProofs.LeavesPrefix(log[..oldSize], log);
      Consistency.ConsistencyComplete(env.TreeHasher(), oldSize, leaves.value);
      return Ok(Consistency.ConsistencyProof(oldSize, |leaves.value|, nodes));
    }

    // ----- flags -----

    /**
     * True exactly when a handle that can write has its appends refused for the published epoch; then the
     * base key it would write under is shown in the file.
     */
    method NeedsRotation() returns (b: bool)
      ensures b ==> forall eventType: Bytes, body: Bytes, ts: u64 ::
                      Ledger.Append(env, State(), eventType, body, ts).1.Err?
      ensures !compromised && !readOnly ==>
                (b <==> forall eventType: Bytes, body: Bytes, ts: u64 ::
                          Ledger.Append(env, State(), eventType, body, ts).1 == Err(EpochPublished(epoch)))
      ensures forall signer: Signer :: b && LedgerInvariant.Inv(env, signer, State()) ==>
                epoch < |keys| && LedgerKeys.Shown(env, log, keys[epoch])
    {
      hide Ledger.NextEvent, LedgerInvariant.Inv, LedgerKeys.Shown;
      b := epoch in revealedEpochs;
      assert !b ==> Ledger.Append(env, State(), [], [], 0).1 != Err(EpochPublished(epoch));
      forall signer: Signer | b && LedgerInvariant.Inv(env, signer, State())
        ensures epoch < |keys| && LedgerKeys.Shown(env, log, keys[epoch])
      {
        LedgerKeys.PublishedBaseIsShown(env, signer, State(), epoch);
      }
    }

    method MarkReadonly()
      modifies this
      ensures State() == old(State()).(readOnly := true)
    {
      readOnly := true;
    }

    method MarkCompromised()
      modifies this
      ensures State() == old(State()).(mem := old(State()).mem.(compromised := true))
    {
      compromised := true;
    }
  }
}
