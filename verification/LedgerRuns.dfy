/**
 * Whole runs of a ledger: any interleaving of successful appends, rotations, seals and reopenings under one
 * signer, from an empty file or a valid file written before sealing existed.
 */
module LedgerRuns {
  import opened Basics
  import opened Hex
  import opened SealRecords
  import opened Events
  import opened Segments
  import PublicVerify
  import opened LedgerScan
  import opened Ledger
  import opened LedgerInvariant
  import opened LedgerSealing

  datatype Op =
    | AppendOp(eventType: Bytes, body: Bytes, ts: u64)
    | RotateOp(seed: Bytes, ts: u64)
    | SealOp(ts: u64)
    | ReopenOp

  /** The state after a call that succeeds; `None` is a refused call, or an append of the reserved type. */
  function Exec(env: Env, signer: Signer, s: State, op: Op): Option<State> {
    match op
    case AppendOp(eventType, body, ts) =>
      var (s', r) := Append(env, s, eventType, body, ts);
      if eventType != SEAL_EVENT && r.Ok? then Some(s') else None
    case RotateOp(seed, ts) =>
      var (s', r) := Rotate(env, s, seed, ts);
      if r.Ok? then Some(s') else None
    case SealOp(ts) =>
      var (s', r) := Seal(env, s, signer, ts);
      if r.Ok? then Some(s') else None
    case ReopenOp =>
      var (s', r) := Reopen(env, s);
      if r.Ok? then Some(s') else None
  }

  function Run(env: Env, signer: Signer, s: State, ops: seq<Op>): Option<State>
    decreases |ops|
  {
    if ops == [] then Some(s)
    else
      var s' := Exec(env, signer, s, ops[0]);
      if s'.None? then None else Run(env, signer, s'.value, ops[1..])
  }

  // ----- where a run may start -----

  /** A file that opens uncompromised and is empty, or holds only entries of versions 1 and 2 and no seal. */
  predicate Start(env: Env, s: State) {
    && Clean(Open(env, s.keys, s.log)) && s.mem == Open(env, s.keys, s.log).value.mem
    && forall i :: 0 <= i < |s.log| ==> !IsSeal(s.log[i]) && s.log[i].v < 3
  }

  lemma {:induction false} SealFree(env: Env, log: seq<Event>)
    requires forall i :: 0 <= i < |log| ==> !IsSeal(log[i])
    ensures SealCount(log) == 0 && SegmentStart(log) == 0 && Anchor(env, log) == None
  {
    hide IsSeal;
    if log != [] { SealFree(env, log[..|log| - 1]); }
  }

  /** What a clean file without seals gives every reader. */
  ghost predicate SealFreeFacts(env: Env, keys: seq<Digest>, log: seq<Event>) {
    && Verify(env, keys, log).Ok? && PublicVerify.PublicOk(env, log) && History(env, keys, true, log)
    && Clean(Open(env, keys, log))
    && var mem := Open(env, keys, log).value.mem;
       mem.legacySegment0 == (log != []) && mem.sealedThrough == 0 && mem.revealedEpochs == {}
       && (log != [] ==> mem.epoch in Epochs(log))
  }

  /** A clean file of old entries without seals verifies, with and without keys. */
  lemma {:induction false} SealFreeSound(env: Env, keys: seq<Digest>, log: seq<Event>)
    requires Clean(Open(env, keys, log)) && forall i :: 0 <= i < |log| ==> !IsSeal(log[i]) && log[i].v < 3
    ensures SealFreeFacts(env, keys, log)
  {
    if log != [] {
      hide Open, SealFreeFacts, IsSeal, KeyedAuthentic, SealCount, SegmentOf;
      var (before, e) := (log[..|log| - 1], log[|log| - 1]);
      assert log == before + [e];
      CleanCounts(env, keys, log);
      SealFreeSound(env, keys, before);
      SealFree(env, before);
      SealFree(env, log);
      SealFreeStep(env, keys, log, before, e);
    }
  }

  lemma SealFreeStep(env: Env, keys: seq<Digest>, log: seq<Event>, before: seq<Event>, e: Event)
    requires log == before + [e] && SealFreeFacts(env, keys, before) && SealCount(before) == 0
    requires KeyedAuthentic(env, keys, before, e, 0) && !IsSeal(e) && e.v < 3
    ensures SealFreeFacts(env, keys, log)
  {
    hide Open, Verify, History, PublicVerify.PublicOk, Epochs, KeyedAuthentic, SealCount, IsSeal;
    SealFreeRecords(env, keys, before, e);
    SealFreeScan(env, keys, before, e);
    EpochsSnoc(before, e);
  }

  lemma SealFreeScan(env: Env, keys: seq<Digest>, before: seq<Event>, e: Event)
    requires Clean(Open(env, keys, before)) && SealCount(before) == 0
    requires KeyedAuthentic(env, keys, before, e, 0) && !IsSeal(e) && e.v < 3
    ensures Clean(Open(env, keys, before + [e]))
    ensures var (mem, mem') := (Open(env, keys, before).value.mem, Open(env, keys, before + [e]).value.mem);
            && mem'.legacySegment0 && mem'.sealedThrough == mem.sealedThrough
            && mem'.revealedEpochs == mem.revealedEpochs
            && mem'.epoch == Max(mem.epoch, e.epoch) && (before == [] ==> mem.epoch == 0)
  {
    hide Open, KeyedAuthentic, SealCount, Decoded, IsSeal, Count;
    FirstSegment(before, e);
    OpenGrows(env, keys, before, e);
    CleanCounts(env, keys, before);
    if before == [] { EmptyScan(env, keys); }
    PlainCount(env, Open(env, keys, before).value, e);
  }

  lemma PlainCount(env: Env, st: Scan, e: Event)
    requires st.mem.sealsSeen == 0 && !IsSeal(e) && e.v < 3
    ensures Count(env, st, e).Some? && Count(env, st, e).value.mem == st.mem.(legacySegment0 := true)
  {
    hide IsSeal;
  }

  lemma EmptyScan(env: Env, keys: seq<Digest>)
    ensures Open(env, keys, []) == Ok(FRESH_SCAN)
  {
  }

  lemma SealFreeRecords(env: Env, keys: seq<Digest>, before: seq<Event>, e: Event)
    requires SealFreeFacts(env, keys, before) && SealCount(before) == 0
    requires KeyedAuthentic(env, keys, before, e, 0) && !IsSeal(e) && e.v < 3
    ensures Verify(env, keys, before + [e]).Ok? && PublicVerify.PublicOk(env, before + [e])
    ensures History(env, keys, true, before + [e])
  {
    hide Open, Verify, History, KeyedAuthentic, SealCount, Tip, Decoded, PublicVerify.PublicOk, IsSeal;
    FirstSegment(before, e);
    PassesAgree(env, keys, before);
    VerifyGrows(env, keys, before, e, true);
    PlainIsPublic(env, keys, before, e, 0);
    HistorySnoc(env, keys, true, before, e);
  }

  lemma FirstSegment(before: seq<Event>, e: Event)
    requires SealCount(before) == 0 && !IsSeal(e)
    ensures SegmentOf(before, e) == 0
  {
  }

  /** The invariant holds where a run starts. */
  lemma StartIsSound(env: Env, signer: Signer, s: State)
    requires Start(env, s)
    ensures Inv(env, signer, s)
  {
    hide Open, Verify, History, SealCount, SegmentStart, Anchor, PublicVerify.PublicOk, IsSeal, Epochs;
    SealFreeSound(env, s.keys, s.log);
    SealFree(env, s.log);
    if s.log == [] {
      EmptyHistory(env, s.keys);
    }
  }

  lemma EmptyHistory(env: Env, keys: seq<Digest>)
    ensures History(env, keys, false, [])
  {
  }

  // ----- every successful step keeps the invariant -----

  /** A state that keeps the invariant is ready for one more entry. */
  lemma InvIsReady(env: Env, signer: Signer, s: State)
    requires Inv(env, signer, s)
    ensures Ready(env, signer, s, s.mem.epoch)
  {
    hide Sound, Epochs;
    assert s.mem.(epoch := s.mem.epoch) == s.mem;
  }

  lemma AppendKeeps(env: Env, signer: Signer, s: State, eventType: Bytes, body: Bytes, ts: u64)
    requires Inv(env, signer, s) && eventType != SEAL_EVENT && Append(env, s, eventType, body, ts).1.Ok?
    ensures Inv(env, signer, Append(env, s, eventType, body, ts).0)
  {
    hide Inv, Ready, NextEvent, Extend;
    InvIsReady(env, signer, s);
    PlainKeeps(env, signer, s, s.mem.epoch, eventType, body, ts);
  }

  /** An announced rotation leaves the file as sound as it was, under the longer ring. */
  lemma RotatedIsReady(env: Env, signer: Signer, s: State, seed: Bytes)
    requires Inv(env, signer, s) && s.mem.epoch < U32_MAX
    ensures Ready(env, signer, Rotated(env, s, seed), s.mem.epoch)
  {
    hide Open, Verify, History, SegmentStart, SignedBy, PublicVerify.PublicOk, RemembersPublished, Epochs, BaseKey;
    var s' := Rotated(env, s, seed);
    MoreKeys(env, s.keys, s'.keys, s.log);
    MoreKeysVerify(env, s.keys, s'.keys, s.log);
    HistoryMoreKeys(env, s.keys, s'.keys, s.mem.legacySegment0, s.log);
    assert s'.mem.(epoch := s.mem.epoch) == s.mem;
  }

  lemma RotateKeeps(env: Env, signer: Signer, s: State, seed: Bytes, ts: u64)
    requires Inv(env, signer, s) && Rotate(env, s, seed, ts).1.Ok?
    ensures Inv(env, signer, Rotate(env, s, seed, ts).0)
  {
    hide Inv, Ready, NextEvent, Extend, Rotated, RotationBody;
    RotatedIsReady(env, signer, s, seed);
    PlainKeeps(env, signer, Rotated(env, s, seed), s.mem.epoch, KEY_ROTATION_EVENT,
               RotationBody(Rotated(env, s, seed).mem.epoch), ts);
  }

  /** The entry a seal call writes is the seal of its planned record. */
  lemma SealEntryWritten(env: Env, signer: Signer, s: State, r: SealRecord, ts: u64)
    requires Inv(env, signer, s) && env.Faithful() && s.mem.sealsSeen < U64_MAX
    requires AppendRefusal(env, Opened(s)).None?
    ensures SealEntry(env, s, r, NextEvent(env, Opened(s), SEAL_EVENT, env.renderSeal(r), ts))
  {
    hide Open, Verify, History, SegmentStart, SignedBy, PublicVerify.PublicOk, RemembersPublished, KeyedAuthentic,
         EncodeHash, EventHashV2, EntryKey, Tip, SealCount, Epochs;
    CleanCounts(env, s.keys, s.log);
    NextIsAuthentic(env, Opened(s), SEAL_EVENT, env.renderSeal(r), ts);
  }

  /** A seal call that writes adds one entry and may publish. */
  lemma SealResult(env: Env, s: State, signer: Signer, ts: u64, r: SealRecord)
    requires PlanSeal(env, s, signer) == Write(r) && Seal(env, s, signer, ts).1.Ok?
    ensures AppendRefusal(env, Opened(s)).None?
    ensures Seal(env, s, signer, ts).0
            == Published(Extend(Opened(s), NextEvent(env, Opened(s), SEAL_EVENT, env.renderSeal(r), ts)), r)
    ensures Seal(env, s, signer, ts).0.log == s.log + [NextEvent(env, Opened(s), SEAL_EVENT, env.renderSeal(r), ts)]
    ensures Seal(env, s, signer, ts).0.keys == s.keys
  {
    hide PlanSeal, AppendRefusal, NextEvent;
  }

  lemma UnwrittenSeal(env: Env, s: State, signer: Signer, ts: u64)
    requires !PlanSeal(env, s, signer).Write?
    ensures Seal(env, s, signer, ts).0 == s
  {
    hide PlanSeal;
  }

  lemma SealCallKeeps(env: Env, signer: Signer, s: State, ts: u64)
    requires Inv(env, signer, s) && env.Faithful() && env.Genuine(signer) && Seal(env, s, signer, ts).1.Ok?
    ensures Inv(env, signer, Seal(env, s, signer, ts).0)
  {
    hide Inv, Planned, SealEntry, NextEvent, Extend, Opened, Published, PlanSeal, AppendRefusal, Seal;
    var plan := PlanSeal(env, s, signer);
    if plan.Write? {
      PlanIsPlanned(env, signer, s);
      PlannedFits(env, s, signer, plan.record);
      SealResult(env, s, signer, ts, plan.record);
      SealEntryWritten(env, signer, s, plan.record, ts);
      SealKeeps(env, signer, s, plan.record, NextEvent(env, Opened(s), SEAL_EVENT, env.renderSeal(plan.record), ts));
    } else {
      UnwrittenSeal(env, s, signer, ts);
    }
  }

  lemma PlannedFits(env: Env, s: State, signer: Signer, r: SealRecord)
    requires Planned(env, s, signer, r)
    ensures s.mem.sealsSeen < U64_MAX
  {
  }

  /** Reopening finds every field as it was. */
  lemma ReopenKeeps(env: Env, signer: Signer, s: State)
    requires Inv(env, signer, s)
    ensures Reopen(env, s) == (s.(readOnly := false), Ok(()))
    ensures Inv(env, signer, s.(readOnly := false))
  {
    hide Open, Verify, History, SegmentStart, SignedBy, PublicVerify.PublicOk, RemembersPublished, Epochs;
  }

  lemma StepKeeps(env: Env, signer: Signer, s: State, op: Op)
    requires Inv(env, signer, s) && env.Faithful() && env.Genuine(signer) && Exec(env, signer, s, op).Some?
    ensures Inv(env, signer, Exec(env, signer, s, op).value)
  {
    hide Inv, Append, Rotate, Seal, Reopen;
    match op
    case AppendOp(eventType, body, ts) => AppendKeeps(env, signer, s, eventType, body, ts);
    case RotateOp(seed, ts) => RotateKeeps(env, signer, s, seed, ts);
    case SealOp(ts) => SealCallKeeps(env, signer, s, ts);
    case ReopenOp => ReopenKeeps(env, signer, s);
  }

  lemma {:induction false} RunKeeps(env: Env, signer: Signer, s: State, ops: seq<Op>)
    requires Inv(env, signer, s) && env.Faithful() && env.Genuine(signer) && Run(env, signer, s, ops).Some?
    ensures Inv(env, signer, Run(env, signer, s, ops).value)
    decreases |ops|
  {
    hide Inv, Exec;
    if ops != [] {
      StepKeeps(env, signer, s, ops[0]);
      RunKeeps(env, signer, Exec(env, signer, s, ops[0]).value, ops[1..]);
    }
  }

  // ----- a published epoch -----

  /** While the current epoch is published, the open segment holds nothing but the seal that published it. */
  predicate Idle(s: State) {
    s.mem.epoch in s.mem.revealedEpochs ==> !HasNew(s.log)
  }

  lemma SealedIsIdle(log: seq<Event>, e: Event)
    requires IsSeal(e)
    ensures !HasNew(log + [e])
  {
    hide SegmentStart;
    SegmentsSnoc(log, e);
  }

  lemma StepKeepsIdle(env: Env, signer: Signer, s: State, op: Op)
    requires Inv(env, signer, s) && Idle(s) && Exec(env, signer, s, op).Some?
    ensures Idle(Exec(env, signer, s, op).value)
  {
    hide Inv, NextEvent, PlanSeal, HasNew, RotationBody, Open, BaseKey;
    match op
    case SealOp(ts) =>
      var plan := PlanSeal(env, s, signer);
      if plan.Write? {
        SealResult(env, s, signer, ts, plan.record);
        TypeOfNext(env, Opened(s), SEAL_EVENT, env.renderSeal(plan.record), ts);
        SealedIsIdle(s.log, NextEvent(env, Opened(s), SEAL_EVENT, env.renderSeal(plan.record), ts));
      } else {
        UnwrittenSeal(env, s, signer, ts);
      }
    case ReopenOp => ReopenKeeps(env, signer, s);
    case _ =>
  }

  lemma StartIsIdle(env: Env, s: State)
    requires Start(env, s)
    ensures Idle(s)
  {
    hide Open, Verify, History, IsSeal, HasNew, PublicVerify.PublicOk;
    SealFreeSound(env, s.keys, s.log);
  }

  /** In every state a run reaches, a published epoch has nothing to seal. */
  lemma {:induction false} RunKeepsIdle(env: Env, signer: Signer, s: State, ops: seq<Op>)
    requires Inv(env, signer, s) && env.Faithful() && env.Genuine(signer) && Run(env, signer, s, ops).Some?
    requires Idle(s)
    ensures Idle(Run(env, signer, s, ops).value)
    decreases |ops|
  {
    hide Inv, Exec, Idle;
    if ops != [] {
      StepKeeps(env, signer, s, ops[0]);
      StepKeepsIdle(env, signer, s, ops[0]);
      RunKeepsIdle(env, signer, Exec(env, signer, s, ops[0]).value, ops[1..]);
    }
  }

  /** With the epoch published only reopening and idle seal calls succeed. */
  lemma FrozenStep(env: Env, signer: Signer, s: State, op: Op)
    requires Inv(env, signer, s) && Idle(s) && s.mem.epoch in s.mem.revealedEpochs
    requires Exec(env, signer, s, op).Some? && !op.RotateOp?
    ensures Exec(env, signer, s, op).value == s.(readOnly := Exec(env, signer, s, op).value.readOnly)
  {
    hide Inv, PlanSeal, NextEvent, HasNew, Open, CanSign;
    match op
    case AppendOp(_, _, _) =>
    case SealOp(ts) =>
      SealDecision(env, signer, s);
      UnwrittenSeal(env, s, signer, ts);
    case ReopenOp => ReopenKeeps(env, signer, s);
  }

  lemma {:induction false} FrozenRun(env: Env, signer: Signer, s: State, ops: seq<Op>)
    requires Inv(env, signer, s) && Idle(s) && s.mem.epoch in s.mem.revealedEpochs
    requires env.Faithful() && env.Genuine(signer) && Run(env, signer, s, ops).Some?
    requires forall i :: 0 <= i < |ops| ==> !ops[i].RotateOp?
    ensures Run(env, signer, s, ops).value == s.(readOnly := Run(env, signer, s, ops).value.readOnly)
    decreases |ops|
  {
    hide Inv, Exec, Idle;
    if ops != [] {
      StepKeeps(env, signer, s, ops[0]);
      StepKeepsIdle(env, signer, s, ops[0]);
      FrozenStep(env, signer, s, ops[0]);
      FrozenRun(env, signer, Exec(env, signer, s, ops[0]).value, ops[1..]);
    }
  }

  /**
   * Once a run has published its current epoch, nothing is written until a rotation: every further run
   * without one leaves file, ring and fields as they are, and the epoch stays published.
   */
  lemma PublishedEpochFreezesFile(env: Env, signer: Signer, start: State, first: seq<Op>, second: seq<Op>)
    requires Start(env, start) && env.Faithful() && env.Genuine(signer) && Run(env, signer, start, first).Some?
    requires var s := Run(env, signer, start, first).value;
             s.mem.epoch in s.mem.revealedEpochs && Run(env, signer, s, second).Some?
    requires forall i :: 0 <= i < |second| ==> !second[i].RotateOp?
    ensures var s := Run(env, signer, start, first).value;
            var end := Run(env, signer, s, second).value;
            end.log == s.log && end.keys == s.keys && end.mem == s.mem
  {
    hide *;
    StartIsSound(env, signer, start);
    StartIsIdle(env, start);
    RunKeeps(env, signer, start, first);
    RunKeepsIdle(env, signer, start, first);
    FrozenRun(env, signer, Run(env, signer, start, first).value, second);
  }

  // ----- what every run gives -----

  /** After any run the public verifier accepts the file and reports what the handle counts. */
  lemma RunIsPublic(env: Env, signer: Signer, s: State, ops: seq<Op>)
    requires Start(env, s) && env.Faithful() && env.Genuine(signer) && Run(env, signer, s, ops).Some?
    ensures var end := Run(env, signer, s, ops).value;
            && PublicVerify.PublicOk(env, end.log)
            && var report := PublicVerify.ReportOf(env, end.log);
               && report.segments == end.mem.sealsSeen
               && report.sealedEntries == end.mem.sealedThrough
               && report.sealedEntries + report.unsealedEntries == end.mem.seqNo
               && (report.anchor.Some? ==> signer.publicKey == Some(report.anchor.value.1)
                                           && report.anchor.value.0 == signer.scheme)
  {
    StartIsSound(env, signer, s);
    RunKeeps(env, signer, s, ops);
    var end := Run(env, signer, s, ops).value;
    InvReports(env, signer, end);
  }

  lemma InvReports(env: Env, signer: Signer, s: State)
    requires Inv(env, signer, s)
    ensures PublicVerify.PublicOk(env, s.log)
    ensures SealCount(s.log) == s.mem.sealsSeen && SegmentStart(s.log) == s.mem.sealedThrough
    ensures |s.log| == s.mem.seqNo && SignedBy(env, signer, s.log)
  {
    hide Open, Verify, History, SegmentStart, SignedBy, PublicVerify.PublicOk, RemembersPublished, Epochs, SealCount, Tip;
    CleanCounts(env, s.keys, s.log);
  }

  /** After any run the fields are what reopening the file gives, uncompromised, and keyed verification accepts it. */
  lemma RunIsFaithful(env: Env, signer: Signer, s: State, ops: seq<Op>)
    requires Start(env, s) && env.Faithful() && env.Genuine(signer) && Run(env, signer, s, ops).Some?
    ensures var end := Run(env, signer, s, ops).value;
            && Open(env, end.keys, end.log).Ok? && Open(env, end.keys, end.log).value.mem == end.mem
            && !end.mem.compromised && Verify(env, end.keys, end.log).Ok?
  {
    StartIsSound(env, signer, s);
    RunKeeps(env, signer, s, ops);
    hide Open, Verify, History, SegmentStart, SignedBy, PublicVerify.PublicOk, RemembersPublished, Epochs;
  }

  // ----- refused calls -----

  /** The fields are what a rescan of the file would give. */
  predicate Cached(env: Env, s: State) {
    var r := Open(env, s.keys, s.log);
    r.Ok? && r.value.mem == s.mem
  }

  lemma InvIsClean(env: Env, signer: Signer, s: State)
    requires Inv(env, signer, s)
    ensures Clean(Open(env, s.keys, s.log)) && Open(env, s.keys, s.log).value.mem == s.mem
  {
    hide Open, Verify, History, SegmentStart, SignedBy, PublicVerify.PublicOk, RemembersPublished, Epochs;
  }

  lemma InvIsCached(env: Env, signer: Signer, s: State)
    requires Inv(env, signer, s)
    ensures Cached(env, s)
  {
    hide Open, Verify, History, SegmentStart, SignedBy, PublicVerify.PublicOk, RemembersPublished, Epochs;
  }

  /** A rescan counts a seal that the handle did not count. */
  lemma UncountedSeal(env: Env, s: State, e: Event)
    requires Clean(Open(env, s.keys, s.log)) && Open(env, s.keys, s.log).value.mem == s.mem && IsSeal(e)
    ensures !Cached(env, Extend(s, e))
  {
    hide Open, CheckEntry, IsSeal, Decoded;
    OpenSnoc(env, s.keys, s.log, e);
  }

  /**
   * An append leaves the fields a faithful cache, refused or not, unless it is let through with the reserved
   * type: the handle does not count that entry as a seal, a rescan does.
   */
  lemma AppendCacheIff(env: Env, signer: Signer, s: State, eventType: Bytes, body: Bytes, ts: u64)
    requires Inv(env, signer, s)
    ensures Cached(env, Append(env, s, eventType, body, ts).0)
            <==> eventType != SEAL_EVENT || AppendRefusal(env, s).Some?
  {
    InvIsClean(env, signer, s);
    InvIsCached(env, signer, s);
    if AppendRefusal(env, s).None? {
      if eventType == SEAL_EVENT {
        TypeOfNext(env, s, eventType, body, ts);
        UncountedSeal(env, s, NextEvent(env, s, eventType, body, ts));
      } else {
        AppendKeeps(env, signer, s, eventType, body, ts);
        hide Inv, Cached, NextEvent, Extend, AppendRefusal;
        InvIsCached(env, signer, Append(env, s, eventType, body, ts).0);
      }
    }
  }

  lemma TypeOfNext(env: Env, s: State, eventType: Bytes, body: Bytes, ts: u64)
    requires AppendRefusal(env, s).None?
    ensures NextEvent(env, s, eventType, body, ts).eventType == eventType
  {
  }

  /** No epoch beyond the ring is ever current, except on an empty ring. */
  lemma {:induction false} EpochInRing(env: Env, keys: seq<Digest>, log: seq<Event>)
    requires Clean(Open(env, keys, log))
    ensures var epoch := Open(env, keys, log).value.mem.epoch;
            epoch < |keys| || (log == [] && epoch == 0)
  {
    if log != [] {
      hide EventHash, EncodeHash, DecodeHash, SegmentKey, Open, Count, Tip;
      var (before, e) := (log[..|log| - 1], log[|log| - 1]);
      assert log == before + [e];
      CleanCounts(env, keys, log);
      CleanSnoc(env, keys, before, e);
      EpochInRing(env, keys, before);
    }
  }

  /** When there is something to seal, only a read-only handle or the end of the numbering refuses the entry. */
  lemma OpenedRefusal(env: Env, signer: Signer, s: State)
    requires Inv(env, signer, s) && Idle(s) && HasNew(s.log)
    ensures s.mem.sealsSeen < U64_MAX
    ensures AppendRefusal(env, Opened(s)).Some? <==> s.readOnly || s.mem.seqNo == U64_MAX
  {
    hide Open, Verify, History, SegmentStart, SignedBy, PublicVerify.PublicOk, RemembersPublished, Epochs, SealCount;
    CleanCounts(env, s.keys, s.log);
    SealsStayBelow(env, s.log);
    EpochInRing(env, s.keys, s.log);
  }

  /**
   * A seal call leaves the fields a faithful cache unless there is something to seal, the signer signs it and
   * the handle then cannot write: it is read-only or at the end of the numbering.
   */
  lemma SealCacheIff(env: Env, signer: Signer, s: State, ts: u64)
    requires Inv(env, signer, s) && Idle(s) && env.Faithful() && env.Genuine(signer)
    ensures Cached(env, Seal(env, s, signer, ts).0)
            <==> !(HasNew(s.log) && CanSign(env, s, signer) && (s.readOnly || s.mem.seqNo == U64_MAX))
  {
    hide Inv, PlanSeal, NextEvent, Extend, AppendRefusal, HasNew, CanSign, Idle, Cached, Seal;
    InvIsCached(env, signer, s);
    SealDecision(env, signer, s);
    if HasNew(s.log) && CanSign(env, s, signer) {
      OpenedRefusal(env, signer, s);
      if AppendRefusal(env, Opened(s)).None? {
        WritableSeal(env, s, signer, ts);
        SealCallKeeps(env, signer, s, ts);
        InvIsCached(env, signer, Seal(env, s, signer, ts).0);
      } else {
        RefusedSeal(env, s, signer, ts);
        InvIsClean(env, signer, s);
        CountedAhead(env, s);
      }
    } else {
      UnwrittenSeal(env, s, signer, ts);
    }
  }

  lemma WritableSeal(env: Env, s: State, signer: Signer, ts: u64)
    requires PlanSeal(env, s, signer).Write? && AppendRefusal(env, Opened(s)).None?
    ensures Seal(env, s, signer, ts).1.Ok?
  {
    hide PlanSeal, AppendRefusal, NextEvent;
  }

  lemma RefusedSeal(env: Env, s: State, signer: Signer, ts: u64)
    requires PlanSeal(env, s, signer).Write? && AppendRefusal(env, Opened(s)).Some?
    ensures Seal(env, s, signer, ts).0 == Opened(s)
  {
    hide PlanSeal, AppendRefusal, Opened;
  }

  /** A handle that has counted a seal which is not in the file is no cache of it. */
  lemma CountedAhead(env: Env, s: State)
    requires Open(env, s.keys, s.log).Ok? && Open(env, s.keys, s.log).value.mem == s.mem && s.mem.sealsSeen < U64_MAX
    ensures !Cached(env, Opened(s))
  {
    hide Open;
  }

  /**
   * So does a rotation, unless the epoch moved and the handle then cannot write: it is read-only, at the end
   * of the numbering, or its ring was empty. At the end of the epochs only the ring grows.
   */
  lemma RotateCacheIff(env: Env, signer: Signer, s: State, seed: Bytes, ts: u64)
    requires Inv(env, signer, s)
    ensures Cached(env, Rotate(env, s, seed, ts).0)
            <==> !(s.mem.epoch < U32_MAX && (s.readOnly || s.mem.seqNo == U64_MAX || s.keys == []))
  {
    var (s', r) := Rotate(env, s, seed, ts);
    InvIsCached(env, signer, s);
    var ring := s.keys + [BaseKey(env, seed)];
    CleanRing(env, signer, s, ring);
    if s.mem.epoch < U32_MAX { RotatedRefusal(env, signer, s, seed); }
    if r.Ok? {
      RotateKeeps(env, signer, s, seed, ts);
      InvIsCached(env, signer, s');
    } else {
      hide Inv, NextEvent, Extend, AppendRefusal, Open, BaseKey, RotationBody;
    }
  }

  /** No epoch is revealed before it is used. */
  lemma {:induction false} RevealedAreUsed(env: Env, keys: seq<Digest>, log: seq<Event>, k: u32)
    requires Clean(Open(env, keys, log))
    requires k in Open(env, keys, log).value.mem.revealedEpochs || k in Open(env, keys, log).value.seg0Epochs
    ensures k <= Open(env, keys, log).value.mem.epoch
  {
    if log != [] {
      hide CheckEntry, Open, IsSeal;
      var (before, e) := (log[..|log| - 1], log[|log| - 1]);
      assert log == before + [e];
      CleanSnoc(env, keys, before, e);
      var st := Open(env, keys, before).value;
      if k in st.mem.revealedEpochs || k in st.seg0Epochs { RevealedAreUsed(env, keys, before, k); }
    }
  }

  /** An announced rotation has left the published epochs behind. */
  lemma RotatedRefusal(env: Env, signer: Signer, s: State, seed: Bytes)
    requires Inv(env, signer, s) && s.mem.epoch < U32_MAX
    ensures AppendRefusal(env, Rotated(env, s, seed)).Some? <==> s.readOnly || s.mem.seqNo == U64_MAX || s.keys == []
    ensures s.mem.epoch + 1 !in s.mem.revealedEpochs
  {
    hide Open, Verify, History, SegmentStart, SignedBy, PublicVerify.PublicOk, RemembersPublished, Epochs, BaseKey;
    EpochInRing(env, s.keys, s.log);
    if s.mem.epoch + 1 in s.mem.revealedEpochs { RevealedAreUsed(env, s.keys, s.log, s.mem.epoch + 1); }
  }

  lemma CleanRing(env: Env, signer: Signer, s: State, ring: seq<Digest>)
    requires Inv(env, signer, s) && s.keys <= ring
    ensures Open(env, ring, s.log) == Open(env, s.keys, s.log)
  {
    hide Open, Verify, History, SegmentStart, SignedBy, PublicVerify.PublicOk, RemembersPublished, Epochs;
    MoreKeys(env, s.keys, ring, s.log);
  }
}
