/** What each call leaves in the file: the caller's own arguments, the number it returns, and nothing on a flagged handle. */
module LedgerCalls {
  import opened Basics
  import opened Hex
  import opened SealRecords
  import SealPayloads
  import opened Events
  import opened Segments
  import PublicVerify
  import opened SealedPrefix
  import opened LedgerScan
  import opened Ledger
  import opened LedgerInvariant
  import opened LedgerSealing
  import opened LedgerRuns
  import opened LedgerKeys

  // ----- append -----

  /** The file has one more entry, with this type, body, time and epoch, and its place as its number. */
  ghost predicate Recorded(s: State, s': State, eventType: Bytes, body: Bytes, ts: u64, number: u64) {
    && |s'.log| == |s.log| + 1 == number && s'.log[..|s.log|] == s.log
    && var e := s'.log[number - 1];
       && e.eventType == eventType && e.body == body && e.ts == ts
       && e.epoch == s'.mem.epoch && e.seqNo == number
  }

  /**
   * A successful append returns the number of its entry, which is the new length of the file, and the entry
   * at that place records what the caller gave; the MAC it carries covers exactly that, after the old tip.
   */
  lemma AppendWrites(env: Env, signer: Signer, s: State, eventType: Bytes, body: Bytes, ts: u64)
    requires Inv(env, signer, s) && Append(env, s, eventType, body, ts).1.Ok?
    ensures var (s', r) := Append(env, s, eventType, body, ts);
            && r.value == |s'.log| == |s.log| + 1 && s'.log[..|s.log|] == s.log
            && var e := s'.log[r.value - 1];
               && e.eventType == eventType && e.body == body && e.ts == ts
               && e.epoch == s.mem.epoch && e.seqNo == r.value
               && DecodeHash(e.prevHash) == Some(Tip(s.log))
               && exists key :: DecodeHash(e.hash)
                                == Some(Mac(env, MacQuery(key, MacMessage(Tip(s.log), r.value, ts, eventType, body))))
                                && EntryKey(env, s.keys, s.mem.epoch, s.mem.sealsSeen, e.v) == Some(key)
    ensures var s' := Append(env, s, eventType, body, ts).0;
            && s'.keys == s.keys && s'.readOnly == s.readOnly
            && s'.mem == s.mem.(lastHash := s'.mem.lastHash, seqNo := s'.mem.seqNo)
  {
    hide Inv, AppendRefusal, EncodeHash, DecodeHash, MacMessage, EntryKey, Tip, NewEvent;
    InvIsHistory(env, signer, s);
    var e := NextEvent(env, s, eventType, body, ts);
    NextIs(env, s, eventType, body, ts, Tip(s.log));
    assert Append(env, s, eventType, body, ts).0.log == s.log + [e];
  }

  /** The next entry carries the MAC of what the caller gave. */
  lemma NextIs(env: Env, s: State, eventType: Bytes, body: Bytes, ts: u64, tip: Digest)
    requires AppendRefusal(env, s).None? && s.mem.lastHash == tip
    ensures var e := NextEvent(env, s, eventType, body, ts);
            && e.eventType == eventType && e.body == body && e.ts == ts
            && e.epoch == s.mem.epoch && e.seqNo == s.mem.seqNo + 1
            && DecodeHash(e.prevHash) == Some(tip)
            && exists key :: DecodeHash(e.hash)
                             == Some(Mac(env, MacQuery(key, MacMessage(tip, e.seqNo, ts, eventType, body))))
                             && EntryKey(env, s.keys, s.mem.epoch, s.mem.sealsSeen, e.v) == Some(key)
  {
    hide EncodeHash, DecodeHash, MacMessage, SegmentKey;
    HashRoundTrip(tip);
    var key := WriteKey(env, s);
    HashRoundTrip(Mac(env, MacQuery(key, MacMessage(tip, s.mem.seqNo + 1, ts, eventType, body))));
    assert EntryKey(env, s.keys, s.mem.epoch, s.mem.sealsSeen, WriteVersion(s.mem)) == Some(key);
  }

  /** What an entry written from a state whose numbering is right records. */
  lemma AppendedIsRecorded(env: Env, w: State, eventType: Bytes, body: Bytes, ts: u64)
    requires w.mem.seqNo == |w.log| && Append(env, w, eventType, body, ts).1.Ok?
    ensures var (s', r) := Append(env, w, eventType, body, ts);
            Recorded(w, s', eventType, body, ts, r.value) && s'.mem.epoch == w.mem.epoch
  {
    hide EncodeHash, DecodeHash, EventHashV2, SegmentKey, Tip;
  }

  // ----- rotation -----

  /** The body of a rotation entry reads back as the epoch it announces. */
  lemma RotationBodyReadsBack(epoch: u32)
    ensures var rest := SealPayloads.Strip(Ascii("{\"epoch\":"), RotationBody(epoch));
            rest.Some? && SealPayloads.ReadNumber(rest.value) == Some((epoch, Ascii("}")))
  {
    hide Decimal, SealPayloads.ReadNumber;
    assert RotationBody(epoch) == ROTATION_PREFIX + (Decimal(epoch) + [CLOSE]);
    SealPayloads.StripConcat(ROTATION_PREFIX, Decimal(epoch) + [CLOSE]);
    SealPayloads.NumberRoundTrip(epoch, [CLOSE]);
    assert Ascii("}") == [CLOSE];
  }

  /**
   * A successful rotation returns the new epoch and leaves one more entry, of the rotation type, in the new
   * epoch, whose body announces it.
   */
  lemma RotateWrites(env: Env, signer: Signer, s: State, seed: Bytes, ts: u64)
    requires Inv(env, signer, s) && Rotate(env, s, seed, ts).1.Ok?
    ensures var (s', r) := Rotate(env, s, seed, ts);
            && r.value == s.mem.epoch + 1 == s'.mem.epoch && s'.keys == s.keys + [BaseKey(env, seed)]
            && |s'.log| == |s.log| + 1 && s'.log[..|s.log|] == s.log
            && var e := s'.log[|s.log|];
               && e.eventType == Ascii("sovereign:key-rotation") && e.ts == ts
               && e.epoch == r.value && e.seqNo == |s'.log|
               && var rest := SealPayloads.Strip(Ascii("{\"epoch\":"), e.body);
                  rest.Some? && SealPayloads.ReadNumber(rest.value) == Some((r.value, Ascii("}")))
  {
    InvIsHistory(env, signer, s);
    hide Inv, History, RemembersPublished, Tip, SealCount, Append, RotationBody, BaseKey, Ascii, SealPayloads.Strip,
         SealPayloads.ReadNumber;
    RotatedNumbering(env, s, seed);
    var w := Rotated(env, s, seed);
    AppendedIsRecorded(env, w, KEY_ROTATION_EVENT, RotationBody(w.mem.epoch), ts);
    AppendKeepsKeys(env, w, KEY_ROTATION_EVENT, RotationBody(w.mem.epoch), ts);
    RotationBodyReadsBack(w.mem.epoch);
  }

  lemma RotatedNumbering(env: Env, s: State, seed: Bytes)
    requires s.mem.seqNo == |s.log|
    ensures Rotated(env, s, seed).mem.seqNo == |Rotated(env, s, seed).log|
    ensures Rotated(env, s, seed).log == s.log && Rotated(env, s, seed).keys == s.keys + [BaseKey(env, seed)]
  {
    hide BaseKey;
  }

  lemma AppendKeepsKeys(env: Env, s: State, eventType: Bytes, body: Bytes, ts: u64)
    ensures Append(env, s, eventType, body, ts).0.keys == s.keys
  {
    hide AppendRefusal, NextEvent;
  }

  // ----- sealing -----

  /**
   * A seal call that writes returns the number of its own entry: the last of the file, of the seal type, with
   * the caller's time and a record that ends just before it. All earlier entries are then publicly sealed.
   */
  lemma SealWrites(env: Env, signer: Signer, s: State, ts: u64)
    requires Inv(env, signer, s) && env.Faithful() && env.Genuine(signer)
    requires Seal(env, s, signer, ts).1.Ok? && Seal(env, s, signer, ts).1.value.Some?
    ensures var (s', r) := Seal(env, s, signer, ts);
            && r.value.value == |s'.log| == |s.log| + 1 && s'.log[..|s.log|] == s.log
            && var e := s'.log[|s.log|];
               && IsSeal(e) && e.ts == ts && e.epoch == s.mem.epoch && e.seqNo == |s'.log|
               && env.parseSeal(e.body).Some? && env.parseSeal(e.body).value.endSeq == |s.log|
    ensures var log := Seal(env, s, signer, ts).0.log;
            PublicVerify.PublicOk(env, log) && PublicVerify.ReportOf(env, log).sealedEntries == |s.log|
  {
    SealCallKeeps(env, signer, s, ts);
    WrittenSeal(env, signer, s, ts);
    InvIsHistory(env, signer, s);
    var plan := PlanSeal(env, s, signer);
    var s' := Seal(env, s, signer, ts).0;
    InvReports(env, signer, s');
    hide Inv, Seal, PlanSeal, History, RemembersPublished, Tip, SealCount, Append, AppendRefusal, NextEvent,
         PublicVerify.PublicOk, IsSeal, OpensSegment, FirstSeal, SegmentStart;
    AppendedIsRecorded(env, Opened(s), SEAL_EVENT, env.renderSeal(plan.record), ts);
    var e := s'.log[|s.log|];
    TypeIsSeal(e);
    assert s'.log == s.log + [e];
    SegmentsSnoc(s.log, e);
    var q, f := SealHasPlace(env, s'.log, |s.log|);
    AcceptedSeal(env, s'.log, |s.log|, q, f);
  }

  lemma TypeIsSeal(e: Event)
    requires e.eventType == SEAL_EVENT
    ensures IsSeal(e)
  {
  }

  /** A seal call that returns a number has appended the rendered record with the counters moved. */
  lemma WrittenSeal(env: Env, signer: Signer, s: State, ts: u64)
    requires Seal(env, s, signer, ts).1.Ok? && Seal(env, s, signer, ts).1.value.Some?
    ensures PlanSeal(env, s, signer).Write?
    ensures var body := env.renderSeal(PlanSeal(env, s, signer).record);
            var (w, r) := Append(env, Opened(s), SEAL_EVENT, body, ts);
            && r.Ok? && Seal(env, s, signer, ts).1.value.value == r.value && Seal(env, s, signer, ts).0.log == w.log
            && Seal(env, s, signer, ts).0.mem.epoch == w.mem.epoch
    ensures Opened(s).log == s.log && Opened(s).mem.seqNo == s.mem.seqNo && Opened(s).mem.epoch == s.mem.epoch
  {
    hide PlanSeal, AppendRefusal, NextEvent;
  }

  /**
   * When a seal call writes: exactly when some entry since the last seal is not a seal itself, the signer
   * signs, and the handle can write. With nothing to seal it reports so and changes nothing.
   */
  lemma SealWritesIff(env: Env, signer: Signer, s: State, ts: u64)
    requires Inv(env, signer, s) && Idle(s)
    ensures var (s', r) := Seal(env, s, signer, ts);
            var unsealed := exists i :: s.mem.sealedThrough <= i < |s.log| && !IsSeal(s.log[i]);
            && (r.Ok? && r.value.Some?
                <==> unsealed && CanSign(env, s, signer) && !s.readOnly && s.mem.seqNo < U64_MAX)
            && (!unsealed <==> r == Ok(None))
            && (!unsealed ==> s' == s)
  {
    hide Inv, PlanSeal, HasNew, CanSign, Idle, AppendRefusal, IsSeal, Seal, Opened, SegmentStart;
    InvReports(env, signer, s);
    SealDecision(env, signer, s);
    NewIs(s);
    SealOutcome(env, s, signer, ts);
    if HasNew(s.log) { OpenedRefusal(env, signer, s); }
  }

  /** The result of a seal call by its decision. */
  lemma SealOutcome(env: Env, s: State, signer: Signer, ts: u64)
    ensures var (plan, result) := (PlanSeal(env, s, signer), Seal(env, s, signer, ts));
            && (plan == NothingToSeal ==> result == (s, Ok(None)))
            && (plan.Refuse? ==> result == (s, Err(plan.error)))
            && (plan.Write? ==> if AppendRefusal(env, Opened(s)).None? then result.1.Ok? && result.1.value.Some?
                                else result.1.Err?)
  {
    hide PlanSeal, AppendRefusal, NextEvent, Opened, Published;
  }

  lemma NewIs(s: State)
    requires SegmentStart(s.log) == s.mem.sealedThrough
    ensures HasNew(s.log) <==> exists i :: s.mem.sealedThrough <= i < |s.log| && !IsSeal(s.log[i])
  {
    hide SegmentStart, IsSeal;
  }

  // ----- flagged handles -----

  /** A handle marked read-only or compromised never writes: appends and rotations are refused, and so is any seal. */
  lemma FlaggedWritesNothing(env: Env, signer: Signer, s: State, eventType: Bytes, body: Bytes, seed: Bytes, ts: u64)
    requires s.readOnly || s.mem.compromised
    ensures var (s', r) := Append(env, s, eventType, body, ts); s' == s && r.Err?
    ensures var (s', r) := Rotate(env, s, seed, ts); s'.log == s.log && r.Err?
    ensures var (s', r) := Seal(env, s, signer, ts);
            s'.log == s.log && (r.Err? || r == Ok(None)) && (s.mem.compromised ==> s' == s && r == Err(Compromised))
    ensures s.mem.compromised ==> Append(env, s, eventType, body, ts).1 == Err(Compromised)
    ensures !s.mem.compromised ==> Append(env, s, eventType, body, ts).1 == Err(ReadOnly)
  {
    hide NextEvent, Gather, InRange, PlanRecord, BaseKey, RotationBody;
  }

  // ----- seeds -----

  /** One key per seed. */
  function RingOf(env: Env, seeds: seq<Bytes>): (keys: seq<Digest>)
    ensures |keys| == |seeds|
  {
    if seeds == [] then [] else RingOf(env, seeds[..|seeds| - 1]) + [BaseKey(env, seeds[|seeds| - 1])]
  }

  lemma {:induction false} RingAt(env: Env, seeds: seq<Bytes>, i: nat)
    requires i < |seeds|
    ensures RingOf(env, seeds)[i] == BaseKey(env, seeds[i])
  {
    hide BaseKey;
    if i < |seeds| - 1 { RingAt(env, seeds[..|seeds| - 1], i); }
  }

  lemma RingGrows(env: Env, seeds: seq<Bytes>, more: seq<Bytes>)
    requires |more| <= 1
    ensures RingOf(env, seeds + more) == RingOf(env, seeds) + if more == [] then [] else [BaseKey(env, more[0])]
  {
    hide BaseKey;
    var all := seeds + more;
    if more == [] { assert all == seeds; } else { assert all[..|all| - 1] == seeds; }
  }

  /** The seeds a run rotates to, in order. */
  function RotationSeeds(ops: seq<Op>): seq<Bytes> {
    if ops == [] then [] else (if ops[0].RotateOp? then [ops[0].seed] else []) + RotationSeeds(ops[1..])
  }

  lemma StepRing(env: Env, signer: Signer, s: State, op: Op)
    requires Exec(env, signer, s, op).Some?
    ensures Exec(env, signer, s, op).value.keys == s.keys + if op.RotateOp? then [BaseKey(env, op.seed)] else []
  {
    hide AppendRefusal, NextEvent, PlanSeal, RotationBody, BaseKey, Open;
  }

  lemma {:induction false} RunRing(env: Env, signer: Signer, s: State, ops: seq<Op>, seeds: seq<Bytes>)
    requires Run(env, signer, s, ops).Some? && s.keys == RingOf(env, seeds)
    ensures Run(env, signer, s, ops).value.keys == RingOf(env, seeds + RotationSeeds(ops))
    decreases |ops|
  {
    if ops == [] {
      assert seeds + RotationSeeds(ops) == seeds;
    } else {
      hide Exec, RingOf, RotationSeeds;
      var more := if ops[0].RotateOp? then [ops[0].seed] else [];
      StepRing(env, signer, s, ops[0]);
      RingGrows(env, seeds, more);
      RunRing(env, signer, Exec(env, signer, s, ops[0]).value, ops[1..], seeds + more);
      RotationSeedsCons(ops, seeds, more);
    }
  }

  lemma RotationSeedsCons(ops: seq<Op>, seeds: seq<Bytes>, more: seq<Bytes>)
    requires ops != [] && more == if ops[0].RotateOp? then [ops[0].seed] else []
    ensures seeds + more + RotationSeeds(ops[1..]) == seeds + RotationSeeds(ops)
  {
    Associate(seeds, more, RotationSeeds(ops[1..]));
  }

  lemma Associate(a: seq<Bytes>, b: seq<Bytes>, c: seq<Bytes>)
    ensures a + b + c == a + (b + c)
  {
  }

  /**
   * Whoever keeps the first seeds and those rotated to, in order, can open the file anew: the ring made from
   * them gives the fields of the old handle, uncompromised, and keyed verification accepts.
   */
  lemma SeedsReopen(env: Env, signer: Signer, start: State, ops: seq<Op>, seeds: seq<Bytes>)
    requires Start(env, start) && env.Faithful() && env.Genuine(signer) && Run(env, signer, start, ops).Some?
    requires start.keys == RingOf(env, seeds)
    ensures var end := Run(env, signer, start, ops).value;
            var keys := RingOf(env, seeds + RotationSeeds(ops));
            && Open(env, keys, end.log).Ok? && Open(env, keys, end.log).value.mem == end.mem && !end.mem.compromised
            && Verify(env, keys, end.log).Ok?
  {
    hide *;
    RunIsFaithful(env, signer, start, ops);
    RunRing(env, signer, start, ops, seeds);
  }
}
