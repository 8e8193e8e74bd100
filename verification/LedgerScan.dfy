/**
 * The two keyed passes over a ledger file: the scan that opens it and the full verification. Each is a
 * fold of one step per entry; the loops of the program are shown to compute these folds.
 */
module LedgerScan {
  import opened Basics
  import opened Hex
  import opened SealRecords
  import opened Events
  import opened Segments

  datatype Error =
    | Compromised
    | ReadOnly
    | InvalidLine(line: nat)
    | BrokenChain(line: nat)
    | MissingKey(epoch: u32)
    | UnsupportedVersion(v: u32)
    | WrongReveal(line: nat, epoch: u32)
    | EpochPublished(epoch: u32)
    | SequenceOverflow
    | EpochOverflow
    | BadStoredHash
    | BoundsMismatch
    | AnchorFailed
    | NoSuchProof
    | ArithmeticOverflow

  /** An error together with the entry it was found on. */
  datatype Found = Found(line: nat, error: Error)

  /** What an open ledger remembers about its file. */
  datatype Memory = Memory(
    lastHash: Digest, seqNo: u64, epoch: u32, sealsSeen: u64, sealedThrough: u64, legacySegment0: bool,
    revealedEpochs: set<u32>, compromised: bool)

  /** The opening scan also collects the epochs of segment 0. */
  datatype Scan = Scan(mem: Memory, seg0Epochs: set<u32>)

  const FRESH_SCAN := Scan(Memory(ZERO_DIGEST, 0, 0, 0, 0, false, {}, false), {})

  function Max(a: nat, b: nat): nat {
    if a < b then b else a
  }

  // ----- opening -----

  /**
   * Book-keeping done before an entry is authenticated; `None` is a seal whose body does not parse, or a
   * counter at its end.
   */
  function Count(env: Env, st: Scan, e: Event): Option<Scan> {
    var first := st.mem.sealsSeen == 0;
    var legacy := st.mem.legacySegment0 || (first && e.v < 3);
    var epochs := if first then st.seg0Epochs + {e.epoch} else st.seg0Epochs;
    if !IsSeal(e) then
      Some(Scan(st.mem.(legacySegment0 := legacy), epochs))
    else
      var r := env.parseSeal(e.body);
      if r.None? || st.mem.sealsSeen == U64_MAX then None
      else
        var revealed := if legacy && first then st.mem.revealedEpochs + epochs else st.mem.revealedEpochs;
        Some(Scan(st.mem.(legacySegment0 := legacy, sealsSeen := st.mem.sealsSeen + 1,
                          sealedThrough := Max(st.mem.sealedThrough, r.value.endSeq), revealedEpochs := revealed),
                  epochs))
  }

  /** Authenticate one entry after a given tip: its hash, or nothing if its link or MAC is broken. */
  function CheckEntry(env: Env, keys: seq<Digest>, e: Event, line: nat, lastHash: Digest, seqNo: nat, segment: u64)
    : Result<Option<Digest>, Error>
  {
    var key := EntryKey(env, keys, e.epoch, segment, e.v);
    if key.None? then Err(MissingKey(e.epoch)) else
    var prev := DecodeHash(e.prevHash);
    if prev.None? then Err(InvalidLine(line)) else
    if prev.value != lastHash || e.seqNo != seqNo + 1 then Ok(None) else
    var expected := EventHash(env, e, lastHash, key.value);
    if expected.None? then Err(UnsupportedVersion(e.v)) else
    if e.hash != EncodeHash(expected.value) then Ok(None) else Ok(expected)
  }

  /** One entry of the opening scan. A broken link or MAC stops the scan and leaves the counters where they are. */
  function OpenStep(env: Env, keys: seq<Digest>, st: Scan, e: Event, line: nat): Result<Scan, Found> {
    var counted := Count(env, st, e);
    if counted.None? then Err(Found(line, InvalidLine(line))) else
    var mem := counted.value.mem;
    var checked := CheckEntry(env, keys, e, line, mem.lastHash, mem.seqNo, mem.sealsSeen);
    if checked.Err? then Err(Found(line, checked.error))
    else if checked.value.None? then Ok(counted.value.(mem := mem.(compromised := true)))
    else Ok(counted.value.(mem := mem.(lastHash := checked.value.value, seqNo := e.seqNo, epoch := Max(mem.epoch, e.epoch))))
  }

  /** The scan of a whole file; after a broken entry nothing more is read. */
  function Open(env: Env, keys: seq<Digest>, log: seq<Event>): Result<Scan, Found> {
    if log == [] then Ok(FRESH_SCAN)
    else
      var before := Open(env, keys, log[..|log| - 1]);
      if before.Err? || before.value.mem.compromised then before
      else OpenStep(env, keys, before.value, log[|log| - 1], |log| - 1)
  }

  predicate Clean(r: Result<Scan, Found>) {
    r.Ok? && !r.value.mem.compromised
  }

  // ----- full verification -----

  datatype Pass = Pass(lastHash: Digest, sealsSeen: nat, legacy: bool)

  /** The key a seal must reveal for an epoch: the base of a legacy segment 0, else the segment's own. */
  function RevealedKey(env: Env, base: Digest, segment: u64, legacy: bool): Digest {
    if segment == 0 && legacy then base else SegmentKey(env, base, segment)
  }

  /** The first revealed key, in epoch order, that is not the right one. */
  function RevealFault(env: Env, keys: seq<Digest>, r: SealRecord, legacy: bool, epochs: seq<u32>, line: nat): Option<Error>
    requires forall e :: e in epochs ==> e in r.revealed
  {
    if epochs == [] then None
    else if epochs[0] >= |keys| then Some(MissingKey(epochs[0]))
    else if DecodeHash(r.revealed[epochs[0]]) != Some(RevealedKey(env, keys[epochs[0]], r.segment, legacy)) then
      Some(WrongReveal(line, epochs[0]))
    else RevealFault(env, keys, r, legacy, epochs[1..], line)
  }

  /** What verification does with a seal once its entry is authenticated. */
  function SealFault(env: Env, keys: seq<Digest>, e: Event, legacy: bool, line: nat): Option<Error> {
    var r := env.parseSeal(e.body);
    if r.None? then Some(InvalidLine(line))
    else RevealFault(env, keys, r.value, legacy, SortedKeys(r.value.revealed.Keys), line)
  }

  function VerifyStep(env: Env, keys: seq<Digest>, st: Pass, e: Event, line: nat): Result<Pass, Found> {
    var legacy := st.legacy || (st.sealsSeen == 0 && e.v < 3);
    var seals := if IsSeal(e) then st.sealsSeen + 1 else st.sealsSeen;
    if seals > U64_MAX then Err(Found(line, ArithmeticOverflow)) else
    var key := EntryKey(env, keys, e.epoch, seals, e.v);
    if key.None? then Err(Found(line, MissingKey(e.epoch))) else
    var prev := DecodeHash(e.prevHash);
    if prev.None? then Err(Found(line, InvalidLine(line))) else
    if prev.value != st.lastHash || e.seqNo != line + 1 then Err(Found(line, BrokenChain(line))) else
    var expected := EventHash(env, e, st.lastHash, key.value);
    if expected.None? then Err(Found(line, UnsupportedVersion(e.v))) else
    if e.hash != EncodeHash(expected.value) then Err(Found(line, BrokenChain(line))) else
    var fault := if IsSeal(e) then SealFault(env, keys, e, legacy, line) else None;
    if fault.Some? then Err(Found(line, fault.value)) else Ok(Pass(expected.value, seals, legacy))
  }

  function Verify(env: Env, keys: seq<Digest>, log: seq<Event>): Result<Pass, Found> {
    if log == [] then Ok(Pass(ZERO_DIGEST, 0, false))
    else
      var before := Verify(env, keys, log[..|log| - 1]);
      if before.Err? then before else VerifyStep(env, keys, before.value, log[|log| - 1], |log| - 1)
  }

  // ----- prefixes -----

  lemma OpenSnoc(env: Env, keys: seq<Digest>, log: seq<Event>, e: Event)
    ensures var r := Open(env, keys, log);
            Open(env, keys, log + [e]) == if Clean(r) then OpenStep(env, keys, r.value, e, |log|) else r
  {
    hide OpenStep;
    assert (log + [e])[..|log|] == log;
  }

  lemma VerifySnoc(env: Env, keys: seq<Digest>, log: seq<Event>, e: Event)
    ensures var r := Verify(env, keys, log);
            Verify(env, keys, log + [e]) == if r.Ok? then VerifyStep(env, keys, r.value, e, |log|) else r
  {
    hide VerifyStep;
    assert (log + [e])[..|log|] == log;
  }

  lemma TakeSnoc<T>(s: seq<T>, n: nat)
    requires n < |s|
    ensures s[..n + 1] == s[..n] + [s[n]]
  {
  }

  /** A scan that stopped stays where it stopped. */
  lemma {:induction false} OpenSticks(env: Env, keys: seq<Digest>, log: seq<Event>, n: nat)
    requires n <= |log| && !Clean(Open(env, keys, log[..n]))
    ensures Open(env, keys, log) == Open(env, keys, log[..n])
    decreases |log|
  {
    hide OpenStep;
    if n == |log| {
      assert log[..n] == log;
    } else {
      var before := log[..|log| - 1];
      assert before[..n] == log[..n];
      OpenSticks(env, keys, before, n);
    }
  }

  lemma {:induction false} VerifySticks(env: Env, keys: seq<Digest>, log: seq<Event>, n: nat)
    requires n <= |log| && Verify(env, keys, log[..n]).Err?
    ensures Verify(env, keys, log) == Verify(env, keys, log[..n])
    decreases |log|
  {
    hide VerifyStep;
    if n == |log| {
      assert log[..n] == log;
    } else {
      var before := log[..|log| - 1];
      assert before[..n] == log[..n];
      VerifySticks(env, keys, before, n);
    }
  }

  // ----- what a clean scan knows -----

  /** Entry e is the next one after `before` and carries its MAC under the key of its place in the log. */
  predicate KeyedAuthentic(env: Env, keys: seq<Digest>, before: seq<Event>, e: Event, segment: u64) {
    var key := EntryKey(env, keys, e.epoch, segment, e.v);
    && DecodeHash(e.prevHash) == Some(Tip(before))
    && e.seqNo == |before| + 1
    && key.Some?
    && var expected := EventHash(env, e, Tip(before), key.value);
       expected.Some? && e.hash == EncodeHash(expected.value)
  }

  /** A clean scan of one more entry: a clean scan before it, its counters, and an entry that checks. */
  lemma CleanSnoc(env: Env, keys: seq<Digest>, before: seq<Event>, e: Event)
    requires Clean(Open(env, keys, before + [e]))
    ensures Clean(Open(env, keys, before))
    ensures var (st, st') := (Open(env, keys, before).value, Open(env, keys, before + [e]).value);
            var counted := Count(env, st, e);
            && counted.Some? && counted.value.mem.epoch == st.mem.epoch
            && var mem := counted.value.mem;
               && CheckEntry(env, keys, e, |before|, mem.lastHash, mem.seqNo, mem.sealsSeen) == Ok(Some(st'.mem.lastHash))
               && st' == counted.value.(mem := mem.(lastHash := st'.mem.lastHash, seqNo := e.seqNo,
                                                    epoch := Max(st.mem.epoch, e.epoch)))
  {
    OpenSnoc(env, keys, before, e);
    hide Open, CheckEntry, IsSeal;
  }

  /** The counters of a clean scan are what the log itself says. */
  lemma {:induction false} CleanCounts(env: Env, keys: seq<Digest>, log: seq<Event>)
    requires Clean(Open(env, keys, log))
    ensures var mem := Open(env, keys, log).value.mem;
            mem.lastHash == Tip(log) && mem.seqNo == |log| && mem.sealsSeen == SealCount(log)
    ensures log != [] ==>
              KeyedAuthentic(env, keys, log[..|log| - 1], log[|log| - 1], Open(env, keys, log).value.mem.sealsSeen)
    ensures log != [] ==> Clean(Open(env, keys, log[..|log| - 1]))
  {
    if log != [] {
      hide CheckEntry, Open, KeyedAuthentic, Tip, SealCount, IsSeal;
      var (before, e) := (log[..|log| - 1], log[|log| - 1]);
      assert log == before + [e];
      CleanSnoc(env, keys, before, e);
      CleanCounts(env, keys, before);
      SegmentsSnoc(before, e);
      var mem := Open(env, keys, log).value.mem;
      CheckedIsAuthentic(env, keys, before, e, mem.sealsSeen, mem.lastHash);
    }
  }

  /** An entry that checks is authentic, and its hash is the new tip. */
  lemma CheckedIsAuthentic(env: Env, keys: seq<Digest>, before: seq<Event>, e: Event, segment: u64, tip: Digest)
    requires CheckEntry(env, keys, e, |before|, Tip(before), |before|, segment) == Ok(Some(tip))
    ensures KeyedAuthentic(env, keys, before, e, segment) && e.seqNo == |before| + 1 && Tip(before + [e]) == tip
  {
    TipSnoc(before, e, tip);
    hide EventHash, EncodeHash, DecodeHash, EntryKey, Tip;
  }

  lemma TipSnoc(log: seq<Event>, e: Event, d: Digest)
    ensures e.hash == EncodeHash(d) ==> Tip(log + [e]) == d
  {
    hide EncodeHash, DecodeHash;
    HashRoundTrip(d);
  }

  /** In a clean log every entry is authentic at its own place. */
  lemma {:induction false} CleanEntry(env: Env, keys: seq<Digest>, log: seq<Event>, i: nat)
    requires Clean(Open(env, keys, log)) && i < |log|
    ensures SealCount(log[..i + 1]) <= U64_MAX
    ensures KeyedAuthentic(env, keys, log[..i], log[i], SealCount(log[..i + 1]))
    decreases |log|
  {
    hide KeyedAuthentic, Open, SealCount;
    CleanCounts(env, keys, log);
    if i == |log| - 1 {
      assert log[..i + 1] == log;
    } else {
      var before := log[..|log| - 1];
      CleanEntry(env, keys, before, i);
      assert before[..i + 1] == log[..i + 1] && before[..i] == log[..i];
    }
  }

  /** Adding keys at the end of the ring changes nothing for entries already there. */
  lemma {:induction false} MoreKeys(env: Env, keys: seq<Digest>, more: seq<Digest>, log: seq<Event>)
    requires keys <= more && Clean(Open(env, keys, log))
    ensures Open(env, more, log) == Open(env, keys, log)
  {
    if log != [] {
      hide Open, CheckEntry, Count;
      var (before, e) := (log[..|log| - 1], log[|log| - 1]);
      assert log == before + [e];
      CleanSnoc(env, keys, before, e);
      MoreKeys(env, keys, more, before);
      OpenSnoc(env, keys, before, e);
      OpenSnoc(env, more, before, e);
      var mem := Count(env, Open(env, keys, before).value, e).value.mem;
      MoreKeysCheck(env, keys, more, e, |before|, mem.lastHash, mem.seqNo, mem.sealsSeen);
    }
  }

  lemma MoreKeysCheck(env: Env, keys: seq<Digest>, more: seq<Digest>, e: Event, line: nat, lastHash: Digest,
                      seqNo: nat, segment: u64)
    requires keys <= more && CheckEntry(env, keys, e, line, lastHash, seqNo, segment).Ok?
    ensures CheckEntry(env, more, e, line, lastHash, seqNo, segment)
            == CheckEntry(env, keys, e, line, lastHash, seqNo, segment)
  {
    hide EventHash, EncodeHash, DecodeHash, SegmentKey;
  }

  // ----- what verification accepts, said entry by entry -----

  /** Segment 0 has an entry of an old version, its seal included. */
  ghost predicate LegacyStart(log: seq<Event>) {
    exists i :: 0 <= i < |log| && SealCount(log[..i]) == 0 && log[i].v < 3
  }

  /** The record of a seal parses and reveals, for every epoch it lists, the key of that epoch in its segment. */
  predicate RevealsRight(env: Env, keys: seq<Digest>, e: Event, legacy: bool) {
    var r := env.parseSeal(e.body);
    && r.Some?
    && forall k :: k in r.value.revealed ==>
         k < |keys| && DecodeHash(r.value.revealed[k]) == Some(RevealedKey(env, keys[k], r.value.segment, legacy))
  }

  ghost predicate KeyedHolds(env: Env, keys: seq<Digest>, before: seq<Event>, e: Event) {
    && SegmentOf(before, e) <= U64_MAX
    && KeyedAuthentic(env, keys, before, e, SegmentOf(before, e))
    && (IsSeal(e) ==> RevealsRight(env, keys, e, LegacyStart(before + [e])))
  }

  /** Every entry carries its MAC under the key of its segment, and every seal reveals only right keys. */
  ghost predicate KeyedOk(env: Env, keys: seq<Digest>, log: seq<Event>) {
    forall i :: 0 <= i < |log| ==> KeyedHolds(env, keys, log[..i], log[i])
  }

  lemma LegacyStartSnoc(log: seq<Event>, e: Event)
    ensures LegacyStart(log + [e]) <==> LegacyStart(log) || (SealCount(log) == 0 && e.v < 3)
  {
    hide SealCount;
    var s := log + [e];
    assert s[..|log|] == log && s[|log|] == e;
    forall i | 0 <= i < |log| ensures s[..i] == log[..i] && s[i] == log[i] { }
    if LegacyStart(log) {
      var i :| 0 <= i < |log| && SealCount(log[..i]) == 0 && log[i].v < 3;
      assert SealCount(s[..i]) == 0 && s[i].v < 3;
    }
    if SealCount(log) == 0 && e.v < 3 { assert SealCount(s[..|log|]) == 0; }
  }

  lemma KeyedOkSnoc(env: Env, keys: seq<Digest>, log: seq<Event>, e: Event)
    ensures KeyedOk(env, keys, log + [e]) <==> KeyedOk(env, keys, log) && KeyedHolds(env, keys, log, e)
  {
    hide KeyedHolds;
    var s := log + [e];
    assert s[..|log|] == log && s[|log|] == e;
    forall i | 0 <= i < |log| ensures s[..i] == log[..i] && s[i] == log[i] { }
    if KeyedOk(env, keys, s) {
      assert KeyedHolds(env, keys, s[..|log|], s[|log|]);
      forall i | 0 <= i < |log| ensures KeyedHolds(env, keys, log[..i], log[i]) {
        assert KeyedHolds(env, keys, s[..i], s[i]);
      }
    }
  }

  lemma {:induction false} NoRevealFault(env: Env, keys: seq<Digest>, r: SealRecord, legacy: bool, epochs: seq<u32>,
                                         line: nat)
    requires forall k :: k in epochs ==> k in r.revealed
    ensures RevealFault(env, keys, r, legacy, epochs, line).None? <==>
            forall k :: k in epochs ==>
              k < |keys| && DecodeHash(r.revealed[k]) == Some(RevealedKey(env, keys[k], r.segment, legacy))
  {
    hide DecodeHash, RevealedKey;
    if epochs != [] {
      assert epochs[0] in epochs && forall k :: k in epochs <==> k == epochs[0] || k in epochs[1..];
      NoRevealFault(env, keys, r, legacy, epochs[1..], line);
    }
  }

  lemma NoSealFault(env: Env, keys: seq<Digest>, e: Event, legacy: bool, line: nat)
    ensures SealFault(env, keys, e, legacy, line).None? <==> RevealsRight(env, keys, e, legacy)
  {
    hide SortedKeys, RevealFault, DecodeHash, RevealedKey;
    var r := env.parseSeal(e.body);
    if r.Some? { NoRevealFault(env, keys, r.value, legacy, SortedKeys(r.value.revealed.Keys), line); }
  }

  /** What a pass over some entries remembers of them. */
  ghost function PassOf(log: seq<Event>): Pass {
    Pass(Tip(log), SealCount(log), LegacyStart(log))
  }

  lemma VerifyStepHolds(env: Env, keys: seq<Digest>, log: seq<Event>, e: Event)
    ensures var v := VerifyStep(env, keys, PassOf(log), e, |log|);
            (v.Ok? <==> KeyedHolds(env, keys, log, e)) && (v.Ok? ==> v.value == PassOf(log + [e]))
  {
    hide EventHash, EncodeHash, DecodeHash, EntryKey, Tip, SealCount, SealFault, RevealsRight, LegacyStart;
    SegmentsSnoc(log, e);
    LegacyStartSnoc(log, e);
    NoSealFault(env, keys, e, LegacyStart(log + [e]), |log|);
    var key := EntryKey(env, keys, e.epoch, SegmentOf(log, e) % TWO64, e.v);
    if key.Some? && EventHash(env, e, Tip(log), key.value).Some? {
      TipSnoc(log, e, EventHash(env, e, Tip(log), key.value).value);
    }
  }

  /** Verification accepts exactly the logs for which the statement holds, for every keyring. */
  lemma {:induction false} VerifyIsKeyedOk(env: Env, keys: seq<Digest>, log: seq<Event>)
    ensures Verify(env, keys, log).Ok? <==> KeyedOk(env, keys, log)
    ensures Verify(env, keys, log).Ok? ==> Verify(env, keys, log).value == PassOf(log)
  {
    if log != [] {
      hide Verify, VerifyStep, KeyedHolds, KeyedOk, PassOf;
      var (before, e) := (log[..|log| - 1], log[|log| - 1]);
      assert log == before + [e];
      VerifyIsKeyedOk(env, keys, before);
      VerifySnoc(env, keys, before, e);
      KeyedOkSnoc(env, keys, before, e);
      VerifyStepHolds(env, keys, before, e);
    }
  }

  lemma MoreKeysHolds(env: Env, keys: seq<Digest>, more: seq<Digest>, before: seq<Event>, e: Event)
    requires keys <= more && KeyedHolds(env, keys, before, e)
    ensures KeyedHolds(env, more, before, e)
  {
    hide EventHash, EncodeHash, DecodeHash, SegmentKey, RevealedKey, SegmentOf, LegacyStart, Tip;
  }

  lemma MoreKeysVerify(env: Env, keys: seq<Digest>, more: seq<Digest>, log: seq<Event>)
    requires keys <= more && Verify(env, keys, log).Ok?
    ensures Verify(env, more, log) == Verify(env, keys, log)
  {
    VerifyIsKeyedOk(env, keys, log);
    VerifyIsKeyedOk(env, more, log);
    hide KeyedHolds, Verify, PassOf;
    forall i | 0 <= i < |log| ensures KeyedHolds(env, more, log[..i], log[i]) {
      MoreKeysHolds(env, keys, more, log[..i], log[i]);
    }
  }

  /** The fault found in a seal is the first in the order of the epochs: those before it reveal the right key. */
  lemma {:induction false} FirstRevealFault(env: Env, keys: seq<Digest>, r: SealRecord, legacy: bool,
                                            epochs: seq<u32>, line: nat) returns (i: nat)
    requires forall k :: k in epochs ==> k in r.revealed
    requires RevealFault(env, keys, r, legacy, epochs, line).Some?
    ensures i < |epochs|
    ensures forall j :: 0 <= j < i ==>
              epochs[j] < |keys|
              && DecodeHash(r.revealed[epochs[j]]) == Some(RevealedKey(env, keys[epochs[j]], r.segment, legacy))
    ensures match RevealFault(env, keys, r, legacy, epochs, line).value
            case MissingKey(k) => k == epochs[i] >= |keys|
            case WrongReveal(at, k) =>
              && at == line && k == epochs[i] < |keys|
              && DecodeHash(r.revealed[k]) != Some(RevealedKey(env, keys[k], r.segment, legacy))
            case _ => false
  {
    hide DecodeHash, RevealedKey;
    i := 0;
    if epochs[0] < |keys|
       && DecodeHash(r.revealed[epochs[0]]) == Some(RevealedKey(env, keys[epochs[0]], r.segment, legacy)) {
      i := FirstRevealFault(env, keys, r, legacy, epochs[1..], line);
      i := i + 1;
    }
  }

  // ----- what opening accepts and remembers, said of the whole file -----

  /** Entry e carries its MAC at its place, and a seal has a record that parses. */
  ghost predicate ScanHolds(env: Env, keys: seq<Digest>, before: seq<Event>, e: Event) {
    && SegmentOf(before, e) <= U64_MAX
    && KeyedAuthentic(env, keys, before, e, SegmentOf(before, e))
    && (IsSeal(e) ==> env.parseSeal(e.body).Some?)
  }

  lemma ScanStep(env: Env, keys: seq<Digest>, before: seq<Event>, e: Event)
    requires Clean(Open(env, keys, before))
    ensures Clean(Open(env, keys, before + [e])) <==> ScanHolds(env, keys, before, e)
  {
    hide Open, EventHash, EncodeHash, DecodeHash, EntryKey, Tip, SealCount, IsSeal;
    CleanCounts(env, keys, before);
    OpenSnoc(env, keys, before, e);
  }

  ghost predicate ScanOk(env: Env, keys: seq<Digest>, log: seq<Event>) {
    forall i :: 0 <= i < |log| ==> ScanHolds(env, keys, log[..i], log[i])
  }

  lemma ScanOkSnoc(env: Env, keys: seq<Digest>, log: seq<Event>, e: Event)
    ensures ScanOk(env, keys, log + [e]) <==> ScanOk(env, keys, log) && ScanHolds(env, keys, log, e)
  {
    hide ScanHolds;
    var s := log + [e];
    assert s[..|log|] == log && s[|log|] == e;
    forall i | 0 <= i < |log| ensures s[..i] == log[..i] && s[i] == log[i] { }
    if ScanOk(env, keys, s) {
      assert ScanHolds(env, keys, s[..|log|], s[|log|]);
      forall i | 0 <= i < |log| ensures ScanHolds(env, keys, log[..i], log[i]) {
        assert ScanHolds(env, keys, s[..i], s[i]);
      }
    }
  }

  /** A file opens uncompromised exactly when every entry holds at its place. */
  lemma {:induction false} CleanIff(env: Env, keys: seq<Digest>, log: seq<Event>)
    ensures Clean(Open(env, keys, log)) <==> ScanOk(env, keys, log)
  {
    if log != [] {
      hide Open, ScanHolds, ScanOk;
      var (before, e) := (log[..|log| - 1], log[|log| - 1]);
      assert log == before + [e];
      CleanIff(env, keys, before);
      ScanOkSnoc(env, keys, before, e);
      OpenSnoc(env, keys, before, e);
      if Clean(Open(env, keys, before)) { ScanStep(env, keys, before, e); }
    }
  }

  /** Some entry before the end of segment 0, its seal included, is of epoch k. */
  ghost predicate InSegment0(log: seq<Event>, k: u32) {
    exists i :: 0 <= i < |log| && SealCount(log[..i]) == 0 && log[i].epoch == k
  }

  lemma InSegment0Snoc(log: seq<Event>, e: Event, k: u32)
    ensures InSegment0(log + [e], k) <==> InSegment0(log, k) || (SealCount(log) == 0 && e.epoch == k)
  {
    hide SealCount;
    var s := log + [e];
    assert s[..|log|] == log && s[|log|] == e;
    forall i | 0 <= i < |log| ensures s[..i] == log[..i] && s[i] == log[i] { }
    if InSegment0(log, k) {
      var i :| 0 <= i < |log| && SealCount(log[..i]) == 0 && log[i].epoch == k;
      assert SealCount(s[..i]) == 0 && s[i].epoch == k;
    }
    if SealCount(log) == 0 && e.epoch == k { assert SealCount(s[..|log|]) == 0; }
  }

  /** The greatest epoch of any entry; 0 without entries. */
  ghost predicate IsMaxEpoch(log: seq<Event>, m: nat) {
    && (forall i :: 0 <= i < |log| ==> log[i].epoch <= m)
    && (m == 0 || exists i :: 0 <= i < |log| && log[i].epoch == m)
  }

  lemma MaxEpochSnoc(log: seq<Event>, e: Event, m: nat)
    requires IsMaxEpoch(log, m)
    ensures IsMaxEpoch(log + [e], Max(m, e.epoch))
  {
    var (s, m') := (log + [e], Max(m, e.epoch));
    assert s[|log|] == e;
    if m' != e.epoch && m' != 0 {
      var i :| 0 <= i < |log| && log[i].epoch == m;
      assert s[i].epoch == m';
    }
  }

  /** Entry e is a seal whose record ends at sequence number n. */
  predicate SealsThrough(env: Env, e: Event, n: nat) {
    var r := env.parseSeal(e.body);
    IsSeal(e) && r.Some? && r.value.endSeq == n
  }

  /** The furthest number that any seal claims to end at; 0 without seals. */
  ghost predicate IsMaxSealed(env: Env, log: seq<Event>, m: nat) {
    && (forall i, n: nat :: 0 <= i < |log| && SealsThrough(env, log[i], n) ==> n <= m)
    && (m == 0 || exists i :: 0 <= i < |log| && SealsThrough(env, log[i], m))
  }

  lemma MaxSealedSnoc(env: Env, log: seq<Event>, e: Event, m: nat)
    requires IsMaxSealed(env, log, m)
    ensures !IsSeal(e) ==> IsMaxSealed(env, log + [e], m)
    ensures var r := env.parseSeal(e.body);
            IsSeal(e) && r.Some? ==> IsMaxSealed(env, log + [e], Max(m, r.value.endSeq))
  {
    hide IsSeal;
    var s := log + [e];
    assert s[|log|] == e;
    if m != 0 {
      var i :| 0 <= i < |log| && SealsThrough(env, log[i], m);
      assert SealsThrough(env, s[i], m);
    }
  }

  /** What a clean scan remembers, in terms of the entries alone. */
  ghost predicate Remembers(env: Env, log: seq<Event>, st: Scan) {
    && st.mem.lastHash == Tip(log) && st.mem.seqNo == |log| && st.mem.sealsSeen == SealCount(log)
    && IsMaxEpoch(log, st.mem.epoch) && IsMaxSealed(env, log, st.mem.sealedThrough)
    && (st.mem.legacySegment0 <==> LegacyStart(log))
    && (forall k: u32 :: k in st.seg0Epochs <==> InSegment0(log, k))
    && (forall k: u32 :: k in st.mem.revealedEpochs <==> LegacyStart(log) && SealCount(log) > 0 && InSegment0(log, k))
    && !st.mem.compromised
  }

  /**
   * The fields of a handle that opens uncompromised: tip, length, number of seals, the largest epoch, the
   * furthest end of a seal, whether segment 0 is legacy, and the epochs of a legacy segment 0 once sealed.
   */
  lemma {:induction false} CleanMemory(env: Env, keys: seq<Digest>, log: seq<Event>)
    requires Clean(Open(env, keys, log))
    ensures Remembers(env, log, Open(env, keys, log).value)
  {
    if log != [] {
      hide Open, Remembers, CheckEntry, Count;
      var (before, e) := (log[..|log| - 1], log[|log| - 1]);
      assert log == before + [e];
      CleanSnoc(env, keys, before, e);
      CleanCounts(env, keys, log);
      CleanMemory(env, keys, before);
      RemembersOne(env, before, e, Open(env, keys, before).value, Open(env, keys, log).value);
    }
  }

  /** One more entry, counted and read. */
  lemma RemembersOne(env: Env, log: seq<Event>, e: Event, st: Scan, st': Scan)
    requires Remembers(env, log, st) && Count(env, st, e).Some?
    requires st'.mem.lastHash == Tip(log + [e]) && st'.mem.seqNo == |log| + 1
    requires var counted := Count(env, st, e).value;
             st' == counted.(mem := counted.mem.(lastHash := st'.mem.lastHash, seqNo := st'.mem.seqNo,
                                                 epoch := Max(st.mem.epoch, e.epoch)))
    ensures Remembers(env, log + [e], st')
  {
    hide Tip, SealCount, LegacyStart, InSegment0, IsSeal, IsMaxEpoch, IsMaxSealed;
    SegmentsSnoc(log, e);
    LegacyStartSnoc(log, e);
    MaxEpochSnoc(log, e, st.mem.epoch);
    MaxSealedSnoc(env, log, e, st.mem.sealedThrough);
    forall k: u32 ensures InSegment0(log + [e], k) <==> InSegment0(log, k) || (SealCount(log) == 0 && e.epoch == k) {
      InSegment0Snoc(log, e, k);
    }
  }

  // ----- opening and verifying agree -----

  /** Both passes have read the same log and remember the same of it. */
  predicate Agree(st: Scan, pass: Pass) {
    && st.mem.lastHash == pass.lastHash && st.mem.sealsSeen == pass.sealsSeen
    && st.mem.legacySegment0 == pass.legacy && !st.mem.compromised
  }

  /**
   * On one more entry: verification succeeds only where the scan stays clean; where the scan stays clean,
   * verification can fail only on the keys a seal reveals; where the scan stops compromised, verification
   * reports a broken chain at that entry.
   */
  lemma StepsAgree(env: Env, keys: seq<Digest>, st: Scan, pass: Pass, e: Event, line: nat)
    requires Agree(st, pass) && st.mem.seqNo == line
    ensures var (o, v) := (OpenStep(env, keys, st, e, line), VerifyStep(env, keys, pass, e, line));
            && (v.Ok? ==> Clean(o) && Agree(o.value, v.value))
            && (Clean(o) && v.Err? ==>
                  v.error == Found(line, v.error.error) && IsSeal(e) && env.parseSeal(e.body).Some?
                  && SealFault(env, keys, e, o.value.mem.legacySegment0, line) == Some(v.error.error))
            && (o.Ok? && o.value.mem.compromised ==> v == Err(Found(line, BrokenChain(line))))
            && (v.Err? ==> v.error.line == line)
            && (o.Err? && !IsSeal(e) ==> v == Err(o.error))
  {
    hide EventHash, EncodeHash, DecodeHash, EntryKey, RevealFault, SortedKeys;
  }

  /** A seal entry that authenticates but reveals a wrong or unknown key. */
  predicate BadReveal(env: Env, keys: seq<Digest>, log: seq<Event>, line: nat, error: Error)
    requires line < |log|
  {
    var o := Open(env, keys, log[..line + 1]);
    && Clean(o) && IsSeal(log[line]) && env.parseSeal(log[line].body).Some?
    && SealFault(env, keys, log[line], o.value.mem.legacySegment0, line) == Some(error)
  }

  /** Verification stops at `found`, and the scan was clean up to there. */
  predicate StopsAt(env: Env, keys: seq<Digest>, log: seq<Event>, found: Found) {
    && found.line < |log| && Clean(Open(env, keys, log[..found.line]))
    && var o := Open(env, keys, log[..found.line + 1]);
       && (BadReveal(env, keys, log, found.line, found.error) || !Clean(o))
       && (o.Ok? && o.value.mem.compromised ==> found.error == BrokenChain(found.line))
       && (o.Err? && !IsSeal(log[found.line]) ==> o.error == found)
  }

  /** How both passes end, on every list of entries and every keyring. */
  lemma {:induction false} PassesAgree(env: Env, keys: seq<Digest>, log: seq<Event>)
    ensures var (o, v) := (Open(env, keys, log), Verify(env, keys, log));
            if v.Ok? then Clean(o) && Agree(o.value, v.value) else StopsAt(env, keys, log, v.error)
  {
    if log != [] {
      hide Open, Verify, StopsAt, Agree, OpenStep, VerifyStep;
      var (before, e) := (log[..|log| - 1], log[|log| - 1]);
      assert log == before + [e];
      PassesAgree(env, keys, before);
      VerifySnoc(env, keys, before, e);
      if Verify(env, keys, before).Ok? {
        LastEntryAgrees(env, keys, log, before, e);
      } else {
        StopsAtGrows(env, keys, before, log, Verify(env, keys, before).error);
      }
    }
  }

  lemma LastEntryAgrees(env: Env, keys: seq<Digest>, log: seq<Event>, before: seq<Event>, e: Event)
    requires log == before + [e] && Clean(Open(env, keys, before)) && Verify(env, keys, before).Ok?
    requires Agree(Open(env, keys, before).value, Verify(env, keys, before).value)
    ensures var (o, v) := (Open(env, keys, log), Verify(env, keys, log));
            if v.Ok? then Clean(o) && Agree(o.value, v.value) else StopsAt(env, keys, log, v.error)
  {
    hide Open, Verify, SealFault, Agree, OpenStep, VerifyStep, StopsAt;
    OpenSnoc(env, keys, before, e);
    VerifySnoc(env, keys, before, e);
    CleanCounts(env, keys, before);
    StepsAgree(env, keys, Open(env, keys, before).value, Verify(env, keys, before).value, e, |before|);
    if Verify(env, keys, log).Err? { StopsAtEnd(env, keys, log, before, e, Verify(env, keys, log).error); }
  }

  lemma StopsAtEnd(env: Env, keys: seq<Digest>, log: seq<Event>, before: seq<Event>, e: Event, found: Found)
    requires log == before + [e] && found.line == |before| && Clean(Open(env, keys, before))
    requires !Clean(Open(env, keys, log))
             || (IsSeal(e) && env.parseSeal(e.body).Some?
                 && SealFault(env, keys, e, Open(env, keys, log).value.mem.legacySegment0, |before|) == Some(found.error))
    requires Open(env, keys, log).Ok? && Open(env, keys, log).value.mem.compromised ==>
               found.error == BrokenChain(found.line)
    requires Open(env, keys, log).Err? && !IsSeal(e) ==> Open(env, keys, log).error == found
    ensures StopsAt(env, keys, log, found)
  {
    hide Open, SealFault, IsSeal;
    assert log[..|before|] == before && log[..|before| + 1] == log && log[|before|] == e;
  }

  lemma StopsAtGrows(env: Env, keys: seq<Digest>, before: seq<Event>, log: seq<Event>, found: Found)
    requires before <= log && StopsAt(env, keys, before, found)
    ensures StopsAt(env, keys, log, found)
  {
    hide Open, SealFault;
    assert before[..found.line] == log[..found.line] && before[..found.line + 1] == log[..found.line + 1];
  }

  /** A verified ledger opens uncompromised. */
  lemma VerifiedOpensClean(env: Env, keys: seq<Digest>, log: seq<Event>)
    requires Verify(env, keys, log).Ok?
    ensures Clean(Open(env, keys, log))
  {
    hide Open, Verify;
    PassesAgree(env, keys, log);
  }

  /** A ledger that opens uncompromised fails verification only at a seal that reveals a wrong or unknown key. */
  lemma CleanFailsOnlyOnReveals(env: Env, keys: seq<Digest>, log: seq<Event>)
    requires Clean(Open(env, keys, log)) && Verify(env, keys, log).Err?
    ensures var found := Verify(env, keys, log).error;
            found.line < |log| && BadReveal(env, keys, log, found.line, found.error)
  {
    hide Open, Verify, BadReveal;
    PassesAgree(env, keys, log);
    var line := Verify(env, keys, log).error.line;
    if !Clean(Open(env, keys, log[..line + 1])) { OpenSticks(env, keys, log, line + 1); }
  }

  /** A scan that stops compromised at entry i is a broken chain at i for verification, or a bad reveal before. */
  lemma CompromisedIsBroken(env: Env, keys: seq<Digest>, log: seq<Event>, i: nat)
    requires i < |log| && Clean(Open(env, keys, log[..i]))
    requires Open(env, keys, log[..i + 1]).Ok? && Open(env, keys, log[..i + 1]).value.mem.compromised
    ensures Verify(env, keys, log).Err?
    ensures var found := Verify(env, keys, log).error;
            found == Found(i, BrokenChain(i))
            || (found.line < i && BadReveal(env, keys, log, found.line, found.error))
  {
    StoppedFailsVerify(env, keys, log, i);
    hide Open, Verify, BadReveal;
    PassesAgree(env, keys, log);
    var found := Verify(env, keys, log).error;
    VerifyLine(env, keys, log);
  }

  /** A scan that refuses entry i makes verification fail at i, or on a bad reveal before. */
  lemma RefusedFailsVerify(env: Env, keys: seq<Digest>, log: seq<Event>, i: nat)
    requires i < |log| && Clean(Open(env, keys, log[..i])) && Open(env, keys, log[..i + 1]).Err?
    ensures Verify(env, keys, log).Err?
    ensures var found := Verify(env, keys, log).error;
            && (found.line == i || (found.line < i && BadReveal(env, keys, log, found.line, found.error)))
            && (found.line == i && !IsSeal(log[i]) ==> found == Open(env, keys, log[..i + 1]).error)
  {
    StoppedFailsVerify(env, keys, log, i);
    hide Open, Verify, BadReveal;
    PassesAgree(env, keys, log);
  }

  lemma StoppedFailsVerify(env: Env, keys: seq<Digest>, log: seq<Event>, i: nat)
    requires i < |log| && Clean(Open(env, keys, log[..i])) && !Clean(Open(env, keys, log[..i + 1]))
    ensures Verify(env, keys, log).Err?
    ensures var found := Verify(env, keys, log).error;
            found.line == i || (found.line < i && BadReveal(env, keys, log, found.line, found.error))
  {
    hide Open, Verify, BadReveal;
    PassesAgree(env, keys, log);
    OpenSticks(env, keys, log, i + 1);
    var line := Verify(env, keys, log).error.line;
    if line > i {
      assert log[..line][..i + 1] == log[..i + 1];
      OpenSticks(env, keys, log[..line], i + 1);
    } else if line < i && !Clean(Open(env, keys, log[..line + 1])) {
      assert log[..i][..line + 1] == log[..line + 1];
      OpenSticks(env, keys, log[..i], line + 1);
    }
  }

  lemma VerifyLine(env: Env, keys: seq<Digest>, log: seq<Event>)
    requires Verify(env, keys, log).Err?
    ensures Verify(env, keys, log).error.line < |log|
  {
    hide Verify;
    PassesAgree(env, keys, log);
  }
}
