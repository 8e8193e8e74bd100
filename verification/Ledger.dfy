/**
 * The ledger as a state machine: append, rotate, seal and reopen, each with its refusals. A refused seal or
 * rotation has already changed fields, as in the program.
 */
module Ledger {
  import opened Basics
  import opened Hex
  import opened SealRecords
  import opened Events
  import opened Segments
  import opened Merkle
  import opened LedgerScan

  /** The file, the keyring and the fields of an open handle. */
  datatype State = State(log: seq<Event>, keys: seq<Digest>, mem: Memory, readOnly: bool)

  // ----- append -----

  /** A legacy segment 0 keeps its version-2 entries until its seal. */
  function WriteVersion(mem: Memory): u32 {
    if mem.sealsSeen == 0 && mem.legacySegment0 then 2 else FORMAT_VERSION
  }

  function NewEvent(env: Env, mem: Memory, key: Digest, eventType: Bytes, body: Bytes, ts: u64): Event
    requires mem.seqNo < U64_MAX
  {
    var hash := EventHashV2(env, mem.lastHash, mem.seqNo + 1, ts, eventType, body, key);
    Event(WriteVersion(mem), mem.seqNo + 1, ts, eventType, body, mem.epoch, EncodeHash(mem.lastHash), EncodeHash(hash))
  }

  /** Why an append is refused. */
  function AppendRefusal(env: Env, s: State): Option<Error> {
    if s.mem.compromised then Some(Compromised)
    else if s.readOnly then Some(ReadOnly)
    else if s.mem.epoch in s.mem.revealedEpochs then Some(EpochPublished(s.mem.epoch))
    else if s.mem.epoch >= |s.keys| then Some(MissingKey(s.mem.epoch))
    else if s.mem.seqNo == U64_MAX then Some(SequenceOverflow)
    else None
  }

  /** The key the next entry is written under. */
  function WriteKey(env: Env, s: State): Digest
    requires AppendRefusal(env, s).None?
  {
    EntryKey(env, s.keys, s.mem.epoch, s.mem.sealsSeen, WriteVersion(s.mem)).value
  }

  function NextEvent(env: Env, s: State, eventType: Bytes, body: Bytes, ts: u64): Event
    requires AppendRefusal(env, s).None?
  {
    NewEvent(env, s.mem, WriteKey(env, s), eventType, body, ts)
  }

  /** The state after one more entry. */
  function Extend(s: State, e: Event): State {
    s.(log := s.log + [e], mem := s.mem.(lastHash := Decoded(e.hash), seqNo := e.seqNo))
  }

  function Append(env: Env, s: State, eventType: Bytes, body: Bytes, ts: u64): (State, Result<u64, Error>) {
    var refusal := AppendRefusal(env, s);
    if refusal.Some? then (s, Err(refusal.value))
    else
      var e := NextEvent(env, s, eventType, body, ts);
      (Extend(s, e), Ok(e.seqNo))
  }

  // ----- rotation -----

  const ROTATION_PREFIX := Ascii("{\"epoch\":")

  /** The ring has the new key even if the rotation is refused, and the epoch moves before the entry is tried. */
  function Rotated(env: Env, s: State, seed: Bytes): State {
    var ring := s.keys + [BaseKey(env, seed)];
    if s.mem.epoch == U32_MAX then s.(keys := ring)
    else s.(keys := ring, mem := s.mem.(epoch := s.mem.epoch + 1))
  }

  function RotationBody(epoch: u32): Bytes {
    ROTATION_PREFIX + Decimal(epoch) + [CLOSE]
  }

  function Rotate(env: Env, s: State, seed: Bytes, ts: u64): (State, Result<u32, Error>) {
    var s' := Rotated(env, s, seed);
    if s.mem.epoch == U32_MAX then (s', Err(EpochOverflow))
    else
      var (s'', r) := Append(env, s', KEY_ROTATION_EVENT, RotationBody(s'.mem.epoch), ts);
      if r.Err? then (s'', Err(r.error)) else (s'', Ok(s'.mem.epoch))
  }

  // ----- sealing -----

  /** The entries whose sequence numbers lie in a range. */
  function InRange(log: seq<Event>, lo: nat, hi: nat): seq<Event> {
    if log == [] then []
    else
      var e := log[|log| - 1];
      InRange(log[..|log| - 1], lo, hi) + if lo <= e.seqNo <= hi then [e] else []
  }

  /** What one pass over a segment collects for its seal. */
  datatype Gathered = Gathered(leaves: seq<Digest>, revealed: map<u32, Bytes>, prevSeal: Bytes, hasNonSeal: bool)

  /** The first entry of an epoch adds the key of that epoch in the segment. */
  function GatherStep(env: Env, keys: seq<Digest>, segment: u64, v: u32, g: Gathered, e: Event): Result<Gathered, Error> {
    var leaf := DecodeHash(e.hash);
    if leaf.None? then Err(BadStoredHash) else
    var marked := if IsSeal(e) then g.(prevSeal := e.hash) else g.(hasNonSeal := true);
    var grown := marked.(leaves := g.leaves + [leaf.value]);
    if e.epoch in g.revealed then Ok(grown) else
    var key := EntryKey(env, keys, e.epoch, segment, v);
    if key.None? then Err(MissingKey(e.epoch)) else
    Ok(grown.(revealed := g.revealed[e.epoch := EncodeHash(key.value)]))
  }

  function Gather(env: Env, keys: seq<Digest>, segment: u64, v: u32, entries: seq<Event>): Result<Gathered, Error> {
    if entries == [] then Ok(Gathered([], map[], [], false))
    else
      var g := Gather(env, keys, segment, v, entries[..|entries| - 1]);
      if g.Err? then g else GatherStep(env, keys, segment, v, g.value, entries[|entries| - 1])
  }

  function DraftRecord(env: Env, mem: Memory, g: Gathered, signer: Signer): SealRecord
    requires g.leaves != [] && signer.publicKey.Some? && mem.sealedThrough < U64_MAX
  {
    SealRecord(mem.sealsSeen, mem.sealedThrough + 1, mem.seqNo, EncodeHash(g.leaves[|g.leaves| - 1]),
               EncodeHash(Mth(env.TreeHasher(), g.leaves)), g.revealed, g.prevSeal, signer.scheme,
               signer.publicKey.value, [], [])
  }

  /** What a seal call decides before it writes. */
  datatype Plan = Refuse(error: Error) | NothingToSeal | Write(record: SealRecord)

  /** What to do with a collected segment. */
  function PlanRecord(env: Env, mem: Memory, g: Gathered, signer: Signer): Plan
    requires mem.sealedThrough < mem.seqNo
  {
    if |g.leaves| != mem.seqNo - mem.sealedThrough then Refuse(BoundsMismatch)
    else if !g.hasNonSeal then NothingToSeal
    else if signer.publicKey.None? then Refuse(AnchorFailed)
    else
      var signed := SignRecord(DraftRecord(env, mem, g, signer), signer);
      if signed.None? then Refuse(AnchorFailed)
      else if mem.sealsSeen == U64_MAX then Refuse(ArithmeticOverflow)
      else Write(signed.value)
  }

  function PlanSeal(env: Env, s: State, signer: Signer): Plan {
    if s.mem.compromised then Refuse(Compromised)
    else if s.mem.sealedThrough == U64_MAX then Refuse(ArithmeticOverflow)
    else if s.mem.seqNo < s.mem.sealedThrough + 1 then NothingToSeal
    else
      var entries := InRange(s.log, s.mem.sealedThrough + 1, s.mem.seqNo);
      var g := Gather(env, s.keys, s.mem.sealsSeen, WriteVersion(s.mem), entries);
      if g.Err? then Refuse(g.error) else PlanRecord(env, s.mem, g.value, signer)
  }

  /** The seal opens the next segment: the counters move before the entry is tried. */
  function Opened(s: State): State {
    if s.mem.sealsSeen == U64_MAX then s
    else s.(mem := s.mem.(sealsSeen := s.mem.sealsSeen + 1, sealedThrough := s.mem.seqNo))
  }

  /** Sealing a legacy segment 0 publishes the base keys of its epochs. */
  function Published(s: State, record: SealRecord): State {
    if record.segment == 0 && s.mem.legacySegment0 then
      s.(mem := s.mem.(revealedEpochs := s.mem.revealedEpochs + record.revealed.Keys))
    else s
  }

  function Seal(env: Env, s: State, signer: Signer, ts: u64): (State, Result<Option<u64>, Error>) {
    match PlanSeal(env, s, signer)
    case Refuse(error) => (s, Err(error))
    case NothingToSeal => (s, Ok(None))
    case Write(record) =>
      var (s', r) := Append(env, Opened(s), SEAL_EVENT, env.renderSeal(record), ts);
      if r.Err? then (s', Err(r.error)) else (Published(s', record), Ok(Some(r.value)))
  }

  // ----- reopening -----

  /** A new handle on the same file with the same keys. */
  function Reopen(env: Env, s: State): (State, Result<(), Error>) {
    var r := Open(env, s.keys, s.log);
    if r.Err? then (s, Err(r.error.error)) else (State(s.log, s.keys, r.value.mem, false), Ok(()))
  }

  // ----- a pass stops at its first error -----

  lemma {:induction false} GatherSticks(env: Env, keys: seq<Digest>, segment: u64, v: u32, entries: seq<Event>, n: nat)
    requires n <= |entries| && Gather(env, keys, segment, v, entries[..n]).Err?
    ensures Gather(env, keys, segment, v, entries) == Gather(env, keys, segment, v, entries[..n])
    decreases |entries|
  {
    hide GatherStep;
    if n == |entries| {
      assert entries[..n] == entries;
    } else {
      var before := entries[..|entries| - 1];
      assert before[..n] == entries[..n];
      GatherSticks(env, keys, segment, v, before, n);
    }
  }

  lemma {:induction false} InRangeGrows(log: seq<Event>, n: nat, lo: nat, hi: nat)
    requires n <= |log|
    ensures InRange(log[..n], lo, hi) <= InRange(log, lo, hi)
    decreases |log|
  {
    if n == |log| {
      assert log[..n] == log;
    } else {
      var before := log[..|log| - 1];
      assert before[..n] == log[..n];
      InRangeGrows(before, n, lo, hi);
    }
  }

  lemma InRangeSnoc(log: seq<Event>, e: Event, lo: nat, hi: nat)
    ensures InRange(log + [e], lo, hi) == InRange(log, lo, hi) + if lo <= e.seqNo <= hi then [e] else []
  {
    assert (log + [e])[..|log|] == log;
  }

  lemma GatherSnoc(env: Env, keys: seq<Digest>, segment: u64, v: u32, entries: seq<Event>, e: Event)
    ensures var g := Gather(env, keys, segment, v, entries);
            Gather(env, keys, segment, v, entries + [e]) == if g.Err? then g else GatherStep(env, keys, segment, v, g.value, e)
  {
    hide GatherStep;
    assert (entries + [e])[..|entries|] == entries;
  }

  /** What a pass has collected after n entries of the file decides the outcome if it is an error. */
  lemma GatherPrefix(env: Env, keys: seq<Digest>, segment: u64, v: u32, log: seq<Event>, n: nat, lo: nat, hi: nat)
    requires n <= |log| && Gather(env, keys, segment, v, InRange(log[..n], lo, hi)).Err?
    ensures Gather(env, keys, segment, v, InRange(log, lo, hi)) == Gather(env, keys, segment, v, InRange(log[..n], lo, hi))
  {
    hide Gather, InRange;
    InRangeGrows(log, n, lo, hi);
    var (part, all) := (InRange(log[..n], lo, hi), InRange(log, lo, hi));
    assert all[..|part|] == part;
    GatherSticks(env, keys, segment, v, all, |part|);
  }

  lemma {:induction false} InRangeLength(log: seq<Event>, lo: nat, hi: nat)
    ensures |InRange(log, lo, hi)| <= |log|
  {
    if log != [] { InRangeLength(log[..|log| - 1], lo, hi); }
  }

  lemma {:induction false} GatherLength(env: Env, keys: seq<Digest>, segment: u64, v: u32, entries: seq<Event>)
    requires Gather(env, keys, segment, v, entries).Ok?
    ensures |Gather(env, keys, segment, v, entries).value.leaves| == |entries|
  {
    if entries != [] {
      hide DecodeHash, EncodeHash, EntryKey;
      GatherLength(env, keys, segment, v, entries[..|entries| - 1]);
    }
  }
}
