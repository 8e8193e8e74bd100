/**
 * Verification without keys. A streaming loop with a segment buffer is shown to accept exactly the logs
 * that satisfy a statement about every entry and every seal.
 */
module PublicVerify {
  import opened Basics
  import opened Hex
  import opened SealRecords
  import opened Events
  import opened Segments
  import opened Merkle

  // ----- the declarative statement -----

  /** Entry e follows `before` in hash and sequence number. */
  predicate Linked(before: seq<Event>, e: Event) {
    DecodeHash(e.prevHash) == Some(Tip(before)) && e.seqNo == |before| + 1 && DecodeHash(e.hash).Some?
  }

  /** The hash an entry must carry under the key a record reveals for its epoch. */
  function ExpectedHash(env: Env, r: SealRecord, e: Event): Option<Digest> {
    if e.epoch !in r.revealed then None else
    var key, prev := DecodeHash(r.revealed[e.epoch]), DecodeHash(e.prevHash);
    if key.None? || prev.None? then None else EventHash(env, e, prev.value, key.value)
  }

  /** The record reveals a key for the entry's epoch, and the entry authenticates under it. */
  predicate Authentic(env: Env, r: SealRecord, e: Event) {
    var expected := ExpectedHash(env, r, e);
    expected.Some? && e.hash == EncodeHash(expected.value)
  }

  ghost predicate AllAuthentic(env: Env, r: SealRecord, segment: seq<Event>) {
    forall j :: 0 <= j < |segment| ==> Authentic(env, r, segment[j])
  }

  /** The record signs its own canonical fields. */
  predicate Signed(env: Env, r: SealRecord) {
    && (r.payload == [] || r.payload == SealPayload(r))
    && env.checkSignature(r.scheme, r.publicKey, r.signature, SealPayload(r)) == Some(true)
  }

  /** The entries of a non-empty segment, its root and its tip are the ones the record claims. */
  ghost predicate Covers(env: Env, r: SealRecord, segment: seq<Event>)
    requires segment != []
  {
    && AllAuthentic(env, r, segment)
    && r.merkleRoot == EncodeHash(Mth(env.TreeHasher(), Leaves(segment)))
    && r.tipHash == segment[|segment| - 1].hash
  }

  /** Record r closes a non-empty segment that starts at sequence number `start`. */
  ghost predicate Closes(env: Env, r: SealRecord, segment: seq<Event>, count: nat, start: nat, prevSeal: Bytes,
                         anchor: Option<(Bytes, Bytes)>) {
    && r.segment == count
    && r.prevSeal == prevSeal
    && segment != [] && r.startSeq == start && r.endSeq == start + |segment| - 1
    && Covers(env, r, segment)
    && (anchor.Some? ==> anchor == Some((r.scheme, r.publicKey)))
    && Signed(env, r)
  }

  /** Seal event e closes exactly what follows the previous seal of `before`. */
  ghost predicate SealHolds(env: Env, before: seq<Event>, e: Event) {
    var r := env.parseSeal(e.body);
    r.Some? && Closes(env, r.value, before[SegmentStart(before)..], SealCount(before), SegmentStart(before) + 1,
                      PrevSealHash(before), Anchor(env, before))
  }

  ghost predicate EntryHolds(env: Env, before: seq<Event>, e: Event) {
    Linked(before, e) && (IsSeal(e) ==> SealHolds(env, before, e))
  }

  /** Every entry is linked to the one before it, and every seal closes the segment before it. */
  ghost predicate PublicOk(env: Env, log: seq<Event>) {
    forall i :: 0 <= i < |log| ==> EntryHolds(env, log[..i], log[i])
  }

  lemma PublicOkSnoc(env: Env, log: seq<Event>, e: Event)
    ensures PublicOk(env, log + [e]) <==> PublicOk(env, log) && EntryHolds(env, log, e)
  {
    hide EntryHolds;
    var s := log + [e];
    assert s[..|log|] == log && s[|log|] == e;
    forall i | 0 <= i < |log| ensures s[..i] == log[..i] && s[i] == log[i] { }
    if PublicOk(env, s) {
      assert EntryHolds(env, s[..|log|], s[|log|]);
      forall i | 0 <= i < |log| ensures EntryHolds(env, log[..i], log[i]) {
        assert EntryHolds(env, s[..i], s[i]);
      }
    }
  }

  // ----- the streaming verifier -----

  datatype Fault =
    | OutOfOrder | PrevSealMismatch | BoundsMismatch | EntryFault(entry: EntryFault) | RootMismatch | TipMismatch
    | AnchorChanged | PayloadMismatch | NotCheckable | SignatureInvalid

  datatype EntryFault =
    | BadPrevHash | KeyNotRevealed(epoch: u32) | MalformedKey | UnsupportedVersion(v: u32) | EntryFails(seqNo: u64)

  /** Entry j is the first of the segment that does not authenticate; earlier reasons do not apply to it. */
  ghost predicate FirstBad(env: Env, r: SealRecord, segment: seq<Event>, j: int, fault: EntryFault) {
    && 0 <= j < |segment| && AllAuthentic(env, r, segment[..j]) && !Authentic(env, r, segment[j])
    && var e := segment[j];
       && (fault == BadPrevHash <==> DecodeHash(e.prevHash).None?)
       && match fault
          case BadPrevHash => j == 0
          case KeyNotRevealed(epoch) => epoch == e.epoch && epoch !in r.revealed
          case MalformedKey => e.epoch in r.revealed && DecodeHash(r.revealed[e.epoch]).None?
          case UnsupportedVersion(v) =>
            && e.epoch in r.revealed && DecodeHash(r.revealed[e.epoch]).Some?
            && v == e.v && v != 1 && v != 2 && v != 3
          case EntryFails(seqNo) => seqNo == e.seqNo && ExpectedHash(env, r, e).Some?
  }

  /** What a reported fault says about the record: its condition fails, and those checked before it hold. */
  ghost predicate Explains(env: Env, fault: Fault, r: SealRecord, segment: seq<Event>, count: nat, start: nat,
                           prevSeal: Bytes, anchor: Option<(Bytes, Bytes)>) {
    var bounds := segment != [] && r.startSeq == start && r.endSeq == start + |segment| - 1;
    match fault
    case OutOfOrder => r.segment != count
    case PrevSealMismatch => r.segment == count && r.prevSeal != prevSeal
    case BoundsMismatch => r.segment == count && r.prevSeal == prevSeal && !bounds
    case _ =>
      && r.segment == count && r.prevSeal == prevSeal && bounds
      && if fault.EntryFault? || fault.RootMismatch? || fault.TipMismatch? then ExplainsCover(env, fault, r, segment)
         else Covers(env, r, segment) && ExplainsIdentity(env, fault, r, anchor)
  }

  ghost predicate ExplainsCover(env: Env, fault: Fault, r: SealRecord, segment: seq<Event>)
    requires segment != []
  {
    var root := EncodeHash(Mth(env.TreeHasher(), Leaves(segment)));
    match fault
    case EntryFault(entry) => exists j :: FirstBad(env, r, segment, j, entry)
    case RootMismatch => AllAuthentic(env, r, segment) && r.merkleRoot != root
    case TipMismatch =>
      AllAuthentic(env, r, segment) && r.merkleRoot == root && r.tipHash != segment[|segment| - 1].hash
    case _ => false
  }

  ghost predicate ExplainsIdentity(env: Env, fault: Fault, r: SealRecord, anchor: Option<(Bytes, Bytes)>) {
    var pinned := anchor.Some? ==> anchor.value == (r.scheme, r.publicKey);
    var canonical := r.payload == [] || r.payload == SealPayload(r);
    var checked := env.checkSignature(r.scheme, r.publicKey, r.signature, SealPayload(r));
    match fault
    case AnchorChanged => !pinned
    case PayloadMismatch => pinned && !canonical
    case NotCheckable => pinned && canonical && checked == None
    case SignatureInvalid => pinned && canonical && checked == Some(false)
    case _ => false
  }

  /** Every error names the line it was found on. */
  datatype PublicError =
    | InvalidLine(line: nat)
    | BrokenChain(line: nat)
    | Verification(line: nat, fault: Fault)

  datatype Report = Report(sealedEntries: nat, unsealedEntries: nat, segments: nat, anchor: Option<(Bytes, Bytes)>)

  /** Each entry of a segment names the hash of the one before it. */
  predicate Chained(segment: seq<Event>) {
    forall j :: 0 < j < |segment| ==>
      DecodeHash(segment[j].prevHash).Some? && DecodeHash(segment[j].prevHash) == DecodeHash(segment[j - 1].hash)
  }

  method CheckSegmentEntries(env: Env, seal: SealRecord, buffer: seq<Event>)
    returns (fault: Option<EntryFault>, leaves: seq<Digest>)
    requires buffer != [] && Chained(buffer)
    ensures fault.None? <==> AllAuthentic(env, seal, buffer)
    ensures fault.Some? ==> exists j :: FirstBad(env, seal, buffer, j, fault.value)
    ensures fault.None? ==> leaves == Leaves(buffer) && buffer[|buffer| - 1].hash == EncodeHash(leaves[|leaves| - 1])
  {
    hide EventHash, EncodeHash, DecodeHash, AllAuthentic;
    leaves := [];
    var first := DecodeHash(buffer[0].prevHash);
    NoneBad(env, seal);
    assert buffer[..0] == [];
    if first.None? {
      BadEntry(env, seal, buffer, 0, BadPrevHash);
      return Some(BadPrevHash), [];
    }
    var prev := first.value;
    for i := 0 to |buffer|
      invariant AllAuthentic(env, seal, buffer[..i])
      invariant leaves == Leaves(buffer[..i])
      invariant i < |buffer| ==> DecodeHash(buffer[i].prevHash) == Some(prev)
      invariant i > 0 ==> buffer[i - 1].hash == EncodeHash(leaves[i - 1])
    {
      var e := buffer[i];
      if e.epoch !in seal.revealed {
        BadEntry(env, seal, buffer, i, KeyNotRevealed(e.epoch));
        return Some(KeyNotRevealed(e.epoch)), [];
      }
      var key := DecodeHash(seal.revealed[e.epoch]);
      if key.None? {
        BadEntry(env, seal, buffer, i, MalformedKey);
        return Some(MalformedKey), [];
      }
      var expected := EventHash(env, e, prev, key.value);
      if expected.None? {
        Unsupported(env, e, prev, key.value);
        BadEntry(env, seal, buffer, i, UnsupportedVersion(e.v));
        return Some(UnsupportedVersion(e.v)), [];
      }
      if e.hash != EncodeHash(expected.value) {
        BadEntry(env, seal, buffer, i, EntryFails(e.seqNo));
        return Some(EntryFails(e.seqNo)), [];
      }
      HashRoundTrip(expected.value);
      MoreAuthentic(env, seal, buffer, i);
      assert buffer[..i + 1][..i] == buffer[..i];
      prev := expected.value;
      leaves := leaves + [prev];
    }
    assert buffer[..|buffer|] == buffer;
    return None, leaves;
  }

  lemma NoneBad(env: Env, r: SealRecord)
    ensures AllAuthentic(env, r, [])
  {
  }

  lemma Unsupported(env: Env, e: Event, prev: Digest, key: Digest)
    ensures EventHash(env, e, prev, key).None? <==> e.v != 1 && e.v != 2 && e.v != 3
  {
  }

  lemma MoreAuthentic(env: Env, r: SealRecord, segment: seq<Event>, i: nat)
    requires i < |segment| && AllAuthentic(env, r, segment[..i]) && Authentic(env, r, segment[i])
    ensures AllAuthentic(env, r, segment[..i + 1])
  {
    hide Authentic;
    var longer := segment[..i + 1];
    forall j | 0 <= j < |longer| ensures Authentic(env, r, longer[j]) {
      if j < i { assert Authentic(env, r, segment[..i][j]); }
    }
  }

  lemma BadEntry(env: Env, r: SealRecord, segment: seq<Event>, i: nat, fault: EntryFault)
    requires FirstBad(env, r, segment, i, fault)
    ensures !AllAuthentic(env, r, segment) && exists j :: FirstBad(env, r, segment, j, fault)
  {
    hide Authentic, DecodeHash, ExpectedHash;
  }

  method CheckCover(env: Env, seal: SealRecord, buffer: seq<Event>) returns (fault: Option<Fault>)
    requires buffer != [] && Chained(buffer) && |buffer| <= TWO63
    ensures fault.None? <==> Covers(env, seal, buffer)
    ensures fault.Some? ==> ExplainsCover(env, fault.value, seal, buffer)
  {
    hide Mth, Leaves, AllAuthentic, FirstBad, EncodeHash, DecodeHash, Chained;
    var bad, leaves := CheckSegmentEntries(env, seal, buffer);
    if bad.Some? {
      return Some(EntryFault(bad.value));
    }
    var root := ComputeMth(env.TreeHasher(), leaves);
    if EncodeHash(root) != seal.merkleRoot {
      return Some(RootMismatch);
    }
    if EncodeHash(leaves[|leaves| - 1]) != seal.tipHash {
      return Some(TipMismatch);
    }
    return None;
  }

  method FinishSegment(env: Env, seal: SealRecord, buffer: seq<Event>, sealsSeen: u64, segmentStart: u64,
                       prevSealHash: Bytes, anchor: Option<(Bytes, Bytes)>) returns (fault: Option<Fault>)
    requires Chained(buffer) && |buffer| <= TWO63
    ensures fault.None? <==> Closes(env, seal, buffer, sealsSeen, segmentStart, prevSealHash, anchor)
    ensures fault.Some? ==> Explains(env, fault.value, seal, buffer, sealsSeen, segmentStart, prevSealHash, anchor)
  {
    if seal.segment != sealsSeen {
      return Some(OutOfOrder);
    }
    if seal.prevSeal != prevSealHash {
      return Some(PrevSealMismatch);
    }
    if buffer == [] || seal.startSeq != segmentStart || seal.endSeq != segmentStart + |buffer| - 1 {
      return Some(BoundsMismatch);
    }
    hide Covers, ExplainsCover, Signed, ExplainsIdentity, Chained;
    fault := CheckCover(env, seal, buffer);
    if fault.Some? {
      return;
    }
    fault := CheckIdentity(env, seal, anchor);
  }

  /** The identity is the pinned one and its signature covers the canonical payload. */
  method CheckIdentity(env: Env, seal: SealRecord, anchor: Option<(Bytes, Bytes)>) returns (fault: Option<Fault>)
    ensures fault.None? <==> (anchor.Some? ==> anchor == Some((seal.scheme, seal.publicKey))) && Signed(env, seal)
    ensures fault.Some? ==> ExplainsIdentity(env, fault.value, seal, anchor)
  {
    hide SealPayload;
    if anchor.Some? && anchor.value != (seal.scheme, seal.publicKey) {
      return Some(AnchorChanged);
    }
    // a stored payload must be the canonical one, or a signature over other text could be replayed
    var canonical := SealPayload(seal);
    if seal.payload != [] && seal.payload != canonical {
      return Some(PayloadMismatch);
    }
    var checked := env.checkSignature(seal.scheme, seal.publicKey, seal.signature, canonical);
    if checked.None? {
      return Some(NotCheckable);
    }
    return if checked.value then None else Some(SignatureInvalid);
  }

  /** A linked log chains every slice of itself. */
  lemma LinkedIsChained(env: Env, log: seq<Event>, start: nat)
    requires PublicOk(env, log) && start <= |log|
    ensures Chained(log[start..])
  {
    hide SealHolds, DecodeHash;
    var segment := log[start..];
    forall j | 0 < j < |segment|
      ensures DecodeHash(segment[j].prevHash).Some? && DecodeHash(segment[j].prevHash) == DecodeHash(segment[j - 1].hash)
    {
      assert EntryHolds(env, log[..start + j], log[start + j]);
      assert EntryHolds(env, log[..start + j - 1], log[start + j - 1]);
    }
  }

  /** Sealed entries, the open segment and the seals, as the report counts them. */
  function ReportOf(env: Env, log: seq<Event>): Report {
    Report(SegmentStart(log), |log| - SegmentStart(log), SealCount(log), Anchor(env, log))
  }

  /** The error names the first entry that breaks the statement, and how. */
  ghost predicate StopsAt(env: Env, log: seq<Event>, error: PublicError) {
    error.line < |log| && PublicOk(env, log[..error.line]) && Breaks(env, log[..error.line], log[error.line], error)
  }

  ghost predicate Breaks(env: Env, before: seq<Event>, e: Event, error: PublicError) {
    match error
    case InvalidLine(_) =>
      || DecodeHash(e.prevHash).None?
      || (DecodeHash(e.prevHash) == Some(Tip(before)) && e.seqNo == |before| + 1
          && (DecodeHash(e.hash).None? || (IsSeal(e) && env.parseSeal(e.body).None?)))
    case BrokenChain(_) =>
      DecodeHash(e.prevHash).Some? && (DecodeHash(e.prevHash) != Some(Tip(before)) || e.seqNo != |before| + 1)
    case Verification(_, fault) =>
      Linked(before, e) && IsSeal(e) && env.parseSeal(e.body).Some? && !SealHolds(env, before, e)
      && Explains(env, fault, env.parseSeal(e.body).value, before[SegmentStart(before)..], SealCount(before),
                  SegmentStart(before) + 1, PrevSealHash(before), Anchor(env, before))
  }

  /** Whatever the error, the entry it names does not hold, so neither does any log that starts this way. */
  lemma BreaksFails(env: Env, before: seq<Event>, e: Event, error: PublicError)
    requires Breaks(env, before, e, error)
    ensures !EntryHolds(env, before, e)
  {
    hide DecodeHash, Tip, SealHolds, Explains, SealCount, SegmentStart, PrevSealHash, Anchor;
    if !error.Verification? && EntryHolds(env, before, e) && IsSeal(e) { NeedsRecord(env, before, e); }
  }

  lemma NeedsRecord(env: Env, before: seq<Event>, e: Event)
    requires SealHolds(env, before, e)
    ensures env.parseSeal(e.body).Some?
  {
  }

  /** The verifier accepts exactly the logs for which the statement holds, and stops at the first entry that breaks it. */
  method VerifyPublic(env: Env, log: seq<Event>) returns (r: Result<Report, PublicError>)
    requires |log| <= TWO63
    ensures r.Ok? <==> PublicOk(env, log)
    ensures r.Ok? ==> r.value == ReportOf(env, log)
    ensures r.Err? ==> StopsAt(env, log, r.error)
  {
    hide SealCount, SegmentStart, PrevSealHash, Anchor, Tip, Leaves, DecodeHash, Closes, Explains, PublicOk, StopsAt;
    var sealsSeen, lastHash, buffer, segmentStart, sealedEntries := 0, ZERO_DIGEST, [], 1, 0;
    var prevSealHash: Bytes, anchor: Option<(Bytes, Bytes)> := [], None;
    var expectedSeq := 1;
    EmptyLog(env);
    assert log[..0] == [];
    for i := 0 to |log|
      invariant PublicOk(env, log[..i])
      invariant sealsSeen == SealCount(log[..i]) && lastHash == Tip(log[..i]) && expectedSeq == i + 1
      invariant segmentStart == SegmentStart(log[..i]) + 1 && sealedEntries == SegmentStart(log[..i])
      invariant buffer == log[..i][SegmentStart(log[..i])..]
      invariant prevSealHash == PrevSealHash(log[..i]) && anchor == Anchor(env, log[..i])
    {
      ghost var before := log[..i];
      var event := log[i];
      assert log[..i + 1] == before + [event];
      PublicOkSnoc(env, before, event);
      Snoc(env, before, event);
      var prevHash := DecodeHash(event.prevHash);
      if prevHash.None? {
        StopsHere(env, log, i, InvalidLine(i));
        return Err(InvalidLine(i));
      }
      if prevHash.value != lastHash || event.seqNo != expectedSeq {
        StopsHere(env, log, i, BrokenChain(i));
        return Err(BrokenChain(i));
      }
      expectedSeq := expectedSeq + 1;
      var hash := DecodeHash(event.hash);
      if hash.None? {
        StopsHere(env, log, i, InvalidLine(i));
        return Err(InvalidLine(i));
      }
      lastHash := hash.value;
      if event.eventType == SEAL_EVENT {
        var seal := env.parseSeal(event.body);
        if seal.None? {
          StopsHere(env, log, i, InvalidLine(i));
          return Err(InvalidLine(i));
        }
        LinkedIsChained(env, before, SegmentStart(before));
        var fault := FinishSegment(env, seal.value, buffer, sealsSeen, segmentStart, prevSealHash, anchor);
        if fault.Some? {
          StopsHere(env, log, i, Verification(i, fault.value));
          return Err(Verification(i, fault.value));
        }
        if anchor.None? {
          anchor := Some((seal.value.scheme, seal.value.publicKey));
        }
        sealedEntries := sealedEntries + |buffer|;
        buffer := [];
        prevSealHash := event.hash;
        sealsSeen := sealsSeen + 1;
        segmentStart := event.seqNo;
      }
      buffer := buffer + [event];
    }
    assert log[..|log|] == log;
    return Ok(Report(sealedEntries, |buffer|, sealsSeen, anchor));
  }

  lemma EmptyLog(env: Env)
    ensures PublicOk(env, []) && SealCount([]) == 0 && Tip([]) == ZERO_DIGEST && SegmentStart([]) == 0
    ensures PrevSealHash([]) == [] && Anchor(env, []) == None
  {
  }

  lemma StopsHere(env: Env, log: seq<Event>, i: nat, error: PublicError)
    requires i < |log| && error.line == i && PublicOk(env, log[..i]) && Breaks(env, log[..i], log[i], error)
    ensures StopsAt(env, log, error) && !PublicOk(env, log)
  {
    hide Breaks, EntryHolds;
    BreaksFails(env, log[..i], log[i], error);
  }
}
