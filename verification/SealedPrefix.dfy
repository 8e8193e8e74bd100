/**
 * What a publicly accepted seal says about everything before it: the blocks of the seals partition the
 * sealed prefix, and the tip hash of one seal fixes every entry back to the first.
 */
module SealedPrefix {
  import opened Basics
  import opened Hex
  import opened SealRecords
  import opened Events
  import opened Segments
  import opened Merkle
  import opened PublicVerify

  /** Position of the first seal at or after j. */
  function NextSeal(log: seq<Event>, j: nat): (q: nat)
    requires j <= |log|
    ensures j <= q <= |log| && (q < |log| ==> IsSeal(log[q]))
    ensures forall i :: j <= i < q ==> !IsSeal(log[i])
    decreases |log| - j
  {
    if j == |log| || IsSeal(log[j]) then j else NextSeal(log, j + 1)
  }

  /** The segment closed by the next seal starts at or before the entry, so it contains the entry. */
  lemma {:induction false} SegmentContains(log: seq<Event>, j: nat, q: nat)
    requires j < q <= |log| && forall i :: j < i < q ==> !IsSeal(log[i])
    ensures SegmentStart(log[..q]) <= j
    decreases q
  {
    assert log[..q][..q - 1] == log[..q - 1];
    if q - 1 > j {
      SegmentContains(log, j, q - 1);
    } else if j > 0 {
      assert log[..j] != [];
    }
  }

  /** No entry is covered by two seals: the seal that covers entry j is the next one after it. */
  lemma CoverIsUnique(log: seq<Event>, j: nat, q: nat)
    requires j < q < |log| && IsSeal(log[q]) && SegmentStart(log[..q]) <= j
    ensures q == NextSeal(log, j + 1)
  {
    NoSealInside(log, q);
  }

  lemma {:induction false} NoSealInside(log: seq<Event>, q: nat)
    requires q <= |log|
    ensures forall i :: SegmentStart(log[..q]) < i < q ==> !IsSeal(log[i])
  {
    if q > 0 {
      assert log[..q][..q - 1] == log[..q - 1];
      NoSealInside(log, q - 1);
    }
  }

  // ----- every sealed entry is authenticated -----

  /** The record of the seal that covers entry j. */
  function CoveringRecord(env: Env, log: seq<Event>, j: nat): Option<SealRecord>
    requires j < |log|
  {
    var q := NextSeal(log, j + 1);
    if q < |log| then env.parseSeal(log[q].body) else None
  }

  /** In an accepted log every entry before a seal is covered by a record that authenticates it. */
  lemma SealedIsAuthentic(env: Env, log: seq<Event>, p: nat, j: nat)
    requires PublicOk(env, log) && j < p < |log| && IsSeal(log[p])
    ensures NextSeal(log, j + 1) <= p
    ensures CoveringRecord(env, log, j).Some? && Authentic(env, CoveringRecord(env, log, j).value, log[j])
  {
    hide Authentic, SegmentStart, SealCount, PrevSealHash, Anchor, Signed, Linked, Leaves;
    var q := NextSeal(log, j + 1);
    SegmentContains(log, j, q);
    assert EntryHolds(env, log[..q], log[q]);
    var start := SegmentStart(log[..q]);
    assert log[..q][start..][j - start] == log[j];
  }

  /** Entry j follows its predecessor. */
  lemma LinkedAt(env: Env, log: seq<Event>, j: nat)
    requires PublicOk(env, log) && j < |log|
    ensures Linked(log[..j], log[j])
  {
    hide SealHolds, Linked;
    assert EntryHolds(env, log[..j], log[j]);
  }

  // ----- what acceptance says of each seal and of the whole log -----

  /** The seals among the first n entries. */
  ghost function SealsBefore(log: seq<Event>, n: nat): set<nat>
    requires n <= |log|
  {
    set i: nat | i < n && IsSeal(log[i])
  }

  lemma {:induction false} SealCountIsSize(log: seq<Event>, n: nat)
    requires n <= |log|
    ensures SealCount(log[..n]) == |SealsBefore(log, n)|
  {
    if n > 0 {
      hide *;
      SealCountIsSize(log, n - 1);
      SealsNext(log, n - 1);
      CountNext(log, n - 1);
    }
  }

  lemma SealsNext(log: seq<Event>, n: nat)
    requires n < |log|
    ensures |SealsBefore(log, n + 1)| == |SealsBefore(log, n)| + if IsSeal(log[n]) then 1 else 0
  {
    hide IsSeal;
    var s := SealsBefore(log, n);
    assert SealsBefore(log, n + 1) == if IsSeal(log[n]) then s + {n} else s;
  }

  lemma CountNext(log: seq<Event>, n: nat)
    requires n < |log|
    ensures SealCount(log[..n + 1]) == SealCount(log[..n]) + if IsSeal(log[n]) then 1 else 0
  {
    hide IsSeal;
    assert log[..n + 1][..n] == log[..n];
  }

  /** Position q opens the segment that position p closes: the last seal before p, or the start of the log. */
  predicate OpensSegment(log: seq<Event>, q: nat, p: nat) {
    q < p <= |log| && (q == 0 || IsSeal(log[q])) && forall i :: q < i < p ==> !IsSeal(log[i])
  }

  lemma SegmentOpens(log: seq<Event>, p: nat)
    requires 0 < p <= |log|
    ensures OpensSegment(log, SegmentStart(log[..p]), p)
  {
    hide SegmentStart, IsSeal;
    NoSealInside(log, p);
    SegmentStartIsSeal(log[..p]);
  }

  lemma OpensIsStart(log: seq<Event>, q: nat, p: nat)
    requires OpensSegment(log, q, p)
    ensures q == SegmentStart(log[..p])
  {
    hide SegmentStart, IsSeal;
    SegmentContains(log, q, p);
    SegmentOpens(log, p);
  }

  /** Position f is the first seal of the log. */
  predicate FirstSeal(log: seq<Event>, f: nat) {
    f < |log| && IsSeal(log[f]) && forall i :: 0 <= i < f ==> !IsSeal(log[i])
  }

  lemma {:induction false} AnchorIsFirst(env: Env, log: seq<Event>, f: nat, n: nat)
    requires FirstSeal(log, f) && n <= |log|
    ensures var r := env.parseSeal(log[f].body);
            n > f && r.Some? ==> Anchor(env, log[..n]) == Some((r.value.scheme, r.value.publicKey))
    ensures n <= f ==> Anchor(env, log[..n]) == None && SealCount(log[..n]) == 0
  {
    if n > 0 {
      hide IsSeal, Anchor, SealCount, SegmentStart, PrevSealHash, Leaves, Tip;
      AnchorIsFirst(env, log, f, n - 1);
      assert log[..n] == log[..n - 1] + [log[n - 1]];
      Snoc(env, log[..n - 1], log[n - 1]);
    }
  }

  /** The hash of the last seal before p, which opens p's segment at q; empty if there is none. */
  function OpenerHash(log: seq<Event>, q: nat): Bytes
    requires q < |log|
  {
    if IsSeal(log[q]) then log[q].hash else []
  }

  /** What the running values are at position p, in terms of the seals around it. */
  lemma PlaceOf(env: Env, log: seq<Event>, p: nat, q: nat, f: nat)
    requires OpensSegment(log, q, p) && FirstSeal(log, f)
    ensures SegmentStart(log[..p]) == q && SealCount(log[..p]) == |SealsBefore(log, p)|
    ensures PrevSealHash(log[..p]) == OpenerHash(log, q)
    ensures p <= f ==> Anchor(env, log[..p]) == None
    ensures var r := env.parseSeal(log[f].body);
            f < p && r.Some? ==> Anchor(env, log[..p]) == Some((r.value.scheme, r.value.publicKey))
    ensures log[..p][SegmentStart(log[..p])..] == log[q..p]
  {
    hide SegmentStart, SealCount, Anchor, IsSeal;
    OpensIsStart(log, q, p);
    SealCountIsSize(log, p);
    AnchorIsFirst(env, log, f, p);
    SegmentStartIsSeal(log[..p]);
    assert IsSeal(log[q]) ==> q in SealsBefore(log, p);
  }

  /** The record reveals a key under which entry e carries its MAC after the hash it names. */
  predicate CarriesMac(env: Env, r: SealRecord, e: Event) {
    && e.epoch in r.revealed && DecodeHash(r.revealed[e.epoch]).Some? && DecodeHash(e.prevHash).Some?
    && var hash := EventHash(env, e, DecodeHash(e.prevHash).value, DecodeHash(r.revealed[e.epoch]).value);
       hash.Some? && e.hash == EncodeHash(hash.value)
  }

  /**
   * The record of the seal at p, with q the position that opens its segment and f the first seal: it counts
   * the seals before it, covers exactly the entries from q on and names the hash of the seal at q, has their
   * keys, root and tip, carries its own canonical payload or none, and is signed over that payload by the
   * identity of the first seal.
   */
  ghost predicate RecordFits(env: Env, log: seq<Event>, p: nat, q: nat, f: nat)
    requires q < p < |log| && f < |log|
  {
    var (parsed, first) := (env.parseSeal(log[p].body), env.parseSeal(log[f].body));
    && parsed.Some? && first.Some?
    && var r := parsed.value;
       && r.segment == |SealsBefore(log, p)| && r.startSeq == q + 1 && r.endSeq == p
       && r.prevSeal == OpenerHash(log, q)
       && (forall j :: q <= j < p ==> CarriesMac(env, r, log[j]))
       && r.merkleRoot == EncodeHash(Mth(env.TreeHasher(), Leaves(log[q..p])))
       && r.tipHash == log[p - 1].hash
       && r.scheme == first.value.scheme && r.publicKey == first.value.publicKey
       && (r.payload == [] || r.payload == SealPayload(r))
       && env.checkSignature(r.scheme, r.publicKey, r.signature, SealPayload(r)) == Some(true)
  }

  /** Entry i has its number, a hash that decodes, and names the hash of the entry before it, or 32 zero bytes. */
  predicate InChain(log: seq<Event>, i: nat)
    requires i < |log|
  {
    && log[i].seqNo == i + 1 && DecodeHash(log[i].hash).Some?
    && DecodeHash(log[i].prevHash) == if i == 0 then Some(Digest(Zeros(32))) else DecodeHash(log[i - 1].hash)
  }

  /** The seal at p has a segment to close, and a record that fits it. */
  ghost predicate SealFits(env: Env, log: seq<Event>, p: nat)
    requires p < |log|
  {
    exists q: nat, f: nat :: OpensSegment(log, q, p) && FirstSeal(log, f) && RecordFits(env, log, p, q, f)
  }

  lemma CoverIs(env: Env, r: SealRecord, log: seq<Event>, q: nat, p: nat)
    requires q < p <= |log|
    ensures Covers(env, r, log[q..p]) <==>
            && (forall j :: q <= j < p ==> CarriesMac(env, r, log[j]))
            && r.merkleRoot == EncodeHash(Mth(env.TreeHasher(), Leaves(log[q..p])))
            && r.tipHash == log[p - 1].hash
  {
    hide EventHash, EncodeHash, DecodeHash, Mth, Leaves;
    var segment := log[q..p];
    assert forall j :: q <= j < p ==> log[j] == segment[j - q];
    assert forall j :: 0 <= j < |segment| ==> segment[j] == log[q + j];
  }

  lemma RecordIs(env: Env, log: seq<Event>, p: nat, q: nat, f: nat)
    requires p < |log| && IsSeal(log[p]) && OpensSegment(log, q, p) && FirstSeal(log, f)
    requires env.parseSeal(log[f].body).Some?
    ensures SealHolds(env, log[..p], log[p]) <==> RecordFits(env, log, p, q, f)
  {
    hide CarriesMac, Mth, Leaves, SegmentStart, SealCount, PrevSealHash, Anchor, EncodeHash, SealPayload, IsSeal,
         Covers, SealsBefore, OpenerHash;
    PlaceOf(env, log, p, q, f);
    var r := env.parseSeal(log[p].body);
    if r.Some? { CoverIs(env, r.value, log, q, p); }
  }

  /** The first seal of an accepted log has a record. */
  lemma HeldSealParses(env: Env, before: seq<Event>, e: Event)
    requires SealHolds(env, before, e)
    ensures env.parseSeal(e.body).Some? && before != []
  {
    hide Covers, Signed, SegmentStart, SealCount, PrevSealHash, Anchor;
  }

  lemma {:induction false} FirstSealExists(log: seq<Event>, p: nat) returns (f: nat)
    requires p < |log| && IsSeal(log[p])
    ensures f <= p && FirstSeal(log, f)
  {
    hide IsSeal;
    f := NextSeal(log, 0);
  }

  lemma FitsParses(env: Env, log: seq<Event>, p: nat, q: nat, f: nat)
    requires q < p < |log| && f < |log| && RecordFits(env, log, p, q, f)
    ensures env.parseSeal(log[f].body).Some?
  {
    hide CarriesMac, SealsBefore, OpenerHash, SealPayload, Mth, Leaves;
  }

  lemma SealIs(env: Env, log: seq<Event>, p: nat)
    requires p < |log| && IsSeal(log[p])
    requires forall f: nat :: FirstSeal(log, f) && f < p ==> env.parseSeal(log[f].body).Some?
    ensures SealHolds(env, log[..p], log[p]) <==> SealFits(env, log, p)
  {
    hide SealHolds, RecordFits, IsSeal, SegmentStart;
    var f := FirstSealExists(log, p);
    if SealHolds(env, log[..p], log[p]) {
      HeldSealParses(env, log[..p], log[p]);
      SegmentOpens(log, p);
      RecordIs(env, log, p, SegmentStart(log[..p]), f);
      OpensBefore(log, SegmentStart(log[..p]), p);
    }
    if SealFits(env, log, p) {
      var q: nat, g: nat :| OpensSegment(log, q, p) && FirstSeal(log, g) && RecordFits(env, log, p, q, g);
      OpensBefore(log, q, p);
      FitsParses(env, log, p, q, g);
      RecordIs(env, log, p, q, g);
    }
  }

  lemma OpensBefore(log: seq<Event>, q: nat, p: nat)
    requires OpensSegment(log, q, p)
    ensures q < p
  {
  }

  lemma ChainIs(log: seq<Event>, i: nat)
    requires i < |log| && (i > 0 ==> DecodeHash(log[i - 1].hash).Some?)
    ensures Linked(log[..i], log[i]) <==> InChain(log, i)
  {
    hide DecodeHash;
  }

  /**
   * The public verifier's statement, said without running values: every entry is in the chain and every
   * seal's record fits. Nothing else is asked of a log, and nothing less.
   */
  lemma AcceptedIff(env: Env, log: seq<Event>)
    ensures PublicOk(env, log) <==>
            && (forall i :: 0 <= i < |log| ==> InChain(log, i))
            && (forall p :: 0 <= p < |log| && IsSeal(log[p]) ==> SealFits(env, log, p))
  {
    hide SealHolds, SealFits, Linked, InChain, FirstSeal, IsSeal;
    if PublicOk(env, log) {
      forall i | 0 <= i < |log| ensures InChain(log, i) && (IsSeal(log[i]) ==> SealFits(env, log, i)) {
        AcceptedEntry(env, log, i);
      }
    }
    if (forall i :: 0 <= i < |log| ==> InChain(log, i))
       && (forall p :: 0 <= p < |log| && IsSeal(log[p]) ==> SealFits(env, log, p)) {
      forall i | 0 <= i < |log| ensures EntryHolds(env, log[..i], log[i]) {
        FittingEntry(env, log, i);
      }
    }
  }

  lemma AcceptedEntry(env: Env, log: seq<Event>, i: nat)
    requires PublicOk(env, log) && i < |log|
    ensures InChain(log, i) && (IsSeal(log[i]) ==> SealFits(env, log, i))
  {
    hide SealHolds, SealFits, InChain, FirstSeal, IsSeal, DecodeHash;
    assert EntryHolds(env, log[..i], log[i]);
    if i > 0 { assert EntryHolds(env, log[..i - 1], log[i - 1]); }
    ChainIs(log, i);
    if IsSeal(log[i]) {
      forall f: nat | FirstSeal(log, f) && f < i ensures env.parseSeal(log[f].body).Some? {
        FirstIsSeal(log, f);
        assert EntryHolds(env, log[..f], log[f]);
        HeldSealParses(env, log[..f], log[f]);
      }
      SealIs(env, log, i);
    }
  }

  lemma FirstIsSeal(log: seq<Event>, f: nat)
    requires FirstSeal(log, f)
    ensures f < |log| && IsSeal(log[f])
  {
  }

  lemma FittingEntry(env: Env, log: seq<Event>, i: nat)
    requires i < |log| && forall j :: 0 <= j < |log| ==> InChain(log, j)
    requires forall p :: 0 <= p < |log| && IsSeal(log[p]) ==> SealFits(env, log, p)
    ensures EntryHolds(env, log[..i], log[i])
  {
    hide SealHolds, SealFits, InChain, FirstSeal, IsSeal, DecodeHash, Linked;
    if i > 0 { DecodesInChain(log, i - 1); }
    assert InChain(log, i);
    ChainIs(log, i);
    if IsSeal(log[i]) {
      forall f: nat | FirstSeal(log, f) && f < i ensures env.parseSeal(log[f].body).Some? {
        FirstIsSeal(log, f);
        FittingParses(env, log, f);
      }
      SealIs(env, log, i);
    }
  }

  lemma DecodesInChain(log: seq<Event>, i: nat)
    requires i < |log| && InChain(log, i)
    ensures DecodeHash(log[i].hash).Some?
  {
    hide DecodeHash;
  }

  lemma FittingParses(env: Env, log: seq<Event>, p: nat)
    requires p < |log| && SealFits(env, log, p)
    ensures env.parseSeal(log[p].body).Some?
  {
    hide CarriesMac, SealsBefore, OpenerHash, SealPayload, Mth, Leaves, FirstSeal;
  }

  /**
   * What acceptance says of the seal at position p: its record counts the seals before it, covers exactly the
   * entries since the last of them and names its hash, has their root and tip, carries its own canonical
   * payload or none, and is signed over that payload by the identity of the first seal of the log.
   */
  lemma AcceptedSeal(env: Env, log: seq<Event>, p: nat, q: nat, f: nat)
    requires PublicOk(env, log) && p < |log| && IsSeal(log[p]) && OpensSegment(log, q, p) && FirstSeal(log, f)
    ensures env.parseSeal(log[p].body).Some? && env.parseSeal(log[f].body).Some?
    ensures var (r, first) := (env.parseSeal(log[p].body).value, env.parseSeal(log[f].body).value);
            && env.checkSignature(r.scheme, r.publicKey, r.signature, SealPayload(r)) == Some(true)
            && (r.payload == [] || r.payload == SealPayload(r))
            && r.scheme == first.scheme && r.publicKey == first.publicKey
            && r.segment == |set i: nat | i < p && IsSeal(log[i])| && r.startSeq == q + 1 && r.endSeq == p
            && r.prevSeal == (if IsSeal(log[q]) then log[q].hash else [])
            && r.merkleRoot == EncodeHash(Mth(env.TreeHasher(), Leaves(log[q..p]))) && r.tipHash == log[p - 1].hash
  {
    hide SealHolds, CarriesMac, Mth, Leaves, SealPayload, EncodeHash, IsSeal, OpensSegment, FirstSeal;
    OpensBefore(log, q, p);
    FirstIsSeal(log, f);
    assert EntryHolds(env, log[..f], log[f]) && EntryHolds(env, log[..p], log[p]);
    HeldSealParses(env, log[..f], log[f]);
    HeldSealParses(env, log[..p], log[p]);
    RecordIs(env, log, p, q, f);
    assert SealsBefore(log, p) == set i: nat | i < p && IsSeal(log[i]);
  }

  /** There is a segment before every accepted seal, and a first seal at or before it. */
  lemma SealHasPlace(env: Env, log: seq<Event>, p: nat) returns (q: nat, f: nat)
    requires PublicOk(env, log) && p < |log| && IsSeal(log[p])
    ensures OpensSegment(log, q, p) && FirstSeal(log, f) && f <= p
  {
    hide SealHolds, IsSeal, SegmentStart;
    assert EntryHolds(env, log[..p], log[p]);
    HeldSealParses(env, log[..p], log[p]);
    SegmentOpens(log, p);
    q := SegmentStart(log[..p]);
    f := FirstSealExists(log, p);
  }

  /**
   * The report of the verifier, for every accepted log: the sealed entries are those before the last seal,
   * the others are unsealed, and the identity is that of the first seal.
   */
  lemma ReportMeans(env: Env, log: seq<Event>, p: nat, f: nat)
    requires PublicOk(env, log) && p < |log| && IsSeal(log[p]) && FirstSeal(log, f)
    requires forall i :: p < i < |log| ==> !IsSeal(log[i])
    ensures var (report, first) := (ReportOf(env, log), env.parseSeal(log[f].body));
            && report.sealedEntries == p && report.unsealedEntries == |log| - p
            && report.segments == |set i: nat | i < |log| && IsSeal(log[i])|
            && first.Some? && report.anchor == Some((first.value.scheme, first.value.publicKey))
  {
    hide SealHolds, SegmentStart, SealCount, Anchor, IsSeal;
    assert log[..|log|] == log;
    FirstIsSeal(log, f);
    FirstIsEarliest(log, f, p);
    assert EntryHolds(env, log[..f], log[f]);
    HeldSealParses(env, log[..f], log[f]);
    AnchorIsFirst(env, log, f, |log|);
    OpensIsStart(log, p, |log|);
    SealCountIsSize(log, |log|);
    assert SealsBefore(log, |log|) == set i: nat | i < |log| && IsSeal(log[i]);
  }

  lemma FirstIsEarliest(log: seq<Event>, f: nat, p: nat)
    requires FirstSeal(log, f) && p < |log| && IsSeal(log[p])
    ensures f <= p
  {
  }

  // ----- one MAC query per sealed entry -----

  ghost predicate MacCollision(env: Env, asked: set<MacQuery>) {
    exists p, q :: p in asked && q in asked && p != q && Mac(env, p) == Mac(env, q)
  }

  /** The key and message under which verification checks entry j. */
  function QueryOf(env: Env, log: seq<Event>, j: nat): MacQuery
    requires j < |log|
  {
    var (e, r) := (log[j], CoveringRecord(env, log, j));
    var key := if r.Some? && e.epoch in r.value.revealed then Decoded(r.value.revealed[e.epoch]) else ZERO_DIGEST;
    MacQuery(key, MacMessage(Decoded(e.prevHash), e.seqNo, e.ts, e.eventType, e.body))
  }

  /** Every query asked while checking the first n entries. */
  ghost function MacAsked(env: Env, log: seq<Event>, n: nat): set<MacQuery>
    requires n <= |log|
  {
    set j: nat | j < n :: QueryOf(env, log, j)
  }

  /** Entries written in the length-prefixed format, with event types short enough for their length field. */
  predicate Modern(e: Event) {
    (e.v == 2 || e.v == 3) && |e.eventType| < TWO32
  }

  /** A sealed entry carries the MAC of its own fields. */
  lemma SealedHash(env: Env, log: seq<Event>, p: nat, j: nat)
    requires PublicOk(env, log) && j < p < |log| && IsSeal(log[p]) && Modern(log[j])
    ensures log[j].hash == EncodeHash(Mac(env, QueryOf(env, log, j)))
    ensures DecodeHash(log[j].hash) == Some(Mac(env, QueryOf(env, log, j)))
    ensures log[j].seqNo == j + 1
    ensures DecodeHash(log[j].prevHash) == Some(Tip(log[..j]))
  {
    hide EncodeHash, DecodeHash, MacMessage, Tip;
    SealedIsAuthentic(env, log, p, j);
    LinkedAt(env, log, j);
    HashRoundTrip(Mac(env, QueryOf(env, log, j)));
  }

  // ----- the tip binds the prefix -----

  /** What the MAC chain fixes of an entry; version and epoch are outside the MAC. */
  predicate SameEntry(e: Event, e': Event) {
    && e.seqNo == e'.seqNo && e.ts == e'.ts && e.eventType == e'.eventType && e.body == e'.body
    && DecodeHash(e.prevHash) == DecodeHash(e'.prevHash) && e.hash == e'.hash
  }

  /** Two sealed entries with one hash, in two accepted logs, stand at one position after one history. */
  lemma {:induction false} HashBindsHistory(env: Env, a: seq<Event>, p: nat, b: seq<Event>, q: nat, i: nat, j: nat,
                                            asked: set<MacQuery>)
    requires PublicOk(env, a) && i < p < |a| && IsSeal(a[p]) && PublicOk(env, b) && j < q < |b| && IsSeal(b[q])
    requires forall k :: 0 <= k < p ==> Modern(a[k])
    requires forall k :: 0 <= k < q ==> Modern(b[k])
    requires a[i].hash == b[j].hash
    requires MacAsked(env, a, p) <= asked && MacAsked(env, b, q) <= asked && !MacCollision(env, asked)
    ensures i == j && forall k :: 0 <= k <= i ==> SameEntry(a[k], b[k])
    decreases i
  {
    hide QueryOf, Mac, EncodeHash, DecodeHash, PublicOk, IsSeal, Tip;
    SealedHash(env, a, p, i);
    SealedHash(env, b, q, j);
    EncodeHashInjective(Mac(env, QueryOf(env, a, i)), Mac(env, QueryOf(env, b, j)));
    assert QueryOf(env, a, i) in MacAsked(env, a, p) && QueryOf(env, b, j) in MacAsked(env, b, q);
    assert QueryOf(env, a, i) == QueryOf(env, b, j);
    QueryBindsEntry(env, a, i, b, j);
    if i > 0 {
      SealedHash(env, a, p, i - 1);
      SealedHash(env, b, q, j - 1);
      TipIsDecoded(a, i);
      TipIsDecoded(b, j);
      HashBindsHistory(env, a, p, b, q, i - 1, j - 1, asked);
    }
  }

  lemma QueryBindsEntry(env: Env, a: seq<Event>, i: nat, b: seq<Event>, j: nat)
    requires i < |a| && j < |b| && Modern(a[i]) && Modern(b[j]) && QueryOf(env, a, i) == QueryOf(env, b, j)
    ensures Decoded(a[i].prevHash) == Decoded(b[j].prevHash) && a[i].seqNo == b[j].seqNo && a[i].ts == b[j].ts
    ensures a[i].eventType == b[j].eventType && a[i].body == b[j].body
  {
    hide MacMessage, CoveringRecord, Decoded;
    MacMessageInjective(Decoded(a[i].prevHash), a[i].seqNo, a[i].ts, a[i].eventType, a[i].body,
                        Decoded(b[j].prevHash), b[j].seqNo, b[j].ts, b[j].eventType, b[j].body);
  }

  lemma TipIsDecoded(log: seq<Event>, i: nat)
    requires 0 < i < |log|
    ensures Tip(log[..i]) == Decoded(log[i - 1].hash)
  {
  }

  /**
   * Two accepted logs with seals that name the same tip hash agree on every entry before those seals,
   * back to the first, unless two of the checked MACs collide.
   */
  lemma SealBindsPrefix(env: Env, a: seq<Event>, p: nat, b: seq<Event>, q: nat)
    requires PublicOk(env, a) && p < |a| && IsSeal(a[p]) && PublicOk(env, b) && q < |b| && IsSeal(b[q])
    requires env.parseSeal(a[p].body).Some? && env.parseSeal(b[q].body).Some?
    requires env.parseSeal(a[p].body).value.tipHash == env.parseSeal(b[q].body).value.tipHash
    requires forall k :: 0 <= k < p ==> Modern(a[k])
    requires forall k :: 0 <= k < q ==> Modern(b[k])
    ensures (p == q && forall k :: 0 <= k < p ==> SameEntry(a[k], b[k]))
            || MacCollision(env, MacAsked(env, a, p) + MacAsked(env, b, q))
  {
    hide MacAsked, MacCollision, SameEntry, Modern, PublicOk;
    var asked := MacAsked(env, a, p) + MacAsked(env, b, q);
    SealNamesTip(env, a, p);
    SealNamesTip(env, b, q);
    if !MacCollision(env, asked) {
      HashBindsHistory(env, a, p, b, q, p - 1, q - 1, asked);
    }
  }

  lemma SealNamesTip(env: Env, log: seq<Event>, p: nat)
    requires PublicOk(env, log) && p < |log| && IsSeal(log[p])
    ensures p > 0 && env.parseSeal(log[p].body).Some?
    ensures env.parseSeal(log[p].body).value.tipHash == log[p - 1].hash
  {
    hide AllAuthentic, Signed, Linked, SegmentStart, SealCount, PrevSealHash, Anchor;
    assert EntryHolds(env, log[..p], log[p]);
    var start := SegmentStart(log[..p]);
    var segment := log[..p][start..];
    assert segment[|segment| - 1] == log[p - 1];
  }
}
