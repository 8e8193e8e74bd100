/** What a list of entries says about its seals and segments. */
module Segments {
  import opened Basics
  import opened Hex
  import opened Events

  predicate IsSeal(e: Event) {
    e.eventType == SEAL_EVENT
  }

  function SealCount(log: seq<Event>): (n: nat)
    ensures n <= |log|
  {
    if log == [] then 0
    else SealCount(log[..|log| - 1]) + if IsSeal(log[|log| - 1]) then 1 else 0
  }

  /** Position where the open segment starts: that of the last seal, which is the first entry of its segment. */
  function SegmentStart(log: seq<Event>): (p: nat)
    ensures p <= |log| && (log != [] ==> p < |log|)
  {
    if log == [] then 0
    else if IsSeal(log[|log| - 1]) then |log| - 1
    else SegmentStart(log[..|log| - 1])
  }

  /** Hash of the last seal, empty before the first one. */
  function PrevSealHash(log: seq<Event>): Bytes {
    if SealCount(log) == 0 then [] else
    SegmentStartIsSeal(log);
    log[SegmentStart(log)].hash
  }

  lemma {:induction false} SegmentStartIsSeal(log: seq<Event>)
    ensures if SealCount(log) > 0 then SegmentStart(log) < |log| && IsSeal(log[SegmentStart(log)]) else SegmentStart(log) == 0
  {
    if log != [] && !IsSeal(log[|log| - 1]) { SegmentStartIsSeal(log[..|log| - 1]); }
  }

  /** The identity fixed by the first seal. */
  function Anchor(env: Env, log: seq<Event>): Option<(Bytes, Bytes)> {
    if log == [] then None
    else
      var earlier := Anchor(env, log[..|log| - 1]);
      if earlier.Some? || !IsSeal(log[|log| - 1]) then earlier
      else
        var r := env.parseSeal(log[|log| - 1].body);
        if r.Some? then Some((r.value.scheme, r.value.publicKey)) else None
  }

  function Decoded(hash: Bytes): Digest {
    var d := DecodeHash(hash);
    if d.Some? then d.value else ZERO_DIGEST
  }

  /** The hash the next entry must name. */
  function Tip(log: seq<Event>): Digest {
    if log == [] then ZERO_DIGEST else Decoded(log[|log| - 1].hash)
  }

  function Leaves(log: seq<Event>): (d: seq<Digest>)
    ensures |d| == |log|
  {
    if log == [] then [] else Leaves(log[..|log| - 1]) + [Decoded(log[|log| - 1].hash)]
  }

  lemma {:induction false} LeafAt(log: seq<Event>, i: nat)
    requires i < |log|
    ensures Leaves(log)[i] == Decoded(log[i].hash)
  {
    hide Decoded;
    if i < |log| - 1 { LeafAt(log[..|log| - 1], i); }
  }

  /** The segment an entry belongs to; a seal is the first entry of the segment it opens. */
  function SegmentOf(before: seq<Event>, e: Event): nat {
    SealCount(before) + if IsSeal(e) then 1 else 0
  }

  // ----- how the running values change with one entry -----

  lemma SegmentsSnoc(log: seq<Event>, e: Event)
    ensures SealCount(log + [e]) == SegmentOf(log, e)
    ensures SegmentStart(log + [e]) == if IsSeal(e) then |log| else SegmentStart(log)
    ensures PrevSealHash(log + [e]) == if IsSeal(e) then e.hash else PrevSealHash(log)
  {
    CountsSnoc(log, e);
    hide SealCount, SegmentStart, IsSeal;
    SegmentStartIsSeal(log);
  }

  lemma CountsSnoc(log: seq<Event>, e: Event)
    ensures SealCount(log + [e]) == SegmentOf(log, e)
    ensures SegmentStart(log + [e]) == if IsSeal(e) then |log| else SegmentStart(log)
  {
    hide IsSeal;
    var s := log + [e];
    assert s[..|s| - 1] == log && s[|s| - 1] == e;
  }

  lemma Snoc(env: Env, log: seq<Event>, e: Event)
    ensures SealCount(log + [e]) == SealCount(log) + if IsSeal(e) then 1 else 0
    ensures SegmentStart(log + [e]) == if IsSeal(e) then |log| else SegmentStart(log)
    ensures Tip(log + [e]) == Decoded(e.hash)
    ensures Leaves(log + [e]) == Leaves(log) + [Decoded(e.hash)]
    ensures PrevSealHash(log + [e]) == if IsSeal(e) then e.hash else PrevSealHash(log)
    ensures Anchor(env, log + [e]) ==
            var r := env.parseSeal(e.body);
            if Anchor(env, log).Some? || !IsSeal(e) then Anchor(env, log)
            else if r.Some? then Some((r.value.scheme, r.value.publicKey)) else None
  {
    SegmentsSnoc(log, e);
    hide SealCount, SegmentStart, PrevSealHash, IsSeal, Decoded;
    var s := log + [e];
    assert s[..|s| - 1] == log && s[|s| - 1] == e;
  }
}
