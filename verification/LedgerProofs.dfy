/** Append-only over whole runs: roots saved earlier stay provable, and every entry is provably included. */
module LedgerProofs {
  import opened Basics
  import opened Hex
  import opened SealRecords
  import opened Events
  import opened Segments
  import Bits
  import opened Merkle
  import opened Inclusion
  import opened Consistency
  import PublicVerify
  import opened LedgerScan
  import opened Ledger
  import opened LedgerInvariant
  import opened LedgerSealing
  import opened LedgerRuns
  import opened LedgerKeys

  lemma {:induction false} RunExtends(env: Env, signer: Signer, s: State, ops: seq<Op>)
    requires Run(env, signer, s, ops).Some?
    ensures s.log <= Run(env, signer, s, ops).value.log
    decreases |ops|
  {
    hide Exec;
    if ops != [] {
      StepGrows(env, signer, s, ops[0]);
      RunExtends(env, signer, Exec(env, signer, s, ops[0]).value, ops[1..]);
    }
  }

  lemma {:induction false} LeavesPrefix(a: seq<Event>, b: seq<Event>)
    requires a <= b
    ensures Leaves(b)[..|a|] == Leaves(a)
    decreases |b|
  {
    hide Decoded;
    if |a| == |b| {
      assert a == b;
    } else {
      var before := b[..|b| - 1];
      assert a <= before;
      LeavesPrefix(a, before);
      assert Leaves(b)[..|a|] == Leaves(before)[..|a|];
    }
  }

  /** The root over all entry hashes. */
  function RootOf(env: Env, log: seq<Event>): Digest {
    Mth(env.TreeHasher(), Leaves(log))
  }

  /**
   * The root of a file is the RFC 6962 tree hash of its stored hashes under SHA-256: of nothing, of one entry,
   * and of a power of two of entries followed by no more than as many.
   */
  lemma RootIsRfc(env: Env, e: Event, a: seq<Event>, b: seq<Event>, t: nat)
    requires |a| == Bits.Pow2(t) && 0 < |b| <= |a|
    ensures RootOf(env, []) == env.sha([]) && RootOf(env, [e]) == env.sha([0x00] + Decoded(e.hash).bytes)
    ensures RootOf(env, a + b) == env.sha([0x01] + RootOf(env, a).bytes + RootOf(env, b).bytes)
  {
    LeavesConcat(a, b);
    assert Leaves([e]) == [Decoded(e.hash)];
    hide Mth, Leaves, Decoded, Bits.Pow2;
    MthIsRfc(env.sha, Decoded(e.hash), Leaves(a), Leaves(b), t);
  }

  lemma {:induction false} LeavesConcat(a: seq<Event>, b: seq<Event>)
    ensures Leaves(a + b) == Leaves(a) + Leaves(b)
    decreases |b|
  {
    hide Decoded;
    if b == [] {
      assert a + b == a;
    } else {
      var (s, last) := (a + b, b[|b| - 1]);
      assert s[..|s| - 1] == a + b[..|b| - 1] && s[|s| - 1] == last;
      LeavesConcat(a, b[..|b| - 1]);
    }
  }

  function ConsistencyOf(env: Env, log: seq<Event>, oldSize: u64): ConsistencyProof
    requires |log| <= TWO63
  {
    ConsistencyProof(oldSize, |log|, ConsistencyNodes(env.TreeHasher(), oldSize, Leaves(log)))
  }

  function InclusionOf(env: Env, log: seq<Event>, seqNo: u64): InclusionProof
    requires 0 < seqNo <= |log| <= TWO63
  {
    InclusionProof(seqNo - 1, |log|, AuditPath(env.TreeHasher(), seqNo - 1, Leaves(log)))
  }

  /**
   * Between any two states of one run, the proof made in the later one convinces a holder of the earlier
   * root that the later tree only adds to it.
   */
  lemma OldRootStaysProvable(env: Env, signer: Signer, start: State, first: seq<Op>, second: seq<Op>)
    requires Run(env, signer, start, first).Some?
    requires Run(env, signer, Run(env, signer, start, first).value, second).Some?
    requires |Run(env, signer, Run(env, signer, start, first).value, second).value.log| <= TWO63
    ensures var early := Run(env, signer, start, first).value;
            var late := Run(env, signer, early, second).value;
            && |early.log| <= |late.log|
            && var proof := ConsistencyOf(env, late.log, |early.log|);
               proof.Proves(env.TreeHasher(), RootOf(env, early.log), RootOf(env, late.log)) && !proof.Overflows()
  {
    var early := Run(env, signer, start, first).value;
    var late := Run(env, signer, early, second).value;
    RunExtends(env, signer, early, second);
    hide Run, Leaves, Mth, ConsistencyNodes, ConsistencyProof.Proves;
    LeavesPrefix(early.log, late.log);
    ConsistencyComplete(env.TreeHasher(), |early.log|, Leaves(late.log));
  }

  /** Every entry of a file is provably in its tree, at the place its number says. */
  lemma EveryEntryIsIncluded(env: Env, log: seq<Event>, seqNo: u64)
    requires 0 < seqNo <= |log| <= TWO63
    ensures var proof := InclusionOf(env, log, seqNo);
            proof.Proves(env.TreeHasher(), Decoded(log[seqNo - 1].hash), RootOf(env, log)) && !proof.Overflows()
  {
    hide Leaves, Mth, AuditPath, Climb, TreeSides, Decoded;
    var i := seqNo - 1;
    LeafAt(log, i);
    InclusionComplete(env.TreeHasher(), i, Leaves(log));
  }

  /**
   * In every reachable state the numbers from 1 to the length are exactly those of its entries, and every
   * stored hash decodes, so no proof is refused.
   */
  lemma NumbersAreDense(env: Env, signer: Signer, s: State, seqNo: u64)
    requires Inv(env, signer, s) && 0 < seqNo <= |s.log|
    ensures s.log[seqNo - 1].seqNo == seqNo && s.mem.seqNo == |s.log|
    ensures DecodeHash(s.log[seqNo - 1].hash).Some?
  {
    hide Open, Verify, History, SegmentStart, SignedBy, Epochs, RemembersPublished, Tip, SealCount, DecodeHash,
         PublicVerify.SealHolds;
    DenseNumbers(env, s.keys, s.mem.legacySegment0, s.log);
    CleanCounts(env, s.keys, s.log);
    assert PublicVerify.EntryHolds(env, s.log[..seqNo - 1], s.log[seqNo - 1]);
  }
}
