/**
 * Consistency proofs. The verifier runs two interleaved chains over a suffix of an inclusion proof,
 * found with trailing zeros and a mask; the prover recurses on the split of RFC 6962 section 2.1.2.
 */
module Consistency {
  import opened Basics
  import opened Bits
  import opened Merkle
  import opened Inclusion

  // ----- the levels of a consistency proof, by recursion on the tree -----

  /** Levels above the last whole subtree of the first m leaves: is the sibling on the left? */
  function OldSides(m: nat, n: nat): seq<bool>
    requires 0 < m <= n
  {
    if m == n then []
    else if m <= Split(n) then OldSides(m, Split(n)) + [false]
    else OldSides(m - Split(n), n - Split(n)) + [true]
  }

  lemma OldSidesBelow(m: nat, n: nat, k: nat)
    requires 0 < m <= k < n && k == Split(n)
    ensures OldSides(m, n) == OldSides(m, k) + [false]
  {
    hide SplitFrom;
  }

  /** The old leaves above the split, m' of the n' leaves there. */
  lemma OldSidesAbove(m: nat, n: nat, k: nat, m': nat, n': nat)
    requires n > 1 && k == Split(n) && 0 < m' < n' && m == k + m' && n == k + n'
    ensures OldSides(m, n) == OldSides(m', n') + [true]
  {
    hide SplitFrom;
    assert m - k == m' && n - k == n';
  }

  /** Climb with the left siblings only: the part of the walk that stays inside the old tree. */
  function ClimbOld(h: Hasher, seed: Trail, sides: seq<bool>, path: seq<Digest>): Trail
    requires |sides| == |path|
  {
    if path == [] then seed
    else
      var below := ClimbOld(h, seed, Init(sides), Init(path));
      if Last(sides) then Step(h, below, true, Last(path)) else below
  }

  lemma ClimbOldSnoc(h: Hasher, seed: Trail, s: seq<bool>, p: seq<Digest>, side: bool, sibling: Digest)
    requires |s| == |p|
    ensures ClimbOld(h, seed, s + [side], p + [sibling])
            == if side then Step(h, ClimbOld(h, seed, s, p), true, sibling) else ClimbOld(h, seed, s, p)
  {
    assert Init(s + [side]) == s && Init(p + [sibling]) == p;
  }

  lemma {:induction false} ClimbOldConcat(h: Hasher, seed: Trail, s: seq<bool>, p: seq<Digest>,
                                          s': seq<bool>, p': seq<Digest>)
    requires |s| == |p| && |s'| == |p'|
    ensures ClimbOld(h, seed, s + s', p + p') == ClimbOld(h, ClimbOld(h, seed, s, p), s', p')
    decreases |p'|
  {
    if p' == [] {
      assert s + s' == s && p + p' == p;
    } else {
      assert Init(s + s') == s + Init(s') && Init(p + p') == p + Init(p');
      ClimbOldConcat(h, seed, s, p, Init(s'), Init(p'));
    }
  }

  /** Along the right border every sibling is on the left, so both walks take the same steps. */
  lemma {:induction false} ClimbOldAllTrue(h: Hasher, seed: Trail, p: seq<Digest>)
    ensures ClimbOld(h, seed, AllTrue(|p|), p) == Climb(h, seed, AllTrue(|p|), p)
    decreases |p|
  {
    if p != [] {
      assert Init(AllTrue(|p|)) == AllTrue(|Init(p)|);
      ClimbOldAllTrue(h, seed, Init(p));
    }
  }

  // ----- the same levels, by bits -----

  /** m is a power of two: `m == 1 << m.trailing_zeros()`. */
  predicate IsPow2(m: nat) {
    m == Pow2(TrailingZeros(m))
  }

  lemma {:induction false} TrailingZerosPow2(t: nat)
    ensures TrailingZeros(Pow2(t)) == t
  {
    if t > 0 { TrailingZerosPow2(t - 1); }
  }

  /** No power of two lies strictly between 2^t and 2^(t+1). */
  lemma NotPow2Between(m: nat, t: nat)
    requires Pow2(t) < m < 2 * Pow2(t)
    ensures !IsPow2(m)
  {
    if IsPow2(m) {
      Pow2Strict(t, TrailingZeros(m));
      Pow2Strict(TrailingZeros(m), t + 1);
    }
  }

  lemma {:induction false} TrailingZerosTop(x: nat, t: nat, x': nat)
    requires 0 < x < Pow2(t) && x' == Pow2(t) + x
    ensures TrailingZeros(x') == TrailingZeros(x)
  {
    if t > 0 && x % 2 == 0 { TrailingZerosTop(x / 2, t - 1, x' / 2); }
  }

  lemma {:induction false} XorZero(a: nat, b: nat)
    requires Xor(a, b) == 0
    ensures a == b
    decreases a + b
  {
    if a != 0 || b != 0 { XorZero(a / 2, b / 2); }
  }

  /** The last old leaf and a later leaf differ above the trailing zeros of the old size. */
  lemma {:induction false} DivergeAboveZeros(m: nat, last: nat, prev: nat)
    requires 0 < m <= last && prev == m - 1
    ensures Pow2(TrailingZeros(m)) <= Xor(prev, last)
  {
    if m % 2 == 1 {
      if Xor(prev, last) == 0 { XorZero(prev, last); }
    } else {
      DivergeAboveZeros(m / 2, last / 2, prev / 2);
    }
  }

  /** `inner -= shift` never goes below zero; at least one inner level remains. */
  lemma InnerExceedsShift(m: u64, n: u64)
    requires 0 < m < n
    ensures TrailingZeros(m) < InnerProofSize(m - 1, n)
  {
    hide Xor, TrailingZeros, Pow2;
    DivergeAboveZeros(m, n - 1, m - 1);
    Pow2Strict(TrailingZeros(m), InnerProofSize(m - 1, n));
  }

  lemma {:induction false} LowBitsSuffix(x: nat, s: nat, w: nat)
    ensures LowBits(x, s + w) == LowBits(x, s) + LowBits(Shr(x, s), w)
    decreases w
  {
    if w > 0 {
      LowBitsSuffix(x, s, w - 1);
      ShrShr(x, s, w - 1);
    }
  }

  /** A consistency proof takes the levels of the inclusion proof for the last old leaf, from `shift` on. */
  lemma {:induction false} OldSidesAreSuffix(m: nat, n: nat)
    requires 0 < m <= n && (m < n || IsPow2(m))
    ensures TrailingZeros(m) <= |TreeSides(m - 1, n)|
    ensures OldSides(m, n) == TreeSides(m - 1, n)[TrailingZeros(m)..]
    decreases n
  {
    if m == n {
      PerfectSides(m - 1, TrailingZeros(m));
    } else {
      hide TreeSides, OldSides, Split, TrailingZeros, Pow2;
      var t := SplitPow2(n);
      var k := Pow2(t);
      if m <= k {
        TrailingZerosPow2(t);
        OldSidesAreSuffix(m, k);
        TreeSidesBelow(m - 1, n, k);
        OldSidesBelow(m, n, k);
        DropSnoc(TreeSides(m - 1, k), false, TrailingZeros(m));
      } else {
        var m', n' := m - k, n - k;
        TrailingZerosTop(m', t, m);
        OldSidesAreSuffix(m', n');
        TreeSidesAbove(m - 1, n, k, m' - 1, n');
        OldSidesAbove(m, n, k, m', n');
        DropSnoc(TreeSides(m' - 1, n'), true, TrailingZeros(m));
      }
    }
  }

  lemma DropSnoc<T>(a: seq<T>, x: T, n: nat)
    requires n <= |a|
    ensures (a + [x])[n..] == a[n..] + [x]
  {
  }

  lemma DropFirst<T>(a: seq<T>, b: seq<T>, c: seq<T>)
    ensures (a + b + c)[|a|..] == b + c
  {
  }

  /** For every pair of sizes the mask, shift and border describe exactly the levels of the recursive prover. */
  lemma MaskIsTree(m: u64, n: u64, prev: u64, inner: nat, border: nat)
    requires 0 < m < n && prev == m - 1
    requires TrailingZeros(m) + inner == InnerProofSize(prev, n) && border == BorderProofSize(prev, n)
    ensures LowBits(Shr(prev, TrailingZeros(m)), inner) + AllTrue(border) == OldSides(m, n)
  {
    hide OldSides, TreeSides, TrailingZeros, InnerProofSize, BorderProofSize, LowBits, AllTrue, Shr;
    var shift := TrailingZeros(m);
    OldSidesAreSuffix(m, n);
    BitsAreTree(prev, n);
    LowBitsSuffix(prev, shift, inner);
    var low, high, edge := LowBits(prev, shift), LowBits(Shr(prev, shift), inner), AllTrue(border);
    assert TreeSides(prev, n) == low + high + edge;
    DropFirst(low, high, edge);
  }

  // ----- the verifier -----

  /** The old walk over one more sibling. */
  lemma ClimbOldNext(h: Hasher, seed: Trail, s: seq<bool>, side: bool, proof: seq<Digest>, i: nat)
    requires i < |proof| && |s| == i
    ensures var below := ClimbOld(h, seed, s, proof[..i]);
            ClimbOld(h, seed, s + [side], proof[..i + 1]) == if side then Step(h, below, true, proof[i]) else below
  {
    hide ClimbOld, Step;
    assert proof[..i + 1] == proof[..i] + [proof[i]];
    ClimbOldSnoc(h, seed, s, proof[..i], side, proof[i]);
  }

  lemma NoClimbOld(h: Hasher, seed: Trail, s: seq<bool>, proof: seq<Digest>)
    requires s == []
    ensures ClimbOld(h, seed, s, proof[..0]) == seed && proof[..|proof|] == proof
  {
  }

  method ChainInnerRight(h: Hasher, seed: Trail, proof: seq<Digest>, index: u64) returns (acc: Trail)
    ensures acc == ClimbOld(h, seed, LowBits(index, |proof|), proof)
  {
    hide ClimbOld, Step, Shr;
    acc := seed;
    NoClimbOld(h, seed, LowBits(index, 0), proof);
    for i := 0 to |proof|
      invariant acc == ClimbOld(h, seed, LowBits(index, i), proof[..i])
    {
      ClimbOldNext(h, seed, LowBits(index, i), Bit(index, i), proof, i);
      if Shr(index, i) % 2 == 1 {
        acc := Step(h, acc, true, proof[i]);
      }
    }
  }

  /** On any nodes, an inner chain followed by the border chain is one walk. */
  lemma ChainsAreWalks(h: Hasher, seed: Trail, low: seq<bool>, border: nat, path: seq<Digest>, inner: nat)
    requires |low| == inner && |path| == inner + border
    ensures Climb(h, Climb(h, seed, low, path[..inner]), AllTrue(border), path[inner..])
            == Climb(h, seed, low + AllTrue(border), path)
    ensures Climb(h, ClimbOld(h, seed, low, path[..inner]), AllTrue(border), path[inner..])
            == ClimbOld(h, seed, low + AllTrue(border), path)
  {
    hide Climb, ClimbOld, AllTrue;
    var edge := path[inner..];
    assert path[..inner] + edge == path && |edge| == border;
    ClimbConcat(h, seed, low, path[..inner], AllTrue(border), edge);
    ClimbOldConcat(h, seed, low, path[..inner], AllTrue(border), edge);
    ClimbOldAllTrue(h, ClimbOld(h, seed, low, path[..inner]), edge);
  }

  datatype ConsistencyProof = ConsistencyProof(oldSize: u64, newSize: u64, nodes: seq<Digest>) {

    /** The old root seeds both walks when it is itself one subtree of the new tree. */
    function Seed(oldRoot: Digest): Trail
      requires nodes != []
    {
      Trail(if IsPow2(oldSize) then oldRoot else nodes[0], {})
    }

    function Siblings(): seq<Digest>
      requires nodes != []
    {
      if IsPow2(oldSize) then nodes else nodes[1..]
    }

    predicate WellShaped() {
      0 < oldSize < newSize && nodes != [] && |Siblings()| == |OldSides(oldSize, newSize)|
    }

    /** The walk that rebuilds the old root. */
    function OldWalk(h: Hasher, oldRoot: Digest): Trail
      requires WellShaped()
    {
      ClimbOld(h, Seed(oldRoot), OldSides(oldSize, newSize), Siblings())
    }

    /** The walk that rebuilds the new root. */
    function NewWalk(h: Hasher, oldRoot: Digest): Trail
      requires WellShaped()
    {
      Climb(h, Seed(oldRoot), OldSides(oldSize, newSize), Siblings())
    }

    /** An old tree of no leaves is a prefix of anything; equal sizes need equal roots. */
    predicate Proves(h: Hasher, oldRoot: Digest, newRoot: Digest) {
      if oldSize == newSize then nodes == [] && oldRoot == newRoot
      else if oldSize == 0 then nodes == []
      else WellShaped() && OldWalk(h, oldRoot).value == oldRoot && NewWalk(h, oldRoot).value == newRoot
    }

    predicate Overflows() {
      0 < oldSize <= TWO63 < newSize && oldSize != newSize && nodes != []
    }

    /** The bit-level verifier accepts exactly the proofs whose two walks rebuild both roots. */
    method Verify(h: Hasher, oldRoot: Digest, newRoot: Digest) returns (r: Result<(), ProofError>)
      ensures r.Ok? <==> Proves(h, oldRoot, newRoot) && !Overflows()
      ensures r == Err(ShiftOverflow) <==> Overflows()
      ensures r == Err(UnequalEmptyConsistency) <==> oldSize == newSize && !(nodes == [] && oldRoot == newRoot)
      ensures r == Err(NonEmptyForEmptyTree) <==> oldSize == 0 < newSize && nodes != []
      ensures r == Err(EmptyProof) <==> 0 < oldSize < newSize && nodes == []
      ensures r == Err(WrongProofSize) <==>
                0 < oldSize < newSize && nodes != [] && !Overflows() && !WellShaped()
      ensures r == Err(OldRootMismatch) <==> WellShaped() && !Overflows() && OldWalk(h, oldRoot).value != oldRoot
      ensures r == Err(RootMismatch) <==>
                WellShaped() && !Overflows() && OldWalk(h, oldRoot).value == oldRoot
                && NewWalk(h, oldRoot).value != newRoot
      ensures r == Err(OldExceedsNew) <==> oldSize > newSize && oldSize != 0
    {
      hide OldSides, TreeSides, Shr, TrailingZeros, InnerProofSize, BorderProofSize, Pow2, OldWalk, NewWalk;
      var m, n := oldSize, newSize;
      if m == n {
        return if nodes == [] && oldRoot == newRoot then Ok(()) else Err(UnequalEmptyConsistency);
      }
      if m == 0 {
        return if nodes == [] then Ok(()) else Err(NonEmptyForEmptyTree);
      }
      if m > n {
        return Err(OldExceedsNew);
      }
      if nodes == [] {
        return Err(EmptyProof);
      }
      var prev := m - 1;
      var split := DecompInclProof(prev, n);
      if split.None? {
        return Err(ShiftOverflow);
      }
      var (whole, border) := split.value;
      var shift := TrailingZeros(m);
      InnerExceedsShift(m, n);
      var inner := whole - shift;
      var seed, start := Trail(oldRoot, {}), 0;
      if m != Pow2(shift) {
        seed, start := Trail(nodes[0], {}), 1;
      }
      ShapeIsTree(h, prev, inner, border);
      if |nodes| != start + inner + border {
        return Err(WrongProofSize);
      }
      assert nodes[start..] == Siblings() && seed == Seed(oldRoot);
      r := CheckWalks(h, oldRoot, newRoot, seed, nodes[start..], inner, border);
    }

    /** The four chains over the siblings, each root checked as soon as it is rebuilt. */
    method CheckWalks(h: Hasher, oldRoot: Digest, newRoot: Digest, seed: Trail, proof: seq<Digest>, inner: nat,
                      border: nat) returns (r: Result<(), ProofError>)
      requires WellShaped() && proof == Siblings() && seed == Seed(oldRoot) && |proof| == inner + border
      requires TrailingZeros(oldSize) + inner == InnerProofSize(oldSize - 1, newSize)
      requires border == BorderProofSize(oldSize - 1, newSize)
      ensures r.Ok? <==> OldWalk(h, oldRoot).value == oldRoot && NewWalk(h, oldRoot).value == newRoot
      ensures r == Err(OldRootMismatch) <==> OldWalk(h, oldRoot).value != oldRoot
      ensures r == Err(RootMismatch) <==>
                OldWalk(h, oldRoot).value == oldRoot && NewWalk(h, oldRoot).value != newRoot
    {
      hide OldSides, LowBits, AllTrue, Shr, TrailingZeros, InnerProofSize, BorderProofSize, Climb, ClimbOld;
      ChainsAreOurWalks(h, oldRoot, oldSize - 1, inner, border);
      var mask := Shr(oldSize - 1, TrailingZeros(oldSize));
      var (lower, edge) := (proof[..inner], proof[inner..]);
      var hash1 := ChainInnerRight(h, seed, lower, mask);
      hash1 := ChainBorderRight(h, hash1, edge);
      if hash1.value != oldRoot {
        return Err(OldRootMismatch);
      }
      var hash2 := ChainInner(h, seed, lower, mask);
      hash2 := ChainBorderRight(h, hash2, edge);
      return if hash2.value == newRoot then Ok(()) else Err(RootMismatch);
    }

    lemma ShapeIsTree(h: Hasher, prev: u64, inner: nat, border: nat)
      requires 0 < oldSize < newSize && prev == oldSize - 1 && nodes != []
      requires TrailingZeros(oldSize) + inner == InnerProofSize(prev, newSize) && border == BorderProofSize(prev, newSize)
      ensures WellShaped() <==> |nodes| == (if IsPow2(oldSize) then 0 else 1) + inner + border
    {
      hide OldSides, LowBits, AllTrue, Shr, TrailingZeros, InnerProofSize, BorderProofSize;
      MaskIsTree(oldSize, newSize, prev, inner, border);
    }

    /** The four chains, run on a proof of the right size, are its two walks. */
    lemma ChainsAreOurWalks(h: Hasher, oldRoot: Digest, prev: u64, inner: nat, border: nat)
      requires WellShaped() && prev == oldSize - 1 && |Siblings()| == inner + border
      requires TrailingZeros(oldSize) + inner == InnerProofSize(prev, newSize) && border == BorderProofSize(prev, newSize)
      ensures var (lower, edge) := (Siblings()[..inner], Siblings()[inner..]);
              var low := LowBits(Shr(prev, TrailingZeros(oldSize)), |lower|);
              && OldWalk(h, oldRoot) == Climb(h, ClimbOld(h, Seed(oldRoot), low, lower), AllTrue(|edge|), edge)
              && NewWalk(h, oldRoot) == Climb(h, Climb(h, Seed(oldRoot), low, lower), AllTrue(|edge|), edge)
    {
      hide OldSides, LowBits, AllTrue, Shr, TrailingZeros, InnerProofSize, BorderProofSize, Climb, ClimbOld;
      MaskIsTree(oldSize, newSize, prev, inner, border);
      assert |Siblings()[..inner]| == inner && |Siblings()[inner..]| == border;
      ChainsAreWalks(h, Seed(oldRoot), LowBits(Shr(prev, TrailingZeros(oldSize)), inner), border, Siblings(), inner);
    }
  }

  // ----- completeness -----

  /** The prover's output is `rest`, after its seed unless the old root itself is the seed. */
  predicate ProverGives(h: Hasher, m: nat, d: seq<Digest>, whole: bool, rest: seq<Digest>, seed: Digest)
    requires 0 < m <= |d|
  {
    Subproof(h, m, d, whole) == if whole && IsPow2(m) then rest else [seed] + rest
  }

  /** The two walks over what the prover gives rebuild the hashes of the first m leaves and of all of them. */
  ghost predicate Honest(h: Hasher, m: nat, d: seq<Digest>, whole: bool, rest: seq<Digest>, seed: Digest)
    requires 0 < m <= |d|
  {
    && ProverGives(h, m, d, whole, rest, seed)
    && (whole && IsPow2(m) ==> seed == Mth(h, d[..m]))
    && |rest| == |OldSides(m, |d|)|
    && ClimbOld(h, Trail(seed, {}), OldSides(m, |d|), rest).value == Mth(h, d[..m])
    && Climb(h, Trail(seed, {}), OldSides(m, |d|), rest).value == Mth(h, d)
  }

  lemma {:induction false} SubproofComplete(h: Hasher, m: nat, d: seq<Digest>, whole: bool)
    returns (rest: seq<Digest>, seed: Digest)
    requires 0 < m <= |d| && (m < |d| || IsPow2(m))
    ensures Honest(h, m, d, whole, rest, seed)
    decreases |d|
  {
    if m == |d| {
      hide Mth;
      assert d[..m] == d;
      rest, seed := [], Mth(h, d);
    } else {
      hide *;
      var t := SplitPow2(|d|);
      var left, right := d[..Pow2(t)], d[Pow2(t)..];
      if m <= |left| {
        PrefixOfLeft(m, d, left, t);
        rest, seed := SubproofComplete(h, m, left, whole);
        ExtendBelow(h, m, d, whole, left, right, rest, seed);
        rest := rest + [Mth(h, right)];
      } else {
        var m' := m - |left|;
        rest, seed := SubproofComplete(h, m', right, false);
        ExtendAbove(h, m, d, whole, t, left, right, m', rest, seed);
        rest := rest + [Mth(h, left)];
      }
    }
  }

  lemma PrefixOfLeft(m: nat, d: seq<Digest>, left: seq<Digest>, t: nat)
    requires 0 < m <= Pow2(t) < |d| && left == d[..Pow2(t)]
    ensures left[..m] == d[..m] && (m == |left| ==> IsPow2(m))
  {
    hide Pow2, TrailingZeros;
    TrailingZerosPow2(t);
  }

  /** A proof for the left half proves the whole list with one more node, the hash of the right half. */
  lemma ExtendBelow(h: Hasher, m: nat, d: seq<Digest>, whole: bool, left: seq<Digest>, right: seq<Digest>,
                    rest: seq<Digest>, seed: Digest)
    requires |d| > 1 && left == d[..Split(|d|)] && right == d[Split(|d|)..] && 0 < m <= |left|
    requires left[..m] == d[..m] && Honest(h, m, left, whole, rest, seed)
    ensures Honest(h, m, d, whole, rest + [Mth(h, right)], seed)
  {
    hide Mth, OldSides, Climb, ClimbOld, Split, IsPow2;
    OldSidesBelow(m, |d|, |left|);
    MthSplit(h, d, left, right);
    ClimbSnoc(h, Trail(seed, {}), OldSides(m, |left|), rest, false, Mth(h, right));
    ClimbOldSnoc(h, Trail(seed, {}), OldSides(m, |left|), rest, false, Mth(h, right));
  }

  /** A proof for the right half proves the whole list with one more node, the hash of the left half. */
  lemma ExtendAbove(h: Hasher, m: nat, d: seq<Digest>, whole: bool, t: nat, left: seq<Digest>, right: seq<Digest>,
                    m': nat, rest: seq<Digest>, seed: Digest)
    requires |d| > 1 && Pow2(t) == Split(|d|) && left == d[..Pow2(t)] && right == d[Pow2(t)..]
    requires m == |left| + m' && 0 < m' < |right| && Honest(h, m', right, false, rest, seed)
    ensures Honest(h, m, d, whole, rest + [Mth(h, left)], seed)
  {
    hide Mth, OldSides, Climb, ClimbOld, Split, IsPow2, Pow2, Subproof;
    NotPow2Between(m, t);
    OldSidesAbove(m, |d|, |left|, m', |right|);
    OldTreeSplits(h, m, d, t, left, right, m');
    MthSplit(h, d, left, right);
    ClimbSnoc(h, Trail(seed, {}), OldSides(m', |right|), rest, true, Mth(h, left));
    ClimbOldSnoc(h, Trail(seed, {}), OldSides(m', |right|), rest, true, Mth(h, left));
    SubproofAbove(h, m, d, whole, left, right, m');
  }

  lemma SubproofAbove(h: Hasher, m: nat, d: seq<Digest>, whole: bool, left: seq<Digest>, right: seq<Digest>, m': nat)
    requires |d| > 1 && left == d[..Split(|d|)] && right == d[Split(|d|)..] && m == |left| + m' && 0 < m' < |right|
    ensures Subproof(h, m, d, whole) == Subproof(h, m', right, false) + [Mth(h, left)]
  {
    hide Mth, Split;
    assert m - Split(|d|) == m';
  }

  /** An old tree larger than the split point splits at the same point as the new one. */
  lemma OldTreeSplits(h: Hasher, m: nat, d: seq<Digest>, t: nat, left: seq<Digest>, right: seq<Digest>, m': nat)
    requires |d| > 1 && Pow2(t) == Split(|d|) && left == d[..Pow2(t)] && right == d[Pow2(t)..]
    requires m == |left| + m' && 0 < m' <= |right|
    ensures Mth(h, d[..m]) == h(NodeQuery(Mth(h, left), Mth(h, right[..m'])))
  {
    hide Mth, Split, Pow2;
    SplitUnique(m, t);
    assert d[..m][..Pow2(t)] == left && d[..m][Pow2(t)..] == right[..m'];
    MthSplit(h, d[..m], left, right[..m']);
  }

  /** The honest proof between any two sizes of one list proves the old root against the new. */
  lemma ConsistencyComplete(h: Hasher, m: u64, d: seq<Digest>)
    requires m <= |d| < TWO64
    ensures ConsistencyProof(m, |d|, ConsistencyNodes(h, m, d)).Proves(h, Mth(h, d[..m]), Mth(h, d))
  {
    hide Mth, OldSides, Climb, ClimbOld, Subproof, IsPow2;
    var proof := ConsistencyProof(m, |d|, ConsistencyNodes(h, m, d));
    if m == |d| {
      assert d[..m] == d;
    } else if m > 0 {
      var rest, seed := SubproofComplete(h, m, d, true);
      OldSidesNonEmpty(m, |d|);
      assert proof.Siblings() == rest && proof.Seed(Mth(h, d[..m])) == Trail(seed, {});
    }
  }

  lemma OldSidesNonEmpty(m: nat, n: nat)
    requires 0 < m < n
    ensures |OldSides(m, n)| > 0
  {
  }

  // ----- soundness -----

  lemma ClimbOldInit(h: Hasher, seed: Trail, s: seq<bool>, side: bool, path: seq<Digest>)
    requires |path| == |s| + 1
    ensures ClimbOld(h, seed, s + [side], path)
            == if side then Step(h, ClimbOld(h, seed, s, Init(path)), true, Last(path)) else ClimbOld(h, seed, s, Init(path))
  {
    hide ClimbOld, Step;
    assert path == Init(path) + [Last(path)];
    ClimbOldSnoc(h, seed, s, Init(path), side, Last(path));
  }

  /** The inputs hashed for the tree hash of d are among those asked. */
  ghost predicate Within(h: Hasher, d: seq<Digest>, asked: set<Query>) {
    MthAsked(h, d) <= asked
  }

  /** A walk rebuilds the hash of d, asking nothing outside `asked`. */
  ghost predicate Matches(h: Hasher, walk: Trail, d: seq<Digest>, asked: set<Query>) {
    walk.value == Mth(h, d) && walk.asked <= asked && Within(h, d, asked)
  }

  /** Two walks over the same nodes rebuild the hashes of a and b, asking nothing outside `asked`. */
  ghost predicate Rebuilds(h: Hasher, seed: Trail, a: seq<Digest>, b: seq<Digest>, path: seq<Digest>, asked: set<Query>)
    requires 0 < |a| <= |b| && |path| == |OldSides(|a|, |b|)|
  {
    && Matches(h, ClimbOld(h, seed, OldSides(|a|, |b|), path), a, asked)
    && Matches(h, Climb(h, seed, OldSides(|a|, |b|), path), b, asked)
  }

  /**
   * Two walks over any nodes that rebuild the hashes of a and b make a a prefix of b, and the nodes those
   * that the prover gives.
   */
  lemma {:induction false} WalksBind(h: Hasher, seed: Trail, a: seq<Digest>, b: seq<Digest>, path: seq<Digest>,
                                     asked: set<Query>, whole: bool)
    requires 0 < |a| <= |b| && |path| == |OldSides(|a|, |b|)| && (|a| < |b| || IsPow2(|a|))
    requires Rebuilds(h, seed, a, b, path, asked) && !Collision(h, asked)
    ensures a <= b && ProverGives(h, |a|, b, whole, path, seed.value)
    decreases |b|
  {
    hide *;
    if |a| == |b| {
      WholeTreeBinds(h, seed, a, b, path, asked, whole);
    } else {
      var t := SplitPow2(|b|);
      var left, right := b[..Pow2(t)], b[Pow2(t)..];
      if |a| <= |left| {
        Pow2IsPow2(t);
        WalksBelow(h, seed, a, b, path, asked, left, right);
        InitAndLast(path);
        WalksBind(h, seed, a, left, path[..|path| - 1], asked, whole);
        GivesBelow(h, |a|, b, whole, left, right, path[..|path| - 1], seed.value, path);
      } else {
        var a' := a[Pow2(t)..];
        HalvesOf(b, t);
        HalvesOf(a, t);
        WalksAbove(h, seed, a, b, path, asked, a[..Pow2(t)], a', left, right);
        InitAndLast(path);
        WalksBind(h, seed, a', right, path[..|path| - 1], asked, false);
        JoinHalves(a, b, |left|);
        GivesAbove(h, |a|, b, whole, t, left, right, |a'|, path[..|path| - 1], seed.value, path);
      }
    }
  }

  lemma InitAndLast(path: seq<Digest>)
    requires path != []
    ensures path == path[..|path| - 1] + [path[|path| - 1]]
  {
  }

  lemma Pow2IsPow2(t: nat)
    ensures IsPow2(Pow2(t))
  {
    TrailingZerosPow2(t);
  }

  lemma GivesBelow(h: Hasher, m: nat, d: seq<Digest>, whole: bool, left: seq<Digest>, right: seq<Digest>,
                   inner: seq<Digest>, seed: Digest, path: seq<Digest>)
    requires |d| > 1 && left == d[..Split(|d|)] && right == d[Split(|d|)..] && 0 < m <= |left|
    requires ProverGives(h, m, left, whole, inner, seed) && path == inner + [Mth(h, right)]
    ensures ProverGives(h, m, d, whole, path, seed)
  {
    hide Mth, Split, IsPow2;
  }

  lemma GivesAbove(h: Hasher, m: nat, d: seq<Digest>, whole: bool, t: nat, left: seq<Digest>, right: seq<Digest>,
                   m': nat, inner: seq<Digest>, seed: Digest, path: seq<Digest>)
    requires |d| > 1 && Pow2(t) == Split(|d|) && left == d[..Pow2(t)] && right == d[Pow2(t)..]
    requires m == |left| + m' && 0 < m' < |right|
    requires ProverGives(h, m', right, false, inner, seed) && path == inner + [Mth(h, left)]
    ensures ProverGives(h, m, d, whole, path, seed)
  {
    hide Mth, Split, IsPow2, Pow2, Subproof;
    NotPow2Between(m, t);
    SubproofAbove(h, m, d, whole, left, right, m');
  }

  lemma JoinHalves(a: seq<Digest>, b: seq<Digest>, k: nat)
    requires k <= |a| <= |b| && a[..k] == b[..k] && a[k..] <= b[k..]
    ensures a <= b
  {
    assert a == a[..k] + a[k..] && b == b[..k] + b[k..];
  }

  lemma WholeTreeBinds(h: Hasher, seed: Trail, a: seq<Digest>, b: seq<Digest>, path: seq<Digest>, asked: set<Query>,
                       whole: bool)
    requires 0 < |a| == |b| && |path| == |OldSides(|a|, |b|)| && IsPow2(|a|)
    requires Rebuilds(h, seed, a, b, path, asked) && !Collision(h, asked)
    ensures a == b && ProverGives(h, |a|, b, whole, path, seed.value)
  {
    hide Mth, MthAsked, Collision, IsPow2;
    RootBindingIn(h, a, b, asked);
  }

  /** The old tree lies in the left half: the last step only enlarges the new tree. */
  lemma WalksBelow(h: Hasher, seed: Trail, a: seq<Digest>, b: seq<Digest>, path: seq<Digest>, asked: set<Query>,
                   left: seq<Digest>, right: seq<Digest>)
    requires |b| > 1 && left == b[..Split(|b|)] && right == b[Split(|b|)..] && 0 < |a| <= |left|
    requires |path| == |OldSides(|a|, |b|)|
    requires Rebuilds(h, seed, a, b, path, asked) && !Collision(h, asked)
    ensures |path| == |OldSides(|a|, |left|)| + 1 && path[|path| - 1] == Mth(h, right)
    ensures Rebuilds(h, seed, a, left, path[..|path| - 1], asked)
  {
    hide Mth, MthAsked, OldSides, Climb, ClimbOld, Split, Step;
    OldSidesBelow(|a|, |b|, |left|);
    var sides := OldSides(|a|, |left|);
    ClimbInit(h, seed, sides, false, path);
    ClimbOldInit(h, seed, sides, false, path);
    StepBinding(h, Climb(h, seed, sides, Init(path)), false, Last(path), b, asked, left, right);
  }

  /** When the last sibling stands on the left, both walks end by joining it. */
  lemma LastStepsJoin(h: Hasher, seed: Trail, a: seq<Digest>, b: seq<Digest>, path: seq<Digest>, asked: set<Query>,
                      sides: seq<bool>)
    requires 0 < |a| <= |b| && |path| == |OldSides(|a|, |b|)| && OldSides(|a|, |b|) == sides + [true]
    requires Rebuilds(h, seed, a, b, path, asked)
    ensures Matches(h, Step(h, ClimbOld(h, seed, sides, Init(path)), true, Last(path)), a, asked)
    ensures Matches(h, Step(h, Climb(h, seed, sides, Init(path)), true, Last(path)), b, asked)
  {
    hide Matches, OldSides, Climb, ClimbOld, Step;
    ClimbInit(h, seed, sides, true, path);
    ClimbOldInit(h, seed, sides, true, path);
  }

  /** A list and its two halves. */
  ghost predicate Halves(d: seq<Digest>, left: seq<Digest>, right: seq<Digest>) {
    |d| > 1 && left == d[..Split(|d|)] && right == d[Split(|d|)..]
  }

  lemma HalvesOf(d: seq<Digest>, t: nat)
    requires Pow2(t) < |d| <= 2 * Pow2(t)
    ensures Halves(d, d[..Pow2(t)], d[Pow2(t)..])
  {
    hide Split, Pow2;
    SplitUnique(|d|, t);
  }

  /** A walk that ends by joining a left sibling was a walk over the right half. */
  lemma JoinBinds(h: Hasher, walk: Trail, sibling: Digest, d: seq<Digest>, asked: set<Query>, left: seq<Digest>,
                  right: seq<Digest>)
    requires Halves(d, left, right) && !Collision(h, asked)
    requires Matches(h, Step(h, walk, true, sibling), d, asked)
    ensures Matches(h, walk, right, asked) && sibling == Mth(h, left) && Within(h, left, asked)
  {
    hide Step, Mth, MthAsked, Split, Collision;
    StepBinding(h, walk, true, sibling, d, asked, left, right);
  }

  lemma SameRoot(h: Hasher, a: seq<Digest>, b: seq<Digest>, asked: set<Query>)
    requires Mth(h, a) == Mth(h, b) && Within(h, a, asked) && Within(h, b, asked) && !Collision(h, asked)
    ensures a == b
  {
    hide Mth, MthAsked, Collision;
    RootBindingIn(h, a, b, asked);
  }

  /** Two walks that end by joining one left sibling have it from one common left half. */
  lemma CommonLeft(h: Hasher, old': Trail, new': Trail, sibling: Digest, a: seq<Digest>, b: seq<Digest>,
                   asked: set<Query>, left': seq<Digest>, a': seq<Digest>, left: seq<Digest>, right: seq<Digest>)
    requires Halves(b, left, right) && Halves(a, left', a') && !Collision(h, asked)
    requires Matches(h, Step(h, old', true, sibling), a, asked)
    requires Matches(h, Step(h, new', true, sibling), b, asked)
    ensures left' == left && sibling == Mth(h, left)
    ensures Matches(h, old', a', asked) && Matches(h, new', right, asked)
  {
    hide *;
    JoinBinds(h, new', sibling, b, asked, left, right);
    JoinBinds(h, old', sibling, a, asked, left', a');
    SameRoot(h, left', left, asked);
  }

  /** Both trees share the left half: the last step of each walk joins it. */
  lemma WalksAbove(h: Hasher, seed: Trail, a: seq<Digest>, b: seq<Digest>, path: seq<Digest>, asked: set<Query>,
                   left': seq<Digest>, a': seq<Digest>, left: seq<Digest>, right: seq<Digest>)
    requires Halves(b, left, right) && Halves(a, left', a') && |left'| == |left| && |a| < |b|
    requires |path| == |OldSides(|a|, |b|)|
    requires Rebuilds(h, seed, a, b, path, asked) && !Collision(h, asked)
    ensures 0 < |a'| < |right| && |a| == |left| + |a'| && left' == left
    ensures |path| == |OldSides(|a'|, |right|)| + 1 && path[|path| - 1] == Mth(h, left)
    ensures Rebuilds(h, seed, a', right, path[..|path| - 1], asked)
  {
    hide *;
    SidesAbove(a, b, left', a', left, right);
    var sides := OldSides(|a'|, |right|);
    LastStepsJoin(h, seed, a, b, path, asked, sides);
    InitLast(path);
    CommonLeft(h, ClimbOld(h, seed, sides, Init(path)), Climb(h, seed, sides, Init(path)), Last(path), a, b, asked,
               left', a', left, right);
    RebuildsIs(h, seed, a', right, Init(path), sides, asked);
  }

  lemma SidesAbove(a: seq<Digest>, b: seq<Digest>, left': seq<Digest>, a': seq<Digest>, left: seq<Digest>,
                   right: seq<Digest>)
    requires Halves(b, left, right) && Halves(a, left', a') && |left'| == |left| && |a| < |b|
    ensures 0 < |a'| < |right| && |a| == |left| + |a'| && 0 < |a| < |b|
    ensures OldSides(|a|, |b|) == OldSides(|a'|, |right|) + [true]
  {
    hide OldSides, Split;
    OldSidesAbove(|a|, |b|, |left|, |a'|, |right|);
  }

  lemma InitLast(path: seq<Digest>)
    requires path != []
    ensures Init(path) == path[..|path| - 1] && Last(path) == path[|path| - 1]
  {
  }

  lemma RebuildsIs(h: Hasher, seed: Trail, a: seq<Digest>, b: seq<Digest>, path: seq<Digest>, sides: seq<bool>,
                   asked: set<Query>)
    requires 0 < |a| <= |b| && |path| == |sides| && sides == OldSides(|a|, |b|)
    requires Matches(h, ClimbOld(h, seed, sides, path), a, asked) && Matches(h, Climb(h, seed, sides, path), b, asked)
    ensures Rebuilds(h, seed, a, b, path, asked)
  {
    hide Matches, OldSides, Climb, ClimbOld;
  }

  /** Every query a consistency check of a against b can make. */
  ghost function ConsistencyAsked(h: Hasher, proof: ConsistencyProof, a: seq<Digest>, b: seq<Digest>): set<Query> {
    MthAsked(h, a) + MthAsked(h, b)
    + if proof.WellShaped() then proof.OldWalk(h, Mth(h, a)).asked + proof.NewWalk(h, Mth(h, a)).asked else {}
  }

  /**
   * An accepted proof between the roots of two lists makes the old one a prefix and is the honest proof, node
   * for node; or two of the inputs hashed collide.
   */
  lemma ConsistencySound(h: Hasher, proof: ConsistencyProof, a: seq<Digest>, b: seq<Digest>)
    requires |a| == proof.oldSize && |b| == proof.newSize
    requires proof.Proves(h, Mth(h, a), Mth(h, b))
    ensures |proof.nodes| == |ConsistencyNodes(h, |a|, b)|
    ensures (a <= b && proof.nodes == ConsistencyNodes(h, |a|, b)) || Collision(h, ConsistencyAsked(h, proof, a, b))
  {
    hide Mth, MthAsked, Climb, ClimbOld, OldSides, IsPow2, Collision, Subproof;
    var asked := ConsistencyAsked(h, proof, a, b);
    if 0 < |a| < |b| { HonestLength(h, proof, b); }
    if !Collision(h, asked) {
      if |a| == |b| {
        RootBindingIn(h, a, b, asked);
      } else if |a| > 0 {
        assert Rebuilds(h, proof.Seed(Mth(h, a)), a, b, proof.Siblings(), asked);
        WalksBind(h, proof.Seed(Mth(h, a)), a, b, proof.Siblings(), asked, true);
      }
    }
  }

  /** A well-shaped proof has as many nodes as the honest one. */
  lemma HonestLength(h: Hasher, proof: ConsistencyProof, b: seq<Digest>)
    requires proof.WellShaped() && |b| == proof.newSize
    ensures |proof.nodes| == |Subproof(h, proof.oldSize, b, true)|
  {
    hide Mth, Climb, ClimbOld, OldSides, IsPow2, Subproof;
    var rest, seed := SubproofComplete(h, proof.oldSize, b, true);
  }

  /**
   * An old size of zero is accepted with no nodes whatever the roots are: such a proof says nothing
   * about either root.
   */
  lemma EmptyOldTreeBindsNothing(h: Hasher, n: u64, oldRoot: Digest, newRoot: Digest)
    ensures ConsistencyProof(0, n, []).Proves(h, oldRoot, newRoot) <==> n > 0 || oldRoot == newRoot
  {
  }
}
