/**
 * Inclusion proofs. The verifier reads the shape of a proof off the bits of the index and of the tree
 * size; the prover recurses on the split of RFC 6962. Both are shown to walk the same levels.
 */
module Inclusion {
  import opened Basics
  import opened Bits
  import opened Merkle

  // ----- one walk from a leaf to the root -----

  /** A running hash together with the queries made to reach it. */
  datatype Trail = Trail(value: Digest, asked: set<Query>)

  function Ask(h: Hasher, q: Query, asked: set<Query>): Trail {
    Trail(h(q), asked + {q})
  }

  function LeafTrail(h: Hasher, leaf: Digest): Trail {
    Ask(h, LeafQuery(leaf), {})
  }

  /** Hash the running value with a sibling standing on its left or on its right. */
  function Step(h: Hasher, acc: Trail, onLeft: bool, sibling: Digest): Trail {
    Ask(h, if onLeft then NodeQuery(sibling, acc.value) else NodeQuery(acc.value, sibling), acc.asked)
  }

  function Init<T>(s: seq<T>): seq<T>
    requires s != []
  {
    s[..|s| - 1]
  }

  function Last<T>(s: seq<T>): T
    requires s != []
  {
    s[|s| - 1]
  }

  /** Climb one level per sibling, lowest first. */
  function Climb(h: Hasher, seed: Trail, sides: seq<bool>, path: seq<Digest>): Trail
    requires |sides| == |path|
  {
    if path == [] then seed
    else Step(h, Climb(h, seed, Init(sides), Init(path)), Last(sides), Last(path))
  }

  lemma ClimbSnoc(h: Hasher, seed: Trail, s: seq<bool>, p: seq<Digest>, side: bool, sibling: Digest)
    requires |s| == |p|
    ensures Climb(h, seed, s + [side], p + [sibling]) == Step(h, Climb(h, seed, s, p), side, sibling)
  {
    assert Init(s + [side]) == s && Init(p + [sibling]) == p;
  }

  lemma {:induction false} ClimbConcat(h: Hasher, seed: Trail, s: seq<bool>, p: seq<Digest>,
                                       s': seq<bool>, p': seq<Digest>)
    requires |s| == |p| && |s'| == |p'|
    ensures Climb(h, seed, s + s', p + p') == Climb(h, Climb(h, seed, s, p), s', p')
    decreases |p'|
  {
    if p' == [] {
      assert s + s' == s && p + p' == p;
    } else {
      assert Init(s + s') == s + Init(s') && Init(p + p') == p + Init(p');
      ClimbConcat(h, seed, s, p, Init(s'), Init(p'));
    }
  }

  // ----- the levels above a leaf, by recursion on the tree -----

  /** For each level above leaf i of a tree with n leaves, lowest first: is the sibling on the left? */
  function TreeSides(i: nat, n: nat): seq<bool>
    requires i < n
  {
    if n == 1 then []
    else if i < Split(n) then TreeSides(i, Split(n)) + [false]
    else TreeSides(i - Split(n), n - Split(n)) + [true]
  }

  lemma TreeSidesBelow(i: nat, n: nat, k: nat)
    requires n > 1 && k == Split(n) && i < k
    ensures TreeSides(i, n) == TreeSides(i, k) + [false]
  {
    hide SplitFrom;
  }

  /** Leaf j of the m leaves above the split. */
  lemma TreeSidesAbove(i: nat, n: nat, k: nat, j: nat, m: nat)
    requires n > 1 && k == Split(n) && j < m && i == k + j && n == k + m
    ensures TreeSides(i, n) == TreeSides(j, m) + [true]
  {
    hide SplitFrom;
    assert i - k == j && n - k == m;
  }

  /** The last step of a walk that ends in sibling `Last(path)`. */
  lemma ClimbInit(h: Hasher, seed: Trail, s: seq<bool>, side: bool, path: seq<Digest>)
    requires |path| == |s| + 1
    ensures Climb(h, seed, s + [side], path) == Step(h, Climb(h, seed, s, Init(path)), side, Last(path))
  {
    hide Climb, Step;
    assert path == Init(path) + [Last(path)];
    ClimbSnoc(h, seed, s, Init(path), side, Last(path));
  }

  // ----- the levels above a leaf, by bits -----

  /** The lowest w bits of x. */
  function LowBits(x: nat, w: nat): (s: seq<bool>)
    ensures |s| == w
  {
    if w == 0 then [] else LowBits(x, w - 1) + [Bit(x, w - 1)]
  }

  function AllTrue(w: nat): (s: seq<bool>)
    ensures |s| == w
  {
    if w == 0 then [] else AllTrue(w - 1) + [true]
  }

  lemma WordXor(a: u64, b: u64)
    ensures Xor(a, b) < Pow2(64)
  {
    Pow2_64();
    XorBound(a, b, 64);
  }

  /** `64 - x.leading_zeros()`, the number of bits up to the highest set one. */
  function Width(x: nat): (w: nat)
    requires x < Pow2(64)
    ensures w <= 64 && x < Pow2(w) && (w > 0 ==> Pow2(w - 1) <= x)
  {
    64 - LeadingZeros(x, 64)
  }

  /** Bits up to the highest one in which two words differ. */
  function DivergeWidth(a: u64, b: u64): nat
  {
    WordXor(a, b);
    Width(Xor(a, b))
  }

  function InnerProofSize(index: u64, size: u64): nat
    requires index < size
  {
    DivergeWidth(index, size - 1)
  }

  function BorderProofSize(index: u64, size: u64): nat
    requires index < size
  {
    CountOnes(Shr(index, InnerProofSize(index, size)))
  }

  /** What the verifier reads off the words: the inner bits of the index, then left siblings only. */
  function BitSides(index: u64, size: u64): seq<bool>
    requires index < size
  {
    LowBits(index, InnerProofSize(index, size)) + AllTrue(BorderProofSize(index, size))
  }

  // ----- both agree -----

  lemma WidthUnique(x: nat, w: nat)
    requires x < Pow2(w) && (w > 0 ==> Pow2(w - 1) <= x)
    requires x < Pow2(64)
    ensures Width(x) == w
  {
    hide Pow2, LeadingZeros;
    var v := Width(x);
    if v > 0 { Pow2Strict(v - 1, w); }
    if w > 0 { Pow2Strict(w - 1, v); }
  }

  /** Below the split, the index and the last leaf first differ at the split bit. */
  lemma DivergeBelow(i: u64, last: u64, t: nat)
    requires i < Pow2(t) <= last < 2 * Pow2(t)
    ensures DivergeWidth(i, last) == t + 1
  {
    WordXor(i, last);
    XorOneTop(i, last, t);
    WidthUnique(Xor(i, last), t + 1);
  }

  /** Two words below 2^t differ in the lowest t bits only. */
  lemma DivergeInside(i: u64, last: u64, t: nat)
    requires i < Pow2(t) && last < Pow2(t)
    ensures DivergeWidth(i, last) <= t
  {
    XorBound(i, last, t);
    var v := DivergeWidth(i, last);
    if v > 0 { Pow2Strict(v - 1, t); }
  }

  /** Above the split, the split bit is common: the inner part is that of the right subtree. */
  lemma DivergeAbove(i: u64, last: u64, t: nat, i': u64, last': u64)
    requires i < Pow2(t) && last < Pow2(t) && i' == Pow2(t) + i && last' == Pow2(t) + last
    ensures DivergeWidth(i', last') == DivergeWidth(i, last) <= t
  {
    hide Xor, Width, Pow2;
    XorCommonTop(i, last, t);
    DivergeInside(i, last, t);
  }

  lemma {:induction false} CountOnesTop(x: nat, t: nat)
    requires x < Pow2(t)
    ensures CountOnes(Pow2(t) + x) == CountOnes(x) + 1
  {
    if t > 0 {
      var half := Pow2(t - 1);
      assert Pow2(t) == 2 * half;
      CountOnesTop(x / 2, t - 1);
      hide Pow2;
      assert (2 * half + x) / 2 == half + x / 2 && (2 * half + x) % 2 == x % 2;
    }
  }

  lemma OnesAbove(x: nat, t: nat, inner: nat, x': nat)
    requires x < Pow2(t) && inner <= t && x' == Pow2(t) + x
    ensures CountOnes(Shr(x', inner)) == CountOnes(Shr(x, inner)) + 1
  {
    hide Pow2, CountOnes, Shr;
    ShrTopBit(x, t, inner);
    ShrSmall(x, t, inner);
    CountOnesTop(Shr(x, inner), t - inner);
  }

  /** The lowest bits do not see a higher one. */
  lemma {:induction false} LowBitsBelowTop(x: nat, t: nat, w: nat, x': nat)
    requires w <= t && x' == Pow2(t) + x
    ensures LowBits(x', w) == LowBits(x, w)
    decreases w
  {
    if w > 0 {
      LowBitsBelowTop(x, t, w - 1, x');
      BitBelowTop(x, t, w - 1);
    }
  }

  lemma LowBitsAtTop(x: nat, t: nat, x': nat)
    requires x < Pow2(t) && x' == Pow2(t) + x
    ensures LowBits(x, t + 1) == LowBits(x, t) + [false]
    ensures LowBits(x', t + 1) == LowBits(x, t) + [true]
  {
    BitAtTop(x, t);
    LowBitsBelowTop(x, t, t, x');
  }

  /** In a perfect tree every level is decided by one bit of the index. */
  lemma {:induction false} PerfectSides(i: nat, t: nat)
    requires i < Pow2(t)
    ensures TreeSides(i, Pow2(t)) == LowBits(i, t)
  {
    hide Split, Bit;
    if t > 0 {
      var k, n := Pow2(t - 1), Pow2(t);
      SplitUnique(n, t - 1);
      if i < k {
        PerfectSides(i, t - 1);
        LowBitsAtTop(i, t - 1, k + i);
        TreeSidesBelow(i, n, k);
      } else {
        var j := i - k;
        PerfectSides(j, t - 1);
        LowBitsAtTop(j, t - 1, i);
        TreeSidesAbove(i, n, k, j, k);
      }
    }
  }

  lemma BitSidesBelow(i: u64, n: u64, t: nat)
    requires i < Pow2(t) < n <= 2 * Pow2(t)
    ensures BitSides(i, n) == LowBits(i, t) + [false]
  {
    hide DivergeWidth, Pow2, Bit, Shr;
    DivergeBelow(i, n - 1, t);
    ShrSmallIsZero(i, t, t + 1);
    assert InnerProofSize(i, n) == t + 1 && BorderProofSize(i, n) == 0;
    LowBitsAtTop(i, t, Pow2(t) + i);
  }

  lemma OneLeafBits()
    ensures BitSides(0, 1) == TreeSides(0, 1)
  {
    WidthUnique(0, 0);
  }

  lemma SizesAbove(i: u64, n: u64, t: nat, index: u64, size: u64)
    requires i < n <= Pow2(t) && index == Pow2(t) + i && size == Pow2(t) + n
    ensures InnerProofSize(index, size) == InnerProofSize(i, n) <= t
    ensures BorderProofSize(index, size) == BorderProofSize(i, n) + 1
  {
    hide DivergeWidth, CountOnes, Shr, Pow2;
    DivergeAbove(i, n - 1, t, index, size - 1);
    OnesAbove(i, t, InnerProofSize(i, n), index);
  }

  lemma BitSidesAbove(i: u64, n: u64, t: nat, index: u64, size: u64)
    requires i < n <= Pow2(t) && index == Pow2(t) + i && size == Pow2(t) + n
    ensures BitSides(index, size) == BitSides(i, n) + [true]
  {
    hide InnerProofSize, BorderProofSize, Bit, Pow2;
    SizesAbove(i, n, t, index, size);
    var inner, border := InnerProofSize(i, n), BorderProofSize(i, n);
    LowBitsBelowTop(i, t, inner, index);
    assert LowBits(i, inner) + (AllTrue(border) + [true]) == (LowBits(i, inner) + AllTrue(border)) + [true];
  }

  /** For every index and size the bits describe exactly the levels of the recursive tree. */
  lemma {:induction false} BitsAreTree(index: u64, size: u64)
    requires index < size
    ensures BitSides(index, size) == TreeSides(index, size)
    decreases size
  {
    if size == 1 {
      OneLeafBits();
    } else {
      hide BitSides, TreeSides, Split;
      var t := SplitPow2(size);
      if index < Pow2(t) {
        BitSidesBelow(index, size, t);
        PerfectSides(index, t);
        TreeSidesBelow(index, size, Pow2(t));
      } else {
        var i, n := index - Pow2(t), size - Pow2(t);
        BitsAreTree(i, n);
        BitSidesAbove(i, n, t, index, size);
        TreeSidesAbove(index, size, Pow2(t), i, n);
      }
    }
  }

  /** On any nodes, honest or not, the two bit-level chains are the walk up the recursive tree. */
  lemma ChainsAreTreeWalk(h: Hasher, seed: Trail, index: u64, size: u64, path: seq<Digest>, inner: nat, border: nat)
    requires index < size && inner == InnerProofSize(index, size) && border == BorderProofSize(index, size)
    requires |path| == inner + border
    ensures |path| == |TreeSides(index, size)|
    ensures Climb(h, Climb(h, seed, LowBits(index, inner), path[..inner]), AllTrue(border), path[inner..])
            == Climb(h, seed, TreeSides(index, size), path)
  {
    hide InnerProofSize, BorderProofSize, TreeSides, LowBits, AllTrue, Climb;
    BitsAreTree(index, size);
    assert LowBits(index, inner) + AllTrue(border) == TreeSides(index, size);
    ClimbConcat(h, seed, LowBits(index, inner), path[..inner], AllTrue(border), path[inner..]);
    assert path[..inner] + path[inner..] == path;
  }

  /** The inner size is 64 exactly when the index and the last leaf differ in bit 63. */
  lemma OverflowIsTopBit(index: u64, size: u64)
    requires index < size
    ensures InnerProofSize(index, size) <= 64
    ensures InnerProofSize(index, size) == 64 <==> index < TWO63 < size
  {
    Pow2_64();
    var last := size - 1;
    if index < TWO63 < size {
      DivergeBelow(index, last, 63);
    } else if size <= TWO63 {
      DivergeInside(index, last, 63);
    } else {
      DivergeAbove(index - TWO63, last - TWO63, 63, index, last);
    }
  }

  // ----- the verifier -----

  datatype ProofError =
    | IndexOutOfRange | ProofTooLong | WrongProofSize | RootMismatch
    | UnequalEmptyConsistency | NonEmptyForEmptyTree | OldExceedsNew | EmptyProof | OldRootMismatch
    | ShiftOverflow  // a shift by 64, which a checked build refuses

  /** `None` is the shift by 64 that trees of more than 2^63 leaves can ask for. */
  method DecompInclProof(index: u64, size: u64) returns (r: Option<(nat, nat)>)
    requires index < size
    ensures r.None? <==> index < TWO63 < size
    ensures r.Some? ==> r.value == (InnerProofSize(index, size), BorderProofSize(index, size))
    ensures r.Some? ==> r.value.0 + r.value.1 == |TreeSides(index, size)| && r.value.0 < 64
  {
    OverflowIsTopBit(index, size);
    BitsAreTree(index, size);
    var inner := InnerProofSize(index, size);
    if inner >= 64 {
      return None;
    }
    return Some((inner, CountOnes(Shr(index, inner))));
  }

  /** The walk over one more sibling. */
  lemma ClimbNext(h: Hasher, seed: Trail, s: seq<bool>, side: bool, proof: seq<Digest>, i: nat)
    requires i < |proof| && |s| == i
    ensures Climb(h, seed, s + [side], proof[..i + 1]) == Step(h, Climb(h, seed, s, proof[..i]), side, proof[i])
  {
    hide Climb, Step;
    assert proof[..i + 1] == proof[..i] + [proof[i]];
    ClimbSnoc(h, seed, s, proof[..i], side, proof[i]);
  }

  lemma NoClimb(h: Hasher, seed: Trail, s: seq<bool>, proof: seq<Digest>)
    requires s == []
    ensures Climb(h, seed, s, proof[..0]) == seed && proof[..|proof|] == proof
  {
  }

  method ChainInner(h: Hasher, seed: Trail, proof: seq<Digest>, index: u64) returns (acc: Trail)
    ensures acc == Climb(h, seed, LowBits(index, |proof|), proof)
  {
    hide Climb, Step, Shr;
    acc := seed;
    NoClimb(h, seed, LowBits(index, 0), proof);
    for i := 0 to |proof|
      invariant acc == Climb(h, seed, LowBits(index, i), proof[..i])
    {
      ClimbNext(h, seed, LowBits(index, i), Bit(index, i), proof, i);
      acc := Step(h, acc, Shr(index, i) % 2 != 0, proof[i]);
    }
  }

  method ChainBorderRight(h: Hasher, seed: Trail, proof: seq<Digest>) returns (acc: Trail)
    ensures acc == Climb(h, seed, AllTrue(|proof|), proof)
  {
    hide Climb, Step;
    acc := seed;
    NoClimb(h, seed, AllTrue(0), proof);
    for i := 0 to |proof|
      invariant acc == Climb(h, seed, AllTrue(i), proof[..i])
    {
      ClimbNext(h, seed, AllTrue(i), true, proof, i);
      acc := Step(h, acc, true, proof[i]);
    }
  }

  datatype InclusionProof = InclusionProof(index: u64, treeSize: u64, path: seq<Digest>) {

    /** One sibling per level of the tree above the leaf. */
    predicate WellShaped() {
      index < treeSize && |path| == |TreeSides(index, treeSize)|
    }

    /** The walk from the leaf through the siblings of the recursive tree. */
    function Walk(h: Hasher, leaf: Digest): Trail
      requires WellShaped()
    {
      Climb(h, LeafTrail(h, leaf), TreeSides(index, treeSize), path)
    }

    predicate Proves(h: Hasher, leaf: Digest, root: Digest) {
      WellShaped() && Walk(h, leaf).value == root
    }

    predicate Overflows() {
      index < TWO63 < treeSize
    }

    /** The bit-level verifier accepts exactly the proofs that walk the recursive tree to the root. */
    method Verify(h: Hasher, leaf: Digest, root: Digest) returns (r: Result<(), ProofError>)
      ensures r.Ok? <==> Proves(h, leaf, root) && !Overflows()
      ensures r == Err(ShiftOverflow) <==> Overflows()
      ensures r == Err(IndexOutOfRange) <==> index >= treeSize
      ensures r == Err(RootMismatch) <==> WellShaped() && !Overflows() && Walk(h, leaf).value != root
      ensures r == Err(ProofTooLong) <==> index < treeSize == 1 && path != []
      ensures r == Err(WrongProofSize) <==> index < treeSize && treeSize > 1 && !Overflows() && !WellShaped()
    {
      if treeSize == 0 || index >= treeSize {
        return Err(IndexOutOfRange);
      }
      if treeSize == 1 {
        if path != [] { return Err(ProofTooLong); }
        return if h(LeafQuery(leaf)) == root then Ok(()) else Err(RootMismatch);
      }
      var split := DecompInclProof(index, treeSize);
      if split.None? {
        return Err(ShiftOverflow);
      }
      var (inner, border) := split.value;
      if |path| != inner + border {
        return Err(WrongProofSize);
      }
      var acc := ChainInner(h, LeafTrail(h, leaf), path[..inner], index);
      acc := ChainBorderRight(h, acc, path[inner..]);
      ChainsAreTreeWalk(h, LeafTrail(h, leaf), index, treeSize, path, inner, border);
      return if acc.value == root then Ok(()) else Err(RootMismatch);
    }
  }

  // ----- what an accepted proof means -----

  /** The honest path has one node per level and leads to the tree hash. */
  lemma {:induction false} InclusionComplete(h: Hasher, i: nat, d: seq<Digest>)
    requires i < |d|
    ensures |AuditPath(h, i, d)| == |TreeSides(i, |d|)|
    ensures Climb(h, LeafTrail(h, d[i]), TreeSides(i, |d|), AuditPath(h, i, d)).value == Mth(h, d)
    decreases |d|
  {
    if |d| > 1 {
      hide Mth, TreeSides, Climb, LeafTrail, Split;
      var k := Split(|d|);
      var left, right := d[..k], d[k..];
      MthSplit(h, d, left, right);
      if i < k {
        InclusionComplete(h, i, left);
        TreeSidesBelow(i, |d|, k);
        ClimbSnoc(h, LeafTrail(h, d[i]), TreeSides(i, k), AuditPath(h, i, left), false, Mth(h, right));
      } else {
        var j := i - k;
        InclusionComplete(h, j, right);
        TreeSidesAbove(i, |d|, k, j, |right|);
        ClimbSnoc(h, LeafTrail(h, d[i]), TreeSides(j, |right|), AuditPath(h, j, right), true, Mth(h, left));
      }
    }
  }

  /** One step that reaches the hash of a split list was taken from the hash of one of its halves. */
  lemma StepBinding(h: Hasher, acc: Trail, onLeft: bool, sibling: Digest, d: seq<Digest>, asked: set<Query>,
                    left: seq<Digest>, right: seq<Digest>)
    requires |d| > 1 && left == d[..Split(|d|)] && right == d[Split(|d|)..]
    requires Step(h, acc, onLeft, sibling).value == Mth(h, d)
    requires Step(h, acc, onLeft, sibling).asked <= asked && MthAsked(h, d) <= asked && !Collision(h, asked)
    ensures acc.asked <= asked && MthAsked(h, left) <= asked && MthAsked(h, right) <= asked
    ensures acc.value == Mth(h, if onLeft then right else left)
    ensures sibling == Mth(h, if onLeft then left else right)
  {
    hide Mth, MthAsked, Split;
    MthSplit(h, d, left, right);
    SameQuery(h, if onLeft then NodeQuery(sibling, acc.value) else NodeQuery(acc.value, sibling),
              NodeQuery(Mth(h, left), Mth(h, right)), asked);
  }

  /** Siblings that lead to the tree hash are the honest ones for the leaf they claim, or exhibit a collision. */
  lemma {:induction false} InclusionSound(h: Hasher, leaf: Digest, i: nat, d: seq<Digest>, path: seq<Digest>)
    requires i < |d| && |path| == |TreeSides(i, |d|)|
    requires Climb(h, LeafTrail(h, leaf), TreeSides(i, |d|), path).value == Mth(h, d)
    ensures (leaf == d[i] && path == AuditPath(h, i, d))
            || Collision(h, Climb(h, LeafTrail(h, leaf), TreeSides(i, |d|), path).asked + MthAsked(h, d))
  {
    hide Climb, LeafTrail, TreeSides, MthAsked, Mth, Collision, AuditPath;
    var asked := Climb(h, LeafTrail(h, leaf), TreeSides(i, |d|), path).asked + MthAsked(h, d);
    if !Collision(h, asked) { InclusionSoundIn(h, leaf, i, d, path, asked); }
  }

  /** The walk from a leaf reaches the tree hash, asking nothing outside `asked`. */
  ghost predicate Reaches(h: Hasher, seed: Trail, i: nat, d: seq<Digest>, path: seq<Digest>, asked: set<Query>)
    requires i < |d| && |path| == |TreeSides(i, |d|)|
  {
    var walk := Climb(h, seed, TreeSides(i, |d|), path);
    walk.value == Mth(h, d) && walk.asked <= asked && MthAsked(h, d) <= asked
  }

  lemma {:induction false} InclusionSoundIn(h: Hasher, leaf: Digest, i: nat, d: seq<Digest>, path: seq<Digest>,
                                            asked: set<Query>)
    requires i < |d| && |path| == |TreeSides(i, |d|)|
    requires Reaches(h, LeafTrail(h, leaf), i, d, path, asked) && !Collision(h, asked)
    ensures leaf == d[i] && path == AuditPath(h, i, d)
    decreases |d|
  {
    hide *;
    if |d| == 1 {
      OneLeafBinds(h, leaf, d, path, asked);
    } else {
      var k := Split(|d|);
      var left, right := d[..k], d[k..];
      assert path == [] || path[..|path| - 1] + [path[|path| - 1]] == path;
      if i < k {
        ReachesBelow(h, LeafTrail(h, leaf), i, d, path, asked, left, right);
        InclusionSoundIn(h, leaf, i, left, path[..|path| - 1], asked);
        AuditPathBelow(h, i, d, left, right);
      } else {
        var j := i - k;
        ReachesAbove(h, LeafTrail(h, leaf), i, d, path, asked, j, left, right);
        InclusionSoundIn(h, leaf, j, right, path[..|path| - 1], asked);
        AuditPathAbove(h, i, d, j, left, right);
      }
    }
  }

  lemma OneLeafBinds(h: Hasher, leaf: Digest, d: seq<Digest>, path: seq<Digest>, asked: set<Query>)
    requires |d| == 1 && |path| == |TreeSides(0, |d|)|
    requires Reaches(h, LeafTrail(h, leaf), 0, d, path, asked) && !Collision(h, asked)
    ensures leaf == d[0] && path == AuditPath(h, 0, d)
  {
    hide Collision;
    SameQuery(h, LeafQuery(leaf), TopQuery(h, d), asked);
  }

  lemma AuditPathBelow(h: Hasher, i: nat, d: seq<Digest>, left: seq<Digest>, right: seq<Digest>)
    requires |d| > 1 && i < Split(|d|) && left == d[..Split(|d|)] && right == d[Split(|d|)..]
    ensures AuditPath(h, i, d) == AuditPath(h, i, left) + [Mth(h, right)]
  {
    hide Mth, Split;
  }

  lemma AuditPathAbove(h: Hasher, i: nat, d: seq<Digest>, j: nat, left: seq<Digest>, right: seq<Digest>)
    requires |d| > 1 && Split(|d|) + j == i < |d| && left == d[..Split(|d|)] && right == d[Split(|d|)..]
    ensures AuditPath(h, i, d) == AuditPath(h, j, right) + [Mth(h, left)]
  {
    hide Mth, Split;
    assert i - Split(|d|) == j;
  }

  lemma ReachesBelow(h: Hasher, seed: Trail, i: nat, d: seq<Digest>, path: seq<Digest>, asked: set<Query>,
                     left: seq<Digest>, right: seq<Digest>)
    requires |d| > 1 && i < Split(|d|) && left == d[..Split(|d|)] && right == d[Split(|d|)..]
    requires |path| == |TreeSides(i, |d|)|
    requires Reaches(h, seed, i, d, path, asked) && !Collision(h, asked)
    ensures |path| == |TreeSides(i, |left|)| + 1 && path[|path| - 1] == Mth(h, right)
    ensures Reaches(h, seed, i, left, path[..|path| - 1], asked)
  {
    hide Mth, MthAsked, TreeSides, Split, Climb, Step;
    TreeSidesBelow(i, |d|, |left|);
    ClimbInit(h, seed, TreeSides(i, |left|), false, path);
    StepBinding(h, Climb(h, seed, TreeSides(i, |left|), Init(path)), false, Last(path), d, asked, left, right);
  }

  lemma ReachesAbove(h: Hasher, seed: Trail, i: nat, d: seq<Digest>, path: seq<Digest>, asked: set<Query>,
                     j: nat, left: seq<Digest>, right: seq<Digest>)
    requires |d| > 1 && Split(|d|) + j == i < |d| && left == d[..Split(|d|)] && right == d[Split(|d|)..]
    requires |path| == |TreeSides(i, |d|)|
    requires Reaches(h, seed, i, d, path, asked) && !Collision(h, asked)
    ensures |path| == |TreeSides(j, |right|)| + 1 && path[|path| - 1] == Mth(h, left)
    ensures Reaches(h, seed, j, right, path[..|path| - 1], asked)
  {
    hide Mth, MthAsked, TreeSides, Split, Climb, Step;
    TreeSidesAbove(i, |d|, |left|, j, |right|);
    ClimbInit(h, seed, TreeSides(j, |right|), true, path);
    StepBinding(h, Climb(h, seed, TreeSides(j, |right|), Init(path)), true, Last(path), d, asked, left, right);
  }

  /**
   * What the verifier accepts against the root of d: a proof for a leaf of d, with that leaf, and with
   * exactly the honest siblings, as many as the prover gives; or a collision among the inputs hashed.
   */
  lemma AcceptedInclusion(h: Hasher, proof: InclusionProof, leaf: Digest, d: seq<Digest>)
    requires |d| == proof.treeSize && proof.Proves(h, leaf, Mth(h, d))
    ensures proof.index < |d| && |proof.path| == |AuditPath(h, proof.index, d)|
    ensures (leaf == d[proof.index] && proof.path == AuditPath(h, proof.index, d))
            || Collision(h, proof.Walk(h, leaf).asked + MthAsked(h, d))
  {
    hide Mth, MthAsked, AuditPath, TreeSides, Climb, LeafTrail, Collision;
    InclusionComplete(h, proof.index, d);
    InclusionSound(h, leaf, proof.index, d, proof.path);
  }

  /** The honest proof is accepted, for every leaf of a tree of any size. */
  lemma HonestInclusion(h: Hasher, i: u64, d: seq<Digest>)
    requires i < |d| < TWO64
    ensures InclusionProof(i, |d|, AuditPath(h, i, d)).Proves(h, d[i], Mth(h, d))
  {
    hide Mth, AuditPath, TreeSides, Climb, LeafTrail;
    InclusionComplete(h, i, d);
  }
}
