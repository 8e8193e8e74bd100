/**
 * The Merkle tree hash of RFC 6962 section 2.1 and the two provers, which recurse on the largest
 * power of two below the tree size (sections 2.1.1 and 2.1.2). Each recursive program is a method
 * proved to compute the function of the same name.
 */
module Merkle {
  import opened Basics
  import opened Bits

  /** What the tree hash feeds to SHA-256: nothing, a tagged leaf, or two tagged children. */
  datatype Query = EmptyQuery | LeafQuery(leaf: Digest) | NodeQuery(left: Digest, right: Digest)

  /** The tree code is stated over any hash of queries; `ShaHasher` is the one the program uses. */
  type Hasher = Query -> Digest

  function EncodeQuery(q: Query): Bytes {
    match q
    case EmptyQuery => []
    case LeafQuery(d) => [0x00] + d.bytes
    case NodeQuery(l, r) => [0x01] + l.bytes + r.bytes
  }

  function ShaHasher(sha: Sha): Hasher {
    q => sha(EncodeQuery(q))
  }

  /** The tag bytes and the fixed width keep all inputs apart, so colliding queries collide in SHA-256. */
  lemma EncodeQueryInjective(p: Query, q: Query)
    requires EncodeQuery(p) == EncodeQuery(q)
    ensures p == q
  {
    match p
    case EmptyQuery =>
    case LeafQuery(d) =>
      assert q.LeafQuery?;
      ConcatCut([0x00], d.bytes, [0x00], q.leaf.bytes);
    case NodeQuery(l, r) =>
      assert q.NodeQuery?;
      ConcatCut([0x01] + l.bytes, r.bytes, [0x01] + q.left.bytes, q.right.bytes);
      ConcatCut([0x01], l.bytes, [0x01], q.left.bytes);
  }

  /** Two different members of a finite set of queries have the same hash. */
  ghost predicate Collision(h: Hasher, asked: set<Query>) {
    exists p, q :: p in asked && q in asked && p != q && h(p) == h(q)
  }

  /** A collision of queries is a collision of the hash function itself, between two inputs that were hashed. */
  lemma CollisionInSha(sha: Sha, asked: set<Query>) returns (x: Bytes, y: Bytes)
    requires Collision(ShaHasher(sha), asked)
    ensures x != y && sha(x) == sha(y)
    ensures x in (set q | q in asked :: EncodeQuery(q)) && y in (set q | q in asked :: EncodeQuery(q))
  {
    var p, q :| p in asked && q in asked && p != q && ShaHasher(sha)(p) == ShaHasher(sha)(q);
    x, y := EncodeQuery(p), EncodeQuery(q);
    if x == y { EncodeQueryInjective(p, q); }
  }

  // ----- where a tree splits -----

  /** The first of k, 2k, 4k, ... that reaches half of n. */
  function SplitFrom(n: nat, k: nat): (r: nat)
    requires 0 < k < n
    ensures k <= r < n <= 2 * r
    decreases n - k
  {
    if n <= 2 * k then k else SplitFrom(n, 2 * k)
  }

  /** The largest power of two below n. */
  function Split(n: nat): (k: nat)
    requires n >= 2
    ensures 0 < k < n <= 2 * k
  {
    SplitFrom(n, 1)
  }

  lemma {:induction false} SplitFromPow2(n: nat, s: nat) returns (t: nat)
    requires Pow2(s) < n
    ensures SplitFrom(n, Pow2(s)) == Pow2(t)
    decreases n - Pow2(s)
  {
    t := s;
    if n > 2 * Pow2(s) {
      assert Pow2(s + 1) == 2 * Pow2(s);
      t := SplitFromPow2(n, s + 1);
    }
  }

  lemma SplitPow2(n: nat) returns (t: nat)
    requires n >= 2
    ensures Split(n) == Pow2(t)
  {
    t := SplitFromPow2(n, 0);
  }

  lemma SplitUnique(n: nat, t: nat)
    requires Pow2(t) < n <= 2 * Pow2(t)
    ensures n >= 2 && Split(n) == Pow2(t)
  {
    var s := SplitPow2(n);
    Pow2Strict(t, s + 1);
    Pow2Strict(s, t + 1);
  }

  /** No power of two below n exceeds the split point. */
  lemma SplitIsLargest(n: nat, t: nat)
    requires n >= 2 && Pow2(t) < n
    ensures Pow2(t) <= Split(n)
  {
    var s := SplitPow2(n);
    Pow2Strict(t, s + 1);
    Pow2Monotone(t, s);
  }

  /**
   * Doubling finds the split point. For n above 2^63 the doubled word drops its top bit and the
   * loop never ends; no slice is that long.
   */
  method LargestPow2Lt(n: u64) returns (k: u64)
    requires n <= TWO63
    ensures n >= 2 ==> k == Split(n)
    ensures n <= 1 ==> k == 0
  {
    k := 1;
    ghost var t := 0;
    Pow2_64();
    while k < n
      invariant k == Pow2(t) && t <= 63
      invariant k < 2 * n || k == 1
      invariant k == 1 || k / 2 < n
      decreases 2 * n - k
    {
      if t == 63 { assert false; }
      Pow2Monotone(t + 1, 63);
      k := k * 2 % TWO64;
      t := t + 1;
    }
    if n >= 2 {
      SplitUnique(n, t - 1);
    }
    k := k / 2;
  }

  // ----- the tree hash -----

  function Mth(h: Hasher, d: seq<Digest>): Digest
    decreases |d|
  {
    if |d| == 0 then h(EmptyQuery)
    else if |d| == 1 then h(LeafQuery(d[0]))
    else
      var k := Split(|d|);
      h(NodeQuery(Mth(h, d[..k]), Mth(h, d[k..])))
  }

  /**
   * The tree hash as RFC 6962 section 2.1 defines it, with the cut named by its property: the hash of nothing,
   * of a leaf behind the byte 0, and of two subtree hashes behind the byte 1, where the left subtree is the
   * largest power of two smaller than the whole.
   */
  lemma MthIsRfc(sha: Sha, d: Digest, a: seq<Digest>, b: seq<Digest>, t: nat)
    requires |a| == Pow2(t) && 0 < |b| <= |a|
    ensures var h := ShaHasher(sha);
            && Mth(h, []) == sha([])
            && Mth(h, [d]) == sha([0x00] + d.bytes)
            && Mth(h, a + b) == sha([0x01] + Mth(h, a).bytes + Mth(h, b).bytes)
  {
    hide Mth, MthAsked, Pow2;
    var h := ShaHasher(sha);
    MthConcat(h, a, b, t);
    TopIsAsked(h, []);
    TopIsAsked(h, [d]);
    HashedBytes(sha, EmptyQuery);
    HashedBytes(sha, LeafQuery(d));
    HashedBytes(sha, NodeQuery(Mth(h, a), Mth(h, b)));
  }

  lemma HashedBytes(sha: Sha, q: Query)
    ensures ShaHasher(sha)(q) == sha(EncodeQuery(q))
  {
  }

  lemma MthConcat(h: Hasher, a: seq<Digest>, b: seq<Digest>, t: nat)
    requires |a| == Pow2(t) && 0 < |b| <= |a|
    ensures Mth(h, a + b) == h(NodeQuery(Mth(h, a), Mth(h, b)))
  {
    hide Mth, MthAsked, Split, Pow2;
    var d := a + b;
    SplitUnique(|d|, t);
    assert d[..|a|] == a && d[|a|..] == b;
    MthSplit(h, d, a, b);
  }

  /** The query whose hash is the tree hash. */
  function TopQuery(h: Hasher, d: seq<Digest>): Query
  {
    if |d| == 0 then EmptyQuery
    else if |d| == 1 then LeafQuery(d[0])
    else NodeQuery(Mth(h, d[..Split(|d|)]), Mth(h, d[Split(|d|)..]))
  }

  /** Every query hashed while computing the tree hash. */
  ghost function MthAsked(h: Hasher, d: seq<Digest>): (s: set<Query>)
    ensures TopQuery(h, d) in s
    decreases |d|
  {
    {TopQuery(h, d)} +
    if |d| <= 1 then {} else MthAsked(h, d[..Split(|d|)]) + MthAsked(h, d[Split(|d|)..])
  }

  method ComputeMth(h: Hasher, d: seq<Digest>) returns (root: Digest)
    requires |d| <= TWO63
    ensures root == Mth(h, d)
    decreases |d|
  {
    if |d| == 0 {
      return h(EmptyQuery);
    } else if |d| == 1 {
      return h(LeafQuery(d[0]));
    }
    var k := LargestPow2Lt(|d|);
    var l := ComputeMth(h, d[..k]);
    var r := ComputeMth(h, d[k..]);
    root := h(NodeQuery(l, r));
  }

  lemma TopIsAsked(h: Hasher, d: seq<Digest>)
    ensures Mth(h, d) == h(TopQuery(h, d)) && TopQuery(h, d) in MthAsked(h, d)
  {
  }

  /** The tree hash of a list that splits into two halves. */
  lemma MthSplit(h: Hasher, d: seq<Digest>, left: seq<Digest>, right: seq<Digest>)
    requires |d| > 1 && left == d[..Split(|d|)] && right == d[Split(|d|)..]
    ensures Mth(h, d) == h(NodeQuery(Mth(h, left), Mth(h, right)))
    ensures MthAsked(h, d) == {NodeQuery(Mth(h, left), Mth(h, right))} + MthAsked(h, left) + MthAsked(h, right)
  {
    hide SplitFrom;
  }

  /** Two asked queries with one hash are the same query, or they collide. */
  lemma SameQuery(h: Hasher, p: Query, q: Query, asked: set<Query>)
    requires p in asked && q in asked && h(p) == h(q)
    ensures p == q || Collision(h, asked)
  {
  }

  /** Lists of any two lengths, split at different points, have one tree hash only if they are equal. */
  lemma RootBinding(h: Hasher, a: seq<Digest>, b: seq<Digest>)
    requires Mth(h, a) == Mth(h, b)
    ensures a == b || Collision(h, MthAsked(h, a) + MthAsked(h, b))
  {
    hide *;
    var asked := MthAsked(h, a) + MthAsked(h, b);
    if !Collision(h, asked) { RootBindingIn(h, a, b, asked); }
  }

  lemma {:induction false} RootBindingIn(h: Hasher, a: seq<Digest>, b: seq<Digest>, asked: set<Query>)
    requires Mth(h, a) == Mth(h, b)
    requires MthAsked(h, a) <= asked && MthAsked(h, b) <= asked && !Collision(h, asked)
    ensures a == b
    decreases |a|
  {
    hide Mth, MthAsked, Split;
    TopIsAsked(h, a);
    TopIsAsked(h, b);
    SameQuery(h, TopQuery(h, a), TopQuery(h, b), asked);
    if |a| > 1 {
      var (left, right) := (a[..Split(|a|)], a[Split(|a|)..]);
      var (left', right') := (b[..Split(|b|)], b[Split(|b|)..]);
      MthSplit(h, a, left, right);
      MthSplit(h, b, left', right');
      RootBindingIn(h, left, left', asked);
      RootBindingIn(h, right, right', asked);
      assert a == left + right && b == left' + right';
    }
  }

  // ----- the provers -----

  /** Sibling hashes from leaf m up to the root, lowest first. */
  function AuditPath(h: Hasher, m: nat, d: seq<Digest>): seq<Digest>
    requires m < |d|
    decreases |d|
  {
    if |d| == 1 then []
    else
      var k := Split(|d|);
      if m < k then AuditPath(h, m, d[..k]) + [Mth(h, d[k..])]
      else AuditPath(h, m - k, d[k..]) + [Mth(h, d[..k])]
  }

  method AuditPathRec(h: Hasher, m: u64, d: seq<Digest>, prefix: seq<Digest>) returns (out: seq<Digest>)
    requires m < |d| <= TWO63
    ensures out == prefix + AuditPath(h, m, d)
    decreases |d|
  {
    hide Mth, Split;
    out := prefix;
    if |d| == 1 { return; }
    var k := LargestPow2Lt(|d|);
    var sibling;
    if m < k {
      out := AuditPathRec(h, m, d[..k], out);
      sibling := ComputeMth(h, d[k..]);
    } else {
      out := AuditPathRec(h, m - k, d[k..], out);
      sibling := ComputeMth(h, d[..k]);
    }
    out := out + [sibling];
  }

  method ComputeAuditPath(h: Hasher, m: u64, d: seq<Digest>) returns (out: seq<Digest>)
    requires |d| <= TWO63
    ensures out == if m < |d| then AuditPath(h, m, d) else []
  {
    out := [];
    if |d| != 0 && m < |d| {
      out := AuditPathRec(h, m, d, out);
    }
  }

  /** Consistency nodes for the first m leaves; `whole` says the verifier already has the root of d. */
  function Subproof(h: Hasher, m: nat, d: seq<Digest>, whole: bool): seq<Digest>
    requires 0 < m <= |d|
    decreases |d|
  {
    if m == |d| then (if whole then [] else [Mth(h, d)])
    else
      var k := Split(|d|);
      if m <= k then Subproof(h, m, d[..k], whole) + [Mth(h, d[k..])]
      else Subproof(h, m - k, d[k..], false) + [Mth(h, d[..k])]
  }

  function ConsistencyNodes(h: Hasher, m: nat, d: seq<Digest>): seq<Digest> {
    if 0 < m < |d| then Subproof(h, m, d, true) else []
  }

  method SubproofRec(h: Hasher, m: u64, d: seq<Digest>, whole: bool, prefix: seq<Digest>)
    returns (out: seq<Digest>)
    requires 0 < m <= |d| <= TWO63
    ensures out == prefix + Subproof(h, m, d, whole)
    decreases |d|
  {
    hide Mth, Split;
    out := prefix;
    var node;
    if m == |d| {
      if !whole {
        node := ComputeMth(h, d);
        out := out + [node];
      }
      return;
    }
    var k := LargestPow2Lt(|d|);
    if m <= k {
      out := SubproofRec(h, m, d[..k], whole, out);
      node := ComputeMth(h, d[k..]);
    } else {
      out := SubproofRec(h, m - k, d[k..], false, out);
      node := ComputeMth(h, d[..k]);
    }
    out := out + [node];
  }

  method ComputeConsistencyNodes(h: Hasher, m: u64, d: seq<Digest>) returns (out: seq<Digest>)
    requires |d| <= TWO63
    ensures out == ConsistencyNodes(h, m, d)
  {
    if m == 0 || m == |d| || m > |d| { return []; }
    out := SubproofRec(h, m, d, true, []);
  }

  // ----- proof sizes -----

  /** The least t with n <= 2^t. */
  function CeilLog(n: nat): (t: nat)
    requires n > 0
    ensures n <= Pow2(t) && (t > 0 ==> Pow2(t - 1) < n)
  {
    if n == 1 then 0 else 1 + CeilLog((n + 1) / 2)
  }

  lemma CeilLogBound(n: nat, t: nat)
    requires n > 0
    ensures n <= Pow2(t) <==> CeilLog(n) <= t
  {
    if n <= Pow2(t) && CeilLog(n) > 0 { Pow2Strict(CeilLog(n) - 1, t); }
    if CeilLog(n) <= t { Pow2Monotone(CeilLog(n), t); }
  }

  /** Both halves of a split tree are at least one level lower. */
  lemma HalvesAreLower(n: nat, k: nat)
    requires n >= 2 && k == Split(n)
    ensures CeilLog(k) < CeilLog(n) && CeilLog(n - k) < CeilLog(n)
  {
    var t := SplitPow2(n);
    CeilLogBound(n, t);
    CeilLogBound(k, t);
    CeilLogBound(n - k, t);
  }

  lemma {:induction false} AuditPathLength(h: Hasher, m: nat, d: seq<Digest>)
    requires m < |d|
    ensures |AuditPath(h, m, d)| <= CeilLog(|d|)
    decreases |d|
  {
    hide CeilLog, Mth, Split;
    if |d| > 1 {
      var k := Split(|d|);
      HalvesAreLower(|d|, k);
      if m < k { AuditPathLength(h, m, d[..k]); } else { AuditPathLength(h, m - k, d[k..]); }
    }
  }

  lemma {:induction false} SubproofLength(h: Hasher, m: nat, d: seq<Digest>, whole: bool)
    requires 0 < m <= |d|
    ensures |Subproof(h, m, d, whole)| <= CeilLog(|d|) + 1
    decreases |d|
  {
    hide CeilLog, Mth, Split;
    if m < |d| {
      var k := Split(|d|);
      HalvesAreLower(|d|, k);
      if m <= k { SubproofLength(h, m, d[..k], whole); } else { SubproofLength(h, m - k, d[k..], false); }
    }
  }
}
