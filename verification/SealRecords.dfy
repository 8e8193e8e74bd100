/** The body of a seal event, and the canonical text that its signature covers. */
module SealRecords {
  import opened Basics

  datatype SealRecord = SealRecord(
    segment: u64, startSeq: u64, endSeq: u64, tipHash: Bytes, merkleRoot: Bytes, revealed: map<u32, Bytes>,
    prevSeal: Bytes, scheme: Bytes, publicKey: Bytes, signature: Bytes, payload: Bytes)

  // ----- decimal numbers -----

  predicate IsDigit(c: byte) {
    48 <= c <= 57
  }

  function Decimal(n: nat): (s: Bytes)
    ensures s != [] && forall i :: 0 <= i < |s| ==> IsDigit(s[i])
  {
    if n < 10 then [48 + n] else Decimal(n / 10) + [48 + n % 10]
  }

  function DecimalValue(s: Bytes): nat
    requires forall i :: 0 <= i < |s| ==> IsDigit(s[i])
  {
    if s == [] then 0 else
    assert IsDigit(s[|s| - 1]);
    10 * DecimalValue(s[..|s| - 1]) + (s[|s| - 1] as int - 48)
  }

  lemma {:induction false} DecimalRoundTrip(n: nat)
    ensures DecimalValue(Decimal(n)) == n
  {
    if n >= 10 {
      DecimalRoundTrip(n / 10);
      assert Decimal(n)[..|Decimal(n)| - 1] == Decimal(n / 10);
    } else {
      assert Decimal(n)[..0] == [];
    }
  }

  // ----- an ordered map -----

  /** The least key; a B-tree map lists its entries in this order. */
  function Least(s: set<u32>): (k: u32)
    requires s != {}
    ensures k in s && forall j :: j in s ==> k <= j
  {
    LeastExists(s);
    var k: u32 :| k in s && forall j :: j in s ==> k <= j;
    k
  }

  lemma LeastExists(s: set<u32>)
    requires s != {}
    ensures exists k: u32 :: k in s && forall j :: j in s ==> k <= j
  {
    var x: u32 :| x in s;
    LeastBelow(s, x);
  }

  lemma {:induction false} LeastBelow(s: set<u32>, x: u32)
    requires x in s
    ensures exists k: u32 :: k in s && forall j :: j in s ==> k <= j
  {
    if j: u32 :| j in s && j < x { LeastBelow(s, j); }
  }

  /** The keys in increasing order. */
  function SortedKeys(s: set<u32>): (r: seq<u32>)
    ensures forall k :: k in r <==> k in s
    ensures forall i, j :: 0 <= i < j < |r| ==> r[i] < r[j]
  {
    if s == {} then []
    else
      var k := Least(s);
      [k] + SortedKeys(s - {k})
  }

  // ----- the canonical payload -----

  const QUOTE: byte := 34
  const CLOSE: byte := 125

  const END_SEQ := Ascii("{\"end_seq\": ")
  const MERKLE_ROOT := Ascii(", \"merkle_root\": \"")
  const REVEALED := Ascii("\", \"revealed\": {")
  const SEGMENT := Ascii("}, \"segment\": ")
  const START_SEQ := Ascii(", \"start_seq\": ")
  const TIP_HASH := Ascii(", \"tip_hash\": \"")
  const ENDING := Ascii("\"}")
  const KEY_VALUE := Ascii("\": \"")
  const SEPARATOR := Ascii(", ")

  function RenderEntry(epoch: u32, key: Bytes): Bytes {
    [QUOTE] + Decimal(epoch) + KEY_VALUE + key + [QUOTE]
  }

  function RenderEntries(epochs: seq<u32>, m: map<u32, Bytes>): Bytes
    requires forall e :: e in epochs ==> e in m
  {
    if epochs == [] then []
    else if |epochs| == 1 then RenderEntry(epochs[0], m[epochs[0]])
    else RenderEntry(epochs[0], m[epochs[0]]) + SEPARATOR + RenderEntries(epochs[1..], m)
  }

  /** Sorted members, `", "` between members and `": "` after names. */
  function SealPayload(r: SealRecord): Bytes {
    END_SEQ + Decimal(r.endSeq) + MERKLE_ROOT + r.merkleRoot + REVEALED
    + RenderEntries(SortedKeys(r.revealed.Keys), r.revealed) + PayloadTail(r)
  }

  function PayloadTail(r: SealRecord): Bytes {
    SEGMENT + Decimal(r.segment) + START_SEQ + Decimal(r.startSeq) + TIP_HASH + r.tipHash + ENDING
  }

  // ----- signing -----

  /** A signer is one identity: its scheme, its public key if it has one to give, and its signatures. */
  datatype Signer = Signer(scheme: Bytes, publicKey: Option<Bytes>, sign: Bytes -> Option<Bytes>)

  /** Fill in payload and signature. */
  function SignRecord(r: SealRecord, signer: Signer): Option<SealRecord> {
    var filled := r.(payload := SealPayload(r));
    var signature := signer.sign(filled.payload);
    if signature.Some? then Some(filled.(signature := signature.value)) else None
  }
}
