/**
 * The canonical payload can be read back. The reader below inverts it on every record whose text
 * values hold no quote, so a signature commits to exactly one set of fields.
 */
module SealPayloads {
  import opened Basics
  import opened Hex
  import opened SealRecords

  datatype Fields = Fields(endSeq: nat, merkleRoot: Bytes, revealed: map<nat, Bytes>, segment: nat, startSeq: nat,
                           tipHash: Bytes)

  function FieldsOf(r: SealRecord): Fields {
    Fields(r.endSeq, r.merkleRoot, r.revealed, r.segment, r.startSeq, r.tipHash)
  }

  // ----- reading -----

  /** What follows a literal, if the text starts with it. */
  function Strip(lit: Bytes, s: Bytes): Option<Bytes> {
    if lit <= s then Some(s[|lit|..]) else None
  }

  /** Length of the longest prefix of digits, or of bytes other than the quote. */
  function Span(digits: bool, s: Bytes): (n: nat)
    ensures n <= |s|
    ensures digits ==> forall i :: 0 <= i < n ==> IsDigit(s[i])
    ensures !digits ==> forall i :: 0 <= i < n ==> s[i] != QUOTE
  {
    if s != [] && (if digits then IsDigit(s[0]) else s[0] != QUOTE) then 1 + Span(digits, s[1..]) else 0
  }

  function ReadNumber(s: Bytes): Option<(nat, Bytes)> {
    var n := Span(true, s);
    if n == 0 then None else Some((DecimalValue(s[..n]), s[n..]))
  }

  function ReadText(s: Bytes): (Bytes, Bytes) {
    var n := Span(false, s);
    (s[..n], s[n..])
  }

  /** One member of the revealed map, from after its opening quote to after its closing quote. */
  function ReadEntry(s: Bytes): (r: Option<(nat, Bytes, Bytes)>)
    ensures r.Some? ==> |r.value.2| < |s|
  {
    var number := ReadNumber(s);
    if number.None? then None else
    var value := Strip(KEY_VALUE, number.value.1);
    if value.None? then None else
    var (key, rest) := ReadText(value.value);
    if rest == [] then None else Some((number.value.0, key, rest[1..]))
  }

  function ReadEntries(s: Bytes): Option<(map<nat, Bytes>, Bytes)>
    decreases |s|
  {
    if s == [] || s[0] != QUOTE then Some((map[], s)) else
    var entry := ReadEntry(s[1..]);
    if entry.None? then None else
    var (epoch, key, rest) := entry.value;
    var more := Strip(SEPARATOR, rest);
    if more.None? then Some((map[epoch := key], rest)) else
    var others := ReadEntries(more.value);
    if others.None? then None else Some((map[epoch := key] + others.value.0, others.value.1))
  }

  function ReadTail(s: Bytes): Option<(nat, nat, Bytes)> {
    var a := Strip(SEGMENT, s);
    if a.None? then None else
    var segment := ReadNumber(a.value);
    if segment.None? then None else
    var b := Strip(START_SEQ, segment.value.1);
    if b.None? then None else
    var start := ReadNumber(b.value);
    if start.None? then None else
    var c := Strip(TIP_HASH, start.value.1);
    if c.None? then None else
    var (tip, rest) := ReadText(c.value);
    if rest == ENDING then Some((segment.value.0, start.value.0, tip)) else None
  }

  function ReadPayload(s: Bytes): Option<Fields> {
    var a := Strip(END_SEQ, s);
    if a.None? then None else
    var end := ReadNumber(a.value);
    if end.None? then None else
    var b := Strip(MERKLE_ROOT, end.value.1);
    if b.None? then None else
    var (root, rest) := ReadText(b.value);
    var c := Strip(REVEALED, rest);
    if c.None? then None else
    var revealed := ReadEntries(c.value);
    if revealed.None? then None else
    var tail := ReadTail(revealed.value.1);
    if tail.None? then None else
    Some(Fields(end.value.0, root, revealed.value.0, tail.value.0, tail.value.1, tail.value.2))
  }

  // ----- reading inverts writing -----

  predicate QuoteFree(s: Bytes) {
    forall i :: 0 <= i < |s| ==> s[i] != QUOTE
  }

  /** The revealed keys and both hashes are quote-free, as hexadecimal text is. */
  predicate PlainRecord(r: SealRecord) {
    QuoteFree(r.merkleRoot) && QuoteFree(r.tipHash) && forall e :: e in r.revealed ==> QuoteFree(r.revealed[e])
  }

  lemma HexIsPlain(d: Digest)
    ensures QuoteFree(EncodeHash(d))
  {
    hide HexEncode;
  }

  lemma Regroup3(a: Bytes, b: Bytes, c: Bytes, d: Bytes)
    ensures a + b + c + d == a + (b + (c + d))
  {
  }

  lemma Regroup6(a: Bytes, b: Bytes, c: Bytes, d: Bytes, e: Bytes, f: Bytes, g: Bytes)
    ensures a + b + c + d + e + f + g == a + (b + (c + (d + (e + (f + g)))))
  {
    Regroup3(a + b + c, d, e, f + g);
    Regroup3(a, b, c, d + (e + (f + g)));
    assert a + b + c + d + e + f + g == a + b + c + d + e + (f + g);
  }

  lemma StripConcat(lit: Bytes, s: Bytes)
    ensures Strip(lit, lit + s) == Some(s)
  {
    assert (lit + s)[|lit|..] == s;
  }

  lemma {:induction false} SpanConcat(digits: bool, x: Bytes, y: Bytes)
    requires forall i :: 0 <= i < |x| ==> if digits then IsDigit(x[i]) else x[i] != QUOTE
    requires y != [] && if digits then !IsDigit(y[0]) else y[0] == QUOTE
    ensures Span(digits, x + y) == |x|
  {
    if x == [] {
      assert x + y == y;
    } else {
      SpanConcat(digits, x[1..], y);
      assert (x + y)[1..] == x[1..] + y;
    }
  }

  lemma NumberRoundTrip(n: nat, y: Bytes)
    requires y != [] && !IsDigit(y[0])
    ensures ReadNumber(Decimal(n) + y) == Some((n, y))
  {
    hide Decimal, DecimalValue, Span;
    SpanConcat(true, Decimal(n), y);
    DecimalRoundTrip(n);
    var s := Decimal(n) + y;
    assert s[..|Decimal(n)|] == Decimal(n) && s[|Decimal(n)|..] == y;
  }

  lemma TextRoundTrip(x: Bytes, y: Bytes)
    requires QuoteFree(x) && y != [] && y[0] == QUOTE
    ensures ReadText(x + y) == (x, y)
  {
    hide Span;
    SpanConcat(false, x, y);
    assert (x + y)[..|x|] == x && (x + y)[|x|..] == y;
  }

  lemma EntryRoundTrip(epoch: u32, key: Bytes, y: Bytes)
    requires QuoteFree(key)
    ensures RenderEntry(epoch, key) + y != [] && (RenderEntry(epoch, key) + y)[0] == QUOTE
    ensures ReadEntry((RenderEntry(epoch, key) + y)[1..]) == Some((epoch, key, y))
  {
    hide Decimal, ReadNumber, ReadText, Strip;
    var a := [QUOTE] + y;
    var b := key + a;
    var c := KEY_VALUE + b;
    assert (RenderEntry(epoch, key) + y)[1..] == Decimal(epoch) + c;
    NumberRoundTrip(epoch, c);
    StripConcat(KEY_VALUE, b);
    TextRoundTrip(key, a);
  }

  lemma ReadEntriesCons(s: Bytes, epoch: u32, key: Bytes, more: Bytes, others: map<nat, Bytes>, y: Bytes)
    requires s != [] && s[0] == QUOTE && ReadEntry(s[1..]) == Some((epoch, key, SEPARATOR + more))
    requires ReadEntries(more) == Some((others, y))
    ensures ReadEntries(s) == Some((map[epoch := key] + others, y))
  {
    hide Strip, ReadEntry;
    StripConcat(SEPARATOR, more);
  }

  lemma ReadEntriesLast(s: Bytes, epoch: u32, key: Bytes, y: Bytes)
    requires s != [] && s[0] == QUOTE && ReadEntry(s[1..]) == Some((epoch, key, y))
    requires y != [] && y[0] == CLOSE
    ensures ReadEntries(s) == Some((map[epoch := key], y))
  {
    hide ReadEntry;
    assert Strip(SEPARATOR, y).None?;
  }

  /** The members from the first listed key on. */
  function Listed(epochs: seq<u32>, m: map<u32, Bytes>): map<nat, Bytes>
    requires forall e :: e in epochs ==> e in m
  {
    map e: u32 | e in epochs :: e := m[e]
  }

  lemma ListedCons(epochs: seq<u32>, m: map<u32, Bytes>, epoch: u32, rest: seq<u32>)
    requires epochs == [epoch] + rest && forall e :: e in epochs ==> e in m
    ensures Listed(epochs, m) == map[epoch := m[epoch]] + Listed(rest, m)
  {
    assert forall e :: e in epochs <==> e == epoch || e in rest;
  }

  lemma RenderEntriesCons(epochs: seq<u32>, m: map<u32, Bytes>, epoch: u32, rest: seq<u32>)
    requires epochs == [epoch] + rest && forall e :: e in epochs ==> e in m
    ensures RenderEntries(epochs, m) == if rest == [] then RenderEntry(epoch, m[epoch])
                                        else RenderEntry(epoch, m[epoch]) + SEPARATOR + RenderEntries(rest, m)
  {
    hide RenderEntry;
    assert epochs[1..] == rest;
  }

  lemma {:induction false} EntriesRoundTrip(epochs: seq<u32>, m: map<u32, Bytes>, y: Bytes)
    requires forall e :: e in epochs ==> e in m && QuoteFree(m[e])
    requires y != [] && y[0] == CLOSE
    ensures ReadEntries(RenderEntries(epochs, m) + y) == Some((Listed(epochs, m), y))
  {
    if epochs == [] {
      assert RenderEntries(epochs, m) + y == y;
    } else {
      hide *;
      var (e, rest) := (epochs[0], epochs[1..]);
      assert epochs == [e] + rest;
      ListedCons(epochs, m, e, rest);
      RenderEntriesCons(epochs, m, e, rest);
      if rest == [] {
        EntryRoundTrip(e, m[e], y);
        ReadEntriesLast(RenderEntry(e, m[e]) + y, e, m[e], y);
        assert rest == [];
        ListedEmpty(m, e);
      } else {
        var more := RenderEntries(rest, m) + y;
        EntriesRoundTrip(rest, m, y);
        EntryRoundTrip(e, m[e], SEPARATOR + more);
        ReadEntriesCons(RenderEntry(e, m[e]) + (SEPARATOR + more), e, m[e], more, Listed(rest, m), y);
        Regroup3(RenderEntry(e, m[e]), SEPARATOR, RenderEntries(rest, m), y);
      }
    }
  }

  lemma ListedEmpty(m: map<u32, Bytes>, epoch: u32)
    requires epoch in m
    ensures map[epoch := m[epoch]] + Listed([], m) == map[epoch := m[epoch]]
  {
  }

  lemma TailRoundTrip(r: SealRecord)
    requires QuoteFree(r.tipHash)
    ensures ReadTail(PayloadTail(r)) == Some((r.segment, r.startSeq, r.tipHash))
    ensures PayloadTail(r) != [] && PayloadTail(r)[0] == CLOSE
  {
    hide Decimal, ReadNumber, ReadText, Strip, QuoteFree;
    var a := r.tipHash + ENDING;
    var b := TIP_HASH + a;
    var c := Decimal(r.startSeq) + b;
    var d := START_SEQ + c;
    var e := Decimal(r.segment) + d;
    Regroup6(SEGMENT, Decimal(r.segment), START_SEQ, Decimal(r.startSeq), TIP_HASH, r.tipHash, ENDING);
    StripConcat(SEGMENT, e);
    NumberRoundTrip(r.segment, d);
    StripConcat(START_SEQ, c);
    NumberRoundTrip(r.startSeq, b);
    StripConcat(TIP_HASH, a);
    TextRoundTrip(r.tipHash, ENDING);
  }

  lemma PlainIsReadBack(r: SealRecord)
    requires PlainRecord(r)
    ensures ReadPayload(SealPayload(r)) == Some(FieldsOf(r))
  {
    hide Decimal, ReadNumber, ReadText, Strip, RenderEntries, ReadEntries, ReadTail, SortedKeys, QuoteFree, PayloadTail;
    var epochs := SortedKeys(r.revealed.Keys);
    var tail := PayloadTail(r);
    var c := RenderEntries(epochs, r.revealed) + tail;
    var d := REVEALED + c;
    var e := r.merkleRoot + d;
    var f := MERKLE_ROOT + e;
    var g := Decimal(r.endSeq) + f;
    Regroup6(END_SEQ, Decimal(r.endSeq), MERKLE_ROOT, r.merkleRoot, REVEALED, RenderEntries(epochs, r.revealed), tail);
    StripConcat(END_SEQ, g);
    NumberRoundTrip(r.endSeq, f);
    StripConcat(MERKLE_ROOT, e);
    TextRoundTrip(r.merkleRoot, d);
    StripConcat(REVEALED, c);
    TailRoundTrip(r);
    EntriesRoundTrip(epochs, r.revealed, tail);
    assert Listed(epochs, r.revealed) == r.revealed;
  }

  // ----- whatever is read is quote-free -----

  lemma ReadTextIsPlain(s: Bytes)
    ensures QuoteFree(ReadText(s).0)
  {
    hide Span;
  }

  lemma ReadEntryIsPlain(s: Bytes)
    requires ReadEntry(s).Some?
    ensures QuoteFree(ReadEntry(s).value.1)
  {
    hide ReadText, ReadNumber, Strip, QuoteFree;
    ReadTextIsPlain(Strip(KEY_VALUE, ReadNumber(s).value.1).value);
  }

  lemma {:induction false} ReadEntriesArePlain(s: Bytes)
    requires ReadEntries(s).Some?
    ensures forall k :: k in ReadEntries(s).value.0 ==> QuoteFree(ReadEntries(s).value.0[k])
    decreases |s|
  {
    if s != [] && s[0] == QUOTE {
      hide ReadEntry, Strip, QuoteFree;
      ReadEntryIsPlain(s[1..]);
      var more := Strip(SEPARATOR, ReadEntry(s[1..]).value.2);
      if more.Some? {
        StripShrinks(SEPARATOR, ReadEntry(s[1..]).value.2);
        ReadEntriesArePlain(more.value);
      }
    }
  }

  lemma StripShrinks(lit: Bytes, s: Bytes)
    requires Strip(lit, s).Some?
    ensures |Strip(lit, s).value| <= |s|
  {
  }

  lemma ReadTailIsPlain(s: Bytes)
    requires ReadTail(s).Some?
    ensures QuoteFree(ReadTail(s).value.2)
  {
    hide ReadText, ReadNumber, Strip, QuoteFree;
    var start := Strip(START_SEQ, ReadNumber(Strip(SEGMENT, s).value).value.1).value;
    ReadTextIsPlain(Strip(TIP_HASH, ReadNumber(start).value.1).value);
  }

  lemma ReadPayloadIsPlain(s: Bytes)
    requires ReadPayload(s).Some?
    ensures var f := ReadPayload(s).value;
            && QuoteFree(f.merkleRoot) && QuoteFree(f.tipHash)
            && forall k :: k in f.revealed ==> QuoteFree(f.revealed[k])
  {
    hide ReadText, ReadNumber, Strip, QuoteFree, ReadEntries, ReadTail;
    var b := Strip(MERKLE_ROOT, ReadNumber(Strip(END_SEQ, s).value).value.1).value;
    ReadTextIsPlain(b);
    var c := Strip(REVEALED, ReadText(b).1).value;
    ReadEntriesArePlain(c);
    ReadTailIsPlain(ReadEntries(c).value.1);
  }

  /** Plainness is a property of the fields the payload is made from. */
  lemma PlainFields(r: SealRecord, f: Fields)
    requires f == FieldsOf(r) && QuoteFree(f.merkleRoot) && QuoteFree(f.tipHash)
    requires forall k :: k in f.revealed ==> QuoteFree(f.revealed[k])
    ensures PlainRecord(r)
  {
    hide QuoteFree;
    forall e | e in r.revealed ensures QuoteFree(r.revealed[e]) {
      assert e in f.revealed;
    }
  }

  /** Reading a canonical payload gives back the fields it was made from exactly when none of them holds a quote. */
  lemma PayloadRoundTrip(r: SealRecord)
    ensures ReadPayload(SealPayload(r)) == Some(FieldsOf(r)) <==> PlainRecord(r)
  {
    hide *;
    if PlainRecord(r) {
      PlainIsReadBack(r);
    } else if ReadPayload(SealPayload(r)) == Some(FieldsOf(r)) {
      ReadPayloadIsPlain(SealPayload(r));
      PlainFields(r, FieldsOf(r));
    }
  }

  /** A record with the signed text of a quote-free one has its fields exactly when it is quote-free itself. */
  lemma PayloadInjective(r: SealRecord, r': SealRecord)
    requires PlainRecord(r) && SealPayload(r) == SealPayload(r')
    ensures FieldsOf(r) == FieldsOf(r') <==> PlainRecord(r')
  {
    hide *;
    PayloadRoundTrip(r);
    PayloadRoundTrip(r');
  }

  /** There is one increasing list of a set. */
  lemma {:induction false} SortedUnique(s: set<u32>, r: seq<u32>)
    requires forall k :: k in r <==> k in s
    requires forall i, j :: 0 <= i < j < |r| ==> r[i] < r[j]
    ensures SortedKeys(s) == r
    decreases |r|
  {
    if r == [] {
      assert s == {};
    } else {
      assert r[0] in r;
      assert Least(s) == r[0];
      assert forall k :: k in r[1..] <==> k in s - {r[0]};
      SortedUnique(s - {r[0]}, r[1..]);
    }
  }

  // ----- one payload in full -----

  lemma Glue(s: string, t: string, all: string)
    requires s + t == all
    ensures Ascii(s) + Ascii(t) == Ascii(all)
  {
  }

  lemma ExampleNumbers()
    ensures Decimal(0) == Ascii("0") && Decimal(1) == Ascii("1") && Decimal(2) == Ascii("2")
    ensures Decimal(10) == Ascii("10") && Decimal(12) == Ascii("12")
  {
    assert Decimal(1) == [49];
  }

  lemma ExampleEndSeq()
    ensures END_SEQ + Ascii("12") == Ascii("{\"end_seq\": 12")
  {
    Glue("{\"end_seq\": ", "12", "{\"end_seq\": 12");
  }

  lemma ExampleRoot()
    ensures MERKLE_ROOT + Ascii("ab") == Ascii(", \"merkle_root\": \"ab")
  {
    Glue(", \"merkle_root\": \"", "ab", ", \"merkle_root\": \"ab");
  }

  lemma ExampleSegment()
    ensures SEGMENT + Ascii("0") == Ascii("}, \"segment\": 0")
    ensures START_SEQ + Ascii("1") == Ascii(", \"start_seq\": 1")
  {
    Glue("}, \"segment\": ", "0", "}, \"segment\": 0");
    Glue(", \"start_seq\": ", "1", ", \"start_seq\": 1");
  }

  lemma ExampleTip()
    ensures TIP_HASH + Ascii("cd") == Ascii(", \"tip_hash\": \"cd")
  {
    Glue(", \"tip_hash\": \"", "cd", ", \"tip_hash\": \"cd");
  }

  lemma ExampleMember(epoch: u32, number: string, key: string)
    requires Decimal(epoch) == Ascii(number)
    ensures RenderEntry(epoch, Ascii(key)) == Ascii("\"" + number + "\": \"" + key + "\"")
  {
    hide Decimal;
  }

  lemma ExampleEntries(m: map<u32, Bytes>)
    requires m == map[10 := Ascii("y"), 2 := Ascii("x")]
    ensures RenderEntries(SortedKeys(m.Keys), m)
            == Ascii("\"" + "2" + "\": \"" + "x" + "\"") + Ascii(", ") + Ascii("\"" + "10" + "\": \"" + "y" + "\"")
  {
    assert m.Keys == {2, 10};
    RenderEntriesCons([2, 10], m, 2, [10]);
    RenderEntriesCons([10], m, 10, []);
    hide *;
    ExampleNumbers();
    ExampleMember(2, "2", "x");
    ExampleMember(10, "10", "y");
    SortedUnique({2, 10}, [2, 10]);
  }

  /** Keys in numeric order, one blank after colons and commas, and the members in this order. */
  lemma PayloadExample(r: SealRecord)
    requires r.segment == 0 && r.startSeq == 1 && r.endSeq == 12 && r.revealed == map[10 := Ascii("y"), 2 := Ascii("x")]
    requires r.merkleRoot == Ascii("ab") && r.tipHash == Ascii("cd")
    ensures SealPayload(r)
            == Ascii("{\"end_seq\": 12") + Ascii(", \"merkle_root\": \"ab") + Ascii("\", \"revealed\": {")
               + (Ascii("\"" + "2" + "\": \"" + "x" + "\"") + Ascii(", ") + Ascii("\"" + "10" + "\": \"" + "y" + "\""))
               + (Ascii("}, \"segment\": 0") + Ascii(", \"start_seq\": 1") + Ascii(", \"tip_hash\": \"cd") + Ascii("\"}"))
  {
    hide Decimal, Ascii, RenderEntries, SortedKeys;
    ExampleNumbers();
    ExampleEndSeq();
    ExampleRoot();
    ExampleEntries(r.revealed);
    ExampleSegment();
    ExampleTip();
    ExampleTail(r);
    Bracket(END_SEQ, Ascii("12"), MERKLE_ROOT, Ascii("ab"));
  }

  lemma ExampleTail(r: SealRecord)
    requires r.segment == 0 && r.startSeq == 1 && r.tipHash == Ascii("cd")
    requires Decimal(0) == Ascii("0") && Decimal(1) == Ascii("1")
    ensures PayloadTail(r) == (SEGMENT + Ascii("0")) + (START_SEQ + Ascii("1")) + (TIP_HASH + Ascii("cd")) + ENDING
  {
    hide Decimal, Ascii;
    Bracket(SEGMENT, Ascii("0"), START_SEQ, Ascii("1"));
    Bracket(SEGMENT + Ascii("0"), START_SEQ + Ascii("1"), TIP_HASH, Ascii("cd"));
  }

  lemma Bracket(a: Bytes, b: Bytes, c: Bytes, d: Bytes)
    ensures a + b + c + d == (a + b) + (c + d)
  {
  }

  /** A quote inside a revealed key makes one payload stand for two different maps. */
  lemma QuotedKeyIsAmbiguous(r: SealRecord, x: Bytes, y: Bytes)
    ensures var forged := x + [QUOTE] + SEPARATOR + [QUOTE] + Decimal(2) + KEY_VALUE + y;
            SealPayload(r.(revealed := map[1 := forged])) == SealPayload(r.(revealed := map[1 := x, 2 := y]))
  {
    var forged := x + [QUOTE] + SEPARATOR + [QUOTE] + Decimal(2) + KEY_VALUE + y;
    var one: map<u32, Bytes> := map[1 := forged];
    var two: map<u32, Bytes> := map[1 := x, 2 := y];
    ForgedEntry(1, 2, x, y, forged);
    RenderEntriesCons([1], one, 1, []);
    RenderEntriesCons([1, 2], two, 1, [2]);
    RenderEntriesCons([2], two, 2, []);
    hide *;
    assert one.Keys == {1} && two.Keys == {1, 2};
    SortedUnique({1}, [1]);
    SortedUnique({1, 2}, [1, 2]);
    SamePayload(r.(revealed := one), r.(revealed := two), [1], [1, 2]);
  }

  lemma ForgedEntry(epoch: u32, next: u32, x: Bytes, y: Bytes, forged: Bytes)
    requires forged == x + [QUOTE] + SEPARATOR + [QUOTE] + Decimal(next) + KEY_VALUE + y
    ensures RenderEntry(epoch, forged) == RenderEntry(epoch, x) + SEPARATOR + RenderEntry(next, y)
  {
    hide Decimal;
    var a, q := [QUOTE] + Decimal(epoch) + KEY_VALUE, [QUOTE];
    var b := q + Decimal(next) + KEY_VALUE + y;
    assert forged == x + q + SEPARATOR + b;
    assert a + (x + q + SEPARATOR + b) + q == (a + x + q) + SEPARATOR + (b + q);
  }

  lemma SamePayload(r: SealRecord, r': SealRecord, epochs: seq<u32>, epochs': seq<u32>)
    requires SortedKeys(r.revealed.Keys) == epochs && SortedKeys(r'.revealed.Keys) == epochs'
    requires RenderEntries(epochs, r.revealed) == RenderEntries(epochs', r'.revealed)
    requires r'.(revealed := r.revealed) == r
    ensures SealPayload(r) == SealPayload(r')
  {
    hide RenderEntries, SortedKeys, Decimal;
  }
}
