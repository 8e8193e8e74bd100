/**
 * Removing the hash field from a foreign ledger line. The scanner walks bytes with nested skips; what it
 * removes is described by a decomposition of the line.
 */
module Import {
  import opened Basics
  import opened Hex
  import opened SealRecords

  const COMMA: byte := 44
  const COLON: byte := 58
  /** `"hash"` with its quotes. */
  const HASH_KEY: Bytes := [34, 104, 97, 115, 104, 34]

  predicate IsBlank(c: byte) {
    c == 32 || c == 9 || c == 10 || c == 12 || c == 13
  }

  predicate Blank(w: Bytes) {
    forall i :: 0 <= i < |w| ==> IsBlank(w[i])
  }

  predicate AllHex(h: Bytes) {
    forall i :: 0 <= i < |h| ==> IsHexDigit(h[i])
  }

  // ----- what can be removed -----

  /** A hash field behind a comma, and the text on both sides of it. */
  datatype Cut = Cut(before: Bytes, w1: Bytes, w2: Bytes, w3: Bytes, hash: Bytes, after: Bytes) {
    /** `before , "hash" : "<64 hex digits>" after`, with blanks at w1, w2 and w3. */
    function Line(): Bytes {
      before + [COMMA] + w1 + HASH_KEY + w2 + [COLON] + w3 + [QUOTE] + hash + [QUOTE] + after
    }

    function Body(): Bytes {
      before + after
    }

    /** Where the key starts in the line. */
    function KeyAt(): nat {
      |before| + 1 + |w1|
    }

    predicate WellFormed() {
      Blank(w1) && Blank(w2) && Blank(w3) && |hash| == 64 && AllHex(hash)
    }
  }

  predicate IsCut(line: Bytes, c: Cut) {
    c.WellFormed() && line == c.Line()
  }

  // ----- finding it from a key position -----

  function SkipBlank(line: Bytes, j: nat): (r: nat)
    requires j <= |line|
    ensures j <= r <= |line| && (r < |line| ==> !IsBlank(line[r]))
    ensures forall i :: j <= i < r ==> IsBlank(line[i])
    decreases |line| - j
  {
    if j < |line| && IsBlank(line[j]) then SkipBlank(line, j + 1) else j
  }

  function SkipBack(line: Bytes, k: nat): (r: nat)
    requires k <= |line|
    ensures r <= k && (r > 0 ==> !IsBlank(line[r - 1]))
    ensures forall i :: r <= i < k ==> IsBlank(line[i])
  {
    if k > 0 && IsBlank(line[k - 1]) then SkipBack(line, k - 1) else k
  }

  /** The field whose key starts at i, with the comma before it. */
  function CutAt(line: Bytes, i: nat): Option<Cut>
    requires i + 6 <= |line|
  {
    if line[i..i + 6] != HASH_KEY then None else
    var colon := SkipBlank(line, i + 6);
    if colon >= |line| || line[colon] != COLON then None else
    var open := SkipBlank(line, colon + 1);
    if open >= |line| || line[open] != QUOTE then None else
    var close := open + 65;
    if close >= |line| || line[close] != QUOTE || !AllHex(line[open + 1..close]) then None else
    var k := SkipBack(line, i);
    if k == 0 || line[k - 1] != COMMA then None else
    Some(Cut(line[..k - 1], line[k..i], line[i + 6..colon], line[colon + 1..open], line[open + 1..close], line[close + 1..]))
  }

  lemma CutAtIsCut(line: Bytes, i: nat)
    requires i + 6 <= |line| && CutAt(line, i).Some?
    ensures IsCut(line, CutAt(line, i).value) && CutAt(line, i).value.KeyAt() == i
  {
    hide AllHex, SkipBlank, SkipBack, IsCut, Cut.Line;
    var (colon, k) := (SkipBlank(line, i + 6), SkipBack(line, i));
    var open := SkipBlank(line, colon + 1);
    CutOfPieces(line, k, i, colon, open, open + 65);
  }

  /** What the scanner has checked around a key makes the pieces a cut. */
  lemma CutOfPieces(line: Bytes, k: nat, i: nat, colon: nat, open: nat, close: nat)
    requires 0 < k <= i && i + 6 <= colon < open && close == open + 65 < |line|
    requires line[k - 1] == COMMA && line[i..i + 6] == HASH_KEY && line[colon] == COLON && line[open] == QUOTE
    requires line[close] == QUOTE && AllHex(line[open + 1..close])
    requires forall j :: k <= j < i || i + 6 <= j < colon || colon < j < open ==> IsBlank(line[j])
    ensures IsCut(line, Cut(line[..k - 1], line[k..i], line[i + 6..colon], line[colon + 1..open],
                            line[open + 1..close], line[close + 1..]))
  {
    hide AllHex, IsBlank;
    CutText(line, k, i, colon, open, close);
  }

  /** A prefix followed by the next piece is a longer prefix. */
  lemma Longer(line: Bytes, prefix: Bytes, piece: Bytes, a: nat, b: nat)
    requires a <= b <= |line| && prefix == line[..a] && piece == line[a..b]
    ensures prefix + piece == line[..b]
  {
  }

  lemma One(line: Bytes, a: nat, c: byte)
    requires a < |line| && line[a] == c
    ensures line[a..a + 1] == [c]
  {
  }

  /** A line is the sequence of its pieces. */
  lemma CutText(line: Bytes, k: nat, i: nat, colon: nat, open: nat, close: nat)
    requires 0 < k <= i && i + 6 <= colon < open < close < |line|
    requires line[k - 1] == COMMA && line[i..i + 6] == HASH_KEY && line[colon] == COLON && line[open] == QUOTE
    requires line[close] == QUOTE
    ensures line[..k - 1] + [COMMA] + line[k..i] + HASH_KEY + line[i + 6..colon] + [COLON] + line[colon + 1..open] + [QUOTE]
            + line[open + 1..close] + [QUOTE] + line[close + 1..] == line
  {
    One(line, k - 1, COMMA);
    One(line, colon, COLON);
    One(line, open, QUOTE);
    One(line, close, QUOTE);
    var s0 := line[..k - 1];
    var s1 := s0 + [COMMA];
    Longer(line, s0, [COMMA], k - 1, k);
    var s2 := s1 + line[k..i];
    Longer(line, s1, line[k..i], k, i);
    var s3 := s2 + HASH_KEY;
    Longer(line, s2, HASH_KEY, i, i + 6);
    var s4 := s3 + line[i + 6..colon];
    Longer(line, s3, line[i + 6..colon], i + 6, colon);
    var s5 := s4 + [COLON];
    Longer(line, s4, [COLON], colon, colon + 1);
    var s6 := s5 + line[colon + 1..open];
    Longer(line, s5, line[colon + 1..open], colon + 1, open);
    var s7 := s6 + [QUOTE];
    Longer(line, s6, [QUOTE], open, open + 1);
    var s8 := s7 + line[open + 1..close];
    Longer(line, s7, line[open + 1..close], open + 1, close);
    var s9 := s8 + [QUOTE];
    Longer(line, s8, [QUOTE], close, close + 1);
    Longer(line, s9, line[close + 1..], close + 1, |line|);
    assert line[..|line|] == line;
  }

  lemma {:induction false} SkipBlankTo(line: Bytes, j: nat, r: nat)
    requires j <= r <= |line| && Blank(line[j..r]) && (r < |line| ==> !IsBlank(line[r]))
    ensures SkipBlank(line, j) == r
  {
    assert forall i :: j <= i < r ==> line[i] == line[j..r][i - j];
  }

  lemma {:induction false} SkipBackTo(line: Bytes, k: nat, r: nat)
    requires r <= k <= |line| && Blank(line[r..k]) && (r > 0 ==> !IsBlank(line[r - 1]))
    ensures SkipBack(line, k) == r
  {
    assert forall i :: r <= i < k ==> line[i] == line[r..k][i - r];
  }

  /** Where the pieces of a cut lie in its line. */
  lemma CutLayout(c: Cut)
    ensures var line := c.Line();
            var i := c.KeyAt();
            var colon := i + 6 + |c.w2|;
            var open := colon + 1 + |c.w3|;
            var close := open + 1 + |c.hash|;
            && close < |line|
            && line[..|c.before|] == c.before && line[|c.before|] == COMMA && line[|c.before| + 1..i] == c.w1
            && line[i..i + 6] == HASH_KEY && line[i + 6..colon] == c.w2 && line[colon] == COLON
            && line[colon + 1..open] == c.w3 && line[open] == QUOTE && line[open + 1..close] == c.hash
            && line[close] == QUOTE && line[close + 1..] == c.after
  {
  }

  /** Every decomposition is the one found from its key position. */
  lemma CutIsFound(line: Bytes, c: Cut)
    requires IsCut(line, c)
    ensures c.KeyAt() + 6 <= |line| && CutAt(line, c.KeyAt()) == Some(c)
  {
    hide SkipBlank, SkipBack, AllHex, Blank;
    CutLayout(c);
    hide Cut.Line;
    var i := c.KeyAt();
    var colon := i + 6 + |c.w2|;
    var open := colon + 1 + |c.w3|;
    SkipBlankTo(line, i + 6, colon);
    SkipBlankTo(line, colon + 1, open);
    SkipBackTo(line, i, |c.before| + 1);
  }

  // ----- the scanner -----

  /** The field at key position i can go: what remains is still an object. */
  predicate Qualifies(line: Bytes, isObject: Bytes -> bool, i: nat)
    requires i + 6 <= |line|
  {
    var c := CutAt(line, i);
    c.Some? && isObject(c.value.Body())
  }

  /** Field c can go, and no field that starts before it can. */
  ghost predicate Leftmost(line: Bytes, isObject: Bytes -> bool, c: Cut) {
    && IsCut(line, c) && isObject(c.Body())
    && forall d: Cut :: IsCut(line, d) && isObject(d.Body()) ==> c.KeyAt() <= d.KeyAt()
  }

  /**
   * Exactly one field is removed, the leftmost one behind a comma whose removal leaves an object. Nothing is
   * returned only when there is no such field.
   */
  ghost predicate Stripped(line: Bytes, isObject: Bytes -> bool, r: Option<(Bytes, Bytes)>) {
    match r
    case None => forall c: Cut :: IsCut(line, c) ==> !isObject(c.Body())
    case Some(result) => exists c: Cut :: Leftmost(line, isObject, c) && result == (c.Body(), c.hash)
  }

  method SkipBlanks(line: Bytes, start: nat) returns (j: nat)
    requires start <= |line|
    ensures j == SkipBlank(line, start)
  {
    j := start;
    while j < |line| && IsBlank(line[j])
      invariant start <= j <= |line| && SkipBlank(line, j) == SkipBlank(line, start)
    {
      j := j + 1;
    }
  }

  method SkipBlanksBack(line: Bytes, end: nat) returns (k: nat)
    requires end <= |line|
    ensures k == SkipBack(line, end)
  {
    k := end;
    while k > 0 && IsBlank(line[k - 1])
      invariant k <= end && SkipBack(line, k) == SkipBack(line, end)
    {
      k := k - 1;
    }
  }

  /** What the scanner does at one position: the stripped line if the field there can go. */
  method StripAt(line: Bytes, isObject: Bytes -> bool, i: nat) returns (r: Option<(Bytes, Bytes)>)
    requires i + 6 <= |line|
    ensures r.Some? <==> Qualifies(line, isObject, i)
    ensures r.Some? ==> r.value == (CutAt(line, i).value.Body(), CutAt(line, i).value.hash)
  {
    hide SkipBlank, SkipBack, AllHex;
    if line[i..i + 6] != HASH_KEY {
      return None;
    }
    var j := SkipBlanks(line, i + 6);
    if j >= |line| || line[j] != COLON {
      return None;
    }
    j := SkipBlanks(line, j + 1);
    if j >= |line| || line[j] != QUOTE {
      return None;
    }
    var valStart := j + 1;
    var valEnd := valStart + 64;
    if valEnd < |line| && line[valEnd] == QUOTE && AllHex(line[valStart..valEnd]) {
      var k := SkipBlanksBack(line, i);
      if k > 0 && line[k - 1] == COMMA {
        var body := line[..k - 1] + line[valEnd + 1..];
        if isObject(body) {
          return Some((body, line[valStart..valEnd]));
        }
      }
    }
    return None;
  }

  method StripHashField(line: Bytes, isObject: Bytes -> bool) returns (r: Option<(Bytes, Bytes)>)
    ensures Stripped(line, isObject, r)
  {
    hide Leftmost, IsCut, CutAt;
    var i := 0;
    while i + 6 <= |line|
      invariant forall n :: 0 <= n < i && n + 6 <= |line| ==> !Qualifies(line, isObject, n)
    {
      r := StripAt(line, isObject, i);
      if r.Some? {
        LeftmostCut(line, isObject, i);
        return;
      }
      i := i + 1;
    }
    forall c: Cut | IsCut(line, c) ensures !isObject(c.Body()) {
      CutIsFound(line, c);
      assert !Qualifies(line, isObject, c.KeyAt());
    }
    return None;
  }

  lemma LeftmostCut(line: Bytes, isObject: Bytes -> bool, i: nat)
    requires i + 6 <= |line| && Qualifies(line, isObject, i)
    requires forall n :: 0 <= n < i && n + 6 <= |line| ==> !Qualifies(line, isObject, n)
    ensures Leftmost(line, isObject, CutAt(line, i).value)
  {
    hide CutAt, IsCut;
    CutAtIsCut(line, i);
    forall d: Cut | IsCut(line, d) && isObject(d.Body()) ensures i <= d.KeyAt() {
      CutIsFound(line, d);
      assert Qualifies(line, isObject, d.KeyAt());
    }
  }

  /** Only one field starts at a given position, so the result is determined by the line. */
  lemma CutUnique(line: Bytes, c: Cut, d: Cut)
    requires IsCut(line, c) && IsCut(line, d) && c.KeyAt() == d.KeyAt()
    ensures c == d
  {
    hide CutAt, IsCut;
    CutIsFound(line, c);
    CutIsFound(line, d);
  }

  // ----- insertion undone -----

  /** `, "hash" : "<64 hex digits>"` as it stands in the line. */
  function FieldText(c: Cut): Bytes {
    [COMMA] + c.w1 + HASH_KEY + c.w2 + [COLON] + c.w3 + [QUOTE] + c.hash + [QUOTE]
  }

  function Repeat(text: Bytes, n: nat): Bytes {
    if n == 0 then [] else text + Repeat(text, n - 1)
  }

  /** Starts with a comma and has no other. */
  predicate OneComma(text: Bytes) {
    text != [] && text[0] == COMMA && forall i :: 0 < i < |text| ==> text[i] != COMMA
  }

  lemma FieldHasOneComma(c: Cut)
    requires c.WellFormed()
    ensures OneComma(FieldText(c))
  {
    var (f, rest) := (FieldText(c), HASH_KEY + c.w2 + [COLON] + c.w3 + [QUOTE] + c.hash + [QUOTE]);
    assert f == [COMMA] + c.w1 + rest;
    assert forall i :: 0 < i <= |c.w1| ==> f[i] == c.w1[i - 1];
    assert forall i :: |c.w1| < i < |f| ==> f[i] == rest[i - 1 - |c.w1|];
    NoCommaAfterKey(c, rest);
  }

  lemma NoCommaAfterKey(c: Cut, rest: Bytes)
    requires c.WellFormed() && rest == HASH_KEY + c.w2 + [COLON] + c.w3 + [QUOTE] + c.hash + [QUOTE]
    ensures forall i :: 0 <= i < |rest| ==> rest[i] != COMMA
  {
    var (a, b) := (6 + |c.w2|, 8 + |c.w2| + |c.w3|);
    forall i | 0 <= i < |rest| ensures rest[i] != COMMA {
      if 6 <= i < a { assert rest[i] == c.w2[i - 6]; }
      if a < i < b - 1 { assert rest[i] == c.w3[i - a - 1]; }
      if b <= i < b + 64 { assert rest[i] == c.hash[i - b]; }
    }
  }

  lemma LineIsField(c: Cut)
    ensures c.Line() == c.before + FieldText(c) + c.after
  {
  }

  /** Only one field stands behind a given comma. */
  lemma SameStart(line: Bytes, c: Cut, d: Cut)
    requires IsCut(line, c) && IsCut(line, d) && |c.before| == |d.before|
    ensures c == d
  {
    CutLayout(c);
    CutLayout(d);
    hide Cut.Line;
    KeyQuote(line, c.KeyAt());
    KeyQuote(line, d.KeyAt());
    QuoteAfterBlanks(line, |c.before| + 1, c.w1, d.KeyAt());
    QuoteAfterBlanks(line, |c.before| + 1, d.w1, c.KeyAt());
    hide CutAt, IsCut;
    CutUnique(line, c, d);
  }

  lemma QuoteAfterBlanks(line: Bytes, k: nat, w: Bytes, q: nat)
    requires k + |w| <= |line| && line[k..k + |w|] == w && Blank(w) && k <= q < |line| && line[q] == QUOTE
    ensures k + |w| <= q
  {
    assert forall i :: k <= i < k + |w| ==> line[i] == line[k..k + |w|][i - k];
  }

  lemma KeyQuote(line: Bytes, i: nat)
    requires i + 6 <= |line| && line[i..i + 6] == HASH_KEY
    ensures line[i] == QUOTE
  {
    assert line[i..i + 6][0] == line[i];
  }

  /** Fields with one text have the same pieces. */
  lemma SameText(c: Cut, d: Cut)
    requires c.WellFormed() && d.WellFormed() && FieldText(c) == FieldText(d)
    ensures c.(before := d.before, after := d.after) == d
  {
    var (x, y) := (c.(before := [], after := []), d.(before := [], after := []));
    LineIsField(x);
    LineIsField(y);
    hide Cut.Line, Blank, AllHex;
    assert FieldText(x) == FieldText(y);
    SameStart(x.Line(), x, y);
  }

  /** If two one-comma texts of one length can be exchanged around m, m repeats the one text. */
  lemma {:induction false} Exchange(d: Bytes, c: Bytes, m: Bytes) returns (n: nat)
    requires OneComma(d) && OneComma(c) && |c| == |d| && d + m == m + c
    ensures c == d && m == Repeat(d, n)
    decreases |m|
  {
    if m == [] {
      assert d + m == d && m + c == c;
      n := 0;
    } else {
      assert (m + c)[|m|] == COMMA && (d + m)[|m|] == COMMA;
      assert |d| <= |m|;
      var rest := m[|d|..];
      assert (d + m)[..|d|] == d && (m + c)[..|d|] == m[..|d|];
      assert m == d + rest;
      assert (d + m)[|d|..] == m && (m + c)[|d|..] == rest + c;
      n := Exchange(d, c, rest);
      n := n + 1;
    }
  }

  /** Two fields of a line that leave the same rest: the later one ends a run of copies of the earlier. */
  lemma SameRest(line: Bytes, d: Cut, c: Cut) returns (n: nat)
    requires IsCut(line, d) && IsCut(line, c) && d.Body() == c.Body() && |d.before| < |c.before|
    ensures FieldText(c) == FieldText(d) && c.before == d.before + Repeat(FieldText(c), n)
  {
    var (f, g) := (FieldText(d), FieldText(c));
    FieldHasOneComma(d);
    FieldHasOneComma(c);
    LineIsField(d);
    LineIsField(c);
    hide FieldText, Cut.Line;
    n := SameRestTexts(line, d.before, f, d.after, c.before, g, c.after);
  }

  lemma SameRestTexts(line: Bytes, a: Bytes, f: Bytes, z: Bytes, b: Bytes, g: Bytes, y: Bytes) returns (n: nat)
    requires line == a + f + z && line == b + g + y && a + z == b + y && |a| < |b|
    requires OneComma(f) && OneComma(g)
    ensures g == f && b == a + Repeat(g, n)
  {
    TextsApart(line, a, f, z, b, g, y);
    hide OneComma, Repeat;
    var m := b[|a| + |f|..];
    TextsBetween(line, a, f, z, b, g, y, m);
    n := Exchange(f, g, m);
    CopyInFront(a, f, n);
    n := n + 1;
  }

  lemma CopyInFront(a: Bytes, f: Bytes, n: nat)
    ensures a + f + Repeat(f, n) == a + Repeat(f, n + 1)
  {
    assert a + f + Repeat(f, n) == a + (f + Repeat(f, n));
  }

  /** A text with one comma does not start inside another. */
  lemma TextsApart(line: Bytes, a: Bytes, f: Bytes, z: Bytes, b: Bytes, g: Bytes, y: Bytes)
    requires line == a + f + z && line == b + g + y && |a| < |b| && OneComma(f) && OneComma(g)
    ensures |a| + |f| <= |b|
  {
    assert line[|b|] == g[0];
    assert forall i :: |a| <= i < |a| + |f| ==> line[i] == f[i - |a|];
  }

  lemma TextsBetween(line: Bytes, a: Bytes, f: Bytes, z: Bytes, b: Bytes, g: Bytes, y: Bytes, m: Bytes)
    requires line == a + f + z && line == b + g + y && a + z == b + y
    requires |a| + |f| <= |b| && m == b[|a| + |f|..]
    ensures |f| == |g| && b == a + f + m && f + m == m + g
  {
    assert |f| == |g|;
    assert line[..|b|] == b && line[..|a| + |f|] == a + f;
    assert b == a + f + m;
    ConcatCut(a, z, a, f + m + y);
    ConcatCut(a + f, z, a + f, m + g + y);
    ConcatCut(f + m, y, m + g, y);
  }

  lemma {:induction false} RepeatRotates(text: Bytes, n: nat)
    ensures Repeat(text, n) + text == text + Repeat(text, n)
  {
    if n > 0 {
      RepeatRotates(text, n - 1);
      assert text + Repeat(text, n - 1) + text == text + (Repeat(text, n - 1) + text);
    }
  }

  // ----- a field inside a member -----

  lemma LeftmostUnique(line: Bytes, isObject: Bytes -> bool, c: Cut, d: Cut)
    requires Leftmost(line, isObject, c) && Leftmost(line, isObject, d)
    ensures c == d
  {
    hide IsCut;
    CutUnique(line, c, d);
  }

  /** The letter h, with which the key starts after its quote. */
  const KEY_LETTER: byte := 104

  /** A field that can go is the leftmost one if no key can start before it. */
  lemma NoKeyBefore(line: Bytes, isObject: Bytes -> bool, c: Cut)
    requires IsCut(line, c) && isObject(c.Body()) && forall i :: 0 <= i < |c.before| ==> c.before[i] != KEY_LETTER
    ensures Leftmost(line, isObject, c)
  {
    CutLayout(c);
    hide Cut.Line;
    forall d: Cut | IsCut(line, d) && isObject(d.Body()) ensures c.KeyAt() <= d.KeyAt() {
      CutLayout(d);
      KeyLetter(line, d.KeyAt());
      if d.KeyAt() < c.KeyAt() { LetterPlace(line, c, d.KeyAt() + 1); }
    }
  }

  lemma KeyLetter(line: Bytes, i: nat)
    requires i + 6 <= |line| && line[i..i + 6] == HASH_KEY
    ensures line[i + 1] == KEY_LETTER
  {
    assert line[i..i + 6][1] == line[i + 1];
  }

  lemma LetterPlace(line: Bytes, c: Cut, i: nat)
    requires IsCut(line, c) && i <= c.KeyAt()
    requires forall j :: 0 <= j < |c.before| ==> c.before[j] != KEY_LETTER
    ensures i < |line| && line[i] != KEY_LETTER
  {
    CutLayout(c);
    hide Cut.Line;
    if i < |c.before| {
      assert line[..|c.before|][i] == line[i];
    } else if |c.before| < i < c.KeyAt() {
      assert line[|c.before| + 1..c.KeyAt()][i - |c.before| - 1] == line[i];
    } else if i == c.KeyAt() {
      KeyQuote(line, i);
    }
  }

  const NESTED := Ascii("{\"a\":{\"b\":1")

  /** The nested field of the line below, as a cut. */
  function NestedCut(inner: Bytes, outer: Bytes): Cut {
    Cut(NESTED, [], [], [], inner, Ascii("},\"hash\":\"") + outer + Ascii("\"}"))
  }

  lemma NestedLine(inner: Bytes, outer: Bytes)
    ensures NestedCut(inner, outer).Line()
            == NESTED + Ascii(",\"hash\":\"") + inner + Ascii("\"},\"hash\":\"") + outer + Ascii("\"}")
  {
    NestedPieces();
    var after := Ascii("},\"hash\":\"");
    assert NestedCut(inner, outer).Line()
           == NESTED + ([COMMA] + [] + HASH_KEY + [] + [COLON] + [] + [QUOTE]) + inner + ([QUOTE] + after) + outer
              + Ascii("\"}") by { hide Ascii; }
  }

  lemma NestedPieces()
    ensures [COMMA] + [] + HASH_KEY + [] + [COLON] + [] + [QUOTE] == Ascii(",\"hash\":\"")
    ensures [QUOTE] + Ascii("},\"hash\":\"") == Ascii("\"},\"hash\":\"")
  {
  }

  /** On a line with a nested and a top-level hash field the nested one goes, if the rest is an object. */
  lemma NestedFieldGoesFirst(inner: Bytes, outer: Bytes, isObject: Bytes -> bool, r: Option<(Bytes, Bytes)>)
    requires |inner| == 64 && AllHex(inner)
    requires isObject(NESTED + (Ascii("},\"hash\":\"") + outer + Ascii("\"}")))
    requires Stripped(NESTED + Ascii(",\"hash\":\"") + inner + Ascii("\"},\"hash\":\"") + outer + Ascii("\"}"), isObject, r)
    ensures r == Some((NESTED + (Ascii("},\"hash\":\"") + outer + Ascii("\"}")), inner))
  {
    NestedLine(inner, outer);
    var c := NestedCut(inner, outer);
    assert forall i :: 0 <= i < |NESTED| ==> NESTED[i] != KEY_LETTER;
    hide Ascii, Cut.Line, AllHex;
    NoKeyBefore(c.Line(), isObject, c);
    var d: Cut :| Leftmost(c.Line(), isObject, d) && r.value == (d.Body(), d.hash);
    LeftmostUnique(c.Line(), isObject, d, c);
  }

  // ----- the inserted field -----

  /** The first of n copies of c's text in front of c, the first copy standing behind `start`. */
  function FirstCopy(c: Cut, start: Bytes, n: nat): Cut {
    c.(before := start, after := Repeat(FieldText(c), n) + c.after)
  }

  lemma CopyIsField(c: Cut, start: Bytes, n: nat)
    requires c.WellFormed() && c.before == start + Repeat(FieldText(c), n)
    ensures IsCut(c.Line(), FirstCopy(c, start, n)) && FirstCopy(c, start, n).Body() == c.Body()
  {
    var d := FirstCopy(c, start, n);
    RepeatRotates(FieldText(c), n);
    LineIsField(c);
    LineIsField(d);
    assert FieldText(d) == FieldText(c) && d.WellFormed();
    hide FieldText, Cut.Line, Repeat, Blank, AllHex;
    MoveCopies(start, FieldText(c), Repeat(FieldText(c), n), c.after);
  }

  lemma MoveCopies(start: Bytes, f: Bytes, r: Bytes, after: Bytes)
    requires r + f == f + r
    ensures start + f + (r + after) == start + r + f + after
    ensures start + (r + after) == start + r + after
  {
    assert start + f + (r + after) == start + (f + r) + after;
    assert start + r + f + after == start + (r + f) + after;
  }

  /**
   * Inserting a hash field and stripping it gives back the object and the hash exactly when the leftmost
   * field that can go is the inserted one, or the first of a run of copies of it that ends with it.
   */
  lemma StripUndoesInsert(c: Cut, isObject: Bytes -> bool, r: Option<(Bytes, Bytes)>)
    requires c.WellFormed() && isObject(c.Body()) && Stripped(c.Line(), isObject, r)
    ensures r.Some?
    ensures r == Some((c.Body(), c.hash)) <==>
            exists start: Bytes, n: nat :: c.before == start + Repeat(FieldText(c), n)
                                           && Leftmost(c.Line(), isObject, FirstCopy(c, start, n))
  {
    assert IsCut(c.Line(), c);
    var d: Cut :| Leftmost(c.Line(), isObject, d) && r.value == (d.Body(), d.hash);
    if r == Some((c.Body(), c.hash)) {
      var start, n := LeftmostIsCopy(c, isObject, d);
      assert Leftmost(c.Line(), isObject, FirstCopy(c, start, n));
    }
    if exists start: Bytes, n: nat :: c.before == start + Repeat(FieldText(c), n)
                                      && Leftmost(c.Line(), isObject, FirstCopy(c, start, n)) {
      var start: Bytes, n: nat :| c.before == start + Repeat(FieldText(c), n)
                                  && Leftmost(c.Line(), isObject, FirstCopy(c, start, n));
      CopyIsField(c, start, n);
      LeftmostUnique(c.Line(), isObject, d, FirstCopy(c, start, n));
    }
  }

  /** The leftmost field, if it leaves the same rest and hash as c, is the first of the copies in front of c. */
  lemma LeftmostIsCopy(c: Cut, isObject: Bytes -> bool, d: Cut) returns (start: Bytes, n: nat)
    requires c.WellFormed() && isObject(c.Body()) && Leftmost(c.Line(), isObject, d) && d.Body() == c.Body()
    ensures c.before == start + Repeat(FieldText(c), n) && FirstCopy(c, start, n) == d
  {
    start, n := d.before, 0;
    if |d.before| < |c.before| {
      n := SameRest(c.Line(), d, c);
      CopyIsField(c, start, n);
      SameStart(c.Line(), d, FirstCopy(c, start, n));
    } else if |c.before| < |d.before| {
      var k := SameRest(c.Line(), c, d);
      SameText(c, d);
      assert false;
    } else {
      SameStart(c.Line(), c, d);
    }
  }
}
