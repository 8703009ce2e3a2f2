/** Exactly which GET texts are accepted, and as which requests: decoding as the inverse of encoding. */
module GetAcceptance {
  import opened Types
  import opened GetDecoder

  /** The two alphabets of sections 4 and 5 of RFC 4648, by character code. */
  lemma AlphabetTable(e: Encoding, v: Sextet)
    ensures v <= 25 ==> Symbol(e, v) == 65 + v                   // 'A'..'Z'
    ensures 26 <= v <= 51 ==> Symbol(e, v) == 97 + (v - 26)      // 'a'..'z'
    ensures 52 <= v <= 61 ==> Symbol(e, v) == 48 + (v - 52)      // '0'..'9'
    ensures v == 62 ==> Symbol(e, v) == if e.urlSafe then 45 else 43
    ensures v == 63 ==> Symbol(e, v) == if e.urlSafe then 95 else 47
  {
  }

  /** The characters that decoding accepts as symbols are those that encoding produces. */
  lemma SymbolInverse(e: Encoding, c: Byte)
    ensures InAlphabet(e, c) <==> exists v: Sextet :: Symbol(e, v) == c
    ensures InAlphabet(e, c) ==> Symbol(e, Value(c)) == c
  {
    if v: Sextet :| Symbol(e, v) == c { SymbolRoundTrip(e, v); }
    assert InAlphabet(e, c) ==> Symbol(e, Value(c)) == c;
  }

  /** Where the last symbol of an incomplete quantum stands. */
  function LastSymbol(n: nat): nat { n / 3 * 4 + n % 3 }

  /**
   `c` may stand for the symbol `d` that ends an incomplete quantum: one byte leaves four of its bits unused,
   two bytes leave two.
   */
  predicate SameBits(e: Encoding, n: nat, c: Byte, d: Byte) {
    && InAlphabet(e, c)
    && (n % 3 == 1 ==> Value(c) / 16 == Value(d) / 16)
    && (n % 3 == 2 ==> Value(c) / 4 == Value(d) / 4)
  }

  /** `s` is the encoding of `b`, character by character, but for the unused bits of its last symbol. */
  predicate Spells(e: Encoding, s: seq<Byte>, b: seq<Byte>) {
    var t := Encode(e, b);
    && |s| == |t|
    && forall i :: 0 <= i < |s| ==>
         if |b| % 3 != 0 && i == LastSymbol(|b|) then SameBits(e, |b|, s[i], t[i]) else s[i] == t[i]
  }

  lemma SplitFirst(v0: Sextet, v1: Sextet)
    ensures (v0 * 4 + v1 / 16) / 4 == v0 && (v0 * 4 + v1 / 16) % 4 * 16 + v1 % 16 == v1
  {
    assert v0 * 4 + v1 / 16 == 4 * v0 + v1 / 16 && v1 / 16 < 4;
  }

  lemma SplitSecond(v1: Sextet, v2: Sextet)
    ensures (v1 % 16 * 16 + v2 / 4) / 16 == v1 % 16 && (v1 % 16 * 16 + v2 / 4) % 16 * 4 + v2 % 4 == v2
  {
    assert v2 / 4 < 16;
  }

  lemma SplitThird(v2: Sextet, v3: Sextet)
    ensures (v2 % 4 * 64 + v3) / 64 == v2 % 4 && (v2 % 4 * 64 + v3) % 64 == v3
  {
  }

  lemma FourSextets(v0: Sextet, v1: Sextet, v2: Sextet, v3: Sextet)
    ensures
      var x, y, z := v0 * 4 + v1 / 16, v1 % 16 * 16 + v2 / 4, v2 % 4 * 64 + v3;
      && x / 4 == v0 && x % 4 * 16 + y / 16 == v1 && y % 16 * 4 + z / 64 == v2 && z % 64 == v3
  {
    SplitFirst(v0, v1);
    SplitSecond(v1, v2);
    SplitThird(v2, v3);
  }

  /** Encoding the three bytes of a full quantum gives back its four symbols. */
  lemma QuantumInverse(e: Encoding, s: seq<Byte>)
    requires Symbols(e, s, 4)
    ensures Encode(e, [FirstByte(s), SecondByte(s), ThirdByte(s)]) == s[..4]
  {
    var x, y, z := FirstByte(s), SecondByte(s), ThirdByte(s);
    assert x / 4 == Value(s[0]) && x % 4 * 16 + y / 16 == Value(s[1])
        && y % 16 * 4 + z / 64 == Value(s[2]) && z % 64 == Value(s[3]) by {
      FourSextets(Value(s[0]), Value(s[1]), Value(s[2]), Value(s[3]));
    }
    SymbolInverse(e, s[0]);
    SymbolInverse(e, s[1]);
    SymbolInverse(e, s[2]);
    SymbolInverse(e, s[3]);
    assert [x, y, z][3..] == [];
  }

  lemma EncodeQuantum(e: Encoding, a: seq<Byte>, b: seq<Byte>)
    requires |a| == 3
    ensures Encode(e, a + b) == Encode(e, a) + Encode(e, b) && |Encode(e, a)| == 4
  {
    assert (a + b)[3..] == b && a[3..] == [];
  }

  lemma PrependQuantum(e: Encoding, s: seq<Byte>, a: seq<Byte>, b: seq<Byte>)
    requires |a| == 3 && |s| >= 4 && s[..4] == Encode(e, a) && Spells(e, s[4..], b)
    ensures Spells(e, s, a + b)
  {
    EncodeQuantum(e, a, b);
    var t, rest := Encode(e, a + b), Encode(e, b);
    assert LastSymbol(|a + b|) == LastSymbol(|b|) + 4 && |a + b| % 3 == |b| % 3;
    forall i | 0 <= i < |s|
      ensures if |b| % 3 != 0 && i == LastSymbol(|b|) + 4 then SameBits(e, |b|, s[i], t[i]) else s[i] == t[i]
    {
      if i < 4 { assert s[i] == s[..4][i]; } else { assert s[i] == s[4..][i - 4] && t[i] == rest[i - 4]; }
    }
  }

  lemma DropQuantum(e: Encoding, s: seq<Byte>, a: seq<Byte>, b: seq<Byte>)
    requires |a| == 3 && Spells(e, s, a + b)
    ensures |s| >= 4 && s[..4] == Encode(e, a) && Spells(e, s[4..], b)
  {
    EncodeQuantum(e, a, b);
    var t, first, rest := Encode(e, a + b), Encode(e, a), Encode(e, b);
    assert LastSymbol(|a + b|) == LastSymbol(|b|) + 4 && |a + b| % 3 == |b| % 3;
    forall i | 0 <= i < 4 ensures s[..4][i] == first[i] { assert s[i] == t[i] == first[i]; }
    forall i | 0 <= i < |rest|
      ensures if |b| % 3 != 0 && i == LastSymbol(|b|) then SameBits(e, |b|, s[4..][i], rest[i])
              else s[4..][i] == rest[i]
    {
      assert s[4..][i] == s[i + 4] && rest[i] == t[i + 4];
    }
  }

  /** The two forms of an incomplete quantum, as decoding sees them. */
  predicate TailOf(e: Encoding, s: seq<Byte>, n: nat) {
    && Symbols(e, s, n + 1) && |s| == (if e.padded then 4 else n + 1)
    && forall i :: n < i < |s| ==> s[i] == PAD
  }

  lemma TailForms(e: Encoding, s: seq<Byte>)
    ensures TailOf(e, s, 1) ==> DecodeQuanta(e, s) == Some([FirstByte(s)])
    ensures TailOf(e, s, 2) ==> DecodeQuanta(e, s) == Some([FirstByte(s), SecondByte(s)])
    ensures s != [] && !Symbols(e, s, 4) && DecodeQuanta(e, s).Some? ==> TailOf(e, s, 1) || TailOf(e, s, 2)
  {
    assert !InAlphabet(e, PAD);
  }

  lemma OneSpells(e: Encoding, s: seq<Byte>)
    requires TailOf(e, s, 1)
    ensures Spells(e, s, [FirstByte(s)])
  {
    var x := FirstByte(s);
    SplitFirst(Value(s[0]), Value(s[1]));
    SymbolInverse(e, s[0]);
    SymbolRoundTrip(e, x % 4 * 16);
    var t := Encode(e, [x]);
    assert t[0] == s[0] && SameBits(e, 1, s[1], t[1]);
  }

  lemma TwoSextets(v0: Sextet, v1: Sextet, v2: Sextet)
    ensures
      var x, y := v0 * 4 + v1 / 16, v1 % 16 * 16 + v2 / 4;
      x / 4 == v0 && x % 4 * 16 + y / 16 == v1 && (y % 16 * 4) / 4 == v2 / 4
  {
    SplitFirst(v0, v1);
    SplitSecond(v1, v2);
  }

  lemma TwoSymbols(e: Encoding, s: seq<Byte>)
    requires Symbols(e, s, 3)
    ensures
      var x, y := FirstByte(s), SecondByte(s);
      && Symbol(e, x / 4) == s[0] && Symbol(e, x % 4 * 16 + y / 16) == s[1]
      && Value(s[2]) / 4 == Value(Symbol(e, y % 16 * 4)) / 4
  {
    var x, y := FirstByte(s), SecondByte(s);
    assert x / 4 == Value(s[0]) && x % 4 * 16 + y / 16 == Value(s[1]) && (y % 16 * 4) / 4 == Value(s[2]) / 4 by {
      TwoSextets(Value(s[0]), Value(s[1]), Value(s[2]));
    }
    SymbolInverse(e, s[0]);
    SymbolInverse(e, s[1]);
    SymbolRoundTrip(e, y % 16 * 4);
  }

  lemma TwoSpell(e: Encoding, s: seq<Byte>)
    requires TailOf(e, s, 2)
    ensures Spells(e, s, [FirstByte(s), SecondByte(s)])
  {
    TwoSymbols(e, s);
    var t := Encode(e, [FirstByte(s), SecondByte(s)]);
    assert t[0] == s[0] && t[1] == s[1] && t[2] == Symbol(e, SecondByte(s) % 16 * 4);
  }

  lemma {:induction false} DecodedSpells(e: Encoding, s: seq<Byte>)
    requires DecodeQuanta(e, s).Some?
    ensures Spells(e, s, DecodeQuanta(e, s).value)
  {
    if s != [] && Symbols(e, s, 4) {
      DecodedSpells(e, s[4..]);
      QuantumInverse(e, s);
      PrependQuantum(e, s, [FirstByte(s), SecondByte(s), ThirdByte(s)], DecodeQuanta(e, s[4..]).value);
    } else if s != [] {
      TailForms(e, s);
      if TailOf(e, s, 1) { OneSpells(e, s); } else { TwoSpell(e, s); }
    }
  }

  lemma SpeltOne(e: Encoding, s: seq<Byte>, x: Byte)
    requires Spells(e, s, [x])
    ensures DecodeQuanta(e, s) == Some([x])
  {
    var t := Encode(e, [x]);
    SymbolRoundTrip(e, x / 4);
    SymbolRoundTrip(e, x % 4 * 16);
    assert s[0] == t[0] == Symbol(e, x / 4) && t[1] == Symbol(e, x % 4 * 16) && SameBits(e, 1, s[1], t[1]);
    assert TailOf(e, s, 1);
    assert FirstByte(s) == x;
    TailForms(e, s);
  }

  lemma SpeltTwo(e: Encoding, s: seq<Byte>, x: Byte, y: Byte)
    requires Spells(e, s, [x, y])
    ensures DecodeQuanta(e, s) == Some([x, y])
  {
    var t := Encode(e, [x, y]);
    SymbolRoundTrip(e, x / 4);
    SymbolRoundTrip(e, x % 4 * 16 + y / 16);
    SymbolRoundTrip(e, y % 16 * 4);
    assert s[0] == t[0] == Symbol(e, x / 4) && s[1] == t[1] == Symbol(e, x % 4 * 16 + y / 16);
    assert t[2] == Symbol(e, y % 16 * 4) && SameBits(e, 2, s[2], t[2]);
    assert TailOf(e, s, 2);
    JoinFirst(x, y);
    JoinSecond(x, y, 0);
    assert FirstByte(s) == x && SecondByte(s) == y;
    TailForms(e, s);
  }

  lemma SpeltQuantum(e: Encoding, s: seq<Byte>, x: Byte, y: Byte, z: Byte)
    requires |s| >= 4 && s[..4] == Encode(e, [x, y, z])
    ensures Symbols(e, s, 4) && FirstByte(s) == x && SecondByte(s) == y && ThirdByte(s) == z
  {
    FullQuantum(e, x, y, z, s[4..]);
    assert [x, y, z][3..] == [];
    assert s == s[..4] + s[4..];
  }

  lemma {:induction false} SpeltDecodes(e: Encoding, s: seq<Byte>, b: seq<Byte>)
    requires Spells(e, s, b)
    ensures DecodeQuanta(e, s) == Some(b)
  {
    if |b| >= 3 {
      var a, rest := b[..3], b[3..];
      assert b == a + rest;
      DropQuantum(e, s, a, rest);
      assert a == [b[0], b[1], b[2]];
      SpeltQuantum(e, s, b[0], b[1], b[2]);
      SpeltDecodes(e, s[4..], rest);
    } else if |b| == 2 {
      assert b == [b[0], b[1]];
      SpeltTwo(e, s, b[0], b[1]);
    } else if |b| == 1 {
      assert b == [b[0]];
      SpeltOne(e, s, b[0]);
    }
  }

  lemma AcceptedSpells(s: seq<Byte>) returns (e: Encoding)
    requires DecodeGetRequest(s).Ok?
    ensures Decode(e, s) == Some(DecodeGetRequest(s).value) && Spells(e, Strip(s), DecodeGetRequest(s).value)
  {
    FirstSuccessMeaning(GET_ENCODINGS, s);
    e :| e in GET_ENCODINGS && Decode(e, s).Some?;
    DecodedSpells(e, Strip(s));
  }

  /** Stripping drops line feeds and carriage returns, and nothing else, wherever they stand. */
  lemma {:induction false} StripMeaning(s: seq<Byte>, t: seq<Byte>, c: Byte)
    ensures Strip(s + t) == Strip(s) + Strip(t)
    ensures Strip([c]) == if c == 10 || c == 13 then [] else [c]
  {
    assert [c][1..] == [];
    if s == [] {
      assert s + t == t;
    } else {
      assert (s + t)[1..] == s[1..] + t;
      StripMeaning(s[1..], t, c);
    }
  }

  lemma SpeltDecodesText(e: Encoding, s: seq<Byte>, b: seq<Byte>)
    requires Spells(e, Strip(s), b)
    ensures Decode(e, s) == Some(b)
  {
    SpeltDecodes(e, Strip(s), b);
  }

  lemma SpeltText(e: Encoding, s: seq<Byte>, b: seq<Byte>)
    requires s != [] && |s| <= MAX_GET_REQUEST_SIZE && Spells(e, Strip(s), b)
    ensures DecodeGetRequest(s) == Ok(b)
  {
    SpeltDecodesText(e, s, b);
    AcceptedText(e, s);
  }

  /** Some encoding spells `b` this way. */
  ghost predicate SpelledBy(s: seq<Byte>, b: seq<Byte>) { exists e :: Spells(e, s, b) }

  /**
   A text is accepted as `b` exactly if it is not empty, has at most 13656 characters, and without its line
   breaks spells `b` in one of the four encodings.
   */
  lemma GetAcceptsIff(s: seq<Byte>, b: seq<Byte>)
    ensures Accepted(s, b) <==> s != [] && |s| <= 13656 && SpelledBy(Strip(s), b)
  {
    CapIs13656();
    if Accepted(s, b) { AcceptedIsSpelled(s); }
    if s != [] && |s| <= 13656 && SpelledBy(Strip(s), b) { SpelledIsAccepted(s, b); }
  }

  /** The handler decodes the text `s` to the request `b`. */
  ghost predicate Accepted(s: seq<Byte>, b: seq<Byte>) { DecodeGetRequest(s) == Ok(b) }

  lemma CapIs13656()
    ensures MAX_GET_REQUEST_SIZE == 13656
  {
  }

  lemma AcceptedIsSpelled(s: seq<Byte>)
    requires DecodeGetRequest(s).Ok?
    ensures s != [] && |s| <= MAX_GET_REQUEST_SIZE && SpelledBy(Strip(s), DecodeGetRequest(s).value)
  {
    var e := AcceptedSpells(s);
  }

  lemma SpelledIsAccepted(s: seq<Byte>, b: seq<Byte>)
    requires s != [] && |s| <= MAX_GET_REQUEST_SIZE && SpelledBy(Strip(s), b)
    ensures DecodeGetRequest(s) == Ok(b)
  {
    var e :| Spells(e, Strip(s), b);
    SpeltText(e, s, b);
  }

  /** A character that a text in the given alphabet may contain besides line breaks and padding. */
  predicate Literal(urlSafe: bool, c: int) {
    || 65 <= c <= 90 || 97 <= c <= 122 || 48 <= c <= 57
    || (if urlSafe then c == 45 || c == 95 else c == 43 || c == 47)
  }

  /** Symbols of one alphabet, then at most two padding characters, and no single symbol left over. */
  predicate WellFormed(urlSafe: bool, s: seq<Byte>, n: nat) {
    && n <= |s| <= n + 2 && n % 4 != 1
    && (forall i :: 0 <= i < n ==> Literal(urlSafe, s[i]))
    && (forall i :: n <= i < |s| ==> s[i] == 61)
    && (|s| > n ==> |s| % 4 == 0)
  }

  lemma TailWellFormed(e: Encoding, s: seq<Byte>, n: nat)
    requires 1 <= n <= 2 && TailOf(e, s, n)
    ensures WellFormed(e.urlSafe, s, NonPad(s))
  {
    NonPadPrefix(e, s, n + 1);
    if e.padded && n == 2 {
      assert s[3..] == [PAD];
    } else if e.padded {
      assert s[2..] == [PAD, PAD] && [PAD, PAD][1..] == [PAD] && NonPad([PAD]) == 0;
    }
  }

  lemma PrependWellFormed(e: Encoding, s: seq<Byte>, n: nat)
    requires Symbols(e, s, 4) && WellFormed(e.urlSafe, s[4..], n)
    ensures WellFormed(e.urlSafe, s, n + 4)
  {
    assert forall i :: 4 <= i < |s| ==> s[i] == s[4..][i - 4];
  }

  lemma {:induction false} DecodedWellFormed(e: Encoding, s: seq<Byte>)
    requires DecodeQuanta(e, s).Some?
    ensures WellFormed(e.urlSafe, s, NonPad(s))
  {
    if s != [] && Symbols(e, s, 4) {
      NonPadPrefix(e, s, 4);
      DecodedWellFormed(e, s[4..]);
      PrependWellFormed(e, s, NonPad(s[4..]));
    } else if s != [] {
      TailForms(e, s);
      TailWellFormed(e, s, if TailOf(e, s, 1) then 1 else 2);
    }
  }

  /** So a text with any other character, with padding inside, or with a dangling symbol is refused. */
  lemma GetRefusesOthers(s: seq<Byte>)
    requires DecodeGetRequest(s).Ok?
    ensures exists urlSafe :: WellFormed(urlSafe, Strip(s), NonPad(Strip(s)))
  {
    var e := AcceptedSpells(s);
    DecodedWellFormed(e, Strip(s));
  }
}
