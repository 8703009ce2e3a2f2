/**
 Decoding of the path segment of an OCSP GET request.

 The base64 codec follows sections 4 and 5 of RFC 4648 as Go's encoding/base64 implements them:
 carriage returns and line feeds are skipped wherever they occur, the unused low bits of a final
 quantum are not checked, and a padded encoding insists on its padding while a raw one rejects it.
 */
module GetDecoder {
  import opened Types

  type Byte = x: int | 0 <= x < 256
  type Sextet = x: int | 0 <= x < 64

  /** One of the four alphabets: standard or URL-safe symbols, with or without padding. */
  datatype Encoding = Encoding(urlSafe: bool, padded: bool)

  const STD := Encoding(false, true)
  const RAW_STD := Encoding(false, false)
  const URL := Encoding(true, true)
  const RAW_URL := Encoding(true, false)

  /** The order in which the handler tries them. */
  const GET_ENCODINGS: seq<Encoding> := [STD, RAW_STD, URL, RAW_URL]

  const PAD: Byte := 61

  const MAX_REQUEST_SIZE: nat := 10240

  function EncodedLen(n: nat): nat { (n + 2) / 3 * 4 }

  const MAX_GET_REQUEST_SIZE: nat := EncodedLen(MAX_REQUEST_SIZE)

  predicate NewLine(c: Byte) { c == 10 || c == 13 }

  function Symbol(e: Encoding, v: Sextet): Byte {
    if v < 26 then 65 + v
    else if v < 52 then 71 + v
    else if v < 62 then v - 4
    else if v == 62 then (if e.urlSafe then 45 else 43)
    else (if e.urlSafe then 95 else 47)
  }

  predicate InAlphabet(e: Encoding, c: Byte) {
    65 <= c <= 90 || 97 <= c <= 122 || 48 <= c <= 57
    || (if e.urlSafe then c == 45 || c == 95 else c == 43 || c == 47)
  }

  function Value(c: Byte): Sextet {
    if 65 <= c <= 90 then c - 65
    else if 97 <= c <= 122 then c - 71
    else if 48 <= c <= 57 then c + 4
    else if c == 43 || c == 45 then 62
    else 63
  }

  /** The first `n` characters of `s` exist and are symbols of the alphabet. */
  predicate Symbols(e: Encoding, s: seq<Byte>, n: nat) {
    n <= |s| && forall i :: 0 <= i < n ==> InAlphabet(e, s[i])
  }

  function FirstByte(s: seq<Byte>): Byte requires |s| >= 2 { Value(s[0]) * 4 + Value(s[1]) / 16 }
  function SecondByte(s: seq<Byte>): Byte requires |s| >= 3 { Value(s[1]) % 16 * 16 + Value(s[2]) / 4 }
  function ThirdByte(s: seq<Byte>): Byte requires |s| >= 4 { Value(s[2]) % 4 * 64 + Value(s[3]) }

  function Strip(s: seq<Byte>): seq<Byte> {
    if s == [] then [] else (if NewLine(s[0]) then [] else [s[0]]) + Strip(s[1..])
  }

  /** Decodes text that has no line breaks, one quantum of four symbols at a time. */
  function DecodeQuanta(e: Encoding, s: seq<Byte>): Option<seq<Byte>> {
    if s == [] then Some([])
    else if Symbols(e, s, 4) then
      match DecodeQuanta(e, s[4..])
      case None => None
      case Some(rest) => Some([FirstByte(s), SecondByte(s), ThirdByte(s)] + rest)
    else if e.padded then
      if |s| == 4 && Symbols(e, s, 3) && s[3] == PAD then Some([FirstByte(s), SecondByte(s)])
      else if |s| == 4 && Symbols(e, s, 2) && s[2] == PAD && s[3] == PAD then Some([FirstByte(s)])
      else None
    else
      if |s| == 3 && Symbols(e, s, 3) then Some([FirstByte(s), SecondByte(s)])
      else if |s| == 2 && Symbols(e, s, 2) then Some([FirstByte(s)])
      else None
  }

  /** `Encoding.DecodeString`. */
  function Decode(e: Encoding, s: seq<Byte>): Option<seq<Byte>> { DecodeQuanta(e, Strip(s)) }

  function Padding(e: Encoding, n: nat): seq<Byte> { if e.padded then seq(n, _ => PAD) else [] }

  /** `Encoding.EncodeToString`. */
  function Encode(e: Encoding, b: seq<Byte>): seq<Byte> {
    if b == [] then []
    else if |b| == 1 then
      [Symbol(e, b[0] / 4), Symbol(e, b[0] % 4 * 16)] + Padding(e, 2)
    else if |b| == 2 then
      [Symbol(e, b[0] / 4), Symbol(e, b[0] % 4 * 16 + b[1] / 16), Symbol(e, b[1] % 16 * 4)] + Padding(e, 1)
    else
      [Symbol(e, b[0] / 4), Symbol(e, b[0] % 4 * 16 + b[1] / 16),
       Symbol(e, b[1] % 16 * 4 + b[2] / 64), Symbol(e, b[2] % 64)] + Encode(e, b[3..])
  }

  /** The handler's loop: the first encoding that accepts the text wins. */
  function FirstSuccess(es: seq<Encoding>, s: seq<Byte>): Option<seq<Byte>> {
    if es == [] then None
    else if Decode(es[0], s).Some? then Decode(es[0], s)
    else FirstSuccess(es[1..], s)
  }

  /** `decodeOCSPGetRequest`. */
  function DecodeGetRequest(s: seq<Byte>): Result<seq<Byte>> {
    if s == [] || |s| > MAX_GET_REQUEST_SIZE then Err(MalformedRequest)
    else
      match FirstSuccess(GET_ENCODINGS, s)
      case Some(der) => Ok(der)
      case None => Err(MalformedRequest)
  }

  // ---- Encode and decode are inverse ----

  lemma SymbolRoundTrip(e: Encoding, v: Sextet)
    ensures InAlphabet(e, Symbol(e, v)) && Value(Symbol(e, v)) == v
    ensures !NewLine(Symbol(e, v)) && Symbol(e, v) != PAD
  {
  }

  /** Splitting two bytes at a sextet boundary and joining them again. */
  lemma JoinFirst(b0: Byte, b1: Byte)
    ensures b0 / 4 * 4 + (b0 % 4 * 16 + b1 / 16) / 16 == b0
  {
    assert (b0 % 4 * 16 + b1 / 16) / 16 == b0 % 4;
  }

  lemma JoinSecond(b0: Byte, b1: Byte, b2: Byte)
    ensures (b0 % 4 * 16 + b1 / 16) % 16 * 16 + (b1 % 16 * 4 + b2 / 64) / 4 == b1
  {
    assert (b0 % 4 * 16 + b1 / 16) % 16 == b1 / 16;
    assert (b1 % 16 * 4 + b2 / 64) / 4 == b1 % 16;
  }

  lemma JoinThird(b1: Byte, b2: Byte)
    ensures (b1 % 16 * 4 + b2 / 64) % 4 * 64 + b2 % 64 == b2
  {
    assert (b1 % 16 * 4 + b2 / 64) % 4 == b2 / 64;
  }

  /** A full group decodes to its three bytes, whatever follows it. */
  lemma FullQuantum(e: Encoding, b0: Byte, b1: Byte, b2: Byte, rest: seq<Byte>)
    ensures
      var x := [Symbol(e, b0 / 4), Symbol(e, b0 % 4 * 16 + b1 / 16),
                Symbol(e, b1 % 16 * 4 + b2 / 64), Symbol(e, b2 % 64)] + rest;
      Symbols(e, x, 4) && FirstByte(x) == b0 && SecondByte(x) == b1 && ThirdByte(x) == b2
  {
    SymbolRoundTrip(e, b0 / 4);
    SymbolRoundTrip(e, b0 % 4 * 16 + b1 / 16);
    SymbolRoundTrip(e, b1 % 16 * 4 + b2 / 64);
    SymbolRoundTrip(e, b2 % 64);
    JoinFirst(b0, b1);
    JoinSecond(b0, b1, b2);
    JoinThird(b1, b2);
  }

  lemma TailQuantum(e: Encoding, b: seq<Byte>)
    requires 1 <= |b| <= 2
    ensures DecodeQuanta(e, Encode(e, b)) == Some(b)
  {
    var x := Encode(e, b);
    var b1: Byte := if |b| == 2 then b[1] else 0;
    FullQuantum(e, b[0], b1, 0, []);
    assert x[0] == Symbol(e, b[0] / 4) && x[1] == Symbol(e, b[0] % 4 * 16 + b1 / 16);
    assert e.padded ==> x[3] == PAD && !InAlphabet(e, PAD);
    if |b| == 2 {
      assert x[2] == Symbol(e, b[1] % 16 * 4);
      assert [FirstByte(x), SecondByte(x)] == b;
    } else {
      assert e.padded ==> x[2] == PAD;
      assert [FirstByte(x)] == b;
    }
  }

  lemma {:induction false} QuantaRoundTrip(e: Encoding, b: seq<Byte>)
    ensures DecodeQuanta(e, Encode(e, b)) == Some(b)
  {
    if |b| >= 3 {
      QuantaRoundTrip(e, b[3..]);
      FullQuantum(e, b[0], b[1], b[2], Encode(e, b[3..]));
      assert Encode(e, b)[4..] == Encode(e, b[3..]);
      assert b == [b[0], b[1], b[2]] + b[3..];
    } else if b != [] {
      TailQuantum(e, b);
    }
  }

  lemma {:induction false} StripKeeps(s: seq<Byte>)
    requires forall i :: 0 <= i < |s| ==> !NewLine(s[i])
    ensures Strip(s) == s
  {
    if s != [] { StripKeeps(s[1..]); }
  }

  lemma {:induction false} EncodeShape(e: Encoding, b: seq<Byte>)
    ensures |Encode(e, b)| <= EncodedLen(|b|)
    ensures e.padded ==> |Encode(e, b)| == EncodedLen(|b|)
    ensures forall i :: 0 <= i < |Encode(e, b)| ==> !NewLine(Encode(e, b)[i])
  {
    if |b| >= 3 { EncodeShape(e, b[3..]); }
  }

  lemma CodecRoundTrip(e: Encoding, b: seq<Byte>)
    ensures Decode(e, Encode(e, b)) == Some(b)
  {
    EncodeShape(e, b);
    StripKeeps(Encode(e, b));
    QuantaRoundTrip(e, b);
  }

  /**
   Three test vectors of section 10 of RFC 4648, an unpadded and a URL-safe form, and the two symbols in
   which the alphabets differ.
   */
  lemma Rfc4648Vectors()
    ensures Encode(STD, [102]) == [90, 103, 61, 61]                                          // "f" -> "Zg=="
    ensures Encode(STD, [102, 111]) == [90, 109, 56, 61]                                     // "fo" -> "Zm8="
    ensures Encode(STD, [102, 111, 111]) == [90, 109, 57, 118]                               // "foo" -> "Zm9v"
    ensures Encode(RAW_STD, [102, 111, 111, 98]) == [90, 109, 57, 118, 89, 103]              // "foob" -> "Zm9vYg"
    ensures Encode(STD, [251, 255]) == [43, 47, 56, 61]                                      // "+/8="
    ensures Encode(RAW_URL, [251, 255]) == [45, 95, 56]                                      // "-_8"
    ensures forall v: Sextet :: Symbol(STD, v) != Symbol(URL, v) <==> v >= 62
    ensures forall v: Sextet, w: Sextet | v < w < 26 || 26 <= v < w < 52 || 52 <= v < w < 62
              :: Symbol(STD, v) < Symbol(STD, w)
  {
    assert [102, 111, 111, 98][3..] == [98];
    assert [102, 111, 111][3..] == [];
  }

  // ---- The four encodings never disagree ----

  lemma {:induction false} QuantaAgree(e: Encoding, f: Encoding, s: seq<Byte>)
    requires DecodeQuanta(e, s).Some? && DecodeQuanta(f, s).Some?
    ensures DecodeQuanta(e, s) == DecodeQuanta(f, s)
  {
    if s != [] {
      if Symbols(e, s, 4) && Symbols(f, s, 4) {
        QuantaAgree(e, f, s[4..]);
      } else if |s| >= 4 {
        // Whichever of the two takes its final branch has seen padding, which no alphabet contains.
        assert !InAlphabet(e, PAD) && !InAlphabet(f, PAD);
      }
    }
  }

  /** Any two encodings that both accept a text decode it to the same bytes. */
  lemma Unambiguous(e: Encoding, f: Encoding, s: seq<Byte>)
    requires Decode(e, s).Some? && Decode(f, s).Some?
    ensures Decode(e, s) == Decode(f, s)
  {
    QuantaAgree(e, f, Strip(s));
  }

  lemma {:induction false} FirstSuccessMeaning(es: seq<Encoding>, s: seq<Byte>)
    ensures FirstSuccess(es, s).None? <==> forall e :: e in es ==> Decode(e, s).None?
    ensures forall e :: e in es && Decode(e, s).Some? ==> FirstSuccess(es, s) == Decode(e, s)
  {
    if es != [] {
      FirstSuccessMeaning(es[1..], s);
      forall e | e in es && Decode(e, s).Some? ensures FirstSuccess(es, s) == Decode(e, s) {
        if Decode(es[0], s).Some? { Unambiguous(e, es[0], s); }
      }
    }
  }

  /** The result does not depend on the order (or repetition) of the encodings in the list. */
  lemma OrderIrrelevant(es: seq<Encoding>, fs: seq<Encoding>, s: seq<Byte>)
    requires forall e :: e in es <==> e in fs
    ensures FirstSuccess(es, s) == FirstSuccess(fs, s)
  {
    FirstSuccessMeaning(es, s);
    FirstSuccessMeaning(fs, s);
    if e :| e in es && Decode(e, s).Some? {
      assert FirstSuccess(es, s) == Decode(e, s) == FirstSuccess(fs, s);
    }
  }

  // ---- The GET request as a whole ----

  lemma FitsCap(n: nat)
    requires n <= MAX_REQUEST_SIZE
    ensures EncodedLen(n) <= MAX_GET_REQUEST_SIZE
  {
  }

  lemma AcceptedText(e: Encoding, s: seq<Byte>)
    requires s != [] && |s| <= MAX_GET_REQUEST_SIZE && Decode(e, s).Some?
    ensures DecodeGetRequest(s) == Ok(Decode(e, s).value)
  {
    FirstSuccessMeaning(GET_ENCODINGS, s);
    EveryEncodingListed(e);
  }

  /** Every request that POST would admit survives the trip through any of the four encodings. */
  lemma GetRoundTrip(e: Encoding, der: seq<Byte>)
    requires 1 <= |der| <= MAX_REQUEST_SIZE
    ensures |Encode(e, der)| <= MAX_GET_REQUEST_SIZE
    ensures DecodeGetRequest(Encode(e, der)) == Ok(der)
  {
    EncodeShape(e, der);
    FitsCap(|der|);
    CodecRoundTrip(e, der);
    AcceptedText(e, Encode(e, der));
  }

  lemma EveryEncodingListed(e: Encoding)
    ensures e in GET_ENCODINGS
  {
    assert GET_ENCODINGS[0] == STD && GET_ENCODINGS[1] == RAW_STD;
    assert GET_ENCODINGS[2] == URL && GET_ENCODINGS[3] == RAW_URL;
  }

  lemma {:induction false} StripShortens(s: seq<Byte>)
    ensures |Strip(s)| <= |s|
  {
    if s != [] { StripShortens(s[1..]); }
  }

  /** How many characters are not padding. */
  function NonPad(s: seq<Byte>): nat {
    if s == [] then 0 else (if s[0] == PAD then 0 else 1) + NonPad(s[1..])
  }

  lemma {:induction false} NonPadAppends(a: seq<Byte>, b: seq<Byte>)
    ensures NonPad(a + b) == NonPad(a) + NonPad(b) && NonPad(a) <= |a|
  {
    if a == [] {
      assert a + b == b;
    } else {
      assert (a + b)[1..] == a[1..] + b;
      NonPadAppends(a[1..], b);
    }
  }

  lemma {:induction false} NonPadSymbols(e: Encoding, s: seq<Byte>)
    requires Symbols(e, s, |s|)
    ensures NonPad(s) == |s|
  {
    if s != [] { NonPadSymbols(e, s[1..]); }
  }

  /** Splits off the symbols at the front of `s`. */
  lemma NonPadPrefix(e: Encoding, s: seq<Byte>, n: nat)
    requires Symbols(e, s, n)
    ensures NonPad(s) == n + NonPad(s[n..])
  {
    assert s == s[..n] + s[n..];
    NonPadAppends(s[..n], s[n..]);
    NonPadSymbols(e, s[..n]);
  }

  /** Six bits per character that is not padding, rounded down to whole bytes. */
  lemma {:induction false} DecodedLength(e: Encoding, s: seq<Byte>)
    requires DecodeQuanta(e, s).Some?
    ensures |DecodeQuanta(e, s).value| == 3 * NonPad(s) / 4
  {
    if s != [] {
      if Symbols(e, s, 4) {
        NonPadPrefix(e, s, 4);
        DecodedLength(e, s[4..]);
      } else if Symbols(e, s, 3) {
        NonPadPrefix(e, s, 3);
      } else {
        NonPadPrefix(e, s, 2);
        if |s| == 4 {
          assert s[2..] == [PAD, PAD];
          assert [PAD, PAD][1..] == [PAD] && NonPad([PAD]) == 0;
        }
      }
    }
  }

  /** The decoded size of an accepted text, whichever encoding accepted it. */
  lemma GetLength(s: seq<Byte>)
    requires DecodeGetRequest(s).Ok?
    ensures |DecodeGetRequest(s).value| == 3 * NonPad(Strip(s)) / 4
    ensures NonPad(Strip(s)) <= |s|
  {
    FirstSuccessMeaning(GET_ENCODINGS, s);
    var e :| e in GET_ENCODINGS && Decode(e, s).Some?;
    StripShortens(s);
    DecodedLength(e, Strip(s));
    NonPadAppends(Strip(s), []);
  }

  /** The decoded size is bounded by 10242 bytes, two more than the POST limit. */
  lemma GetBound(s: seq<Byte>)
    requires DecodeGetRequest(s).Ok?
    ensures |DecodeGetRequest(s).value| <= MAX_REQUEST_SIZE + 2
  {
    GetLength(s);
  }

  /**
   GET admits a request that POST rejects as too large exactly when the text has more than 13654 characters
   that are neither padding nor line breaks, of the 13656 that the cap allows.
   */
  lemma GetExceedsPostIff(s: seq<Byte>)
    requires DecodeGetRequest(s).Ok?
    ensures |DecodeGetRequest(s).value| > MAX_REQUEST_SIZE <==> NonPad(Strip(s)) > 13654
    ensures MAX_GET_REQUEST_SIZE == 13656
  {
    GetLength(s);
  }

  lemma {:induction false} RepeatedSymbol(e: Encoding, k: nat)
    ensures DecodeQuanta(e, seq(4 * k, _ => 65)).Some?
    ensures |DecodeQuanta(e, seq(4 * k, _ => 65)).value| == 3 * k
  {
    if k > 0 {
      RepeatedSymbol(e, k - 1);
      assert seq<Byte>(4 * k, _ => 65)[4..] == seq<Byte>(4 * (k - 1), _ => 65);
    }
  }

  /** The bound is attained, so the GET path admits requests that the POST path rejects as too large. */
  lemma GetBoundIsExact(s: seq<Byte>)
    requires s == seq(MAX_GET_REQUEST_SIZE, _ => 65)
    ensures DecodeGetRequest(s).Ok? && |DecodeGetRequest(s).value| == MAX_REQUEST_SIZE + 2
  {
    RepeatedSymbol(STD, 3414);
    StripKeeps(s);
    AcceptedText(STD, s);
  }
}
