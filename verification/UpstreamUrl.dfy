/** The URL that the HTTP source fetches for a serial number. */
module UpstreamUrl {
  import opened SerialText

  const PLACEHOLDER: string := "{serial}"

  predicate StartsWithPlaceholder(t: string) { |t| >= 8 && t[..8] == PLACEHOLDER }

  /** `strings.ReplaceAll(t, "{serial}", a)`: leftmost, non-overlapping. */
  function ReplaceAll(t: string, a: string): string {
    if t == [] then []
    else if StartsWithPlaceholder(t) then a + ReplaceAll(t[8..], a)
    else [t[0]] + ReplaceAll(t[1..], a)
  }

  /** The number of occurrences that `ReplaceAll` replaces. */
  function Occurrences(t: string): nat {
    if t == [] then 0
    else if StartsWithPlaceholder(t) then 1 + Occurrences(t[8..])
    else Occurrences(t[1..])
  }

  /** `strings.TrimRight(base, "/")`. */
  function TrimSlashes(base: string): (r: string)
    ensures r <= base && forall i :: |r| <= i < |base| ==> base[i] == '/'
    ensures r != [] ==> r[|r| - 1] != '/'
  {
    if base != [] && base[|base| - 1] == '/' then TrimSlashes(base[..|base| - 1]) else base
  }

  function Url(base: string, template: string, serial: int): string {
    TrimSlashes(base) + ReplaceAll(template, UpperHex(serial))
  }

  /** Some position of `t` starts an occurrence of the placeholder. */
  ghost predicate ContainsPlaceholder(t: string) {
    exists i :: 0 <= i <= |t| && StartsWithPlaceholder(t[i..])
  }

  lemma {:induction false} OccurrencesMeaning(t: string)
    ensures Occurrences(t) > 0 <==> ContainsPlaceholder(t)
  {
    if t != [] && StartsWithPlaceholder(t) {
      assert t[0..] == t;
    } else if t != [] {
      OccurrencesMeaning(t[1..]);
      if i :| 0 <= i <= |t| && StartsWithPlaceholder(t[i..]) {
        assert t[0..] == t;
        assert i >= 1 && t[i..] == t[1..][i - 1..];
      }
      if j :| 0 <= j <= |t[1..]| && StartsWithPlaceholder(t[1..][j..]) {
        assert t[j + 1..] == t[1..][j..];
      }
    }
  }

  lemma {:induction false} ReplaceAllLength(t: string, a: string)
    ensures |ReplaceAll(t, a)| == |t| + Occurrences(t) * (|a| - 8)
  {
    if t == [] {
    } else if StartsWithPlaceholder(t) {
      ReplaceAllLength(t[8..], a);
    } else {
      ReplaceAllLength(t[1..], a);
    }
  }

  lemma {:induction false} ReplaceAllSameLength(t: string, a: string, b: string)
    requires |a| == |b| && Occurrences(t) > 0 && ReplaceAll(t, a) == ReplaceAll(t, b)
    ensures a == b
  {
    if StartsWithPlaceholder(t) {
      assert a == ReplaceAll(t, a)[..|a|];
      assert b == ReplaceAll(t, b)[..|a|];
    } else {
      assert ReplaceAll(t[1..], a) == ReplaceAll(t, a)[1..];
      assert ReplaceAll(t[1..], b) == ReplaceAll(t, b)[1..];
      ReplaceAllSameLength(t[1..], a, b);
    }
  }

  lemma {:induction false} ReplaceAllNone(t: string, a: string)
    requires Occurrences(t) == 0
    ensures ReplaceAll(t, a) == t
  {
    if t != [] { ReplaceAllNone(t[1..], a); }
  }

  /** With the placeholder present the substituted text can be recovered from the result. */
  lemma ReplaceAllInjective(t: string, a: string, b: string)
    requires Occurrences(t) > 0 && ReplaceAll(t, a) == ReplaceAll(t, b)
    ensures a == b
  {
    ReplaceAllLength(t, a);
    ReplaceAllLength(t, b);
    EqualProducts(Occurrences(t), |a| - 8, |b| - 8);
    ReplaceAllSameLength(t, a, b);
  }

  lemma EqualProducts(k: nat, x: int, y: int)
    requires k > 0 && k * x == k * y
    ensures x == y
  {
    assert k * (x - y) == 0;
  }

  /**
   Two different serial numbers share an upstream URL exactly when the path template does not mention
   the placeholder, whatever the base URL and the rest of the template are.
   */
  lemma UrlsCollideIffNoPlaceholder(base: string, template: string, a: int, b: int)
    requires a != b
    ensures Url(base, template, a) == Url(base, template, b) <==> !ContainsPlaceholder(template)
  {
    OccurrencesMeaning(template);
    var x, y := UpperHex(a), UpperHex(b);
    if Occurrences(template) == 0 {
      ReplaceAllNone(template, x);
      ReplaceAllNone(template, y);
    } else if Url(base, template, a) == Url(base, template, b) {
      var n := |TrimSlashes(base)|;
      assert ReplaceAll(template, x) == Url(base, template, a)[n..];
      assert ReplaceAll(template, y) == Url(base, template, b)[n..];
      ReplaceAllInjective(template, x, y);
      UpperHexInjective(a, b);
    }
  }

  /** Text before the first brace is copied, and the placeholder there is replaced. */
  lemma {:induction false} ReplaceAllAfterPrefix(p: string, q: string, a: string)
    requires '{' !in p
    ensures ReplaceAll(p + PLACEHOLDER + q, a) == p + a + ReplaceAll(q, a)
  {
    var t := p + PLACEHOLDER + q;
    if p == [] {
      assert t == PLACEHOLDER + q && t[..8] == PLACEHOLDER && t[8..] == q;
    } else {
      ReplaceAllAfterPrefix(p[1..], q, a);
      assert t[0] == p[0] && t[1..] == p[1..] + PLACEHOLDER + q;
      assert PLACEHOLDER[0] == '{' && t[..8][0] == p[0];
    }
  }

  /** The URL of a serial under a template with one placeholder: base without trailing slashes, then upper-case hex. */
  lemma UrlShape(base: string, p: string, q: string, serial: int)
    requires '{' !in p && Occurrences(q) == 0
    ensures Url(base, p + PLACEHOLDER + q, serial) == TrimSlashes(base) + (p + UpperHex(serial) + q)
    ensures forall i :: 0 <= i < |UpperHex(serial)| ==> HexSymbol(UpperHex(serial)[i])
  {
    ReplaceAllAfterPrefix(p, q, UpperHex(serial));
    ReplaceAllNone(q, UpperHex(serial));
    HexDigits(if serial < 0 then -serial else serial);
  }

  predicate HexSymbol(c: char) { '0' <= c <= '9' || 'A' <= c <= 'F' || c == '-' }

  lemma {:induction false} HexDigits(n: nat)
    ensures forall i :: 0 <= i < |Digits(n, 16)| ==> HexSymbol(UpperChar(Digits(n, 16)[i]))
  {
    if n >= 16 { HexDigits(n / 16); }
  }

  /**
   `strings.ReplaceAll` in terms of occurrences: the text before the leftmost placeholder is kept, the
   placeholder is replaced, and so on behind it; a text without one is kept.
   */
  lemma {:induction false} ReplacesLeftmost(t: string, i: nat, a: string)
    requires i <= |t|
    requires forall j :: 0 <= j < i ==> !StartsWithPlaceholder(t[j..])
    ensures i + 8 <= |t| && t[i..i + 8] == "{serial}" ==> ReplaceAll(t, a) == t[..i] + a + ReplaceAll(t[i + 8..], a)
    ensures i == |t| ==> ReplaceAll(t, a) == t
  {
    if i == 0 {
      assert t[0..] == t && (|t| >= 8 ==> t[0..8] == t[..8]);
    } else {
      assert t[0..] == t;
      forall j | 0 <= j < i - 1 ensures !StartsWithPlaceholder(t[1..][j..]) { assert t[1..][j..] == t[j + 1..]; }
      ReplacesLeftmost(t[1..], i - 1, a);
      if i + 8 <= |t| {
        assert t[1..][i - 1..i - 1 + 8] == t[i..i + 8];
        assert t[1..][i - 1 + 8..] == t[i + 8..];
        assert t[..i] == [t[0]] + t[1..][..i - 1];
      }
    }
  }
}
