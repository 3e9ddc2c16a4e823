/**
 * The cache key of a (text, emotion) pair: `generateHash` in services/imageStore.ts.
 *
 * JavaScript strings are sequences of UTF-16 code units, so the inputs are
 * modelled as sequences of code units. The key is the 31-multiplier string
 * hash of `lower(trim(text)) + "_" + emotion`, kept as a signed 32-bit
 * integer at every step, and rendered by `Number.prototype.toString(36)`.
 */
module ImageHash {
  import opened Options

  /** A UTF-16 code unit, what `charCodeAt` returns. */
  type CodeUnit = c: int | 0 <= c < 0x1_0000

  /** A signed 32-bit integer, what ECMAScript's ToInt32 produces. */
  type Int32 = x: int | -0x8000_0000 <= x < 0x8000_0000

  const TWO_32: int := 0x1_0000_0000
  const TWO_31: int := 0x8000_0000

  /** The code unit of `_`, which joins the normalised text to the emotion label. */
  const UNDERSCORE: CodeUnit := 95

  // ---------------------------------------------------------------------------
  // Normalisation: `text.trim().toLowerCase()`
  // ---------------------------------------------------------------------------

  /** The WhiteSpace and LineTerminator code points that `String.prototype.trim` removes. */
  predicate IsWhiteSpace(c: CodeUnit) {
    || c == 0x09 || c == 0x0A || c == 0x0B || c == 0x0C || c == 0x0D
    || c == 0x20 || c == 0xA0 || c == 0x1680
    || (0x2000 <= c && c <= 0x200A)
    || c == 0x2028 || c == 0x2029 || c == 0x202F || c == 0x205F
    || c == 0x3000 || c == 0xFEFF
  }

  /** Drops the leading white space. */
  function TrimStart(s: seq<CodeUnit>): seq<CodeUnit> {
    if s != [] && IsWhiteSpace(s[0]) then TrimStart(s[1..]) else s
  }

  /** Drops the trailing white space. */
  function TrimEnd(s: seq<CodeUnit>): seq<CodeUnit> {
    if s != [] && IsWhiteSpace(s[|s| - 1]) then TrimEnd(s[..|s| - 1]) else s
  }

  /** TrimStart removes a prefix of white space and stops at the first unit that is not. */
  lemma {:induction false} TrimStartShape(s: seq<CodeUnit>)
    ensures var r := TrimStart(s);
            && |r| <= |s| && r == s[|s| - |r|..]
            && (forall k :: 0 <= k < |s| - |r| ==> IsWhiteSpace(s[k]))
            && (r == [] || !IsWhiteSpace(r[0]))
  {
    if s != [] && IsWhiteSpace(s[0]) {
      TrimStartShape(s[1..]);
      var r := TrimStart(s);
      forall k | 0 <= k < |s| - |r| ensures IsWhiteSpace(s[k]) {
        if k > 0 {
          assert s[k] == s[1..][k - 1];
        }
      }
    }
  }

  /** TrimEnd removes a suffix of white space and stops at the last unit that is not. */
  lemma {:induction false} TrimEndShape(s: seq<CodeUnit>)
    ensures var r := TrimEnd(s);
            && |r| <= |s| && r == s[..|r|]
            && (forall k :: |r| <= k < |s| ==> IsWhiteSpace(s[k]))
            && (r == [] || !IsWhiteSpace(r[|r| - 1]))
  {
    if s != [] && IsWhiteSpace(s[|s| - 1]) {
      var p := s[..|s| - 1];
      TrimEndShape(p);
      var r := TrimEnd(s);
      assert r == p[..|r|];
      forall k | |r| <= k < |s| ensures IsWhiteSpace(s[k]) {
        if k < |s| - 1 {
          assert s[k] == p[k];
        }
      }
    }
  }

  /** `String.prototype.trim`. */
  function Trim(s: seq<CodeUnit>): seq<CodeUnit> {
    TrimEnd(TrimStart(s))
  }

  /**
   * `toLowerCase` on one code unit, for the ASCII letters A-Z only. No capital
   * letter is left, a unit moves by the case offset or not at all, and white
   * space is neither created nor removed, which is what lets trimming and
   * lower-casing commute.
   */
  function LowerUnit(c: CodeUnit): (r: CodeUnit)
    ensures !('A' as int <= r <= 'Z' as int)
    ensures r == c || r == c + ('a' as int - 'A' as int)
    ensures IsWhiteSpace(r) == IsWhiteSpace(c)
  {
    if 'A' as int <= c <= 'Z' as int then c + 32 else c
  }

  /** `String.prototype.toLowerCase`, restricted to ASCII letters. */
  function ToLower(s: seq<CodeUnit>): (r: seq<CodeUnit>)
    ensures |r| == |s|
  {
    seq(|s|, i requires 0 <= i < |s| => LowerUnit(s[i]))
  }

  /** `text.trim().toLowerCase()`. */
  function Normalize(text: seq<CodeUnit>): seq<CodeUnit> {
    ToLower(Trim(text))
  }

  /** The string that is hashed: `${text.trim().toLowerCase()}_${emotion}`. */
  function HashInput(text: seq<CodeUnit>, emotion: seq<CodeUnit>): seq<CodeUnit> {
    Normalize(text) + [UNDERSCORE] + emotion
  }

  /** The trimmed text neither starts nor ends with white space. */
  lemma TrimmedEnds(s: seq<CodeUnit>)
    ensures Trim(s) == [] || (!IsWhiteSpace(Trim(s)[0]) && !IsWhiteSpace(Trim(s)[|Trim(s)| - 1]))
  {
    var t := TrimStart(s);
    var r := TrimEnd(t);
    TrimStartShape(s);
    TrimEndShape(t);
    if r != [] {
      assert r[0] == t[0];
    }
  }

  /** A string that neither starts nor ends with white space is its own trim. */
  lemma TrimIdentity(v: seq<CodeUnit>)
    requires v == [] || (!IsWhiteSpace(v[0]) && !IsWhiteSpace(v[|v| - 1]))
    ensures Trim(v) == v
  {
  }

  lemma ToLowerIdempotent(u: seq<CodeUnit>)
    ensures ToLower(ToLower(u)) == ToLower(u)
  {
  }

  /** Normalising twice is normalising once. */
  lemma NormalizeIdempotent(text: seq<CodeUnit>)
    ensures Normalize(Normalize(text)) == Normalize(text)
  {
    var u := Trim(text);
    var v := ToLower(u);
    TrimmedEnds(text);
    if v != [] {
      assert v[0] == LowerUnit(u[0]) && v[|v| - 1] == LowerUnit(u[|u| - 1]);
    }
    TrimIdentity(v);
    ToLowerIdempotent(u);
  }

  /** Leading white space is dropped whatever follows it. */
  lemma {:induction false} TrimStartPadding(w: seq<CodeUnit>, t: seq<CodeUnit>)
    requires forall k :: 0 <= k < |w| ==> IsWhiteSpace(w[k])
    ensures TrimStart(w + t) == TrimStart(t)
  {
    if w != [] {
      assert (w + t)[0] == w[0] && IsWhiteSpace(w[0]);
      assert (w + t)[1..] == w[1..] + t;
      assert TrimStart(w + t) == TrimStart(w[1..] + t);
      TrimStartPadding(w[1..], t);
    } else {
      assert w + t == t;
    }
  }

  /** Trailing white space is dropped whatever precedes it. */
  lemma {:induction false} TrimEndPadding(t: seq<CodeUnit>, w: seq<CodeUnit>)
    requires forall k :: 0 <= k < |w| ==> IsWhiteSpace(w[k])
    ensures TrimEnd(t + w) == TrimEnd(t)
  {
    if w != [] {
      var p := w[..|w| - 1];
      assert (t + w)[|t + w| - 1] == w[|w| - 1] && IsWhiteSpace(w[|w| - 1]);
      assert (t + w)[..|t + w| - 1] == t + p;
      assert TrimEnd(t + w) == TrimEnd(t + p);
      TrimEndPadding(t, p);
    } else {
      assert t + w == t;
    }
  }

  /** Once a text has a non-blank unit, what follows it survives TrimStart. */
  lemma {:induction false} TrimStartAppend(t: seq<CodeUnit>, w: seq<CodeUnit>)
    requires TrimStart(t) != []
    ensures TrimStart(t + w) == TrimStart(t) + w
  {
    if IsWhiteSpace(t[0]) {
      assert (t + w)[1..] == t[1..] + w;
      TrimStartAppend(t[1..], w);
    }
  }

  /** White space added around a text does not change its trim. */
  lemma PaddingIsIgnored(w1: seq<CodeUnit>, t: seq<CodeUnit>, w2: seq<CodeUnit>)
    requires forall k :: 0 <= k < |w1| ==> IsWhiteSpace(w1[k])
    requires forall k :: 0 <= k < |w2| ==> IsWhiteSpace(w2[k])
    ensures Trim(w1 + t + w2) == Trim(t)
  {
    assert w1 + t + w2 == w1 + (t + w2);
    TrimStartPadding(w1, t + w2);
    if TrimStart(t) != [] {
      TrimStartAppend(t, w2);
      TrimEndPadding(TrimStart(t), w2);
    } else {
      TrimStartShape(t);
      var u := t + w2;
      forall k | 0 <= k < |u| ensures IsWhiteSpace(u[k]) {
        if k >= |t| {
          assert u[k] == w2[k - |t|];
        }
      }
      TrimStartPadding(u, []);
      assert u + [] == u;
    }
  }

  lemma ToLowerSlice(t: seq<CodeUnit>, a: nat, b: nat)
    requires a <= b <= |t|
    ensures ToLower(t)[a..b] == ToLower(t[a..b])
  {
    var u := ToLower(t);
    forall k | 0 <= k < b - a ensures u[a..b][k] == ToLower(t[a..b])[k] {
      assert u[a..b][k] == u[a + k];
    }
  }

  lemma {:induction false} TrimStartLower(t: seq<CodeUnit>)
    ensures TrimStart(ToLower(t)) == ToLower(TrimStart(t))
  {
    if t != [] {
      assert ToLower(t)[0] == LowerUnit(t[0]);
      if IsWhiteSpace(t[0]) {
        ToLowerSlice(t, 1, |t|);
        assert t[1..|t|] == t[1..] && ToLower(t)[1..|t|] == ToLower(t)[1..];
        assert TrimStart(ToLower(t)) == TrimStart(ToLower(t[1..]));
        TrimStartLower(t[1..]);
      }
    } else {
      assert ToLower(t) == [];
    }
  }

  lemma {:induction false} TrimEndLower(t: seq<CodeUnit>)
    ensures TrimEnd(ToLower(t)) == ToLower(TrimEnd(t))
  {
    if t != [] {
      assert ToLower(t)[|t| - 1] == LowerUnit(t[|t| - 1]);
      if IsWhiteSpace(t[|t| - 1]) {
        ToLowerSlice(t, 0, |t| - 1);
        TrimEndLower(t[..|t| - 1]);
      }
    } else {
      assert ToLower(t) == [];
    }
  }

  /** Trimming and lower-casing commute, since lower-casing keeps white space. */
  lemma TrimCommutesWithLower(t: seq<CodeUnit>)
    ensures Trim(ToLower(t)) == ToLower(Trim(t))
  {
    TrimStartLower(t);
    TrimEndLower(TrimStart(t));
  }

  /** Upper-case ASCII letters in the text do not change its normal form. */
  lemma LowerCaseIsIgnored(t: seq<CodeUnit>)
    ensures Normalize(ToLower(t)) == Normalize(t)
  {
    TrimCommutesWithLower(t);
    ToLowerIdempotent(Trim(t));
  }

  /** With the emotion label fixed, two texts give the same hashed string exactly when their normal forms agree. */
  lemma HashInputTextIff(t1: seq<CodeUnit>, t2: seq<CodeUnit>, emotion: seq<CodeUnit>)
    ensures HashInput(t1, emotion) == HashInput(t2, emotion) <==> Normalize(t1) == Normalize(t2)
  {
    if HashInput(t1, emotion) == HashInput(t2, emotion) {
      var n1, n2 := Normalize(t1), Normalize(t2);
      assert |n1| == |n2|;
      assert n1 == HashInput(t1, emotion)[..|n1|];
      assert n2 == HashInput(t2, emotion)[..|n2|];
    }
  }

  /** With the text fixed, the emotion label is used verbatim: labels differing in case give different hashed strings. */
  lemma HashInputEmotionIff(text: seq<CodeUnit>, e1: seq<CodeUnit>, e2: seq<CodeUnit>)
    ensures HashInput(text, e1) == HashInput(text, e2) <==> e1 == e2
  {
    var n := |Normalize(text)| + 1;
    if HashInput(text, e1) == HashInput(text, e2) {
      assert e1 == HashInput(text, e1)[n..];
      assert e2 == HashInput(text, e2)[n..];
    }
  }

  // ---------------------------------------------------------------------------
  // 32-bit arithmetic
  // ---------------------------------------------------------------------------

  /** ECMAScript's ToInt32: the integer congruent to `x` modulo 2^32 in the signed range. */
  function Wrap32(x: int): (r: Int32)
    ensures (x - r) % TWO_32 == 0
  {
    var m := x % TWO_32;
    if m >= TWO_31 then m - TWO_32 else m
  }

  lemma ModShift(y: int, q: int)
    ensures (y + q * TWO_32) % TWO_32 == y % TWO_32
  {
    var r := y % TWO_32;
    var d := y / TWO_32;
    assert y == d * TWO_32 + r;
    assert y + q * TWO_32 == (d + q) * TWO_32 + r;
  }

  /** Adding a multiple of 2^32 does not change the wrapped value. */
  lemma Wrap32Shift(y: int, q: int)
    ensures Wrap32(y + q * TWO_32) == Wrap32(y)
  {
    ModShift(y, q);
  }

  /** Wrap32 depends only on the residue of its argument modulo 2^32. */
  lemma Wrap32Congruent(x: int, y: int)
    requires (x - y) % TWO_32 == 0
    ensures Wrap32(x) == Wrap32(y)
  {
    var q := (x - y) / TWO_32;
    assert x == y + q * TWO_32;
    Wrap32Shift(y, q);
  }

  /**
   * One turn of the loop: `hash = ((hash << 5) - hash) + char; hash = hash & hash`.
   * `<<` wraps its result to 32 bits; the subtraction and addition are exact in a
   * double (their magnitude stays below 2^34); `hash & hash` is ToInt32.
   */
  function HashStep(h: Int32, c: CodeUnit): (r: Int32)
    ensures r == Wrap32(31 * h + c)
  {
    var shifted := Wrap32(h * 32);
    var q := (h * 32 - shifted) / TWO_32;
    assert h * 32 - shifted == q * TWO_32;
    assert shifted - h + c == (31 * h + c) + (-q) * TWO_32;
    Wrap32Shift(31 * h + c, -q);
    Wrap32(shifted - h + c)
  }

  /** The loop body as the source writes it computes HashStep. */
  lemma HashStepAsWritten(h: Int32, c: CodeUnit)
    ensures HashStep(h, c) == Wrap32(Wrap32(h * 32) - h + c)
  {
  }

  /** The value of `hash` after the loop has consumed all of `s`. */
  function HashValue(s: seq<CodeUnit>): Int32 {
    if s == [] then 0 else HashStep(HashValue(s[..|s| - 1]), s[|s| - 1])
  }

  /** One more code unit is one more step of the loop. */
  lemma HashValueSnoc(s: seq<CodeUnit>, i: nat)
    requires i < |s|
    ensures HashValue(s[..i + 1]) == HashStep(HashValue(s[..i]), s[i])
  {
    assert s[..i + 1][..i] == s[..i];
  }

  /** The same fold over unbounded integers: the textbook polynomial string hash. */
  function Polynomial(s: seq<CodeUnit>): int {
    if s == [] then 0 else 31 * Polynomial(s[..|s| - 1]) + s[|s| - 1]
  }

  /** Wrapping at every step gives the polynomial hash wrapped once at the end. */
  lemma {:induction false} HashValueIsWrappedPolynomial(s: seq<CodeUnit>)
    ensures HashValue(s) == Wrap32(Polynomial(s))
  {
    if s != [] {
      var p := s[..|s| - 1];
      var c := s[|s| - 1];
      HashValueIsWrappedPolynomial(p);
      var w := Wrap32(Polynomial(p));
      var q := (Polynomial(p) - w) / TWO_32;
      assert Polynomial(p) == w + q * TWO_32;
      assert 31 * Polynomial(p) + c == (31 * w + c) + (31 * q) * TWO_32;
      Wrap32Shift(31 * w + c, 31 * q);
    }
  }

  // ---------------------------------------------------------------------------
  // Base-36 rendering: `Number.prototype.toString(36)` on an integer
  // ---------------------------------------------------------------------------

  predicate IsDigit36(c: char) {
    ('0' <= c <= '9') || ('a' <= c <= 'z')
  }

  function Digit36(d: nat): (c: char)
    requires d < 36
    ensures IsDigit36(c)
  {
    if d < 10 then ('0' as int + d) as char else ('a' as int + d - 10) as char
  }

  function DigitValue(c: char): (d: nat)
    requires IsDigit36(c)
    ensures d < 36 && Digit36(d) == c
  {
    if c <= '9' then c as int - '0' as int else c as int - 'a' as int + 10
  }

  /** The digits of `n`, most significant first, without leading zeros. */
  function Digits(n: nat): (r: string)
    ensures |r| >= 1
    ensures forall k :: 0 <= k < |r| ==> IsDigit36(r[k])
    ensures r[0] == '0' ==> n == 0 && r == "0"
    decreases n
  {
    if n < 36 then [Digit36(n)] else Digits(n / 36) + [Digit36(n % 36)]
  }

  /** `n.toString(36)` for an integer `n`. */
  function ToBase36(n: int): string {
    if n < 0 then ['-'] + Digits(-n) else Digits(n)
  }

  /** The rendering is a non-empty run of base-36 digits, with a leading `-` exactly for negative numbers. */
  lemma ToBase36Shape(n: int)
    ensures var r := ToBase36(n);
            && |r| >= 1
            && ((r[0] == '-') <==> n < 0)
            && (forall k :: 0 <= k < |r| ==> IsDigit36(r[k]) || (k == 0 && r[k] == '-'))
  {
    if n < 0 {
      var d := Digits(-n);
      forall k | 0 <= k < |d| + 1 ensures IsDigit36((['-'] + d)[k]) || (k == 0 && (['-'] + d)[k] == '-') {
        if k > 0 {
          assert (['-'] + d)[k] == d[k - 1];
        }
      }
    }
  }

  /** The value of a string of base-36 digits. */
  function DigitsValue(s: string): nat
    requires forall k :: 0 <= k < |s| ==> IsDigit36(s[k])
  {
    if s == [] then 0 else DigitsValue(s[..|s| - 1]) * 36 + DigitValue(s[|s| - 1])
  }

  predicate AllDigits(s: string) {
    forall k :: 0 <= k < |s| ==> IsDigit36(s[k])
  }

  /** Reads a base-36 numeral with an optional leading `-` (as `parseInt(s, 36)` does on well-formed input). */
  function FromBase36(s: string): Option<int> {
    if |s| >= 2 && s[0] == '-' && AllDigits(s[1..]) then Some(0 - DigitsValue(s[1..]))
    else if |s| >= 1 && AllDigits(s) then Some(DigitsValue(s))
    else None
  }

  lemma {:induction false} DigitsRoundTrip(n: nat)
    ensures DigitsValue(Digits(n)) == n
    decreases n
  {
    if n >= 36 {
      DigitsRoundTrip(n / 36);
      var r := Digits(n);
      assert r[..|r| - 1] == Digits(n / 36);
    }
  }

  /** Reading the rendered key gives back the 32-bit hash: no two hashes share a key. */
  lemma Base36RoundTrip(n: int)
    ensures FromBase36(ToBase36(n)) == Some(n)
  {
    if n < 0 {
      NegativeRoundTrip(n);
    } else {
      NonNegativeRoundTrip(n);
    }
  }

  lemma NegativeRoundTrip(n: int)
    requires n < 0
    ensures FromBase36(ToBase36(n)) == Some(n)
  {
    var d := Digits(-n);
    DigitsRoundTrip(-n);
    assert ToBase36(n) == ['-'] + d;
    assert (['-'] + d)[1..] == d;
    assert AllDigits(d);
  }

  lemma NonNegativeRoundTrip(n: int)
    requires n >= 0
    ensures FromBase36(ToBase36(n)) == Some(n)
  {
    var d := Digits(n);
    DigitsRoundTrip(n);
    assert ToBase36(n) == d;
    assert AllDigits(d);
    assert d[0] != '-';
  }

  lemma Base36Injective(m: int, n: int)
    requires ToBase36(m) == ToBase36(n)
    ensures m == n
  {
    Base36RoundTrip(m);
    Base36RoundTrip(n);
  }

  function Pow36(k: nat): nat {
    if k == 0 then 1 else 36 * Pow36(k - 1)
  }

  lemma {:induction false} DigitsLength(n: nat, k: nat)
    requires k >= 1 && n < Pow36(k)
    ensures |Digits(n)| <= k
    decreases k
  {
    if n >= 36 {
      assert k >= 2;
      assert n / 36 < Pow36(k - 1);
      DigitsLength(n / 36, k - 1);
    }
  }

  /** A 32-bit value renders in at most six digits plus a sign. */
  lemma Base36Length(n: Int32)
    ensures |ToBase36(n)| <= 7
  {
    assert Pow36(6) == 2176782336;
    var m: int := if n < 0 then 0 - (n as int) else n;
    DigitsLength(m, 6);
  }

  // ---------------------------------------------------------------------------
  // The key
  // ---------------------------------------------------------------------------

  /** The cache key `generateHash(text, emotion)` computes. */
  function Fingerprint(text: seq<CodeUnit>, emotion: seq<CodeUnit>): string {
    ToBase36(HashValue(HashInput(text, emotion)))
  }

  /** Texts with the same normal form share a key (the text is read only through `trim().toLowerCase()`). */
  lemma SameNormalFormSameKey(t1: seq<CodeUnit>, t2: seq<CodeUnit>, emotion: seq<CodeUnit>)
    requires Normalize(t1) == Normalize(t2)
    ensures Fingerprint(t1, emotion) == Fingerprint(t2, emotion)
  {
  }

  /** Two keys are equal exactly when the 32-bit hashes of the joined strings are. */
  lemma KeyEqualIffHashEqual(t1: seq<CodeUnit>, e1: seq<CodeUnit>, t2: seq<CodeUnit>, e2: seq<CodeUnit>)
    ensures Fingerprint(t1, e1) == Fingerprint(t2, e2)
        <==> HashValue(HashInput(t1, e1)) == HashValue(HashInput(t2, e2))
  {
    if Fingerprint(t1, e1) == Fingerprint(t2, e2) {
      Base36Injective(HashValue(HashInput(t1, e1)), HashValue(HashInput(t2, e2)));
    }
  }

  /** `" Hello "` and `"hello"` share a key under any emotion label: padding and case are both ignored. */
  lemma PaddedCapitalisedTextSharesKey(w1: seq<CodeUnit>, t: seq<CodeUnit>, w2: seq<CodeUnit>, emotion: seq<CodeUnit>)
    requires forall k :: 0 <= k < |w1| ==> IsWhiteSpace(w1[k])
    requires forall k :: 0 <= k < |w2| ==> IsWhiteSpace(w2[k])
    ensures Fingerprint(w1 + t + w2, emotion) == Fingerprint(ToLower(t), emotion)
  {
    PaddingIsIgnored(w1, t, w2);
    LowerCaseIsIgnored(t);
    SameNormalFormSameKey(w1 + t + w2, ToLower(t), emotion);
  }

  /** The loop of `generateHash`: `hash = ((hash << 5) - hash) + char; hash = hash & hash` over every code unit. */
  method HashCodeUnits(str: seq<CodeUnit>) returns (hash: Int32)
    ensures hash == HashValue(str)
  {
    hash := 0;
    for i := 0 to |str|
      invariant hash == HashValue(str[..i])
    {
      var code := str[i];
      var sum := Wrap32(hash * 32) - hash + code;
      HashStepAsWritten(hash, code);
      HashValueSnoc(str, i);
      hash := Wrap32(sum);
    }
    assert str[..|str|] == str;
  }

  /** `generateHash`: hash the joined string `${text.trim().toLowerCase()}_${emotion}`, then render it in base 36. */
  method GenerateHash(text: seq<CodeUnit>, emotion: seq<CodeUnit>) returns (key: string)
    ensures key == Fingerprint(text, emotion)
    ensures FromBase36(key) == Some(HashValue(HashInput(text, emotion)))
  {
    var str := Normalize(text) + [UNDERSCORE] + emotion;
    assert str == HashInput(text, emotion);
    var hash := HashCodeUnits(str);
    key := ToBase36(hash);
    Base36RoundTrip(hash);
  }
}
