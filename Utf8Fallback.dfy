/**
 * The hand-written UTF-16 to UTF-8 conversion that `encodeToBase64` falls
 * back to when `TextEncoder` is missing. The input is the string's sequence of
 * 16-bit code units (what `charCodeAt` returns), the output the byte values
 * pushed into `utf8Bytes`. Surrogate pairs are combined as in section 2.2 of
 * RFC 2781 and code points are laid out as in section 3 of RFC 3629.
 */
module Utf8Fallback {
  import opened Wrappers
  import opened Bits

  /** A UTF-16 code unit. */
  type CodeUnit = u: int | 0 <= u < 0x10000

  predicate IsSurrogate(u: int) {
    0xD800 <= u < 0xE000
  }

  predicate IsHighSurrogate(u: int) {
    0xD800 <= u < 0xDC00
  }

  predicate IsLowSurrogate(u: int) {
    0xDC00 <= u < 0xE000
  }

  /** A Unicode scalar value: a code point that is not a surrogate. */
  predicate IsScalar(cp: int) {
    0 <= cp < 0xD800 || 0xE000 <= cp < 0x110000
  }

  predicate AllScalars(cps: seq<int>) {
    forall k :: 0 <= k < |cps| ==> IsScalar(cps[k])
  }

  /** The units past index `i`, empty once `i` has run past the end. */
  function Rest(s: seq<CodeUnit>, i: nat): seq<CodeUnit> {
    if i <= |s| then s[i..] else []
  }

  // ---------------------------------------------------------------------------
  // The code points the fallback reads
  // ---------------------------------------------------------------------------

  /**
   * The code points the fallback loop reads from the units. A unit outside
   * the surrogate range stands for itself. Any surrogate unit, high or low, is
   * taken as the first half of a pair and consumes the next unit, whatever that
   * is; only the low ten bits of each are used, and past the end of the string
   * the second half reads as 0 (`charCodeAt` gives NaN, and `NaN & 0x3ff` is 0).
   */
  function CodePoints(s: seq<CodeUnit>): (cps: seq<int>)
    ensures AllScalars(cps)
    ensures |cps| <= |s|
    decreases |s|
  {
    if |s| == 0 then []
    else if !IsSurrogate(s[0]) then [s[0]] + CodePoints(s[1..])
    else
      var lo := if |s| > 1 then s[1] else 0;
      [0x10000 + (s[0] % 0x400) * 0x400 + lo % 0x400] + CodePoints(Rest(s, 2))
  }

  // ---------------------------------------------------------------------------
  // RFC 3629 section 3
  // ---------------------------------------------------------------------------

  predicate IsContinuation(b: int) {
    0x80 <= b < 0xC0
  }

  /** The UTF-8 form of one scalar value, after the table in section 3 of RFC 3629. */
  function EncodeScalar(cp: int): (bytes: seq<int>)
    requires IsScalar(cp)
    ensures 1 <= |bytes| <= 4
    ensures forall k :: 0 <= k < |bytes| ==> 0 <= bytes[k] < 0x100
    ensures forall k :: 1 <= k < |bytes| ==> IsContinuation(bytes[k])
    ensures |bytes| == 1 <==> cp < 0x80
    ensures |bytes| == 2 <==> 0x80 <= cp < 0x800
    ensures |bytes| == 3 <==> 0x800 <= cp < 0x10000
    ensures |bytes| == 4 <==> 0x10000 <= cp
    ensures |bytes| == 1 ==> bytes[0] < 0x80
    ensures |bytes| == 2 ==> 0xC2 <= bytes[0] < 0xE0
    ensures |bytes| == 3 ==> 0xE0 <= bytes[0] < 0xF0
    ensures |bytes| == 4 ==> 0xF0 <= bytes[0] < 0xF5
  {
    if cp < 0x80 then [cp]
    else if cp < 0x800 then [0xC0 + cp / 0x40, 0x80 + cp % 0x40]
    else if cp < 0x10000 then [0xE0 + cp / 0x1000, 0x80 + (cp / 0x40) % 0x40, 0x80 + cp % 0x40]
    else [0xF0 + cp / 0x40000, 0x80 + (cp / 0x1000) % 0x40, 0x80 + (cp / 0x40) % 0x40, 0x80 + cp % 0x40]
  }

  /** The UTF-8 form of a sequence of scalar values: their encodings one after another. */
  function Utf8Encode(cps: seq<int>): (bytes: seq<int>)
    requires AllScalars(cps)
    ensures forall k :: 0 <= k < |bytes| ==> 0 <= bytes[k] < 0x100
    ensures |cps| <= |bytes| <= 4 * |cps|
    decreases |cps|
  {
    if |cps| == 0 then [] else EncodeScalar(cps[0]) + Utf8Encode(cps[1..])
  }

  // ---------------------------------------------------------------------------
  // The inverse directions: UTF-16 encoding and UTF-8 decoding
  // ---------------------------------------------------------------------------

  /** Section 2.1 of RFC 2781: a scalar value as one unit, or as a high then a low surrogate. */
  function Utf16Encode(cps: seq<int>): (units: seq<CodeUnit>)
    requires AllScalars(cps)
    decreases |cps|
  {
    if |cps| == 0 then []
    else if cps[0] < 0x10000 then [cps[0] as CodeUnit] + Utf16Encode(cps[1..])
    else
      var v := cps[0] - 0x10000;
      [0xD800 + v / 0x400, 0xDC00 + v % 0x400] + Utf16Encode(cps[1..])
  }

  /** On well-formed UTF-16 the fallback reads back exactly the scalar values that were encoded. */
  lemma {:induction false} CodePointsOfUtf16Encode(cps: seq<int>)
    requires AllScalars(cps)
    ensures CodePoints(Utf16Encode(cps)) == cps
    decreases |cps|
  {
    if |cps| > 0 {
      var units := Utf16Encode(cps);
      CodePointsOfUtf16Encode(cps[1..]);
      if cps[0] < 0x10000 {
        assert units[1..] == Utf16Encode(cps[1..]);
      } else {
        var v := cps[0] - 0x10000;
        var hi, lo := v / 0x400, v % 0x400;
        DivModUnique(v, 0x400, hi, lo);
        assert 0 <= hi < 0x400;
        assert units[0] == 0xD800 + hi && units[1] == 0xDC00 + lo;
        assert Rest(units, 2) == Utf16Encode(cps[1..]);
        DivModUnique(0xD800 + hi, 0x400, 0x36, hi);
        DivModUnique(0xDC00 + lo, 0x400, 0x37, lo);
        assert 0x10000 + hi * 0x400 + lo == cps[0];
      }
      assert cps == [cps[0]] + cps[1..];
    }
  }

  /** The length of the sequence a lead byte announces, 0 for a byte that cannot lead one. */
  function SequenceLength(lead: int): nat {
    if 0 <= lead < 0x80 then 1
    else if 0xC0 <= lead < 0xE0 then 2
    else if 0xE0 <= lead < 0xF0 then 3
    else if 0xF0 <= lead < 0xF8 then 4
    else 0
  }

  /** The code point carried by one complete byte sequence. */
  function DecodeSequence(b: seq<int>): int
    requires 1 <= |b| <= 4
  {
    if |b| == 1 then b[0]
    else if |b| == 2 then (b[0] - 0xC0) * 0x40 + (b[1] - 0x80)
    else if |b| == 3 then (b[0] - 0xE0) * 0x1000 + (b[1] - 0x80) * 0x40 + (b[2] - 0x80)
    else (b[0] - 0xF0) * 0x40000 + (b[1] - 0x80) * 0x1000 + (b[2] - 0x80) * 0x40 + (b[3] - 0x80)
  }

  /** A UTF-8 reader: each lead byte, then the continuation bytes it announces. */
  function Utf8Decode(bytes: seq<int>): Option<seq<int>>
    decreases |bytes|
  {
    if |bytes| == 0 then Some([])
    else
      var n := SequenceLength(bytes[0]);
      if n == 0 || |bytes| < n || exists k :: 1 <= k < n && !IsContinuation(bytes[k]) then None
      else
        match Utf8Decode(bytes[n..])
        case None => None
        case Some(rest) => Some([DecodeSequence(bytes[..n])] + rest)
  }

  lemma DecodeEncodeScalar(cp: int)
    requires IsScalar(cp)
    ensures SequenceLength(EncodeScalar(cp)[0]) == |EncodeScalar(cp)|
    ensures DecodeSequence(EncodeScalar(cp)) == cp
  {
    if 0x80 <= cp {
      var q := cp / 0x40;
      assert cp == 0x40 * q + cp % 0x40;
      if 0x800 <= cp {
        var q2 := q / 0x40;
        assert q == 0x40 * q2 + q % 0x40;
        assert cp / 0x1000 == q2 by {
          DivModUnique(cp, 0x1000, q2, 0x40 * (q % 0x40) + cp % 0x40);
        }
        if 0x10000 <= cp {
          assert q2 == 0x40 * (q2 / 0x40) + q2 % 0x40;
          assert cp / 0x40000 == q2 / 0x40 by {
            DivModUnique(cp, 0x40000, q2 / 0x40, 0x1000 * (q2 % 0x40) + 0x40 * (q % 0x40) + cp % 0x40);
          }
        }
      }
    }
  }

  /** Decoding the fallback's output gives back the scalar values it encoded. */
  lemma {:induction false} Utf8DecodeEncode(cps: seq<int>)
    requires AllScalars(cps)
    ensures Utf8Decode(Utf8Encode(cps)) == Some(cps)
    decreases |cps|
  {
    if |cps| > 0 {
      var head := EncodeScalar(cps[0]);
      var bytes := Utf8Encode(cps);
      assert bytes == head + Utf8Encode(cps[1..]);
      DecodeEncodeScalar(cps[0]);
      var n := |head|;
      assert bytes[..n] == head;
      assert bytes[n..] == Utf8Encode(cps[1..]);
      assert forall k :: 1 <= k < n ==> IsContinuation(bytes[k]) by {
        forall k | 1 <= k < n ensures IsContinuation(bytes[k]) { assert bytes[k] == head[k]; }
      }
      Utf8DecodeEncode(cps[1..]);
      assert cps == [cps[0]] + cps[1..];
    }
  }

  // ---------------------------------------------------------------------------
  // The loop
  // ---------------------------------------------------------------------------

  /**
   * The fallback branch of `encodeToBase64` up to the call of `btoa`: walks the
   * code units, advancing once more for the second unit of a surrogate pair,
   * and pushes one to four bytes per code point.
   */
  method EncodeUtf8Fallback(str: seq<CodeUnit>) returns (utf8Bytes: seq<int>)
    ensures utf8Bytes == Utf8Encode(CodePoints(str))
    ensures forall k :: 0 <= k < |utf8Bytes| ==> 0 <= utf8Bytes[k] < 0x100
  {
    utf8Bytes := [];
    var i := 0;
    while i < |str|
      invariant 0 <= i <= |str| + 1
      invariant utf8Bytes + Utf8Encode(CodePoints(Rest(str, i))) == Utf8Encode(CodePoints(str))
    {
      ghost var start := i;
      ghost var done := utf8Bytes;
      ghost var next := if IsSurrogate(str[i]) then i + 2 else i + 1;
      CodePointsTail(str, start, next);
      ghost var cp := CodePoints(Rest(str, start))[0];
      var code := str[i];
      if code < 0x80 {
        utf8Bytes := utf8Bytes + [code];
      } else if code < 0x800 {
        TwoBytes(code);
        utf8Bytes := utf8Bytes + [Or(0xC0, Shr(code, 6)), Or(0x80, And(code, 0x3F))];
      } else if code < 0xD800 || code >= 0xE000 {
        ThreeBytes(code);
        utf8Bytes := utf8Bytes + [Or(0xE0, Shr(code, 12)), Or(0x80, And(Shr(code, 6), 0x3F)), Or(0x80, And(code, 0x3F))];
      } else {
        // Surrogate pair
        i := i + 1;
        var hi := code;
        var lo := if i < |str| then str[i] else 0;
        var codePoint := 0x10000 + Or(Shl(And(hi, 0x3FF), 10), And(lo, 0x3FF));
        PairCodePoint(hi, lo);
        assert codePoint == cp;
        FourBytes(codePoint);
        utf8Bytes := utf8Bytes + [
          Or(0xF0, Shr(codePoint, 18)),
          Or(0x80, And(Shr(codePoint, 12), 0x3F)),
          Or(0x80, And(Shr(codePoint, 6), 0x3F)),
          Or(0x80, And(codePoint, 0x3F))
        ];
      }
      assert utf8Bytes == done + EncodeScalar(cp);
      i := i + 1;
      CodePointsStep(str, start, i);
      LoopStep(done, utf8Bytes, CodePoints(Rest(str, start)), CodePoints(Rest(str, i)), Utf8Encode(CodePoints(str)));
    }
  }

  /** The first code point the loop reads at index `i`, and where the next one starts. */
  /** Encoding one more code point carries the loop invariant from one step to the next. */
  lemma LoopStep(done: seq<int>, now: seq<int>, cps: seq<int>, rest: seq<int>, total: seq<int>)
    requires AllScalars(cps) && |cps| > 0 && cps[1..] == rest
    requires now == done + EncodeScalar(cps[0])
    requires done + Utf8Encode(cps) == total
    ensures now + Utf8Encode(rest) == total
  {
    assert Utf8Encode(cps) == EncodeScalar(cps[0]) + Utf8Encode(rest);
    assert now + Utf8Encode(rest) == done + (EncodeScalar(cps[0]) + Utf8Encode(rest));
  }

  /** One step of the decoding: the first code point read at `i`, and the rest read from `next`. */
  lemma CodePointsStep(str: seq<CodeUnit>, i: nat, next: nat)
    requires i < |str|
    requires next == if IsSurrogate(str[i]) then i + 2 else i + 1
    ensures |CodePoints(Rest(str, i))| > 0
    ensures CodePoints(Rest(str, i))[1..] == CodePoints(Rest(str, next))
  {
    var s := Rest(str, i);
    if IsSurrogate(s[0]) {
      assert Rest(s, 2) == Rest(str, next);
    } else {
      assert s[1..] == Rest(str, next);
    }
  }

  /** The first code point read at `i`: the unit itself, or the pair formed with the next unit (0 past the end). */
  lemma CodePointsTail(str: seq<CodeUnit>, i: nat, next: nat)
    requires i < |str|
    requires next == if IsSurrogate(str[i]) then i + 2 else i + 1
    ensures |CodePoints(Rest(str, i))| > 0
    ensures CodePoints(Rest(str, i))[0] ==
      if !IsSurrogate(str[i]) then str[i] as int
      else 0x10000 + (str[i] as int % 0x400) * 0x400 + (if i + 1 < |str| then str[i + 1] as int else 0) % 0x400
  {
    var s := Rest(str, i);
    assert s[0] == str[i];
    if i + 1 < |str| {
      assert s[1] == str[i + 1];
    }
  }

  lemma TwoBytes(code: nat)
    requires 0x80 <= code < 0x800
    ensures [Or(0xC0, Shr(code, 6)), Or(0x80, And(code, 0x3F))] == EncodeScalar(code)
  {
    Pow2Values();
    LeadByte(0xC0, code, 6, 6);
    ContinuationByte(code);
  }

  lemma ThreeBytes(code: nat)
    requires 0x800 <= code < 0x10000 && IsScalar(code)
    ensures [Or(0xE0, Shr(code, 12)), Or(0x80, And(Shr(code, 6), 0x3F)), Or(0x80, And(code, 0x3F))]
         == EncodeScalar(code)
  {
    Pow2Values();
    LeadByte(0xE0, code, 12, 4);
    ContinuationByte(Shr(code, 6));
    ContinuationByte(code);
    assert Or(0xE0, Shr(code, 12)) == 0xE0 + code / 0x1000;
    assert Or(0x80, And(Shr(code, 6), 0x3F)) == 0x80 + (code / 0x40) % 0x40;
    assert Or(0x80, And(code, 0x3F)) == 0x80 + code % 0x40;
  }

  lemma FourBytes(cp: nat)
    requires 0x10000 <= cp < 0x110000
    ensures [Or(0xF0, Shr(cp, 18)), Or(0x80, And(Shr(cp, 12), 0x3F)),
             Or(0x80, And(Shr(cp, 6), 0x3F)), Or(0x80, And(cp, 0x3F))]
         == EncodeScalar(cp)
  {
    Pow2Values();
    LeadByte(0xF0, cp, 18, 3);
    ContinuationByte(Shr(cp, 12));
    ContinuationByte(Shr(cp, 6));
    ContinuationByte(cp);
  }

  /** `lead | (x >> shift)` is `lead + x / 2^shift` when the shifted value fits below the marker bits. */
  lemma LeadByte(lead: nat, x: nat, shift: nat, room: nat)
    requires lead % Pow2(room) == 0 && x / Pow2(shift) < Pow2(room)
    ensures Or(lead, Shr(x, shift)) == lead + x / Pow2(shift)
  {
    OrDisjoint(lead, Shr(x, shift), room);
  }

  /** `0x80 | (x & 0x3f)` is the continuation byte `0x80 + x % 64`. */
  lemma ContinuationByte(x: nat)
    ensures Or(0x80, And(x, 0x3F)) == 0x80 + x % 0x40
  {
    Pow2Values();
    AndLowMask(x, 6);
    OrDisjoint(0x80, x % 0x40, 6);
  }

  /** `((hi & 0x3ff) << 10) | (lo & 0x3ff)` is the arithmetic combination of the two low halves. */
  lemma PairCodePoint(hi: nat, lo: nat)
    ensures Or(Shl(And(hi, 0x3FF), 10), And(lo, 0x3FF)) == (hi % 0x400) * 0x400 + lo % 0x400
  {
    Pow2Values();
    AndLowMask(hi, 10);
    AndLowMask(lo, 10);
    OrLowBits(hi % 0x400, lo % 0x400, 10);
  }

  // ---------------------------------------------------------------------------
  // Lone surrogates
  // ---------------------------------------------------------------------------

  /**
   * As written, a high surrogate with no low surrogate after it still takes
   * the next unit as its second half: the `A` of `\uD800A` is lost and a
   * supplementary code point comes out instead.
   */
  lemma LoneSurrogateSwallows()
    ensures CodePoints([0xD800, 0x41]) == [0x10041]
    ensures 0x41 !in CodePoints([0xD800, 0x41])
  {
    assert Rest([0xD800, 0x41], 2) == [];
  }

  /**
   * The reading `TextEncoder` applies, which the fallback stands in for: only
   * a high surrogate followed by a low one forms a pair, and every other
   * surrogate unit becomes U+FFFD on its own.
   */
  function CodePointsReplacing(s: seq<CodeUnit>): (cps: seq<int>)
    ensures AllScalars(cps)
    decreases |s|
  {
    if |s| == 0 then []
    else if !IsSurrogate(s[0]) then [s[0]] + CodePointsReplacing(s[1..])
    else if IsHighSurrogate(s[0]) && |s| > 1 && IsLowSurrogate(s[1]) then
      [0x10000 + (s[0] - 0xD800) * 0x400 + (s[1] - 0xDC00)] + CodePointsReplacing(s[2..])
    else [0xFFFD] + CodePointsReplacing(s[1..])
  }

  /** The units with every surrogate that is not part of a pair replaced by U+FFFD. */
  function Sanitized(s: seq<CodeUnit>): seq<CodeUnit>
    decreases |s|
  {
    if |s| == 0 then []
    else if !IsSurrogate(s[0]) then [s[0]] + Sanitized(s[1..])
    else if IsHighSurrogate(s[0]) && |s| > 1 && IsLowSurrogate(s[1]) then [s[0], s[1]] + Sanitized(s[2..])
    else [0xFFFD] + Sanitized(s[1..])
  }

  /**
   * Corrected reading: encoding what was read gives back the units, with each
   * unpaired surrogate replaced and nothing else changed or dropped.
   */
  lemma {:induction false} ReplacingRoundTrip(s: seq<CodeUnit>)
    ensures Utf16Encode(CodePointsReplacing(s)) == Sanitized(s)
    decreases |s|
  {
    if |s| > 0 {
      var cps := CodePointsReplacing(s);
      if !IsSurrogate(s[0]) {
        ReplacingRoundTrip(s[1..]);
        assert cps[1..] == CodePointsReplacing(s[1..]);
      } else if IsHighSurrogate(s[0]) && |s| > 1 && IsLowSurrogate(s[1]) {
        ReplacingRoundTrip(s[2..]);
        assert cps[1..] == CodePointsReplacing(s[2..]);
        var v := cps[0] - 0x10000;
        DivModUnique(v, 0x400, s[0] - 0xD800, s[1] - 0xDC00);
      } else {
        ReplacingRoundTrip(s[1..]);
        assert cps[1..] == CodePointsReplacing(s[1..]);
      }
    }
  }

  /** On the lone surrogate above, the corrected reading keeps the `A`. */
  lemma LoneSurrogateReplaced()
    ensures CodePointsReplacing([0xD800, 0x41]) == [0xFFFD, 0x41]
  {
    assert [0xD800, 0x41][1..] == [0x41];
  }

  /** On well-formed UTF-16 the corrected reading is the one the fallback does. */
  lemma {:induction false} ReplacingAgrees(cps: seq<int>)
    requires AllScalars(cps)
    ensures CodePointsReplacing(Utf16Encode(cps)) == CodePoints(Utf16Encode(cps)) == cps
    decreases |cps|
  {
    CodePointsOfUtf16Encode(cps);
    if |cps| > 0 {
      var units := Utf16Encode(cps);
      ReplacingAgrees(cps[1..]);
      if cps[0] < 0x10000 {
        assert units[1..] == Utf16Encode(cps[1..]);
      } else {
        var v := cps[0] - 0x10000;
        assert units[2..] == Utf16Encode(cps[1..]);
        assert v == (v / 0x400) * 0x400 + v % 0x400;
      }
      assert cps == [cps[0]] + cps[1..];
    }
  }
}
