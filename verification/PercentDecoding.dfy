/** SDL_URIDecode (SDL_utils.c): percent-decoding, section 2.1 of RFC 3986,
    possibly into the buffer that is being read. */
module PercentDecoding {
  type Byte = x: int | 0 <= x < 256

  const PERCENT: Byte := '%' as int

  predicate IsHex(b: Byte) {
    'a' as int <= b <= 'f' as int || 'A' as int <= b <= 'F' as int || '0' as int <= b <= '9' as int
  }

  function HexValue(b: Byte): (v: nat)
    requires IsHex(b)
    ensures v < 16
  {
    if '0' as int <= b <= '9' as int then b - '0' as int
    else if 'a' as int <= b <= 'f' as int then b + 10 - 'a' as int
    else b + 10 - 'A' as int
  }

  const LOWER := "0123456789abcdef"
  const UPPER := "0123456789ABCDEF"

  /** `b` is the hexadecimal digit for `v`, in either case. */
  predicate Digit(b: Byte, v: nat) {
    v < 16 && (b == LOWER[v] as int || b == UPPER[v] as int)
  }

  /** What the code takes for digits, and their values, are the digits. */
  lemma DigitsAreDigits(b: Byte, v: nat)
    ensures Digit(b, v) <==> IsHex(b) && HexValue(b) == v
  {
    if IsHex(b) {
      var h := HexValue(b);
      assert Digit(b, h);
      DigitIsUnique(b, v, h);
    } else if v < 16 {
      DigitIsHex(v);
    }
  }

  lemma DigitIsHex(v: nat)
    requires v < 16
    ensures IsHex(LOWER[v] as int) && IsHex(UPPER[v] as int)
    ensures HexValue(LOWER[v] as int) == v == HexValue(UPPER[v] as int)
  {
  }

  lemma DigitIsUnique(b: Byte, v: nat, w: nat)
    requires Digit(b, w)
    ensures Digit(b, v) ==> v == w
  {
    DigitIsHex(w);
    if v < 16 {
      DigitIsHex(v);
    }
  }

  /** Does `t` begin with one complete escape? */
  predicate Escaped(t: seq<Byte>) {
    |t| >= 3 && t[0] == PERCENT && IsHex(t[1]) && IsHex(t[2])
  }

  /** How much of a text is decoded at once: one character, or an escape up to
      the first character that is not a digit of it. */
  function Consumed(t: seq<Byte>): (n: nat)
    requires t != []
    ensures 1 <= n <= |t|
  {
    if t[0] != PERCENT || |t| == 1 then 1
    else if !IsHex(t[1]) || |t| == 2 then 2
    else 3
  }

  /** ... and what it becomes. A percent sign without two hexadecimal digits is
      kept together with what was taken for its digits; one that the end of the
      text cuts short is lost. */
  function Yield(t: seq<Byte>): (bytes: seq<Byte>)
    requires t != []
    ensures |bytes| <= Consumed(t)
  {
    if t[0] != PERCENT then [t[0]]
    else if |t| == 1 then []
    else if !IsHex(t[1]) then t[..2]
    else if |t| == 2 then []
    else if !IsHex(t[2]) then t[..3]
    else [16 * HexValue(t[1]) + HexValue(t[2])]
  }

  function Decoded(t: seq<Byte>): seq<Byte> {
    if t == [] then [] else Yield(t) + Decoded(t[Consumed(t)..])
  }

  /** `t` begins with the escape for `b`: a percent sign and two digits. */
  predicate EscapeOf(t: seq<Byte>, b: Byte) {
    |t| >= 3 && t[0] == PERCENT && Digit(t[1], b / 16) && Digit(t[2], b % 16)
  }

  /** `t` is a percent-encoding of `s`: percent signs are escaped, other bytes may
      be, with digits in either case. */
  predicate Encodes(t: seq<Byte>, s: seq<Byte>) {
    if s == [] then t == []
    else
      || (t != [] && t[0] == s[0] != PERCENT && Encodes(t[1..], s[1..]))
      || (EscapeOf(t, s[0]) && Encodes(t[3..], s[1..]))
  }

  /** An encoder: the bytes that `keep` picks stay, the others are escaped. */
  function Encoded(s: seq<Byte>, keep: Byte -> bool, digits: string): seq<Byte>
    requires digits in {LOWER, UPPER}
  {
    if s == [] then []
    else if s[0] != PERCENT && keep(s[0]) then [s[0]] + Encoded(s[1..], keep, digits)
    else [PERCENT, digits[s[0] / 16] as int, digits[s[0] % 16] as int] + Encoded(s[1..], keep, digits)
  }

  lemma {:induction false} EncodedEncodes(s: seq<Byte>, keep: Byte -> bool, digits: string)
    requires digits in {LOWER, UPPER}
    ensures Encodes(Encoded(s, keep, digits), s)
  {
    if s != [] {
      EncodedEncodes(s[1..], keep, digits);
      var t := Encoded(s, keep, digits);
      if s[0] != PERCENT && keep(s[0]) {
        assert t[1..] == Encoded(s[1..], keep, digits);
      } else {
        assert t[3..] == Encoded(s[1..], keep, digits);
        assert EscapeOf(t, s[0]);
      }
    }
  }

  /** Whatever bytes are escaped, and in whatever case, decoding gives them back. */
  lemma RoundTrip(s: seq<Byte>, keep: Byte -> bool, digits: string)
    requires digits in {LOWER, UPPER}
    ensures Decoded(Encoded(s, keep, digits)) == s
  {
    EncodedEncodes(s, keep, digits);
    DecodingInvertsEncoding(Encoded(s, keep, digits), s);
  }

  lemma EscapeYields(t: seq<Byte>, b: Byte)
    ensures EscapeOf(t, b) <==> Escaped(t) && Yield(t) == [b]
  {
    if |t| >= 3 && t[0] == PERCENT {
      DigitsAreDigits(t[1], b / 16);
      DigitsAreDigits(t[2], b % 16);
    }
  }

  predicate WellFormed(t: seq<Byte>) {
    t != [] ==> (t[0] == PERCENT ==> Escaped(t)) && WellFormed(t[Consumed(t)..])
  }

  /** Decoding is the inverse of every correct encoding, and of nothing else. */
  lemma {:induction false} DecodingInvertsEncoding(t: seq<Byte>, s: seq<Byte>)
    ensures Encodes(t, s) <==> WellFormed(t) && Decoded(t) == s
    decreases |t|
  {
    if t != [] {
      var rest := t[Consumed(t)..];
      DecodingInvertsEncoding(rest, Decoded(rest));
      if s != [] {
        EscapeYields(t, s[0]);
        DecodingInvertsEncoding(rest, s[1..]);
        assert s == [s[0]] + s[1..];
      }
    }
  }

  lemma {:induction false} DecodedConcat(t: seq<Byte>, u: seq<Byte>)
    requires WellFormed(t)
    ensures Decoded(t + u) == Decoded(t) + Decoded(u)
  {
    if t == [] {
      assert t + u == u;
    } else {
      var k := Consumed(t);
      assert Consumed(t + u) == k && Yield(t + u) == Yield(t);
      assert (t + u)[k..] == t[k..] + u;
      DecodedConcat(t[k..], u);
    }
  }

  /** An escape that the end of the text cuts short disappears. */
  lemma CutEscapeIsLost(t: seq<Byte>, digit: Byte)
    requires WellFormed(t) && IsHex(digit)
    ensures Decoded(t + [PERCENT]) == Decoded(t) == Decoded(t + [PERCENT, digit])
  {
    DecodedConcat(t, [PERCENT]);
    DecodedConcat(t, [PERCENT, digit]);
  }

  ghost predicate IsDigit(b: Byte) {
    exists v :: Digit(b, v)
  }

  lemma DigitsAreHex(b: Byte)
    ensures IsDigit(b) <==> IsHex(b)
  {
    if IsHex(b) {
      DigitsAreDigits(b, HexValue(b));
    }
    if IsDigit(b) {
      var v :| Digit(b, v);
      DigitsAreDigits(b, v);
    }
  }

  lemma BrokenYields(escape: seq<Byte>, u: seq<Byte>)
    requires 2 <= |escape| <= 3 && escape[0] == PERCENT
    requires (|escape| == 3 ==> IsHex(escape[1])) && !IsHex(escape[|escape| - 1])
    ensures Decoded(escape + u) == escape + Decoded(u)
  {
    var t, n := escape + u, |escape|;
    assert t[..n] == escape && t[n..] == u;
    assert Consumed(t) == n && Yield(t) == t[..n];
  }

  /** A percent sign with something else than two digits stays as it is, up to the
      character that is no digit. */
  lemma BrokenEscapeIsKept(t: seq<Byte>, escape: seq<Byte>, u: seq<Byte>)
    requires WellFormed(t) && 2 <= |escape| <= 3 && escape[0] == PERCENT
    requires (|escape| == 3 ==> IsDigit(escape[1])) && !IsDigit(escape[|escape| - 1])
    ensures Decoded(t + escape + u) == Decoded(t) + escape + Decoded(u)
  {
    DigitsAreHex(escape[1]);
    DigitsAreHex(escape[|escape| - 1]);
    BrokenYields(escape, u);
    DecodedInside(t, escape, u);
  }

  lemma Regroup(a: seq<Byte>, b: seq<Byte>, c: seq<Byte>)
    ensures a + b + c == a + (b + c)
  {
  }

  lemma DecodedInside(t: seq<Byte>, kept: seq<Byte>, u: seq<Byte>)
    requires WellFormed(t) && Decoded(kept + u) == kept + Decoded(u)
    ensures Decoded(t + kept + u) == Decoded(t) + kept + Decoded(u)
  {
    DecodedConcat(t, kept + u);
    Regroup(t, kept, u);
    Regroup(Decoded(t), kept, Decoded(u));
  }

  /** A percent sign swallows a following one: "%%41" stays as it is. */
  lemma DoublePercent(t: seq<Byte>, u: seq<Byte>)
    requires WellFormed(t)
    ensures Decoded(t + [PERCENT, PERCENT] + u) == Decoded(t) + [PERCENT, PERCENT] + Decoded(u)
  {
    DecodedPair(u);
    DecodedInside(t, [PERCENT, PERCENT], u);
  }

  lemma DecodedPair(u: seq<Byte>)
    ensures Decoded([PERCENT, PERCENT] + u) == [PERCENT, PERCENT] + Decoded(u)
  {
    var t := [PERCENT, PERCENT] + u;
    assert Consumed(t) == 2 && Yield(t) == t[..2] == [PERCENT, PERCENT] && t[2..] == u;
  }

  lemma {:induction false} DecodedIsNoLonger(t: seq<Byte>)
    ensures |Decoded(t)| <= |t|
    decreases |t|
  {
    if t != [] {
      DecodedIsNoLonger(t[Consumed(t)..]);
    }
  }

  // ----- the C function -----

  /** The text that the call reads: `len` bytes, or up to the terminating NUL. */
  function Text(s: seq<Byte>, len: nat): seq<Byte> {
    if len > 0 && len <= |s| then s[..len] else UpToNul(s)
  }

  function UpToNul(s: seq<Byte>): seq<Byte> {
    if s == [] || s[0] == 0 then [] else [s[0]] + UpToNul(s[1..])
  }

  lemma {:induction false} UpToFirstNul(s: seq<Byte>, len: nat)
    requires len < |s| && s[len] == 0 && forall k :: 0 <= k < len ==> s[k] != 0
    ensures UpToNul(s) == s[..len]
  {
    if len > 0 {
      UpToFirstNul(s[1..], len - 1);
      assert s[..len] == [s[0]] + s[1..][..len - 1];
    }
  }

  method StringLength(s: array<Byte>) returns (len: nat)
    requires 0 in s[..]
    ensures len < s.Length && s[..len] == UpToNul(s[..])
  {
    ghost var nul :| 0 <= nul < s.Length && s[nul] == 0;
    len := 0;
    while s[len] != 0
      invariant len <= nul && forall k :: 0 <= k < len ==> s[k] != 0
      decreases nul - len
    {
      len := len + 1;
    }
    UpToFirstNul(s[..], len);
  }

  predicate Suffix(u: seq<Byte>, t: seq<Byte>, at: nat) {
    at <= |t| && u == t[at..]
  }

  /** The text from `at` on decodes to what is left of `bytes` after `wi` bytes. */
  ghost predicate Remaining(text: seq<Byte>, at: nat, bytes: seq<Byte>, wi: nat) {
    && at <= |text| && wi <= |bytes| && wi <= at
    && forall u {:trigger Suffix(u, text, at)} :: Suffix(u, text, at) ==> Decoded(u) == bytes[wi..]
  }

  lemma DecodingStep(text: seq<Byte>, at: nat, bytes: seq<Byte>, wi: nat)
    requires Remaining(text, at, bytes, wi) && at < |text|
    ensures var t := text[at..];
            && wi + |Yield(t)| <= |bytes|
            && bytes[wi..wi + |Yield(t)|] == Yield(t)
            && Remaining(text, at + Consumed(t), bytes, wi + |Yield(t)|)
  {
    var t := text[at..];
    var n := |Yield(t)|;
    assert Suffix(t, text, at);
    assert t[Consumed(t)..] == text[at + Consumed(t)..];
    assert Yield(t) + Decoded(t[Consumed(t)..]) == bytes[wi..];
    assert bytes[wi..wi + n] == bytes[wi..][..n] && bytes[wi + n..] == bytes[wi..][n..];
  }

  lemma PlainStep(text: seq<Byte>, at: nat, bytes: seq<Byte>, wi: nat)
    requires Remaining(text, at, bytes, wi) && at < |text| && text[at] != PERCENT
    ensures wi < |bytes| && bytes[wi] == text[at] && Remaining(text, at + 1, bytes, wi + 1)
  {
    DecodingStep(text, at, bytes, wi);
    assert bytes[wi..wi + 1][0] == bytes[wi];
  }

  lemma BrokenStep(text: seq<Byte>, at: nat, bytes: seq<Byte>, wi: nat, di: nat)
    requires Remaining(text, at, bytes, wi) && 1 <= di <= 2 && at + di < |text| && text[at] == PERCENT
    requires (di == 2 ==> IsHex(text[at + 1])) && !IsHex(text[at + di])
    ensures wi + di < |bytes| && forall k :: at <= k <= at + di ==> bytes[wi + k - at] == text[k]
    ensures Remaining(text, at + di + 1, bytes, wi + di + 1)
  {
    DecodingStep(text, at, bytes, wi);
    forall k | at <= k <= at + di
      ensures bytes[wi + k - at] == text[k]
    {
      assert bytes[wi..wi + di + 1][k - at] == text[at..][k - at];
    }
  }

  lemma EscapeStep(text: seq<Byte>, at: nat, bytes: seq<Byte>, wi: nat)
    requires Remaining(text, at, bytes, wi) && at + 2 < |text|
    requires text[at] == PERCENT && IsHex(text[at + 1]) && IsHex(text[at + 2])
    ensures wi < |bytes| && bytes[wi] == 16 * HexValue(text[at + 1]) + HexValue(text[at + 2])
    ensures Remaining(text, at + 3, bytes, wi + 1)
  {
    DecodingStep(text, at, bytes, wi);
    assert bytes[wi..wi + 1][0] == bytes[wi];
  }

  /** At the end of the text only a cut escape can be left. */
  lemma AllRead(text: seq<Byte>, at: nat, bytes: seq<Byte>, wi: nat, di: nat)
    requires Remaining(text, at, bytes, wi) && di <= 2 && at + di == |text|
    requires (di >= 1 ==> text[at] == PERCENT) && (di == 2 ==> IsHex(text[at + 1]))
    ensures wi == |bytes|
  {
    assert Suffix(text[at..], text, at) && Decoded(text[at..]) == [];
    assert |bytes[wi..]| == |bytes| - wi;
  }

  /** Copy what turned out not to be an escape, front to back: in one buffer the
      target never runs ahead of the source. */
  method CopyLiterally(src: array<Byte>, dst: array<Byte>, from: nat, to: nat, start: nat,
                       ghost text: seq<Byte>, ghost bytes: seq<Byte>)
    requires start <= from < to <= src.Length && start + to - from <= dst.Length
    requires to <= |text| && start + to - from <= |bytes|
    requires forall k :: from <= k < |text| && k < src.Length ==> src[k] == text[k]
    requires forall k :: 0 <= k < start ==> dst[k] == bytes[k]
    requires forall k :: from <= k < to ==> bytes[start + k - from] == text[k]
    modifies dst
    ensures forall k :: 0 <= k < start + to - from ==> dst[k] == bytes[k]
    ensures forall k :: to <= k < |text| && k < src.Length ==> src[k] == text[k]
    ensures forall k :: start + to - from <= k < dst.Length ==> dst[k] == old(dst[k])
  {
    var sri, wi := from, start;
    while sri < to
      invariant from <= sri <= to && wi == start + sri - from
      invariant forall k :: sri <= k < |text| && k < src.Length ==> src[k] == text[k]
      invariant forall k :: 0 <= k < wi ==> dst[k] == bytes[k]
      invariant forall k :: wi <= k < dst.Length ==> dst[k] == old(dst[k])
    {
      dst[wi] := src[sri];
      wi := wi + 1;
      sri := sri + 1;
    }
  }

  /** After `ri` characters: `wi` bytes are written, the last `di` characters are
      pending, and what is still to be read is as it was, even if `dst` is `src`. */
  ghost predicate Reading(src: array<Byte>, dst: array<Byte>, text: seq<Byte>, bytes: seq<Byte>,
                          was: seq<Byte>, ri: nat, wi: nat, di: nat, decode: Byte)
    requires |text| <= src.Length && |was| == dst.Length
    reads src, dst
  {
    && di <= 2 && di <= ri <= |text| && wi <= dst.Length
    && Remaining(text, ri - di, bytes, wi)
    && (forall k :: 0 <= k < wi ==> dst[k] == bytes[k])
    && (forall k :: wi <= k < |was| ==> dst[k] == was[k])
    && (forall k :: ri - di <= k < |text| ==> src[k] == text[k])
    && (di >= 1 ==> text[ri - di] == PERCENT)
    && (di == 2 ==> IsHex(text[ri - 1]) && decode == 16 * HexValue(text[ri - 1]))
  }

  /** One character while no escape is pending. */
  method ReadPlain(src: array<Byte>, dst: array<Byte>, ghost text: seq<Byte>, ghost bytes: seq<Byte>,
                   ghost was: seq<Byte>, ri: nat, w: nat, digit: Byte)
    returns (wi: nat, di: nat, decode: Byte)
    requires |text| <= src.Length && |was| == dst.Length && |bytes| < dst.Length
    requires Reading(src, dst, text, bytes, was, ri, w, 0, digit) && ri < |text|
    modifies dst
    ensures Reading(src, dst, text, bytes, was, ri + 1, wi, di, decode)
  {
    if src[ri] == PERCENT {
      return w, 1, 0;
    }
    PlainStep(text, ri, bytes, w);
    dst[w] := src[ri];
    return w + 1, 0, digit;
  }

  /** A character that ends a pending escape without being a digit. */
  method ReadOther(src: array<Byte>, dst: array<Byte>, ghost text: seq<Byte>, ghost bytes: seq<Byte>,
                   ghost was: seq<Byte>, ri: nat, w: nat, d: nat, digit: Byte)
    requires |text| <= src.Length && |was| == dst.Length && |bytes| < dst.Length
    requires Reading(src, dst, text, bytes, was, ri, w, d, digit) && d > 0 && ri < |text| && !IsHex(src[ri])
    modifies dst
    ensures Reading(src, dst, text, bytes, was, ri + 1, w + d + 1, 0, digit)
  {
    BrokenStep(text, ri - d, bytes, w, d);
    CopyLiterally(src, dst, ri - d, ri + 1, w, text, bytes);
  }

  /** A hexadecimal digit of a pending escape. */
  method ReadDigit(src: array<Byte>, dst: array<Byte>, ghost text: seq<Byte>, ghost bytes: seq<Byte>,
                   ghost was: seq<Byte>, ri: nat, w: nat, d: nat, digit: Byte)
    returns (wi: nat, di: nat, decode: Byte)
    requires |text| <= src.Length && |was| == dst.Length && |bytes| < dst.Length
    requires Reading(src, dst, text, bytes, was, ri, w, d, digit) && d > 0 && ri < |text| && IsHex(src[ri])
    modifies dst
    ensures Reading(src, dst, text, bytes, was, ri + 1, wi, di, decode)
  {
    if d == 1 {
      return w, 2, 16 * HexValue(src[ri]);
    }
    EscapeStep(text, ri - 2, bytes, w);
    decode := digit + HexValue(src[ri]);
    dst[w] := decode;
    return w + 1, 0, decode;
  }

  /** The loop over the text. `dst` may be the same buffer as `src`: writing and
      pending characters never pass the reading position. */
  method Decode(src: array<Byte>, dst: array<Byte>, len: nat, ghost bytes: seq<Byte>) returns (wi: nat)
    requires len <= src.Length && |bytes| < dst.Length && Remaining(src[..len], 0, bytes, 0)
    modifies dst
    ensures wi == |bytes| && dst[wi] == 0
    ensures forall k :: 0 <= k < wi ==> dst[k] == bytes[k]
    ensures forall k :: wi < k < dst.Length ==> dst[k] == old(dst[k])
  {
    ghost var text, was := src[..len], dst[..];
    var ri, di := 0, 0;
    var decode: Byte := 0;
    wi := 0;
    while ri < len && wi < len
      invariant 0 <= ri <= len && 0 <= di <= ri && 0 <= wi <= ri - di
      invariant Reading(src, dst, text, bytes, was, ri, wi, di, decode)
      decreases len - ri
    {
      if di == 0 {
        wi, di, decode := ReadPlain(src, dst, text, bytes, was, ri, wi, decode);
      } else if IsHex(src[ri]) {
        wi, di, decode := ReadDigit(src, dst, text, bytes, was, ri, wi, di, decode);
      } else {
        ReadOther(src, dst, text, bytes, was, ri, wi, di, decode);
        wi, di := wi + di + 1, 0;
      }
      ri := ri + 1;
    }
    AllRead(text, ri - di, bytes, wi, di);
    dst[wi] := 0;
  }

  lemma AllRemains(text: seq<Byte>)
    ensures Remaining(text, 0, Decoded(text), 0)
  {
    assert forall u :: Suffix(u, text, 0) ==> u == text;
  }

  lemma Assembled(now: seq<Byte>, was: seq<Byte>, bytes: seq<Byte>)
    requires |bytes| < |now| == |was| && now[|bytes|] == 0
    requires forall k :: 0 <= k < |bytes| ==> now[k] == bytes[k]
    requires forall k :: |bytes| < k < |now| ==> now[k] == was[k]
    ensures now == bytes + [0] + was[|bytes| + 1..]
  {
  }

  /** What is written does not depend on whether `dst` is the same buffer. */
  method URIDecode(src: array?<Byte>, dst: array?<Byte>, length: int) returns (written: int)
    requires src != null && length >= 0 ==> if length == 0 then 0 in src[..] else length <= src.Length
    requires src != null && dst != null && length >= 0 ==> |Decoded(Text(src[..], length))| < dst.Length
    modifies if dst != null then {dst} else {}
    ensures src == null || dst == null || length < 0 ==> written == -1
    ensures (src == null || dst == null || length < 0) && dst != null ==> dst[..] == old(dst[..])
    ensures src != null && dst != null && length >= 0 ==>
              var bytes := Decoded(Text(old(src[..]), length));
              && written == |bytes|
              && dst[..] == bytes + [0] + old(dst[..])[|bytes| + 1..]
  {
    if src == null || dst == null || length < 0 {
      return -1;
    }
    var len: nat := length;
    if len == 0 {
      len := StringLength(src);
    }
    ghost var text, was := Text(src[..], length), dst[..];
    assert src[..len] == text;
    AllRemains(text);
    written := Decode(src, dst, len, Decoded(text));
    Assembled(dst[..], was, Decoded(text));
  }
}
