/** The UTF-8 bootstrap of the worker isolate: the byte-range validator behind a fatal
    TextDecoder, TextEncoder.encodeInto, and what fatal decoding does to byte order marks. */
module Encoding {
  import opened Text
  import opened Utf8

  predicate Within(x: int, low: int, high: int) { low <= x <= high }

  predicate Tail(x: int) { Within(x, 0x80, 0xBF) }

  // The UTF8-char rules of section 4 of RFC 3629, for a sequence of n bytes at the head of b.
  predicate WellFormedHead(b: seq<byte>, n: nat) {
    n <= |b| &&
    match n
    case 1 => b[0] <= 0x7F
    case 2 => Within(b[0], 0xC2, 0xDF) && Tail(b[1])
    case 3 =>
      && Tail(b[2])
      && (|| (b[0] == 0xE0 && Within(b[1], 0xA0, 0xBF))
          || (Within(b[0], 0xE1, 0xEC) && Tail(b[1]))
          || (b[0] == 0xED && Within(b[1], 0x80, 0x9F))
          || (Within(b[0], 0xEE, 0xEF) && Tail(b[1])))
    case 4 =>
      && Tail(b[2]) && Tail(b[3])
      && (|| (b[0] == 0xF0 && Within(b[1], 0x90, 0xBF))
          || (Within(b[0], 0xF1, 0xF3) && Tail(b[1]))
          || (b[0] == 0xF4 && Within(b[1], 0x80, 0x8F)))
    case _ => false
  }

  lemma HeadOfScalar(c: char, rest: seq<byte>)
    ensures WellFormedHead(EncodeChar(c) + rest, |EncodeChar(c)|)
  {
    var u := EncodeChar(c);
    assert forall k :: 0 <= k < |u| ==> (u + rest)[k] == u[k];
  }

  lemma JoinDigits(high: int, low: int)
    requires 0 <= high && 0 <= low < 0x40
    ensures (high * 0x40 + low) / 0x40 == high && (high * 0x40 + low) % 0x40 == low
  {
  }

  lemma JoinThree(x: int, y: int, z: int)
    requires 0 <= x && 0 <= y < 0x40 && 0 <= z < 0x40
    ensures var v := x * 0x1000 + y * 0x40 + z;
            v / 0x1000 == x && v / 0x40 % 0x40 == y && v % 0x40 == z
  {
    var high := x * 0x40 + y;
    JoinDigits(x, y);
    JoinDigits(high, z);
    Base64Digits(high * 0x40 + z);
  }

  lemma JoinFour(w: int, x: int, y: int, z: int)
    requires 0 <= w && 0 <= x < 0x40 && 0 <= y < 0x40 && 0 <= z < 0x40
    ensures var v := w * 0x4_0000 + x * 0x1000 + y * 0x40 + z;
            v / 0x4_0000 == w && v / 0x1000 % 0x40 == x && v / 0x40 % 0x40 == y && v % 0x40 == z
  {
    JoinThree(w * 0x40 + x, y, z);
    JoinDigits(w, x);
    Base64Digits(w * 0x4_0000 + x * 0x1000 + y * 0x40 + z);
  }

  lemma ScalarOfTwo(w: byte, x: byte) returns (c: char)
    requires WellFormedHead([w, x], 2)
    ensures EncodeChar(c) == [w, x]
  {
    JoinDigits(w - 0xC0, x - 0x80);
    c := SequenceValue([w, x]) as char;
  }

  lemma ScalarOfThree(w: byte, x: byte, y: byte) returns (c: char)
    requires WellFormedHead([w, x, y], 3)
    ensures EncodeChar(c) == [w, x, y]
  {
    JoinThree(w - 0xE0, x - 0x80, y - 0x80);
    c := SequenceValue([w, x, y]) as char;
  }

  lemma ScalarOfFour(w: byte, x: byte, y: byte, z: byte) returns (c: char)
    requires WellFormedHead([w, x, y, z], 4)
    ensures EncodeChar(c) == [w, x, y, z]
  {
    JoinFour(w - 0xF0, x - 0x80, y - 0x80, z - 0x80);
    c := SequenceValue([w, x, y, z]) as char;
  }

  lemma ScalarOfHead(b: seq<byte>, n: nat) returns (c: char)
    requires WellFormedHead(b, n)
    ensures EncodeChar(c) == b[..n]
  {
    if n == 1 {
      c := (b[0] as int) as char;
    } else if n == 2 {
      c := ScalarOfTwo(b[0], b[1]);
    } else if n == 3 {
      c := ScalarOfThree(b[0], b[1], b[2]);
    } else {
      c := ScalarOfFour(b[0], b[1], b[2], b[3]);
    }
  }

  // Once the head is known, the rest decides.
  lemma AcceptHead(b: seq<byte>, n: nat)
    requires WellFormedHead(b, n)
    ensures IsUtf8(b) <==> IsUtf8(b[n..])
  {
    hide EncodeChar, Encode;
    var c := ScalarOfHead(b, n);
    assert b == EncodeChar(c) + b[n..];
    Utf8Cancel(c, b[n..]);
  }

  lemma RejectHead(b: seq<byte>)
    requires b != [] && !WellFormedHead(b, AnnouncedLength(b[0]))
    ensures !IsUtf8(b)
  {
    hide EncodeChar, WellFormedHead;
    if s: string :| Encode(s) == b {
      HeadOfScalar(s[0], Encode(s[1..]));
      EncodeCharInverse(s[0]);
    }
  }

  method ValidUtf8(bytes: seq<byte>) returns (valid: bool)
    ensures valid <==> IsUtf8(bytes)
  {
    var i := 0;
    while i < |bytes|
      invariant 0 <= i <= |bytes|
      invariant IsUtf8(bytes) <==> IsUtf8(bytes[i..])
    {
      ghost var start := i;
      ghost var b := bytes[start..];
      var first := bytes[i];
      i := i + 1;
      if first < 0x80 {
        AcceptHead(b, 1);
        continue;
      }
      var count, minimum, maximum;
      if 0xC2 <= first && first <= 0xDF {
        count, minimum, maximum := 1, 0x80, 0xBF;
      } else if first == 0xE0 {
        count, minimum, maximum := 2, 0xA0, 0xBF;
      } else if (0xE1 <= first && first <= 0xEC) || (0xEE <= first && first <= 0xEF) {
        count, minimum, maximum := 2, 0x80, 0xBF;
      } else if first == 0xED {
        count, minimum, maximum := 2, 0x80, 0x9F;
      } else if first == 0xF0 {
        count, minimum, maximum := 3, 0x90, 0xBF;
      } else if 0xF1 <= first && first <= 0xF3 {
        count, minimum, maximum := 3, 0x80, 0xBF;
      } else if first == 0xF4 {
        count, minimum, maximum := 3, 0x80, 0x8F;
      } else {
        RejectHead(b);
        return false;
      }
      ghost var length := count + 1;
      if i + count > |bytes| || bytes[i] < minimum || bytes[i] > maximum {
        RejectHead(b);
        return false;
      }
      i := i + 1;
      count := count - 1;
      while count > 0
        invariant 0 <= count && i + count == start + length
        invariant forall k :: 2 <= k < i - start ==> Tail(b[k])
      {
        var continuation := bytes[i];
        i := i + 1;
        if continuation < 0x80 || continuation > 0xBF {
          assert !Tail(b[i - 1 - start]);
          RejectHead(b);
          return false;
        }
        count := count - 1;
      }
      AcceptHead(b, length);
      assert b[length..] == bytes[i..];
    }
    assert Encode("") == bytes[i..];
    return true;
  }

  /** The text a valid byte sequence encodes is unique, so a decoder has no choice. */
  lemma DecodingIsUnique(bytes: seq<byte>, s: string, t: string)
    requires Encode(s) == bytes && Encode(t) == bytes
    ensures s == t
  {
    EncodeInjective(s, t);
  }

  // ----- TextEncoder.encodeInto -----

  type unit16 = x: int | 0 <= x < 0x1_0000

  predicate IsHigh(u: unit16) { 0xD800 <= u <= 0xDBFF }

  predicate IsLow(u: unit16) { 0xDC00 <= u <= 0xDFFF }

  predicate PairAt(text: seq<unit16>, i: nat) {
    i + 1 < |text| && IsHigh(text[i]) && IsLow(text[i + 1])
  }

  // String.prototype.codePointAt.
  function CodePointAt(text: seq<unit16>, i: nat): int
    requires i < |text|
  {
    var u: int := text[i];
    if PairAt(text, i) then 0x1_0000 + (u - 0xD800) * 0x400 + (text[i + 1] - 0xDC00) else u
  }

  const REPLACEMENT: char := '\U{FFFD}'

  // The scalar at the head of a text, a lone surrogate standing for U+FFFD
  // (section 7.4 of the WHATWG Encoding Standard).
  function HeadScalar(text: seq<unit16>): char
    requires text != []
  {
    var u: int := text[0];
    if PairAt(text, 0) then (0x1_0000 + (u - 0xD800) * 0x400 + (text[1] - 0xDC00)) as char
    else if IsHigh(text[0]) || IsLow(text[0]) then REPLACEMENT
    else u as char
  }

  function HeadUnits(text: seq<unit16>): (k: nat)
    requires text != []
    ensures 1 <= k <= |text|
  {
    if PairAt(text, 0) then 2 else 1
  }

  function ScalarText(text: seq<unit16>): string
    decreases |text|
  {
    if text == [] then "" else [HeadScalar(text)] + ScalarText(text[HeadUnits(text)..])
  }

  // Position i does not lie inside a surrogate pair.
  predicate Boundary(text: seq<unit16>, i: nat) {
    i <= |text| && !(0 < i && PairAt(text, i - 1))
  }

  lemma HeadIgnoresRest(a: seq<unit16>, b: seq<unit16>)
    requires a != [] && !(|a| == 1 && PairAt(a + b, 0))
    ensures HeadScalar(a + b) == HeadScalar(a) && HeadUnits(a + b) == HeadUnits(a)
  {
    assert PairAt(a, 0) == PairAt(a + b, 0);
  }

  lemma {:induction false} ScalarTextConcat(a: seq<unit16>, b: seq<unit16>)
    requires Boundary(a + b, |a|)
    ensures ScalarText(a + b) == ScalarText(a) + ScalarText(b)
    decreases |a|
  {
    if a == [] {
      assert a + b == b;
    } else {
      HeadIgnoresRest(a, b);
      hide HeadScalar, HeadUnits;
      var k := HeadUnits(a);
      assert (a + b)[k..] == a[k..] + b;
      if k < |a| { assert PairAt(a + b, |a| - 1) == PairAt(a[k..] + b, |a| - 1 - k); }
      ScalarTextConcat(a[k..], b);
    }
  }

  lemma EncodeAdvance(text: seq<unit16>, read: nat)
    requires read < |text| && Boundary(text, read)
    ensures var next := read + HeadUnits(text[read..]);
            && next <= |text|
            && Boundary(text, next)
            && Encode(ScalarText(text[..next]))
               == Encode(ScalarText(text[..read])) + EncodeChar(HeadScalar(text[read..]))
  {
    var a, tail := text[..read], text[read..];
    var k := HeadUnits(tail);
    var b := tail[..k];
    assert PairAt(tail, 0) == PairAt(text, read);
    assert text[..read + k] == a + b;
    if 0 < read { assert PairAt(a + b, read - 1) == PairAt(text, read - 1); }
    HeadAlone(tail);
    ScalarTextConcat(a, b);
    EncodeConcat(ScalarText(a), [HeadScalar(tail)]);
    EncodeOne(HeadScalar(tail));
  }

  lemma HeadAlone(text: seq<unit16>)
    requires text != []
    ensures ScalarText(text[..HeadUnits(text)]) == [HeadScalar(text)]
  {
    var b := text[..HeadUnits(text)];
    assert PairAt(b, 0) == PairAt(text, 0);
    assert b[HeadUnits(b)..] == [];
  }

  lemma EncodeOne(c: char)
    ensures Encode([c]) == EncodeChar(c)
  {
    assert Encode([c]) == EncodeChar(c) + Encode("");
  }

  lemma CodePointIsHead(text: seq<unit16>, read: nat)
    requires read < |text|
    ensures var codePoint := CodePointAt(text, read);
            && 0 <= codePoint < 0x11_0000
            && HeadUnits(text[read..]) == (if codePoint > 0xFFFF then 2 else 1)
            && HeadScalar(text[read..])
               == if 0xD800 <= codePoint <= 0xDFFF then REPLACEMENT else codePoint as char
  {
    assert PairAt(text[read..], 0) == PairAt(text, read);
  }

  lemma EncodeNothing(text: seq<unit16>)
    ensures Boundary(text, 0) && Encode(ScalarText(text[..0])) == []
  {
  }

  lemma SplitAtBoundary(text: seq<unit16>, i: nat)
    requires Boundary(text, i)
    ensures ScalarText(text) == ScalarText(text[..i]) + ScalarText(text[i..])
  {
    assert text == text[..i] + text[i..];
    ScalarTextConcat(text[..i], text[i..]);
  }

  // ----- What the units stand for -----

  // The UTF-16 units of a text (section 3.9 of the Unicode Standard).
  function Utf16(s: string): seq<unit16> {
    if s == "" then []
    else
      var n := s[0] as int;
      (if n < 0x1_0000 then [n] else [0xD800 + (n - 0x1_0000) / 0x400, 0xDC00 + (n - 0x1_0000) % 0x400])
      + Utf16(s[1..])
  }

  /** Units that encode a text convert to that very text. */
  lemma {:induction false} Utf16Converts(s: string)
    ensures ScalarText(Utf16(s)) == s
  {
    if s != "" {
      var n, rest := s[0] as int, Utf16(s[1..]);
      Utf16Converts(s[1..]);
      var units := Utf16(s);
      if n < 0x1_0000 {
        assert units == [n] + rest && units[0] == n && units[1..] == rest;
        assert HeadScalar(units) == s[0] && HeadUnits(units) == 1;
      } else {
        var high, low: int := 0xD800 + (n - 0x1_0000) / 0x400, 0xDC00 + (n - 0x1_0000) % 0x400;
        assert units == [high, low] + rest && units[0] == high && units[1] == low && units[2..] == rest;
        assert HeadScalar(units) == s[0] && HeadUnits(units) == 2;
      }
      hide HeadScalar, HeadUnits, Utf16;
      HeadTail(s);
    }
  }

  // A split between a and b does not part a pair.
  lemma SplitIsBoundary(a: seq<unit16>, b: seq<unit16>)
    requires a == [] || b == [] || !IsHigh(a[|a| - 1]) || !IsLow(b[0])
    ensures ScalarText(a + b) == ScalarText(a) + ScalarText(b)
  {
    var all := a + b;
    if a != [] { assert all[|a| - 1] == a[|a| - 1]; }
    if b != [] { assert all[|a|] == b[0]; }
    hide ScalarText;
    ScalarTextConcat(a, b);
  }

  lemma LoneScalar(u: unit16)
    requires 0xD800 <= u <= 0xDFFF
    ensures Encode(ScalarText([u])) == [0xEF, 0xBF, 0xBD]
  {
    assert [u][1..] == [] && ScalarText([u]) == [REPLACEMENT];
    assert EncodeChar(REPLACEMENT) == [0xEF, 0xBF, 0xBD];
    hide ScalarText, EncodeChar;
    EncodeOne(REPLACEMENT);
  }

  /** A surrogate without its other half, between any units, adds exactly the bytes EF BF BD. */
  lemma LoneSurrogateBytes(before: seq<unit16>, u: unit16, after: seq<unit16>)
    requires 0xD800 <= u <= 0xDFFF
    requires u <= 0xDBFF ==> after == [] || !(0xDC00 <= after[0] <= 0xDFFF)
    requires u >= 0xDC00 ==> before == [] || !(0xD800 <= before[|before| - 1] <= 0xDBFF)
    ensures Encode(ScalarText(before + [u] + after))
            == Encode(ScalarText(before)) + [0xEF, 0xBF, 0xBD] + Encode(ScalarText(after))
  {
    SplitIsBoundary(before, [u]);
    SplitIsBoundary(before + [u], after);
    LoneScalar(u);
    hide ScalarText, Encode;
    EncodeConcat(ScalarText(before), ScalarText([u]));
    EncodeConcat(ScalarText(before + [u]), ScalarText(after));
  }

  // TypedArray.prototype.set.
  method SetBytes(destination: array<byte>, source: seq<byte>, offset: nat)
    requires offset + |source| <= destination.Length
    modifies destination
    ensures destination[..] == old(destination[..offset]) + source + old(destination[offset + |source|..])
  {
    for k := 0 to |source|
      invariant destination[..offset] == old(destination[..offset])
      invariant destination[offset..offset + k] == source[..k]
      invariant destination[offset + |source|..] == old(destination[offset + |source|..])
    {
      destination[offset + k] := source[k];
      assert destination[offset..offset + k + 1] == destination[offset..offset + k] + [source[k]];
    }
    assert destination[..] == destination[..offset] + destination[offset..offset + |source|]
                              + destination[offset + |source|..];
  }

  method EncodeInto(text: seq<unit16>, destination: array<byte>) returns (read: nat, written: nat)
    modifies destination
    ensures read <= |text| && written <= destination.Length
    // Exactly the UTF-8 of what was read, and nothing else in the buffer changed.
    ensures destination[..written] == Encode(ScalarText(text[..read]))
    ensures destination[written..] == old(destination[written..])
    // Never inside a surrogate pair, so the unread rest converts as if alone.
    ensures Boundary(text, read)
    ensures ScalarText(text) == ScalarText(text[..read]) + ScalarText(text[read..])
    // Maximal: everything was read, or the next scalar does not fit.
    ensures read == |text| || written + |EncodeChar(HeadScalar(text[read..]))| > destination.Length
    ensures IsUtf8(destination[..written])
  {
    hide HeadScalar, HeadUnits, ScalarText, Encode, EncodeChar, CodePointAt, PairAt;
    read, written := 0, 0;
    EncodeNothing(text);
    while read < |text|
      invariant Boundary(text, read) && written <= destination.Length
      invariant destination[..written] == Encode(ScalarText(text[..read]))
      invariant destination[written..] == old(destination[written..])
    {
      CodePointIsHead(text, read);
      var codePoint := CodePointAt(text, read);
      var codeUnits := if codePoint > 0xFFFF then 2 else 1;
      var scalar := if 0xD800 <= codePoint <= 0xDFFF then REPLACEMENT else codePoint as char;
      var bytes := EncodeChar(scalar);
      EncodeAdvance(text, read);
      if written + |bytes| > destination.Length {
        break;
      }
      ghost var before := destination[..];
      SetBytes(destination, bytes, written);
      assert destination[..written + |bytes|] == before[..written] + bytes;
      assert destination[written + |bytes|..] == before[written + |bytes|..];
      written := written + |bytes|;
      read := read + codeUnits;
    }
    SplitAtBoundary(text, read);
    assert IsUtf8(Encode(ScalarText(text[..read])));
  }

  // ----- TextDecoder.decode with fatal set -----

  const BOM: char := '\U{FEFF}'

  predicate StartsWithBom(s: string) { s != "" && s[0] == BOM }

  // deno_core.decode on valid bytes: it strips one leading byte order mark.
  ghost function CoreDecode(bytes: seq<byte>): string
    requires IsUtf8(bytes)
  {
    var s: string :| Encode(s) == bytes;
    if StartsWithBom(s) then s[1..] else s
  }

  lemma CoreDecodeOf(s: string)
    ensures CoreDecode(Encode(s)) == if StartsWithBom(s) then s[1..] else s
  {
    forall t: string | Encode(t) == Encode(s) ensures t == s { EncodeInjective(t, s); }
  }

  predicate StartsWithBomBytes(bytes: seq<byte>) {
    |bytes| >= 3 && bytes[0] == 0xEF && bytes[1] == 0xBB && bytes[2] == 0xBF
  }

  lemma BomBytes(s: string)
    ensures StartsWithBomBytes(Encode(s)) <==> StartsWithBom(s)
    ensures StartsWithBom(s) ==> Encode(s)[3..] == Encode(s[1..])
  {
    if s != "" {
      EncodeCharInverse(s[0]);
      var u := EncodeChar(s[0]);
      assert Encode(s) == u + Encode(s[1..]);
      assert u[0] == Encode(s)[0];
      if StartsWithBomBytes(Encode(s)) {
        assert u[1] == Encode(s)[1] && u[2] == Encode(s)[2];
      }
    }
  }

  // None is the TypeError thrown for malformed input.
  ghost function FatalDecode(bytes: seq<byte>, ignoreBom: bool): Option<string> {
    if !IsUtf8(bytes) then None
    else if ignoreBom && StartsWithBomBytes(bytes) then
      var rest := bytes[3..];
      if IsUtf8(rest) then Some([BOM] + CoreDecode(rest)) else None
    else Some(CoreDecode(bytes))
  }

  /** With ignoreBOM every text survives a fatal decode, except one that starts with two
      byte order marks: stripping the first by hand exposes the second to deno_core. */
  lemma FatalDecodeKeepsText(s: string)
    ensures FatalDecode(Encode(s), true) == Some(s)
            <==> !(StartsWithBom(s) && StartsWithBom(s[1..]))
  {
    BomBytes(s);
    CoreDecodeOf(s);
    if StartsWithBom(s) {
      CoreDecodeOf(s[1..]);
      assert s == [BOM] + s[1..];
    }
  }

  lemma DoubleBomLosesOne(t: string)
    ensures FatalDecode(Encode([BOM, BOM] + t), true) == Some([BOM] + t)
  {
    var s := [BOM, BOM] + t;
    BomBytes(s);
    assert s[1..] == [BOM] + t && s[1..][1..] == t;
    CoreDecodeOf(s[1..]);
  }

  lemma FatalDecodeStripsBom(s: string)
    ensures FatalDecode(Encode(s), false) == Some(if StartsWithBom(s) then s[1..] else s)
  {
    CoreDecodeOf(s);
  }

  lemma FatalDecodeRejects(bytes: seq<byte>, ignoreBom: bool)
    ensures FatalDecode(bytes, ignoreBom) == None <==> !IsUtf8(bytes)
  {
    if s: string :| Encode(s) == bytes {
      BomBytes(s);
    }
  }
}
