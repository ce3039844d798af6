/** The UTF-8 encoding of Unicode scalar values, section 3 of RFC 3629, written
    arithmetically and independently of the byte-range table that the validator uses. */
module Utf8 {
  import opened Text

  type byte = x: int | 0 <= x < 256

  function EncodeChar(c: char): (b: seq<byte>)
    ensures 1 <= |b| <= 4
  {
    var n := c as int;
    if n < 0x80 then [n]
    else if n < 0x800 then [0xC0 + n / 0x40, 0x80 + n % 0x40]
    else if n < 0x1_0000 then [0xE0 + n / 0x1000, 0x80 + n / 0x40 % 0x40, 0x80 + n % 0x40]
    else [0xF0 + n / 0x4_0000, 0x80 + n / 0x1000 % 0x40, 0x80 + n / 0x40 % 0x40, 0x80 + n % 0x40]
  }

  function Encode(s: string): seq<byte> {
    if s == "" then [] else EncodeChar(s[0]) + Encode(s[1..])
  }

  // `str::len`: the number of UTF-8 bytes.
  function Utf8Len(s: string): nat { |Encode(s)| }

  ghost predicate IsUtf8(b: seq<byte>) { exists s: string :: Encode(s) == b }

  lemma EncodeCons(c: char, s: string)
    ensures Encode([c] + s) == EncodeChar(c) + Encode(s)
  {
    hide EncodeChar;
    assert ([c] + s)[1..] == s;
  }

  lemma {:induction false} EncodeConcat(s: string, t: string)
    ensures Encode(s + t) == Encode(s) + Encode(t)
  {
    if s == "" {
      assert s + t == t && Encode(s) == [];
    } else {
      hide Encode, EncodeChar;
      var c, more := s[0], s[1..];
      EncodeConcat(more, t);
      EncodeCons(c, more);
      EncodeCons(c, more + t);
      HeadTail(s);
      Assoc([c], more, t);
      Assoc(EncodeChar(c), Encode(more), Encode(t));
    }
  }

  lemma Utf8LenConcat(s: string, t: string)
    ensures Utf8Len(s + t) == Utf8Len(s) + Utf8Len(t)
  {
    hide Encode;
    EncodeConcat(s, t);
  }

  lemma {:induction false} AsciiLen(s: string)
    requires forall i :: 0 <= i < |s| ==> s[i] as int < 0x80
    ensures Utf8Len(s) == |s|
  {
    if s != "" { AsciiLen(s[1..]); }
  }

  lemma {:induction false} AsciiBytes(s: string)
    requires forall i :: 0 <= i < |Encode(s)| ==> Encode(s)[i] < 0x80
    ensures forall i :: 0 <= i < |s| ==> s[i] as int < 0x80
  {
    if s != "" {
      var head, rest := EncodeChar(s[0]), Encode(s[1..]);
      assert forall i :: 0 <= i < |rest| ==> rest[i] == Encode(s)[|head| + i];
      assert head[0] == Encode(s)[0];
      AsciiBytes(s[1..]);
      assert s[0] as int < 0x80;
      assert forall i :: 1 <= i < |s| ==> s[i] == s[1..][i - 1];
    }
  }

  lemma {:induction false} AsciiEncoded(s: string)
    requires forall i :: 0 <= i < |s| ==> s[i] as int < 0x80
    ensures |Encode(s)| == |s| && forall i :: 0 <= i < |s| ==> Encode(s)[i] == s[i] as int
  {
    if s != "" { AsciiEncoded(s[1..]); }
  }

  // How long a sequence its first byte announces.
  function AnnouncedLength(first: byte): nat {
    if first < 0x80 then 1 else if first < 0xE0 then 2 else if first < 0xF0 then 3 else 4
  }

  // The scalar value the bytes of one sequence stand for.
  function SequenceValue(b: seq<int>): int
    requires 1 <= |b| <= 4
  {
    if |b| == 1 then b[0]
    else if |b| == 2 then (b[0] - 0xC0) * 0x40 + (b[1] - 0x80)
    else if |b| == 3 then (b[0] - 0xE0) * 0x1000 + (b[1] - 0x80) * 0x40 + (b[2] - 0x80)
    else (b[0] - 0xF0) * 0x4_0000 + (b[1] - 0x80) * 0x1000 + (b[2] - 0x80) * 0x40 + (b[3] - 0x80)
  }

  lemma Base64Digits(n: nat)
    ensures n == n / 0x40 * 0x40 + n % 0x40
    ensures n / 0x40 / 0x40 == n / 0x1000
    ensures n / 0x1000 / 0x40 == n / 0x4_0000
  {
  }

  lemma EncodeCharInverse(c: char)
    ensures |EncodeChar(c)| == AnnouncedLength(EncodeChar(c)[0])
    ensures SequenceValue(EncodeChar(c)) == c as int
  {
    var n := c as int;
    Base64Digits(n);
    Base64Digits(n / 0x40);
    Base64Digits(n / 0x1000);
  }

  /** No encoded scalar is a prefix of another: the first scalar of a text is
      determined by its bytes alone. */
  lemma PrefixFree(c: char, x: seq<byte>, d: char, y: seq<byte>)
    requires EncodeChar(c) + x == EncodeChar(d) + y
    ensures c == d && x == y
  {
    hide EncodeChar;
    var u, v := EncodeChar(c), EncodeChar(d);
    EncodeCharInverse(c);
    EncodeCharInverse(d);
    assert u[0] == (u + x)[0] == (v + y)[0] == v[0];
    assert u == (u + x)[..|u|] == (v + y)[..|v|] == v;
    assert x == (u + x)[|u|..] == (v + y)[|v|..] == y;
  }

  lemma {:induction false} EncodeInjective(s: string, t: string)
    requires Encode(s) == Encode(t)
    ensures s == t
  {
    hide EncodeChar;
    if s != "" && t != "" {
      PrefixFree(s[0], Encode(s[1..]), t[0], Encode(t[1..]));
      EncodeInjective(s[1..], t[1..]);
    }
  }

  /** Dropping a leading scalar neither makes nor breaks validity. */
  lemma Utf8Cancel(c: char, rest: seq<byte>)
    ensures IsUtf8(EncodeChar(c) + rest) <==> IsUtf8(rest)
  {
    hide EncodeChar;
    if s: string :| Encode(s) == EncodeChar(c) + rest {
      PrefixFree(s[0], Encode(s[1..]), c, rest);
    }
    if s: string :| Encode(s) == rest {
      assert ([c] + s)[1..] == s;
      assert Encode([c] + s) == EncodeChar(c) + rest;
    }
  }
}
