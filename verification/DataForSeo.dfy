/** The frozen SERP task: keyword escaping by sequential replacement, the canonical request
    body, and the acceptance of wire bytes only in canonical form. */
module DataForSeo {
  import opened Text
  import opened Utf8
  import opened Json

  type u32 = x: nat | x < 0x1_0000_0000

  datatype TaskRequest = TaskRequest(keyword: string, locationCode: u32, languageCode: string, tag: string)

  const MAX_TASK_BYTES := 16_384

  // ----- Keyword escaping -----

  /** `str::replace`: leftmost, non-overlapping. */
  function Replace(s: string, pattern: string, to: string): string
    requires pattern != ""
    decreases |s|
  {
    if s == "" then ""
    else if pattern <= s then to + Replace(s[|pattern|..], pattern, to)
    else [s[0]] + Replace(s[1..], pattern, to)
  }

  function EscapeKeyword(k: string): string { Replace(Replace(k, "%", "%25"), "+", "%2B") }

  function UnescapeKeyword(s: string): string { Replace(Replace(s, "%2B", "+"), "%25", "%") }

  // What the two escaping passes amount to, character by character.
  function EscapedChar(c: char): string {
    if c == '%' then "%25" else if c == '+' then "%2B" else [c]
  }

  function EscapedEach(k: string): string {
    if k == "" then "" else EscapedChar(k[0]) + EscapedEach(k[1..])
  }

  // A keyword with only its percent signs escaped.
  function PercentEach(k: string): string {
    if k == "" then "" else (if k[0] == '%' then "%25" else [k[0]]) + PercentEach(k[1..])
  }

  lemma ReplaceHit(pattern: string, rest: string, to: string)
    requires pattern != ""
    ensures Replace(pattern + rest, pattern, to) == to + Replace(rest, pattern, to)
  {
    assert pattern <= pattern + rest;
    assert (pattern + rest)[|pattern|..] == rest;
  }

  lemma ReplaceMiss(c: char, rest: string, pattern: string, to: string)
    requires pattern != "" && c != pattern[0]
    ensures Replace([c] + rest, pattern, to) == [c] + Replace(rest, pattern, to)
  {
    assert ([c] + rest)[0] == c && ([c] + rest)[1..] == rest;
  }

  lemma {:induction false} PercentPass(k: string)
    ensures Replace(k, "%", "%25") == PercentEach(k)
  {
    if k != "" {
      PercentPass(k[1..]);
      assert k == [k[0]] + k[1..];
      if k[0] == '%' { ReplaceHit("%", k[1..], "%25"); } else { ReplaceMiss(k[0], k[1..], "%", "%25"); }
    }
  }

  // Three characters none of which starts the pattern.
  lemma MissThree(a: char, b: char, c: char, rest: string, pattern: string, to: string)
    requires pattern != "" && a != pattern[0] && b != pattern[0] && c != pattern[0]
    ensures Replace([a, b, c] + rest, pattern, to) == [a, b, c] + Replace(rest, pattern, to)
  {
    hide Replace;
    assert [a, b, c] + rest == [a] + ([b] + ([c] + rest));
    ReplaceMiss(a, [b] + ([c] + rest), pattern, to);
    ReplaceMiss(b, [c] + rest, pattern, to);
    ReplaceMiss(c, rest, pattern, to);
  }

  lemma {:induction false} PlusPass(k: string)
    ensures Replace(PercentEach(k), "+", "%2B") == EscapedEach(k)
  {
    if k != "" {
      hide Replace;
      PlusPass(k[1..]);
      var rest := PercentEach(k[1..]);
      if k[0] == '%' {
        MissThree('%', '2', '5', rest, "+", "%2B");
      } else if k[0] == '+' {
        ReplaceHit("+", rest, "%2B");
      } else {
        ReplaceMiss(k[0], rest, "+", "%2B");
      }
    } else {
      assert Replace("", "+", "%2B") == "";
    }
  }

  /** The sequential replacements escape every character once, in place. */
  lemma EscapeIsOnePass(k: string)
    ensures EscapeKeyword(k) == EscapedEach(k)
  {
    PercentPass(k);
    PlusPass(k);
  }

  // An escaped percent sign is not a hit of the plus pattern.
  lemma PercentEscapeIsNoPlus(rest: string)
    ensures Replace("%25" + rest, "%2B", "+") == "%25" + Replace(rest, "%2B", "+")
  {
    var s := "%25" + rest;
    assert s[2] == '5' && s[0] == '%' && s[1..] == "25" + rest;
    assert !("%2B" <= s);
    assert "25" + rest == ['2'] + (['5'] + rest);
    ReplaceMiss('2', ['5'] + rest, "%2B", "+");
    ReplaceMiss('5', rest, "%2B", "+");
  }

  lemma {:induction false} UnescapePlusPass(k: string)
    ensures Replace(EscapedEach(k), "%2B", "+") == PercentEach(k)
  {
    if k != "" {
      hide Replace;
      UnescapePlusPass(k[1..]);
      var rest := EscapedEach(k[1..]);
      if k[0] == '%' {
        PercentEscapeIsNoPlus(rest);
      } else if k[0] == '+' {
        ReplaceHit("%2B", rest, "+");
      } else {
        ReplaceMiss(k[0], rest, "%2B", "+");
      }
    } else {
      assert Replace("", "%2B", "+") == "";
    }
  }

  lemma {:induction false} UnescapePercentPass(k: string)
    ensures Replace(PercentEach(k), "%25", "%") == k
  {
    if k != "" {
      hide Replace;
      UnescapePercentPass(k[1..]);
      var rest := PercentEach(k[1..]);
      assert k == [k[0]] + k[1..];
      if k[0] == '%' { ReplaceHit("%25", rest, "%"); } else { ReplaceMiss(k[0], rest, "%25", "%"); }
    } else {
      assert Replace("", "%25", "%") == "";
    }
  }

  /** Unescaping in the opposite order undoes the escape of every string. */
  lemma UnescapeEscape(k: string)
    ensures UnescapeKeyword(EscapeKeyword(k)) == k
  {
    EscapeIsOnePass(k);
    UnescapePlusPass(k);
    UnescapePercentPass(k);
  }

  function HexByte(b: byte): Option<nat> { HexValue(b as char) }

  /** A percent-decoder over bytes (section 2.1 of RFC 3986), which may also read a plus sign
      as a space the way form decoders do. */
  function PercentDecode(b: seq<byte>, plusIsSpace: bool): seq<byte>
    decreases |b|
  {
    if b == [] then []
    else if |b| >= 3 && b[0] == 0x25 && HexByte(b[1]).Some? && HexByte(b[2]).Some? then
      [HexByte(b[1]).value * 16 + HexByte(b[2]).value] + PercentDecode(b[3..], plusIsSpace)
    else if plusIsSpace && b[0] == 0x2B then [0x20] + PercentDecode(b[1..], plusIsSpace)
    else [b[0]] + PercentDecode(b[1..], plusIsSpace)
  }

  lemma {:induction false} DecodePlain(u: seq<byte>, rest: seq<byte>, plusIsSpace: bool)
    requires forall i :: 0 <= i < |u| ==> u[i] != 0x25 && u[i] != 0x2B
    ensures PercentDecode(u + rest, plusIsSpace) == u + PercentDecode(rest, plusIsSpace)
  {
    if u == [] {
      assert u + rest == rest;
    } else {
      assert (u + rest)[0] == u[0] && (u + rest)[1..] == u[1..] + rest;
      DecodePlain(u[1..], rest, plusIsSpace);
    }
  }

  lemma DecodeEscape(high: byte, low: byte, rest: seq<byte>, plusIsSpace: bool)
    requires HexByte(high).Some? && HexByte(low).Some?
    ensures PercentDecode([0x25, high, low] + rest, plusIsSpace)
            == [HexByte(high).value * 16 + HexByte(low).value] + PercentDecode(rest, plusIsSpace)
  {
    var b := [0x25, high, low] + rest;
    assert b[0] == 0x25 && b[1] == high && b[2] == low && b[3..] == rest;
  }

  lemma PlainCharBytes(c: char)
    requires c != '%' && c != '+'
    ensures forall i :: 0 <= i < |EncodeChar(c)| ==> EncodeChar(c)[i] != 0x25 && EncodeChar(c)[i] != 0x2B
  {
  }

  lemma EncodeAsciiCons(c: char, s: string)
    requires (c as int) < 0x80
    ensures Encode([c] + s) == [c as int] + Encode(s)
  {
    EncodeCons(c, s);
    hide Encode;
  }

  lemma EncodeThree(a: char, b: char, c: char)
    requires (a as int) < 0x80 && (b as int) < 0x80 && (c as int) < 0x80
    ensures Encode([a, b, c]) == [a as int, b as int, c as int]
  {
    assert Encode("") == [];
    hide Encode;
    EncodeAsciiCons(c, "");
    EncodeAsciiCons(b, [c]);
    EncodeAsciiCons(a, [b, c]);
    assert [c] + "" == [c] && [b] + [c] == [b, c] && [a] + [b, c] == [a, b, c];
  }

  lemma DecodeEscapedChar(c: char, rest: seq<byte>, plusIsSpace: bool)
    ensures PercentDecode(Encode(EscapedChar(c)) + rest, plusIsSpace)
            == EncodeChar(c) + PercentDecode(rest, plusIsSpace)
  {
    if c == '%' {
      EncodeThree('%', '2', '5');
      DecodeEscape(0x32, 0x35, rest, plusIsSpace);
    } else if c == '+' {
      EncodeThree('%', '2', 'B');
      DecodeEscape(0x32, 0x42, rest, plusIsSpace);
    } else {
      hide EncodeChar, PercentDecode;
      PlainCharBytes(c);
      assert [c][1..] == "" && Encode([c]) == EncodeChar(c) + Encode("") == EncodeChar(c);
      DecodePlain(EncodeChar(c), rest, plusIsSpace);
    }
  }

  /** A one-pass percent-decoder, with or without plus signs standing for spaces, recovers the
      UTF-8 of the keyword: the provider's decoding and the reader's agree on escaped keywords. */
  lemma {:induction false} PercentDecodeEscape(k: string, plusIsSpace: bool)
    ensures PercentDecode(Encode(EscapeKeyword(k)), plusIsSpace) == Encode(k)
  {
    EscapeIsOnePass(k);
    if k != "" {
      var c, rest := k[0], EscapedEach(k[1..]);
      PercentDecodeEscape(k[1..], plusIsSpace);
      EscapeIsOnePass(k[1..]);
      EncodeConcat(EscapedChar(c), rest);
      DecodeEscapedChar(c, Encode(rest), plusIsSpace);
      hide PercentDecode, EncodeChar, EscapeKeyword, EscapedChar;
    } else {
      assert Encode(EscapedEach("")) == [];
    }
  }

  // ----- The canonical body -----

  // Unicode general category Cc.
  predicate IsControlCode(c: char) { (c as int) <= 0x1F || 0x7F <= c as int <= 0x9F }

  /** A keyword that is not blank, of at most 700 characters; a location; a language of letters
      and hyphens; a tag; and no controls in keyword or tag. */
  predicate ValidRequest(r: TaskRequest) {
    && !Blank(r.keyword) && |r.keyword| <= 700
    && (forall i :: 0 <= i < |r.keyword| ==> !IsControlCode(r.keyword[i]))
    && r.locationCode > 0
    && 1 <= |r.languageCode| <= 16
    && (forall i :: 0 <= i < |r.languageCode| ==>
          'a' <= r.languageCode[i] <= 'z' || 'A' <= r.languageCode[i] <= 'Z' || r.languageCode[i] == '-')
    && r.tag != "" && Utf8Len(r.tag) <= 255
    && (forall i :: 0 <= i < |r.tag| ==> !IsControlCode(r.tag[i]))
  }

  // All bytes are ASCII letters or hyphens.
  predicate LanguageBytes(language: string) {
    var bytes := Encode(language);
    forall i :: 0 <= i < |bytes| ==> 0x41 <= bytes[i] <= 0x5A || 0x61 <= bytes[i] <= 0x7A || bytes[i] == 0x2D
  }

  predicate HasControl(s: string) { exists i :: 0 <= i < |s| && IsControl(s[i]) }

  // The condition under which `body` answers nothing.
  predicate Refuses(r: TaskRequest) {
    || Trim(r.keyword) == "" || |r.keyword| > 700 || HasControl(r.keyword)
    || r.locationCode == 0
    || r.languageCode == "" || Utf8Len(r.languageCode) > 16 || !LanguageBytes(r.languageCode)
    || r.tag == "" || Utf8Len(r.tag) > 255 || HasControl(r.tag)
  }

  lemma LanguageExactly(language: string)
    ensures LanguageBytes(language) <==>
              forall i :: 0 <= i < |language| ==>
                'a' <= language[i] <= 'z' || 'A' <= language[i] <= 'Z' || language[i] == '-'
    ensures LanguageBytes(language) ==> Utf8Len(language) == |language|
  {
    if LanguageBytes(language) { AsciiBytes(language); }
    if forall i :: 0 <= i < |language| ==> language[i] as int < 0x80 { AsciiEncoded(language); }
    hide Encode;
  }

  lemma ControlsExactly(s: string)
    ensures HasControl(s) <==> !forall i :: 0 <= i < |s| ==> !IsControlCode(s[i])
  {
    assert forall c :: IsControl(c) <==> IsControlCode(c);
    hide IsControl, IsControlCode;
  }

  lemma RefusesExactly(r: TaskRequest)
    ensures Refuses(r) <==> !ValidRequest(r)
  {
    ControlsExactly(r.keyword);
    ControlsExactly(r.tag);
    TrimIsEmpty(r.keyword);
    LanguageExactly(r.languageCode);
    hide Trim, Blank, Utf8Len, LanguageBytes, HasControl, IsControlCode;
  }

  function TaskMembers(r: TaskRequest): seq<(string, Json)> {
    [("keyword", Str(EscapeKeyword(r.keyword))), ("location_code", Num(Decimal(r.locationCode))),
     ("language_code", Str(r.languageCode)), ("tag", Str(r.tag)),
     ("device", Str("desktop")), ("os", Str("windows")), ("depth", Num("10")),
     ("max_crawl_pages", Num("1")), ("priority", Num("1"))]
  }

  function Body(r: TaskRequest): (body: Option<Json>)
    ensures body.Some? <==> ValidRequest(r)
  {
    RefusesExactly(r);
    if Refuses(r) then None else Some(Arr([Obj(TaskMembers(r))]))
  }

  function MemberNames(members: seq<(string, Json)>): set<string> {
    set i | 0 <= i < |members| :: members[i].0
  }

  /** Equality of JSON objects as maps: the same names, each with the same value. */
  ghost predicate SameObject(a: seq<(string, Json)>, b: seq<(string, Json)>) {
    MemberNames(a) == MemberNames(b) && forall name :: name in MemberNames(a) ==> Member(a, name) == Member(b, name)
  }

  ghost predicate SameTask(value: Json, body: Json) {
    && value.Arr? && |value.items| == 1 && value.items[0].Obj?
    && body.Arr? && |body.items| == 1 && body.items[0].Obj?
    && SameObject(value.items[0].members, body.items[0].members)
  }

  function AsU32(v: Json): Option<u32> {
    if v.Num? && AllDigits(v.lexeme) && DecimalValue(v.lexeme) < 0x1_0000_0000 then Some(DecimalValue(v.lexeme)) else None
  }

  function DecodeTask(members: seq<(string, Json)>): Option<TaskRequest> {
    match (Member(members, "keyword"), AsU32(Member(members, "location_code")),
           Member(members, "language_code"), Member(members, "tag"))
    case (Str(keyword), Some(location), Str(language), Str(tag)) =>
      Some(TaskRequest(UnescapeKeyword(keyword), location, language, tag))
    case _ => None
  }

  /** The part of `from_bytes` after parsing: decode one task, and insist that the value is the
      canonical body of what it decodes to. */
  ghost function FromValue(value: Json): Option<TaskRequest> {
    if value.Arr? && |value.items| == 1 && value.items[0].Obj? then
      match DecodeTask(value.items[0].members)
      case Some(r) => if Body(r).Some? && SameTask(value, Body(r).value) then Some(r) else None
      case None => None
    else None
  }

  lemma TaskMembersByName(r: TaskRequest)
    ensures var ms := TaskMembers(r);
            && Member(ms, "keyword") == Str(EscapeKeyword(r.keyword))
            && Member(ms, "location_code") == Num(Decimal(r.locationCode))
            && Member(ms, "language_code") == Str(r.languageCode)
            && Member(ms, "tag") == Str(r.tag)
            && {"keyword", "location_code", "language_code", "tag"} <= MemberNames(ms)
  {
    hide EscapeKeyword, Decimal;
    var ms := TaskMembers(r);
    MemberAt(ms, 0);
    MemberAt(ms, 1);
    MemberAt(ms, 2);
    MemberAt(ms, 3);
    assert ms[0].0 in MemberNames(ms) && ms[1].0 in MemberNames(ms);
    assert ms[2].0 in MemberNames(ms) && ms[3].0 in MemberNames(ms);
  }

  /** A JSON value is accepted as exactly those requests whose canonical body it is, whatever
      the order of its members. */
  lemma AcceptsExactlyCanonical(value: Json, r: TaskRequest)
    ensures FromValue(value) == Some(r) <==> Body(r).Some? && SameTask(value, Body(r).value)
  {
    if ValidRequest(r) {
      BodyIs(r);
      if SameTask(value, Body(r).value) { CanonicalDecodes(value.items[0].members, r); }
    }
    hide Body, ValidRequest, DecodeTask, SameTask, TaskMembers;
  }

  // The members of a request's own body decode to it, in any order.
  lemma CanonicalDecodes(ms: seq<(string, Json)>, r: TaskRequest)
    requires SameObject(ms, TaskMembers(r))
    ensures DecodeTask(ms) == Some(r)
  {
    TaskMembersByName(r);
    UnescapeEscape(r.keyword);
    DecimalRoundTrip(r.locationCode);
    hide UnescapeKeyword, EscapeKeyword, Decimal, DecimalValue, Member, MemberNames, TaskMembers;
  }

  // ----- Size -----

  lemma {:induction false} KeywordSize(k: string)
    requires forall i :: 0 <= i < |k| ==> !IsControl(k[i])
    ensures Utf8Len(EscapeAll(EscapedEach(k))) <= 4 * |k|
  {
    if k != "" {
      KeywordSize(k[1..]);
      EscapeAllConcat(EscapedChar(k[0]), EscapedEach(k[1..]));
      Utf8LenConcat(EscapeAll(EscapedChar(k[0])), EscapeAll(EscapedEach(k[1..])));
      EscapedCharSize(k[0]);
      hide Utf8Len, EscapeAll, EscapedChar;
    }
  }

  lemma EscapedCharSize(c: char)
    requires !IsControl(c)
    ensures Utf8Len(EscapeAll(EscapedChar(c))) <= 4
  {
    if c == '%' || c == '+' {
      var s := EscapedChar(c);
      EscapeNothing(s);
      AsciiLen(s);
    } else {
      EscapeSize(c);
      assert EscapeAll("") == "";
      hide Escape, EscapeAll;
      EscapeCons(c, "");
      assert [c] + "" == [c] && Escape(c) + "" == Escape(c);
    }
  }

  // Characters that JSON does not escape.
  lemma {:induction false} EscapeNothing(s: string)
    requires forall i :: 0 <= i < |s| ==> Escape(s[i]) == [s[i]]
    ensures EscapeAll(s) == s
  {
    hide Escape;
    if s != "" {
      EscapeNothing(s[1..]);
      assert s == [s[0]] + s[1..];
    }
  }

  lemma {:induction false} EscapeAllConcat(s: string, t: string)
    ensures EscapeAll(s + t) == EscapeAll(s) + EscapeAll(t)
  {
    if s == "" {
      assert s + t == t && EscapeAll(s) == "";
    } else {
      hide Escape, EscapeAll;
      var c, more := s[0], s[1..];
      EscapeAllConcat(more, t);
      EscapeCons(c, more);
      EscapeCons(c, more + t);
      HeadTail(s);
      Assoc([c], more, t);
      Assoc(Escape(c), EscapeAll(more), EscapeAll(t));
    }
  }

  // Without controls, escaping at most doubles.
  lemma {:induction false} TextSize(s: string)
    requires forall i :: 0 <= i < |s| ==> !IsControl(s[i])
    ensures Utf8Len(EscapeAll(s)) <= 2 * Utf8Len(s)
  {
    if s != "" {
      TextSize(s[1..]);
      EscapeSize(s[0]);
      assert s == [s[0]] + s[1..];
      Utf8LenConcat(Escape(s[0]), EscapeAll(s[1..]));
      Utf8LenConcat([s[0]], s[1..]);
      hide Escape, Utf8Len;
    }
  }

  lemma StringMemberSize(name: string, text: string)
    requires PlainKey(name)
    ensures Utf8Len(PrintMember((name, Str(text)))) == |name| + 5 + Utf8Len(EscapeAll(text))
  {
    MemberSize((name, Str(text)));
    PrintStringSize(text);
    hide PrintMember, EscapeAll, Utf8Len, PrintString;
  }

  lemma NumberMemberSize(name: string, digits: string)
    requires PlainKey(name) && AllDigits(digits)
    ensures Utf8Len(PrintMember((name, Num(digits)))) == |name| + 3 + |digits|
  {
    MemberSize((name, Num(digits)));
    AsciiLen(digits);
    hide PrintMember, Utf8Len;
  }

  lemma TextFixturesSize()
    ensures Utf8Len(PrintMember(("device", Str("desktop")))) == 18
    ensures Utf8Len(PrintMember(("os", Str("windows")))) == 14
  {
    hide PrintMember, Utf8Len, EscapeAll;
    PlainMemberSize("device", "desktop");
    PlainMemberSize("os", "windows");
  }

  lemma NumberFixturesSize()
    ensures Utf8Len(PrintMember(("depth", Num("10")))) == 10
    ensures Utf8Len(PrintMember(("max_crawl_pages", Num("1")))) == 19
    ensures Utf8Len(PrintMember(("priority", Num("1")))) == 12
  {
    hide PrintMember, Utf8Len;
    NumberMemberSize("depth", "10");
    NumberMemberSize("max_crawl_pages", "1");
    NumberMemberSize("priority", "1");
  }

  lemma FixedMembersSize(ms: seq<(string, Json)>)
    requires ms == [("device", Str("desktop")), ("os", Str("windows")), ("depth", Num("10")),
                    ("max_crawl_pages", Num("1")), ("priority", Num("1"))]
    ensures MembersSize(ms) == 78
  {
    hide PrintMember, Utf8Len, EscapeAll, MembersSize, PlainKey;
    TextFixturesSize();
    NumberFixturesSize();
    UnrollMembers(ms);
    UnrollMembers(ms[1..]);
    UnrollMembers(ms[2..]);
    UnrollMembers(ms[3..]);
    UnrollMembers(ms[4..]);
    NoMembersSize();
    assert ms[5..] == [];
  }

  lemma NoMembersSize()
    ensures MembersSize([]) == 0
  {
  }

  lemma PlainMemberSize(name: string, text: string)
    requires PlainKey(name) && PlainKey(text)
    ensures Utf8Len(PrintMember((name, Str(text)))) == |name| + 5 + |text|
  {
    hide PrintMember, Utf8Len, EscapeAll;
    EscapePlain(text);
    assert forall i :: 0 <= i < |text| ==> text[i] in text;
    AsciiLen(text);
    StringMemberSize(name, text);
  }

  lemma UnrollMembers(ms: seq<(string, Json)>)
    requires ms != []
    ensures MembersSize(ms) == 1 + Utf8Len(PrintMember(ms[0])) + MembersSize(ms[1..])
  {
  }

  lemma KeywordMemberSize(r: TaskRequest)
    requires ValidRequest(r)
    ensures Utf8Len(PrintMember(("keyword", Str(EscapeKeyword(r.keyword))))) <= 2812
  {
    hide Utf8Len, EscapeAll, PrintMember, EscapeKeyword, EscapedEach, Trim;
    EscapeIsOnePass(r.keyword);
    KeywordSize(r.keyword);
    StringMemberSize("keyword", EscapeKeyword(r.keyword));
  }

  lemma LocationMemberSize(r: TaskRequest)
    ensures Utf8Len(PrintMember(("location_code", Num(Decimal(r.locationCode))))) <= 26
  {
    assert Pow10(10) == 10_000_000_000;
    hide Utf8Len, PrintMember, Decimal, Pow10;
    DecimalLength(r.locationCode, 10);
    NumberMemberSize("location_code", Decimal(r.locationCode));
  }

  lemma TextMembersSize(r: TaskRequest)
    requires ValidRequest(r)
    ensures Utf8Len(PrintMember(("language_code", Str(r.languageCode)))) <= 50
    ensures Utf8Len(PrintMember(("tag", Str(r.tag)))) <= 518
  {
    hide Utf8Len, EscapeAll, PrintMember, Trim;
    LanguageIsPlain(r);
    TextSize(r.languageCode);
    TextSize(r.tag);
    StringMemberSize("language_code", r.languageCode);
    StringMemberSize("tag", r.tag);
  }

  lemma LanguageIsPlain(r: TaskRequest)
    requires ValidRequest(r)
    ensures forall i :: 0 <= i < |r.languageCode| ==> !IsControl(r.languageCode[i])
    ensures Utf8Len(r.languageCode) <= 16
  {
    AsciiLen(r.languageCode);
  }

  /** A valid request prints to well under the wire limit. */
  lemma BodySize(r: TaskRequest)
    requires ValidRequest(r)
    ensures Utf8Len(Print(Body(r).value)) <= 3_491 < MAX_TASK_BYTES
  {
    hide ValidRequest, Print, PrintMember, MembersSize, Utf8Len, EscapeKeyword, Decimal;
    var ms := TaskMembers(r);
    KeywordMemberSize(r);
    LocationMemberSize(r);
    TextMembersSize(r);
    FixedMembersSize(ms[4..]);
    UnrollMembers(ms);
    UnrollMembers(ms[1..]);
    UnrollMembers(ms[2..]);
    UnrollMembers(ms[3..]);
    ObjectSize(ms);
    ArraySize([Obj(ms)]);
  }

  // ----- Prepared bytes -----

  datatype PreparedTask = PreparedTask(body: seq<byte>, tag: string)

  // The text of wire bytes, when they are UTF-8.
  ghost function TextOf(bytes: seq<byte>): Option<string> {
    if s: string :| Encode(s) == bytes then Some(s) else None
  }

  /** `from_bytes`; the stored SHA-256 of the same bytes is left to its caller. */
  ghost function FromBytes(bytes: seq<byte>): Option<PreparedTask> {
    if |bytes| > MAX_TASK_BYTES then None
    else
      match TextOf(bytes)
      case None => None
      case Some(text) =>
        match FromStr(text)
        case None => None
        case Some(value) =>
          match FromValue(value)
          case None => None
          case Some(r) => Some(PreparedTask(bytes, r.tag))
  }

  /** `prepare`: print the body and read it back. */
  ghost function Prepare(r: TaskRequest): Option<PreparedTask> {
    match Body(r)
    case None => None
    case Some(body) => FromBytes(Encode(Print(body)))
  }

  lemma BodyIs(r: TaskRequest)
    requires ValidRequest(r)
    ensures Body(r) == Some(Arr([Obj(TaskMembers(r))]))
  {
    hide ValidRequest, TaskMembers;
  }

  predicate IsFlat(v: Json) { v.Str? || (v.Num? && PlainNumber(v.lexeme)) }

  lemma FlatPrintable(ms: seq<(string, Json)>)
    requires forall i :: 0 <= i < |ms| ==> IsFlat(ms[i].1)
    ensures Printable(Arr([Obj(ms)]))
  {
    hide PlainNumber;
    forall i | 0 <= i < |ms| ensures Printable(ms[i].1) {
      assert IsFlat(ms[i].1);
    }
    hide IsFlat;
    assert Printable(Obj(ms));
  }

  lemma TaskMembersFlat(r: TaskRequest)
    ensures forall i :: 0 <= i < |TaskMembers(r)| ==> IsFlat(TaskMembers(r)[i].1)
  {
    assert PlainNumber("10") && PlainNumber("1") && PlainNumber(Decimal(r.locationCode));
    hide EscapeKeyword, Decimal, PlainNumber;
  }

  lemma BodyPrintable(r: TaskRequest)
    requires ValidRequest(r)
    ensures Printable(Body(r).value)
  {
    BodyIs(r);
    TaskMembersFlat(r);
    hide Body, ValidRequest, TaskMembers, IsFlat, Printable;
    FlatPrintable(TaskMembers(r));
  }

  /** Preparing succeeds exactly when the request is valid, and freezes the printed body. */
  lemma PrepareExactlyValid(r: TaskRequest)
    ensures Prepare(r).Some? <==> ValidRequest(r)
    ensures Prepare(r).Some? ==>
              && Prepare(r).value == PreparedTask(Encode(Print(Body(r).value)), r.tag)
              && FromBytes(Prepare(r).value.body) == Prepare(r)
  {
    if ValidRequest(r) {
      BodyIs(r);
      hide Body, ValidRequest, TaskMembers, Print, SameTask, EscapeKeyword, FromValue, FromStr, TextOf, Encode, MemberNames, Member, Printable;
      var body := Body(r).value;
      BodySize(r);
      BodyPrintable(r);
      FromStrPrint(body);
      AcceptsExactlyCanonical(body, r);
      SameTaskRefl(body);
      TextOfEncoded(Print(body));
    }
  }

  // The nine members of a task, by name, with these values.
  ghost predicate IsTask(members: seq<(string, Json)>, keyword: string, location: string, language: string, tag: string) {
    && MemberNames(members) == {"keyword", "location_code", "language_code", "tag", "device", "os", "depth", "max_crawl_pages", "priority"}
    && |members| == 9
    && Member(members, "keyword") == Str(keyword)
    && Member(members, "location_code") == Num(location)
    && Member(members, "language_code") == Str(language)
    && Member(members, "tag") == Str(tag)
    && Member(members, "device") == Str("desktop")
    && Member(members, "os") == Str("windows")
    && Member(members, "depth") == Num("10")
    && Member(members, "max_crawl_pages") == Num("1")
    && Member(members, "priority") == Num("1")
  }

  lemma TaskMemberNames(ms: seq<(string, Json)>)
    requires |ms| == 9
    ensures MemberNames(ms) == {ms[0].0, ms[1].0, ms[2].0, ms[3].0, ms[4].0, ms[5].0, ms[6].0, ms[7].0, ms[8].0}
  {
  }

  lemma TaskMembersAre(r: TaskRequest)
    ensures IsTask(TaskMembers(r), EscapeKeyword(r.keyword), Decimal(r.locationCode), r.languageCode, r.tag)
  {
    hide EscapeKeyword, Decimal, Member, MemberNames;
    var ms := TaskMembers(r);
    TaskMemberNames(ms);
    forall i | 0 <= i < 9 ensures Member(ms, ms[i].0) == ms[i].1 { MemberAt(ms, i); }
    assert ms[0].0 == "keyword" && ms[1].0 == "location_code" && ms[2].0 == "language_code" && ms[3].0 == "tag"
        && ms[4].0 == "device" && ms[5].0 == "os" && ms[6].0 == "depth" && ms[7].0 == "max_crawl_pages" && ms[8].0 == "priority";
  }

  /** What a prepared request says on the wire: its bytes read as a list of one object with
      exactly the nine members, the keyword percent-decoding to the request's, the location a
      numeral of its value, language and tag as given, and the fixed settings. */
  lemma PreparedSays(r: TaskRequest) returns (text: string, members: seq<(string, Json)>, keyword: string, location: string)
    requires ValidRequest(r)
    ensures Prepare(r).Some? && Prepare(r).value.body == Encode(text) && Prepare(r).value.tag == r.tag
    ensures FromStr(text) == Some(Arr([Obj(members)]))
    ensures IsTask(members, keyword, location, r.languageCode, r.tag)
    ensures forall plusIsSpace :: PercentDecode(Encode(keyword), plusIsSpace) == Encode(r.keyword)
    ensures AllDigits(location) && DecimalValue(location) == r.locationCode
  {
    PrepareExactlyValid(r);
    BodyPrintable(r);
    TaskMembersAre(r);
    DecimalRoundTrip(r.locationCode);
    members, keyword, location := TaskMembers(r), EscapeKeyword(r.keyword), Decimal(r.locationCode);
    assert Body(r).value == Arr([Obj(members)]);
    hide ValidRequest, TaskMembers, IsTask, Body, Prepare, Encode, EscapeKeyword, Decimal, DecimalValue, Printable, PercentDecode;
    text := Print(Arr([Obj(members)]));
    FromStrPrint(Arr([Obj(members)]));
    forall plusIsSpace ensures PercentDecode(Encode(keyword), plusIsSpace) == Encode(r.keyword) {
      PercentDecodeEscape(r.keyword, plusIsSpace);
    }
  }

  lemma SameTaskRefl(body: Json)
    requires body.Arr? && |body.items| == 1 && body.items[0].Obj?
    ensures SameTask(body, body)
  {
    hide Member, MemberNames;
  }

  lemma TextOfEncoded(s: string)
    ensures TextOf(Encode(s)) == Some(s)
  {
    hide Encode;
    forall t: string | Encode(t) == Encode(s) ensures t == s { EncodeInjective(t, s); }
  }

  /** Bytes are accepted exactly when they fit and read as the canonical body of some request,
      in any member order and spacing. */
  lemma FromBytesExactlyCanonical(bytes: seq<byte>)
    ensures FromBytes(bytes).Some? <==>
            && |bytes| <= 16_384
            && exists text, r: TaskRequest :: IsCanonicalText(text, r) && Encode(text) == bytes
  {
    hide FromValue, FromStr, Encode;
    if FromBytes(bytes).Some? {
      var text := TextOf(bytes).value;
      var r := FromValue(FromStr(text).value).value;
      AcceptsExactlyCanonical(FromStr(text).value, r);
      assert IsCanonicalText(text, r) && Encode(text) == bytes;
    }
    if text, r: TaskRequest :| |bytes| <= MAX_TASK_BYTES && IsCanonicalText(text, r) && Encode(text) == bytes {
      TextOfEncoded(text);
      AcceptsExactlyCanonical(FromStr(text).value, r);
    }
  }

  ghost predicate IsCanonicalText(text: string, r: TaskRequest) {
    FromStr(text).Some? && Body(r).Some? && SameTask(FromStr(text).value, Body(r).value)
  }
}
