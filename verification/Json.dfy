/** JSON texts as serde_json prints and reads them: a compact printer, a reader for the
    grammar of RFC 8259 over Unicode text, and the proof that the reader undoes the printer. */
module Json {
  import opened Text
  import opened Utf8

  /** Numbers keep their lexeme, object members their order and repetitions. */
  datatype Json =
    | Null
    | Bool(b: bool)
    | Num(lexeme: string)
    | Str(text: string)
    | Arr(items: seq<Json>)
    | Obj(members: seq<(string, Json)>)

  datatype Parsed<+T> = Fail | Got(value: T, rest: string)

  // ----- Printing -----

  // serde_json's escapes: the two mandatory characters, the five short control escapes,
  // and \u00xx for the other controls.
  function Escape(c: char): string {
    if c == '"' then "\\\""
    else if c == '\\' then "\\\\"
    else if c == '\n' then "\\n"
    else if c == '\r' then "\\r"
    else if c == '\t' then "\\t"
    else if c as int == 0x08 then "\\b"
    else if c as int == 0x0C then "\\f"
    else if (c as int) < 0x20 then "\\u00" + [HexDigit(c as int / 16), HexDigit(c as int % 16)]
    else [c]
  }

  function EscapeAll(s: string): string {
    if s == "" then "" else Escape(s[0]) + EscapeAll(s[1..])
  }

  function PrintString(s: string): string { "\"" + EscapeAll(s) + "\"" }

  function Print(v: Json): string
    decreases v, 0
  {
    match v
    case Null => "null"
    case Bool(b) => if b then "true" else "false"
    case Num(lexeme) => lexeme
    case Str(text) => PrintString(text)
    case Arr(items) => "[" + PrintItems(items) + "]"
    case Obj(members) => "{" + PrintMembers(members) + "}"
  }

  function PrintItems(items: seq<Json>): string
    decreases items, 1
  {
    if items == [] then ""
    else if |items| == 1 then Print(items[0])
    else Print(items[0]) + "," + PrintItems(items[1..])
  }

  function PrintMember(m: (string, Json)): string
    decreases m, 1
  {
    PrintString(m.0) + ":" + Print(m.1)
  }

  function PrintMembers(members: seq<(string, Json)>): string
    decreases members, 2
  {
    if members == [] then ""
    else if |members| == 1 then PrintMember(members[0])
    else PrintMember(members[0]) + "," + PrintMembers(members[1..])
  }

  // ----- Reading -----

  predicate IsJsonSpace(c: char) { c == ' ' || c == '\n' || c == '\r' || c == '\t' }

  function SkipSpace(s: string): (t: string)
    ensures |t| <= |s|
  {
    if s != "" && IsJsonSpace(s[0]) then SkipSpace(s[1..]) else s
  }

  function Hex4(s: string): (v: Option<nat>)
    ensures v.Some? ==> v.value < 0x1_0000 && |s| >= 4
  {
    if |s| < 4 then None
    else
      match (HexValue(s[0]), HexValue(s[1]), HexValue(s[2]), HexValue(s[3]))
      case (Some(a), Some(b), Some(c), Some(d)) => Some(a * 0x1000 + b * 0x100 + c * 0x10 + d)
      case _ => None
  }

  function ShortEscape(c: char): Option<char> {
    if c == '"' || c == '\\' || c == '/' then Some(c)
    else if c == 'b' then Some(0x08 as char)
    else if c == 'f' then Some(0x0C as char)
    else if c == 'n' then Some('\n')
    else if c == 'r' then Some('\r')
    else if c == 't' then Some('\t')
    else None
  }

  // The character after "\u": a scalar, or a surrogate pair spelt as two escapes.
  function UnicodeEscape(s: string): (r: Parsed<char>)
    ensures r.Got? ==> |r.rest| < |s|
  {
    match Hex4(s)
    case None => Fail
    case Some(v) =>
      if 0xD800 <= v < 0xDC00 then
        if |s| >= 10 && s[4] == '\\' && s[5] == 'u' && Hex4(s[6..]).Some?
           && 0xDC00 <= Hex4(s[6..]).value < 0xE000
        then Got((0x1_0000 + (v - 0xD800) * 0x400 + (Hex4(s[6..]).value - 0xDC00)) as char, s[10..])
        else Fail
      else if 0xDC00 <= v < 0xE000 then Fail
      else Got(v as char, s[4..])
  }

  // One character of a string body, escaped or not; the closing quote is not one.
  function ReadChar(s: string): (r: Parsed<char>)
    ensures r.Got? ==> |r.rest| < |s|
  {
    if s == "" || s[0] == '"' || (s[0] as int) < 0x20 then Fail
    else if s[0] != '\\' then Got(s[0], s[1..])
    else if |s| < 2 then Fail
    else if s[1] == 'u' then UnicodeEscape(s[2..])
    else match ShortEscape(s[1]) case Some(c) => Got(c, s[2..]) case None => Fail
  }

  function ReadBody(s: string): (r: Parsed<string>)
    ensures r.Got? ==> |r.rest| < |s|
    decreases |s|
  {
    if s != "" && s[0] == '"' then Got("", s[1..])
    else
      match ReadChar(s)
      case Fail => Fail
      case Got(c, more) =>
        match ReadBody(more)
        case Fail => Fail
        case Got(text, rest) => Got([c] + text, rest)
  }

  function DigitCount(s: string): (n: nat)
    ensures n <= |s| && AllDigits(s[..n])
    ensures n < |s| ==> !IsDigit(s[n])
  {
    if s != "" && IsDigit(s[0]) then 1 + DigitCount(s[1..]) else 0
  }

  function FractionLength(s: string): (n: nat)
    ensures n <= |s|
  {
    if s != "" && s[0] == '.' && DigitCount(s[1..]) > 0 then 1 + DigitCount(s[1..]) else 0
  }

  // Digits after an optional sign; the sign alone is nothing.
  function SignedDigits(s: string): (n: nat)
    ensures n <= |s|
  {
    if s != "" && (s[0] == '+' || s[0] == '-')
    then if DigitCount(s[1..]) > 0 then 1 + DigitCount(s[1..]) else 0
    else DigitCount(s)
  }

  function ExponentLength(s: string): (n: nat)
    ensures n <= |s|
  {
    if s != "" && (s[0] == 'e' || s[0] == 'E') && SignedDigits(s[1..]) > 0 then 1 + SignedDigits(s[1..]) else 0
  }

  function UnsignedLength(s: string): (n: nat)
    ensures n <= |s|
  {
    var digits := if s != "" && s[0] == '0' then 1 else DigitCount(s);
    if digits == 0 then 0
    else
      var fraction := digits + FractionLength(s[digits..]);
      fraction + ExponentLength(s[fraction..])
  }

  function ReadNumber(s: string): (r: Parsed<Json>)
    ensures r.Got? ==> |r.rest| < |s|
  {
    var sign := if s != "" && s[0] == '-' then 1 else 0;
    var n := UnsignedLength(s[sign..]);
    if n == 0 then Fail else Got(Num(s[..sign + n]), s[sign + n..])
  }

  function ReadValue(s: string): (r: Parsed<Json>)
    ensures r.Got? ==> |r.rest| < |s|
    decreases |s|, 0
  {
    if s == "" then Fail
    else if "null" <= s then Got(Null, s[4..])
    else if "true" <= s then Got(Bool(true), s[4..])
    else if "false" <= s then Got(Bool(false), s[5..])
    else if s[0] == '"' then
      match ReadBody(s[1..])
      case Fail => Fail
      case Got(text, rest) => Got(Str(text), rest)
    else if s[0] == '[' then
      var t := SkipSpace(s[1..]);
      if t != "" && t[0] == ']' then Got(Arr([]), t[1..])
      else match ReadItems(t) case Fail => Fail case Got(items, rest) => Got(Arr(items), rest)
    else if s[0] == '{' then
      var t := SkipSpace(s[1..]);
      if t != "" && t[0] == '}' then Got(Obj([]), t[1..])
      else match ReadMembers(t) case Fail => Fail case Got(ms, rest) => Got(Obj(ms), rest)
    else ReadNumber(s)
  }

  // One or more items and the closing bracket.
  function ReadItems(s: string): (r: Parsed<seq<Json>>)
    ensures r.Got? ==> |r.rest| < |s|
    decreases |s|, 1
  {
    match ReadValue(s)
    case Fail => Fail
    case Got(v, more) =>
      var t := SkipSpace(more);
      if t == "" then Fail
      else if t[0] == ']' then Got([v], t[1..])
      else if t[0] != ',' then Fail
      else
        match ReadItems(SkipSpace(t[1..]))
        case Fail => Fail
        case Got(vs, rest) => Got([v] + vs, rest)
  }

  function ReadMember(s: string): (r: Parsed<(string, Json)>)
    ensures r.Got? ==> |r.rest| < |s|
    decreases |s|, 1
  {
    if s == "" || s[0] != '"' then Fail
    else
      match ReadBody(s[1..])
      case Fail => Fail
      case Got(key, more) => ReadMemberValue(key, more)
  }

  function ReadMemberValue(key: string, s: string): (r: Parsed<(string, Json)>)
    ensures r.Got? ==> |r.rest| < |s|
    decreases |s|, 1
  {
    var t := SkipSpace(s);
    if t == "" || t[0] != ':' then Fail
    else
      match ReadValue(SkipSpace(t[1..]))
      case Fail => Fail
      case Got(v, rest) => Got((key, v), rest)
  }

  function ReadMembers(s: string): (r: Parsed<seq<(string, Json)>>)
    ensures r.Got? ==> |r.rest| < |s|
    decreases |s|, 2
  {
    match ReadMember(s)
    case Fail => Fail
    case Got(m, more) =>
      var t := SkipSpace(more);
      if t == "" then Fail
      else if t[0] == '}' then Got([m], t[1..])
      else if t[0] != ',' then Fail
      else
        match ReadMembers(SkipSpace(t[1..]))
        case Fail => Fail
        case Got(ms, rest) => Got([m] + ms, rest)
  }

  /** serde_json::from_str to a value: one value, surrounded by space only. */
  function FromStr(s: string): Option<Json> {
    match ReadValue(SkipSpace(s))
    case Fail => None
    case Got(v, rest) => if SkipSpace(rest) == "" then Some(v) else None
  }

  // ----- The reader undoes the printer -----

  predicate PlainNumber(lexeme: string) {
    lexeme != "" && AllDigits(lexeme) && (lexeme[0] == '0' ==> |lexeme| == 1)
  }

  /** The values the models print: every number is an unsigned integer numeral. */
  predicate Printable(v: Json)
    decreases v
  {
    match v
    case Num(lexeme) => PlainNumber(lexeme)
    case Arr(items) => forall i :: 0 <= i < |items| ==> Printable(items[i])
    case Obj(members) => forall i :: 0 <= i < |members| ==> Printable(members[i].1)
    case _ => true
  }

  // What may follow a value in a printed text.
  predicate Closes(rest: string) {
    rest == "" || rest[0] == ',' || rest[0] == ']' || rest[0] == '}' || IsJsonSpace(rest[0])
  }

  lemma ReadEscaped(c: char, rest: string)
    ensures ReadChar(Escape(c) + rest) == Got(c, rest)
    ensures Escape(c)[0] != '"'
  {
    var e := Escape(c);
    var s := e + rest;
    assert s[0] == e[0];
    assert s[|e|..] == rest;
    if |e| == 2 {
      assert s[1] == e[1];
    } else if |e| == 6 {
      var body := s[2..];
      assert body[0] == '0' && body[1] == '0' && body[2] == e[4] && body[3] == e[5];
      assert Hex4(body) == Some(c as int);
      assert body[4..] == rest;
    }
  }

  lemma ReadBodyStep(s: string, c: char, more: string, text: string, rest: string)
    requires s != "" && s[0] != '"' && ReadChar(s) == Got(c, more) && ReadBody(more) == Got(text, rest)
    ensures ReadBody(s) == Got([c] + text, rest)
  {
    hide ReadChar;
  }

  lemma ReadBodyEnd(rest: string)
    ensures ReadBody("\"" + rest) == Got("", rest)
  {
    var s := "\"" + rest;
    assert s[0] == '"' && s[1..] == rest;
  }

  lemma EscapeCons(c: char, s: string)
    ensures EscapeAll([c] + s) == Escape(c) + EscapeAll(s)
  {
    hide Escape;
    assert ([c] + s)[1..] == s;
  }

  lemma {:induction false} ReadEscapedBody(text: string, rest: string)
    ensures ReadBody(EscapeAll(text) + "\"" + rest) == Got(text, rest)
  {
    if text == "" {
      ReadBodyEnd(rest);
      assert EscapeAll("") + "\"" + rest == "\"" + rest;
    } else {
      hide ReadBody, ReadChar, Escape, EscapeAll;
      var c, more := text[0], text[1..];
      var tail := EscapeAll(more) + "\"" + rest;
      HeadTail(text);
      EscapeCons(c, more);
      ReadEscaped(c, tail);
      ReadEscapedBody(more, rest);
      Assoc(Escape(c), EscapeAll(more), "\"");
      Assoc(Escape(c), EscapeAll(more) + "\"", rest);
      HeadOf(Escape(c), tail);
      ReadBodyStep(Escape(c) + tail, c, tail, more, rest);
    }
  }

  lemma HeadOf(s: string, t: string)
    requires s != ""
    ensures (s + t)[0] == s[0]
  {
  }

  lemma {:induction false} DigitsStop(digits: string, rest: string)
    requires AllDigits(digits)
    requires rest == "" || !IsDigit(rest[0])
    ensures DigitCount(digits + rest) == |digits|
  {
    if digits == "" {
      assert digits + rest == rest;
    } else {
      assert (digits + rest)[1..] == digits[1..] + rest;
      DigitsStop(digits[1..], rest);
    }
  }

  lemma DigitStartsNumber(s: string)
    requires s != "" && IsDigit(s[0])
    ensures ReadValue(s) == ReadNumber(s)
  {
    hide ReadNumber, ReadBody, ReadItems, ReadMembers, SkipSpace;
  }

  // A numeral not followed by a fraction or an exponent is read as it stands.
  lemma ReadDigits(s: string, n: nat)
    requires 0 < n <= |s| && DigitCount(s) == n && s[0] != '-' && (s[0] == '0' ==> n == 1)
    requires s[n..] == "" || (s[n] != '.' && s[n] != 'e' && s[n] != 'E')
    ensures ReadNumber(s) == Got(Num(s[..n]), s[n..])
  {
    hide DigitCount;
    assert s[0..] == s;
    assert UnsignedLength(s) == n;
  }

  lemma ReadPlainNumber(lexeme: string, rest: string)
    requires PlainNumber(lexeme) && Closes(rest)
    ensures ReadValue(lexeme + rest) == Got(Num(lexeme), rest)
  {
    var s := lexeme + rest;
    DigitsStop(lexeme, rest);
    hide ReadValue, ReadNumber, DigitCount;
    assert s[0] == lexeme[0];
    DigitStartsNumber(s);
    assert s[|lexeme|..] == rest && s[..|lexeme|] == lexeme;
    ReadDigits(s, |lexeme|);
  }

  // The first character of a printed value is never space, nor a closing bracket.
  lemma PrintedHead(v: Json)
    requires Printable(v)
    ensures Print(v) != "" && !IsJsonSpace(Print(v)[0])
    ensures Print(v)[0] != ']' && Print(v)[0] != '}'
  {
  }

  lemma ReadWord(word: string, rest: string)
    requires word == "null" || word == "true" || word == "false"
    ensures ReadValue(word + rest)
            == Got(if word == "null" then Null else Bool(word == "true"), rest)
  {
    var s := word + rest;
    assert word <= s && s[0] == word[0];
    assert s[|word|..] == rest;
  }

  // Reading resumes inside a bracket or a quote.
  lemma ReadAfterQuote(t: string)
    ensures ReadValue(['"'] + t)
            == match ReadBody(t) case Fail => Fail case Got(text, rest) => Got(Str(text), rest)
    ensures ReadMember(['"'] + t)
            == match ReadBody(t) case Fail => Fail case Got(key, more) => ReadMemberValue(key, more)
  {
    var s := ['"'] + t;
    assert s[0] == '"' && s[1..] == t;
  }

  lemma ReadAfterOpening(opening: char, t: string)
    requires t != "" && !IsJsonSpace(t[0])
    ensures opening == '[' ==>
              ReadValue([opening] + t)
              == if t[0] == ']' then Got(Arr([]), t[1..])
                 else match ReadItems(t) case Fail => Fail case Got(vs, rest) => Got(Arr(vs), rest)
    ensures opening == '{' ==>
              ReadValue([opening] + t)
              == if t[0] == '}' then Got(Obj([]), t[1..])
                 else match ReadMembers(t) case Fail => Fail case Got(ms, rest) => Got(Obj(ms), rest)
  {
    hide ReadBody, ReadItems, ReadMembers, ReadNumber;
    var s := [opening] + t;
    assert s[0] == opening && s[1..] == t;
    assert SkipSpace(t) == t;
  }

  lemma QuoteOpens(text: string, rest: string)
    ensures PrintString(text) + rest == ['"'] + (EscapeAll(text) + "\"" + rest)
  {
  }

  lemma BracketOpens(items: seq<Json>, rest: string)
    ensures Print(Arr(items)) + rest == ['['] + (PrintItems(items) + "]" + rest)
    ensures items == [] ==> PrintItems(items) + "]" + rest == [']'] + rest
  {
  }

  lemma BraceOpens(members: seq<(string, Json)>, rest: string)
    ensures Print(Obj(members)) + rest == ['{'] + (PrintMembers(members) + "}" + rest)
    ensures members == [] ==> PrintMembers(members) + "}" + rest == ['}'] + rest
  {
  }

  lemma {:induction false} ReadPrinted(v: Json, rest: string)
    requires Printable(v) && Closes(rest)
    ensures ReadValue(Print(v) + rest) == Got(v, rest)
    decreases v, 0
  {
    match v
    case Null => ReadWord("null", rest);
    case Bool(b) => ReadWord(if b then "true" else "false", rest);
    case Num(lexeme) => ReadPlainNumber(lexeme, rest);
    case Str(text) =>
      QuoteOpens(text, rest);
      ReadEscapedBody(text, rest);
      ReadAfterQuote(EscapeAll(text) + "\"" + rest);
    case Arr(items) =>
      BracketOpens(items, rest);
      if items != [] { ReadPrintedItems(items, rest); }
      ReadAfterOpening('[', PrintItems(items) + "]" + rest);
    case Obj(members) =>
      BraceOpens(members, rest);
      if members != [] { ReadPrintedMembers(members, rest); }
      ReadAfterOpening('{', PrintMembers(members) + "}" + rest);
  }

  lemma ReadItemsStep(s: string, v: Json, more: string)
    requires ReadValue(s) == Got(v, more) && more != "" && !IsJsonSpace(more[0])
    ensures more[0] == ']' ==> ReadItems(s) == Got([v], more[1..])
    ensures more[0] == ',' && SkipSpace(more[1..]) == more[1..] ==>
              ReadItems(s)
              == match ReadItems(more[1..]) case Fail => Fail case Got(vs, rest) => Got([v] + vs, rest)
  {
    hide ReadValue;
  }

  lemma AfterFirstItem(items: seq<Json>, rest: string) returns (more: string)
    requires items != [] && Printable(items[0])
    ensures PrintItems(items) + "]" + rest == Print(items[0]) + more
    ensures var head := (PrintItems(items) + "]" + rest)[0]; !IsJsonSpace(head) && head != ']'
    ensures more != "" && !IsJsonSpace(more[0]) && Closes(more)
    ensures |items| == 1 ==> more[0] == ']' && more[1..] == rest
    ensures |items| > 1 ==> more[0] == ',' && more[1..] == PrintItems(items[1..]) + "]" + rest
  {
    PrintedHead(items[0]);
    hide Print;
    if |items| == 1 {
      more := "]" + rest;
    } else {
      var others := PrintItems(items[1..]) + "]" + rest;
      more := "," + others;
      assert more[1..] == others;
    }
  }

  lemma {:induction false} ReadPrintedItems(items: seq<Json>, rest: string)
    requires items != [] && forall i :: 0 <= i < |items| ==> Printable(items[i])
    ensures ReadItems(PrintItems(items) + "]" + rest) == Got(items, rest)
    ensures var head := (PrintItems(items) + "]" + rest)[0]; !IsJsonSpace(head) && head != ']'
    decreases items, 1
  {
    hide Print, PrintItems, ReadValue, ReadItems, Printable, Closes;
    var s := PrintItems(items) + "]" + rest;
    var more := AfterFirstItem(items, rest);
    ReadPrinted(items[0], more);
    ReadItemsStep(s, items[0], more);
    if |items| == 1 {
      assert items == [items[0]];
    } else {
      ReadPrintedItems(items[1..], rest);
      assert items == [items[0]] + items[1..];
    }
  }

  lemma ReadMemberStep(key: string, value: string)
    requires value != "" && !IsJsonSpace(value[0])
    ensures ReadMember(PrintString(key) + ":" + value)
            == match ReadValue(value) case Fail => Fail case Got(v, rest) => Got((key, v), rest)
  {
    hide ReadBody, EscapeAll, PrintString, ReadValue, ReadMember;
    var more := ":" + value;
    assert PrintString(key) + ":" + value == PrintString(key) + more;
    QuoteOpens(key, more);
    ReadEscapedBody(key, more);
    ReadAfterQuote(EscapeAll(key) + "\"" + more);
    assert more[0] == ':' && more[1..] == value;
  }

  lemma {:induction false} ReadPrintedMember(m: (string, Json), rest: string)
    requires Printable(m.1) && Closes(rest)
    ensures ReadMember(PrintMember(m) + rest) == Got(m, rest)
    decreases m, 1
  {
    var value := Print(m.1) + rest;
    assert PrintMember(m) + rest == PrintString(m.0) + ":" + value;
    PrintedHead(m.1);
    assert value[0] == Print(m.1)[0];
    ReadPrinted(m.1, rest);
    ReadMemberStep(m.0, value);
  }

  // What ReadMembers does after its first member.
  lemma ReadMembersStep(s: string, m: (string, Json), more: string)
    requires ReadMember(s) == Got(m, more) && more != "" && !IsJsonSpace(more[0])
    ensures more[0] == '}' ==> ReadMembers(s) == Got([m], more[1..])
    ensures more[0] == ',' && SkipSpace(more[1..]) == more[1..] ==>
              ReadMembers(s)
              == match ReadMembers(more[1..]) case Fail => Fail case Got(ms, rest) => Got([m] + ms, rest)
  {
  }

  lemma {:induction false} ReadPrintedMembers(members: seq<(string, Json)>, rest: string)
    requires members != [] && forall i :: 0 <= i < |members| ==> Printable(members[i].1)
    ensures ReadMembers(PrintMembers(members) + "}" + rest) == Got(members, rest)
    ensures (PrintMembers(members) + "}" + rest)[0] == '"'
    decreases members, 2
  {
    hide Print, PrintMember, PrintMembers, ReadValue, ReadMember, ReadMembers, Printable;
    var s := PrintMembers(members) + "}" + rest;
    var more := AfterFirstMember(members, rest);
    ReadPrintedMember(members[0], more);
    ReadMembersStep(s, members[0], more);
    if |members| == 1 {
      assert members == [members[0]];
    } else {
      ReadPrintedMembers(members[1..], rest);
      assert members == [members[0]] + members[1..];
    }
  }

  lemma AfterFirstMember(members: seq<(string, Json)>, rest: string) returns (more: string)
    requires members != []
    ensures PrintMembers(members) + "}" + rest == PrintMember(members[0]) + more
    ensures PrintMember(members[0])[0] == '"'
    ensures more != "" && !IsJsonSpace(more[0]) && Closes(more)
    ensures |members| == 1 ==> more[0] == '}' && more[1..] == rest
    ensures |members| > 1 ==> more[0] == ',' && more[1..] == PrintMembers(members[1..]) + "}" + rest
  {
    PrintedMemberHead(members[0]);
    hide PrintMember;
    if |members| == 1 {
      more := "}" + rest;
    } else {
      var others := PrintMembers(members[1..]) + "}" + rest;
      more := "," + others;
      assert more[1..] == others;
    }
  }

  lemma PrintedMemberHead(m: (string, Json))
    ensures PrintMember(m) != "" && PrintMember(m)[0] == '"'
  {
    hide EscapeAll, Print;
  }

  lemma {:induction false} SkipsSpace(a: string, t: string)
    requires forall i :: 0 <= i < |a| ==> IsJsonSpace(a[i])
    requires t == "" || !IsJsonSpace(t[0])
    ensures SkipSpace(a + t) == t
  {
    if a == "" {
      assert a + t == t;
    } else {
      assert (a + t)[1..] == a[1..] + t;
      SkipsSpace(a[1..], t);
    }
  }

  /** A printed value is read between any space, and refused when anything else follows it. */
  lemma ReadsAround(v: Json, a: string, b: string, more: string)
    requires Printable(v)
    requires forall i :: 0 <= i < |a| ==> IsJsonSpace(a[i])
    requires forall i :: 0 <= i < |b| ==> IsJsonSpace(b[i])
    requires more == "" || (!IsJsonSpace(more[0]) && (b != "" || Closes(more)))
    ensures FromStr(a + (Print(v) + (b + more))) == if more == "" then Some(v) else None
  {
    var rest := b + more;
    assert b == "" ==> rest == more;
    PrintedHead(v);
    ReadPrinted(v, rest);
    hide Print, ReadValue, Printable;
    SkipsSpace(a, Print(v) + rest);
    SkipsSpace(b, more);
  }

  /** Reading back a printed value gives that value, for every printable value. */
  lemma FromStrPrint(v: Json)
    requires Printable(v)
    ensures FromStr(Print(v)) == Some(v)
  {
    PrintedHead(v);
    ReadPrinted(v, "");
    assert Print(v) + "" == Print(v);
  }

  // ----- Members -----

  // Indexing a value by a member name: the last one of that name, Null when there is none.
  function Member(members: seq<(string, Json)>, name: string): Json {
    if members == [] then Null
    else
      var last := members[|members| - 1];
      if last.0 == name then last.1 else Member(members[..|members| - 1], name)
  }

  lemma {:induction false} MemberAt(ms: seq<(string, Json)>, i: nat)
    requires i < |ms| && forall j :: i < j < |ms| ==> ms[j].0 != ms[i].0
    ensures Member(ms, ms[i].0) == ms[i].1
  {
    if i < |ms| - 1 { MemberAt(ms[..|ms| - 1], i); }
  }

  // ----- Sizes -----

  /** Two characters for quote, backslash and the five controls with a letter of their own, six
      for the other controls, and no escape for anything else. */
  lemma EscapeForms(c: char)
    ensures |Escape(c)| == 2 <==> c == '"' || c == '\\' || c as int in {0x08, 0x09, 0x0A, 0x0C, 0x0D}
    ensures |Escape(c)| == 6 <==> (c as int) < 0x20 && c as int !in {0x08, 0x09, 0x0A, 0x0C, 0x0D}
    ensures |Escape(c)| != 2 && |Escape(c)| != 6 ==> Escape(c) == [c]
    ensures ReadChar(Escape(c)) == Got(c, "")
  {
    ReadEscaped(c, "");
    assert Escape(c) + "" == Escape(c);
  }

  lemma EscapeSize(c: char)
    ensures Utf8Len([c]) <= Utf8Len(Escape(c)) <= 6 * Utf8Len([c])
    ensures !IsControl(c) ==> Utf8Len(Escape(c)) <= 2 * Utf8Len([c]) && Utf8Len(Escape(c)) <= 4
  {
    if Escape(c) != [c] { AsciiLen(Escape(c)); }
    assert Encode([c]) == EncodeChar(c) + Encode("");
  }

  /** Escaping costs between one and six bytes per byte, whatever the text. */
  lemma {:induction false} EscapeAllSize(s: string)
    ensures Utf8Len(s) <= Utf8Len(EscapeAll(s)) <= 6 * Utf8Len(s)
  {
    if s != "" {
      EscapeSize(s[0]);
      EscapeAllSize(s[1..]);
      Utf8LenConcat(Escape(s[0]), EscapeAll(s[1..]));
      Utf8LenConcat([s[0]], s[1..]);
      assert s == [s[0]] + s[1..];
    }
  }

  lemma WrappedSize(open: char, s: string, close: char)
    requires (open as int) < 0x80 && (close as int) < 0x80
    ensures Utf8Len([open] + s + [close]) == Utf8Len(s) + 2
  {
    AsciiLen([open]);
    AsciiLen([close]);
    Utf8LenConcat([open], s);
    Utf8LenConcat([open] + s, [close]);
  }

  lemma PrintStringSize(s: string)
    ensures Utf8Len(PrintString(s)) == Utf8Len(EscapeAll(s)) + 2
  {
    WrappedSize('"', EscapeAll(s), '"');
  }

  lemma JoinedSize(s: string, separator: char, t: string)
    requires (separator as int) < 0x80
    ensures Utf8Len(s + [separator] + t) == Utf8Len(s) + 1 + Utf8Len(t)
  {
    AsciiLen([separator]);
    Utf8LenConcat(s, [separator]);
    Utf8LenConcat(s + [separator], t);
  }

  // A plain key prints as itself.
  predicate PlainKey(s: string) {
    forall c :: c in s ==> 'a' <= c <= 'z' || c == '_'
  }

  lemma {:induction false} EscapePlain(s: string)
    requires PlainKey(s)
    ensures EscapeAll(s) == s
  {
    if s != "" {
      assert s[0] in s && forall c :: c in s[1..] ==> c in s;
      assert Escape(s[0]) == [s[0]];
      hide Escape;
      EscapePlain(s[1..]);
    }
  }

  lemma MemberSize(m: (string, Json))
    requires PlainKey(m.0)
    ensures Utf8Len(PrintMember(m)) == |m.0| + 3 + Utf8Len(Print(m.1))
  {
    EscapePlain(m.0);
    assert forall i :: 0 <= i < |m.0| ==> m.0[i] in m.0;
    AsciiLen(m.0);
    PrintStringSize(m.0);
    JoinedSize(PrintString(m.0), ':', Print(m.1));
  }

  // The members of an object, each with its separator or closing brace.
  function MembersSize(members: seq<(string, Json)>): nat {
    if members == [] then 0 else 1 + Utf8Len(PrintMember(members[0])) + MembersSize(members[1..])
  }

  lemma {:induction false} ObjectSize(members: seq<(string, Json)>)
    requires members != []
    ensures Utf8Len(Print(Obj(members))) == 1 + MembersSize(members)
  {
    PrintMembersSize(members);
    WrappedSize('{', PrintMembers(members), '}');
  }

  lemma {:induction false} PrintMembersSize(members: seq<(string, Json)>)
    requires members != []
    ensures Utf8Len(PrintMembers(members)) + 1 == MembersSize(members)
  {
    if |members| > 1 {
      PrintMembersSize(members[1..]);
      JoinedSize(PrintMember(members[0]), ',', PrintMembers(members[1..]));
    }
  }

  lemma ArraySize(items: seq<Json>)
    ensures Utf8Len(Print(Arr(items))) == 2 + Utf8Len(PrintItems(items))
  {
    WrappedSize('[', PrintItems(items), ']');
  }
}
