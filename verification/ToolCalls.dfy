/** Tool calls: the checks on one call, and the calls and text that a response message
    normalizes to, said of the JSON values themselves. */
module ToolCalls {
  import opened Text
  import opened Utf8
  import opened Json

  datatype FunctionCall = FunctionCall(name: string, arguments: string)

  datatype ToolCall = ToolCall(id: string, kind: string, function_: FunctionCall)

  // ----- One call -----

  // `valid_function_name`, on the bytes of the name.
  predicate FunctionNameChecks(name: string) {
    var bytes := Encode(name);
    && name != "" && |bytes| <= 64
    && forall i :: 0 <= i < |bytes| ==>
         0x30 <= bytes[i] <= 0x39 || 0x41 <= bytes[i] <= 0x5A || 0x61 <= bytes[i] <= 0x7A || bytes[i] == 0x5F || bytes[i] == 0x2D
  }

  // One to sixty-four letters, digits, underscores and hyphens.
  predicate ValidFunctionName(name: string) {
    && 1 <= |name| <= 64
    && forall i :: 0 <= i < |name| ==>
         '0' <= name[i] <= '9' || 'A' <= name[i] <= 'Z' || 'a' <= name[i] <= 'z' || name[i] == '_' || name[i] == '-'
  }

  // `validate_tool_call`.
  predicate ToolCallChecks(call: ToolCall) {
    if call.kind != "function" || Trim(call.id) == "" || !FunctionNameChecks(call.function_.name) then false
    else
      match FromStr(call.function_.arguments)
      case Some(value) => value.Obj?
      case None => false
  }

  /** A call of a named function, with an id that is not blank and arguments that read as an
      object. */
  ghost predicate ValidToolCall(call: ToolCall) {
    && call.kind == "function" && !Blank(call.id) && ValidFunctionName(call.function_.name)
    && exists members :: FromStr(call.function_.arguments) == Some(Obj(members))
  }

  lemma FunctionNameExactly(name: string)
    ensures FunctionNameChecks(name) <==> ValidFunctionName(name)
  {
    if FunctionNameChecks(name) { AsciiBytes(name); }
    if FunctionNameChecks(name) || ValidFunctionName(name) { AsciiEncoded(name); }
    hide Encode;
  }

  lemma ToolCallExactly(call: ToolCall)
    ensures ToolCallChecks(call) <==> ValidToolCall(call)
  {
    hide FunctionNameChecks, ValidFunctionName, Trim, Blank, FromStr;
    FunctionNameExactly(call.function_.name);
    TrimIsEmpty(call.id);
    if ToolCallChecks(call) {
      assert FromStr(call.function_.arguments) == Some(Obj(FromStr(call.function_.arguments).value.members));
    }
  }

  // ----- The calls of a response -----

  // A struct of named fields reads from an object, or from an array in field order.
  function Fields(v: Json, names: seq<string>): seq<Json> {
    match v
    case Obj(ms) => seq(|names|, i requires 0 <= i < |names| => Member(ms, names[i]))
    case Arr(items) => items
    case _ => []
  }

  function DecodeFunction(v: Json): Option<FunctionCall> {
    var f := Fields(v, ["name", "arguments"]);
    if |f| == 2 && f[0].Str? && f[1].Str? then Some(FunctionCall(f[0].text, f[1].text)) else None
  }

  function DecodeCall(v: Json): Option<ToolCall> {
    var f := Fields(v, ["id", "type", "function"]);
    if |f| == 3 && f[0].Str? && f[1].Str? && DecodeFunction(f[2]).Some?
    then Some(ToolCall(f[0].text, f[1].text, DecodeFunction(f[2]).value))
    else None
  }

  function DecodeCalls(vs: seq<Json>): Option<seq<ToolCall>> {
    if vs == [] then Some([])
    else
      match (DecodeCall(vs[0]), DecodeCalls(vs[1..]))
      case (Some(c), Some(cs)) => Some([c] + cs)
      case _ => None
  }

  function CallIds(calls: seq<ToolCall>): seq<string> {
    seq(|calls|, i requires 0 <= i < |calls| => calls[i].id)
  }

  function Elements(ids: seq<string>): set<string> { set i | 0 <= i < |ids| :: ids[i] }

  predicate Distinct(ids: seq<string>) { forall i, j :: 0 <= i < j < |ids| ==> ids[i] != ids[j] }

  predicate AllCheck(calls: seq<ToolCall>) { forall i :: 0 <= i < |calls| ==> ToolCallChecks(calls[i]) }

  // The field of a message value; Null when missing or when the message is no object.
  function MessageField(message: Json, name: string): Json {
    if message.Obj? then Member(message.members, name) else Null
  }

  function NormalizeCalls(field: Json): Option<seq<ToolCall>> {
    match field
    case Null => Some([])
    case Arr(items) =>
      (match DecodeCalls(items)
       case Some(calls) =>
         // As many ids in the set as there are calls.
         if calls == [] || !AllCheck(calls) || |Elements(CallIds(calls))| != |calls| then None else Some(calls)
       case None => None)
    case _ => None
  }

  /** The part of `normalize_response` that decides the text and the tool calls. */
  function NormalizeAnswer(message: Json, finishReason: string): Option<(string, seq<ToolCall>)> {
    match NormalizeCalls(MessageField(message, "tool_calls"))
    case None => None
    case Some(calls) =>
      var content := MessageField(message, "content");
      if content.Str? then
        if calls == [] && (Trim(content.text) == "" || finishReason == "tool_calls") then None
        else Some((content.text, calls))
      else if content.Null? && calls != [] then Some(("", calls))
      else None
  }

  // ----- Which values are calls -----

  // The object has this member, and no later one of its name.
  ghost predicate LastNamed(members: seq<(string, Json)>, name: string, v: Json) {
    exists i :: 0 <= i < |members| && members[i] == (name, v) && forall j :: i < j < |members| ==> members[j].0 != name
  }

  predicate Unnamed(members: seq<(string, Json)>, name: string) {
    forall i :: 0 <= i < |members| ==> members[i].0 != name
  }

  ghost predicate IsFunction(v: Json, f: FunctionCall) {
    || (v.Obj? && LastNamed(v.members, "name", Str(f.name)) && LastNamed(v.members, "arguments", Str(f.arguments)))
    || v == Arr([Str(f.name), Str(f.arguments)])
  }

  ghost predicate IsCall(v: Json, call: ToolCall) {
    exists w ::
      && IsFunction(w, call.function_)
      && ((v.Obj? && LastNamed(v.members, "id", Str(call.id)) && LastNamed(v.members, "type", Str(call.kind))
           && LastNamed(v.members, "function", w))
          || v == Arr([Str(call.id), Str(call.kind), w]))
  }

  ghost predicate AreCalls(items: seq<Json>, calls: seq<ToolCall>) {
    |items| == |calls| && forall i :: 0 <= i < |items| ==> IsCall(items[i], calls[i])
  }

  ghost predicate AreValidCalls(calls: seq<ToolCall>) {
    Distinct(CallIds(calls)) && forall i :: 0 <= i < |calls| ==> ValidToolCall(calls[i])
  }

  ghost predicate FieldIs(message: Json, name: string, v: Json) {
    message.Obj? && LastNamed(message.members, name, v)
  }

  // Absent or null.
  ghost predicate FieldMissing(message: Json, name: string) {
    message.Obj? ==> Unnamed(message.members, name) || LastNamed(message.members, name, Null)
  }

  lemma {:induction false} MemberFrom(members: seq<(string, Json)>, name: string)
    ensures Unnamed(members, name) ==> Member(members, name) == Null
    ensures !Unnamed(members, name) ==> LastNamed(members, name, Member(members, name))
  {
    if members != [] {
      var n := |members| - 1;
      var init := members[..n];
      if members[n].0 == name {
        assert members[n] == (name, members[n].1);
      } else {
        MemberFrom(init, name);
        if !Unnamed(members, name) {
          var i :| 0 <= i < |init| && init[i] == (name, Member(init, name)) && forall j :: i < j < |init| ==> init[j].0 != name;
          assert members[i] == init[i];
          assert forall j :: i < j < n ==> members[j] == init[j];
        }
      }
    }
  }

  lemma MemberExactly(members: seq<(string, Json)>, name: string, v: Json)
    ensures LastNamed(members, name, v) ==> Member(members, name) == v
    ensures Member(members, name) == v ==> LastNamed(members, name, v) || (v == Null && Unnamed(members, name))
    ensures Unnamed(members, name) ==> Member(members, name) == Null
  {
    MemberFrom(members, name);
    hide Member;
    if i :| 0 <= i < |members| && members[i] == (name, v) && forall j :: i < j < |members| ==> members[j].0 != name {
      MemberAt(members, i);
    }
  }

  lemma FunctionExactly(v: Json, f: FunctionCall)
    ensures DecodeFunction(v) == Some(f) <==> IsFunction(v, f)
  {
    hide Member, LastNamed, Unnamed;
    if v.Obj? {
      MemberExactly(v.members, "name", Str(f.name));
      MemberExactly(v.members, "arguments", Str(f.arguments));
    }
  }

  // The three fields of a call value that is an object.
  lemma ObjectCallExactly(members: seq<(string, Json)>, call: ToolCall)
    ensures DecodeCall(Obj(members)) == Some(call) <==>
              && LastNamed(members, "id", Str(call.id)) && LastNamed(members, "type", Str(call.kind))
              && DecodeFunction(Member(members, "function")) == Some(call.function_)
  {
    hide Member, LastNamed, Unnamed, DecodeFunction;
    MemberExactly(members, "id", Str(call.id));
    MemberExactly(members, "type", Str(call.kind));
  }

  lemma CallExactly(v: Json, call: ToolCall)
    ensures DecodeCall(v) == Some(call) <==> IsCall(v, call)
  {
    hide Member, LastNamed, Unnamed, DecodeFunction, IsFunction;
    if v.Obj? {
      ObjectCallExactly(v.members, call);
      var w := Member(v.members, "function");
      FunctionExactly(w, call.function_);
      MemberExactly(v.members, "function", w);
      NullIsNoFunction(call.function_);
      forall u | LastNamed(v.members, "function", u) ensures u == w { MemberExactly(v.members, "function", u); }
      hide DecodeCall;
    } else if v.Arr? && |v.items| == 3 {
      FunctionExactly(v.items[2], call.function_);
      assert v.items == [v.items[0], v.items[1], v.items[2]];
    }
  }

  lemma NullIsNoFunction(f: FunctionCall)
    ensures !IsFunction(Null, f)
  {
  }

  lemma {:induction false} CallsExactly(items: seq<Json>, calls: seq<ToolCall>)
    ensures DecodeCalls(items) == Some(calls) <==> AreCalls(items, calls)
  {
    hide DecodeCall, IsCall;
    if items != [] && calls != [] {
      CallExactly(items[0], calls[0]);
      CallsExactly(items[1..], calls[1..]);
      assert forall i :: 1 <= i < |items| ==> items[i] == items[1..][i - 1];
      assert forall i :: 1 <= i < |calls| ==> calls[i] == calls[1..][i - 1];
      HeadTail(calls);
      assert AreCalls(items, calls) <==> IsCall(items[0], calls[0]) && AreCalls(items[1..], calls[1..]);
    }
  }

  // A set has as many elements as its list exactly when the list repeats none.
  lemma {:induction false} DistinctExactly(ids: seq<string>)
    ensures |Elements(ids)| <= |ids|
    ensures |Elements(ids)| == |ids| <==> Distinct(ids)
  {
    if ids == [] {
      assert Elements(ids) == {};
    } else {
      var head, rest := ids[0], ids[1..];
      DistinctExactly(rest);
      ElementsCons(ids);
      DistinctCons(ids);
      hide Elements, Distinct;
      if head in Elements(rest) {
        assert Elements(ids) == Elements(rest);
      } else {
        assert |{head} + Elements(rest)| == 1 + |Elements(rest)|;
      }
    }
  }

  lemma DistinctCons(ids: seq<string>)
    requires ids != []
    ensures Distinct(ids) <==> ids[0] !in Elements(ids[1..]) && Distinct(ids[1..])
  {
    var rest := ids[1..];
    assert forall j :: 1 <= j < |ids| ==> ids[j] == rest[j - 1];
    assert forall j :: 0 <= j < |rest| ==> rest[j] == ids[j + 1];
  }

  lemma ElementsCons(ids: seq<string>)
    requires ids != []
    ensures Elements(ids) == {ids[0]} + Elements(ids[1..])
  {
    var rest := ids[1..];
    forall i | 0 <= i < |ids| ensures ids[i] in {ids[0]} + Elements(rest) {
      if i > 0 { assert ids[i] == rest[i - 1]; }
    }
    forall i | 0 <= i < |rest| ensures rest[i] in Elements(ids) {
      assert rest[i] == ids[i + 1];
    }
  }

  lemma AllCheckExactly(calls: seq<ToolCall>)
    ensures AllCheck(calls) && |Elements(CallIds(calls))| == |calls| <==> AreValidCalls(calls)
  {
    hide ToolCallChecks, ValidToolCall, Elements, Distinct;
    DistinctExactly(CallIds(calls));
    forall i | 0 <= i < |calls| ensures ToolCallChecks(calls[i]) <==> ValidToolCall(calls[i]) {
      ToolCallExactly(calls[i]);
    }
  }

  // The calls a field stands for: none when it is absent or null, else a list of valid calls.
  ghost predicate StandsFor(message: Json, calls: seq<ToolCall>) {
    if calls == [] then FieldMissing(message, "tool_calls")
    else exists items :: FieldIs(message, "tool_calls", Arr(items)) && AreCalls(items, calls) && AreValidCalls(calls)
  }

  lemma FieldExactly(message: Json, name: string, v: Json)
    ensures v != Null ==> (MessageField(message, name) == v <==> FieldIs(message, name, v))
    ensures MessageField(message, name) == Null <==> FieldMissing(message, name)
  {
    hide Member, LastNamed, Unnamed;
    if message.Obj? {
      MemberExactly(message.members, name, v);
      MemberExactly(message.members, name, Null);
    }
  }

  lemma NormalizedCallsExactly(message: Json, calls: seq<ToolCall>)
    ensures NormalizeCalls(MessageField(message, "tool_calls")) == Some(calls) <==> StandsFor(message, calls)
  {
    hide MessageField, FieldIs, FieldMissing, AreCalls, DecodeCalls, AreValidCalls, AllCheck, Elements;
    var field := MessageField(message, "tool_calls");
    FieldExactly(message, "tool_calls", field);
    if field.Arr? {
      CallsExactly(field.items, calls);
      AllCheckExactly(calls);
      assert field == Arr(field.items);
    }
    forall items ensures FieldIs(message, "tool_calls", Arr(items)) ==> field == Arr(items) {
      FieldExactly(message, "tool_calls", Arr(items));
    }
  }

  /** A message normalizes to a text and calls exactly when its calls, absent or a non-empty list
      of valid calls with distinct ids, are those; its content is that text, or, beside calls,
      missing for the empty text; and without calls the text is not blank and the response did
      not stop for tool calls. Every other message is refused. */
  lemma NormalizesExactly(message: Json, finishReason: string, text: string, calls: seq<ToolCall>)
    ensures NormalizeAnswer(message, finishReason) == Some((text, calls)) <==>
              && StandsFor(message, calls)
              && (FieldIs(message, "content", Str(text)) || (FieldMissing(message, "content") && calls != [] && text == ""))
              && (calls == [] ==> !Blank(text) && finishReason != "tool_calls")
  {
    NormalizedCallsExactly(message, calls);
    FieldExactly(message, "content", Str(text));
    TrimIsEmpty(text);
    hide MessageField, FieldIs, FieldMissing, NormalizeCalls, StandsFor, Trim, Blank;
  }

  lemma NormalizedCallsAreValid(message: Json, finishReason: string)
    requires NormalizeAnswer(message, finishReason).Some?
    ensures AreValidCalls(NormalizeAnswer(message, finishReason).value.1)
  {
    var (text, calls) := NormalizeAnswer(message, finishReason).value;
    NormalizesExactly(message, finishReason, text, calls);
    hide NormalizeAnswer, ValidToolCall, FieldMissing, FieldIs, AreCalls;
  }

  // ----- The usual form of calls -----

  function CallJson(call: ToolCall): Json {
    Obj([("id", Str(call.id)), ("type", Str(call.kind)),
         ("function", Obj([("name", Str(call.function_.name)), ("arguments", Str(call.function_.arguments))]))])
  }

  function CallJsons(calls: seq<ToolCall>): (vs: seq<Json>)
    ensures |vs| == |calls| && forall i :: 0 <= i < |vs| ==> vs[i] == CallJson(calls[i])
  {
    seq(|calls|, i requires 0 <= i < |calls| => CallJson(calls[i]))
  }

  lemma CallJsonIsCall(call: ToolCall)
    ensures IsCall(CallJson(call), call)
  {
    var f := [("name", Str(call.function_.name)), ("arguments", Str(call.function_.arguments))];
    assert f[0] == ("name", Str(call.function_.name)) && f[1] == ("arguments", Str(call.function_.arguments));
    assert IsFunction(Obj(f), call.function_);
    var ms := [("id", Str(call.id)), ("type", Str(call.kind)), ("function", Obj(f))];
    assert ms[0] == ("id", Str(call.id)) && ms[1] == ("type", Str(call.kind)) && ms[2] == ("function", Obj(f));
    assert CallJson(call) == Obj(ms);
    hide IsFunction;
  }

  /** Valid calls in their usual form come back exactly, beside any text and beside none. */
  lemma UsualCallsNormalize(text: string, calls: seq<ToolCall>, finishReason: string)
    requires calls != [] && AreValidCalls(calls)
    ensures var field := ("tool_calls", Arr(CallJsons(calls)));
            && NormalizeAnswer(Obj([("content", Str(text)), field]), finishReason) == Some((text, calls))
            && NormalizeAnswer(Obj([("content", Null), field]), finishReason) == Some(("", calls))
            && NormalizeAnswer(Obj([field]), finishReason) == Some(("", calls))
  {
    hide NormalizeAnswer, IsCall, AreValidCalls, CallJson;
    forall i | 0 <= i < |calls| ensures IsCall(CallJsons(calls)[i], calls[i]) {
      CallJsonIsCall(calls[i]);
    }
    var field := ("tool_calls", Arr(CallJsons(calls)));
    var a, b, c := [("content", Str(text)), field], [("content", Null), field], [field];
    assert a[0] == ("content", Str(text)) && a[1] == field && b[0] == ("content", Null) && b[1] == field && c[0] == field;
    NormalizesExactly(Obj(a), finishReason, text, calls);
    NormalizesExactly(Obj(b), finishReason, "", calls);
    NormalizesExactly(Obj(c), finishReason, "", calls);
  }
}
