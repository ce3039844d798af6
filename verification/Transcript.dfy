/** Completion requests: the validation pass over a conversation, the declarative pairing of
    tool calls with results that it stands for, and conversations continued with a response. */
module Transcript {
  import opened Text
  import opened Utf8
  import opened Json
  import opened ToolCalls

  datatype Message = Message(role: string, content: Option<string>, toolCalls: seq<ToolCall>, toolCallId: Option<string>)

  datatype ToolDefinition = ToolDefinition(kind: string, name: string, parameters: Json)

  datatype Surface = OfficialApi | ConsumerSurface

  datatype SearchMode = Disabled | Official

  // An f32: either finite, as a real, or one of NaN and the infinities.
  datatype Temperature = Finite(value: real) | NotFinite

  datatype CompletionRequest = CompletionRequest(
    model: string, messages: seq<Message>, tools: seq<ToolDefinition>, maxOutputTokens: Option<nat>,
    temperature: Option<Temperature>, surface: Surface, searchMode: SearchMode, includeCitations: bool)

  const MAX_MODEL_LENGTH := 256
  const MAX_MESSAGE_LENGTH := 1_000_000

  // `str::contains`.
  function Finds(s: string, part: string): bool {
    part <= s || (s != "" && Finds(s[1..], part))
  }

  ghost predicate Contains(s: string, part: string) { exists a: string, b: string :: s == a + part + b }

  lemma {:induction false} FindsExactly(s: string, part: string)
    ensures Finds(s, part) <==> Contains(s, part)
  {
    if part <= s { assert s == "" + part + s[|part|..]; }
    if s != "" {
      FindsExactly(s[1..], part);
      if a: string, b: string :| s[1..] == a + part + b {
        HeadTail(s);
        assert s == ([s[0]] + a) + part + b;
      }
    }
    if a: string, b: string :| s == a + part + b {
      AtHeadOrLater(s, a, part, b);
    }
  }

  lemma AtHeadOrLater(s: string, a: string, part: string, b: string)
    requires s == a + part + b
    ensures part <= s || (s != "" && s[1..] == a[1..] + part + b)
  {
    if a == "" { assert s == part + b; }
  }

  // ----- What a valid request is -----

  ghost predicate HeaderOk(r: CompletionRequest) {
    !Blank(r.model) && Utf8Len(Trim(r.model)) <= 256 && !Contains(Trim(r.model), "://") && r.messages != []
  }

  predicate TailOk(r: CompletionRequest) {
    && (forall i :: 0 <= i < |r.tools| ==> ToolOk(r.tools[i]))
    && r.maxOutputTokens != Some(0)
    && (r.temperature.Some? ==> r.temperature.value.Finite? && 0.0 <= r.temperature.value.value <= 2.0)
    && !(r.surface == ConsumerSurface && r.searchMode == Official)
    && (r.includeCitations ==> r.searchMode == Official)
  }

  predicate ToolOk(t: ToolDefinition) {
    t.kind == "function" && ValidFunctionName(t.name) && t.parameters.Obj?
  }

  predicate CarriesCalls(m: Message) { m.role == "assistant" && m.toolCalls != [] }

  // What a message must satisfy by itself.
  ghost predicate MessageOk(m: Message) {
    && (m.role == "system" || m.role == "user" || m.role == "assistant" || m.role == "tool")
    && (m.content.Some? ==> Utf8Len(m.content.value) <= 1_000_000)
    && if CarriesCalls(m) then
         m.toolCallId == None && forall i :: 0 <= i < |m.toolCalls| ==> ValidToolCall(m.toolCalls[i])
       else if m.role == "tool" then
         m.toolCalls == [] && m.content.Some? && m.content.value != "" && m.toolCallId.Some?
       else
         m.toolCalls == [] && m.toolCallId == None && m.content.Some? && !Blank(m.content.value)
  }

  datatype Event = Called(id: string) | Resulted(id: string)

  function CallEvents(calls: seq<ToolCall>): (es: seq<Event>)
    ensures |es| == |calls| && forall i :: 0 <= i < |calls| ==> es[i] == Called(calls[i].id)
  {
    seq(|calls|, i requires 0 <= i < |calls| => Called(calls[i].id))
  }

  function MessageEvents(m: Message): seq<Event> {
    if CarriesCalls(m) then CallEvents(m.toolCalls)
    else if m.role == "tool" && m.toolCallId.Some? then [Resulted(m.toolCallId.value)]
    else []
  }

  /** The calls and results of a conversation, in order. */
  function Trace(messages: seq<Message>): seq<Event> {
    if messages == [] then []
    else Trace(messages[..|messages| - 1]) + MessageEvents(messages[|messages| - 1])
  }

  // The events of one call id.
  function Of(trace: seq<Event>, id: string): seq<Event> {
    if trace == [] then []
    else (if trace[0].id == id then [trace[0]] else []) + Of(trace[1..], id)
  }

  /** Call, result, call, result, and so on, ending on a result. */
  predicate Alternates(events: seq<Event>) {
    |events| % 2 == 0 && forall i :: 0 <= i < |events| ==> (events[i].Called? <==> i % 2 == 0)
  }

  ghost predicate Paired(trace: seq<Event>) { forall id :: Alternates(Of(trace, id)) }

  ghost predicate ValidRequest(r: CompletionRequest) {
    && HeaderOk(r) && TailOk(r)
    && (forall i :: 0 <= i < |r.messages| ==> MessageOk(r.messages[i]))
    && Paired(Trace(r.messages))
  }

  // ----- One pass with a pending set -----

  /** None is a rejection: a call already pending, or a result not pending. */
  function Pass(pending: set<string>, trace: seq<Event>): Option<set<string>>
    decreases |trace|
  {
    if trace == [] then Some(pending)
    else
      match trace[0]
      case Called(id) => if id in pending then None else Pass(pending + {id}, trace[1..])
      case Resulted(id) => if id !in pending then None else Pass(pending - {id}, trace[1..])
  }

  // The same pass seen by one id, which is pending or not.
  function PassOf(open: bool, events: seq<Event>): Option<bool>
    decreases |events|
  {
    if events == [] then Some(open)
    else if events[0].Called? == open then None
    else PassOf(!open, events[1..])
  }

  lemma {:induction false} PassPerId(pending: set<string>, trace: seq<Event>)
    ensures Pass(pending, trace).Some? <==> forall id :: PassOf(id in pending, Of(trace, id)).Some?
    ensures Pass(pending, trace).Some? ==>
              forall id :: PassOf(id in pending, Of(trace, id)) == Some(id in Pass(pending, trace).value)
    decreases |trace|
  {
    if trace != [] {
      var e, rest := trace[0], trace[1..];
      var next := if e.Called? then pending + {e.id} else pending - {e.id};
      PassPerId(next, rest);
      assert Of(trace, e.id) == [e] + Of(rest, e.id);
      assert ([e] + Of(rest, e.id))[1..] == Of(rest, e.id);
      forall id ensures id != e.id ==> Of(trace, id) == Of(rest, id) && (id in next <==> id in pending) {
      }
      if e.Called? == (e.id in pending) {
        assert PassOf(e.id in pending, Of(trace, e.id)) == None;
      } else {
        assert Pass(pending, trace) == Pass(next, rest);
        forall id ensures PassOf(id in pending, Of(trace, id)) == PassOf(id in next, Of(rest, id)) {
        }
      }
    }
  }

  lemma {:induction false} PassOfAlternates(open: bool, events: seq<Event>)
    ensures PassOf(open, events) == Some(false)
            <==> (|events| % 2 == (if open then 1 else 0)
                  && forall i :: 0 <= i < |events| ==> (events[i].Called? <==> (i % 2 == 0) == !open))
    decreases |events|
  {
    if events != [] {
      var rest := events[1..];
      PassOfAlternates(!open, rest);
      assert forall i :: 0 <= i < |rest| ==> rest[i] == events[i + 1];
      assert forall i :: 1 <= i < |events| ==> events[i] == rest[i - 1];
    }
  }

  /** The single pass accepts and ends with nothing pending exactly when, for each id by itself,
      calls and results alternate and end on a result. */
  lemma PassIsPairing(trace: seq<Event>)
    ensures Pass({}, trace) == Some({}) <==> Paired(trace)
  {
    PassPerId({}, trace);
    forall id ensures PassOf(false, Of(trace, id)) == Some(false) <==> Alternates(Of(trace, id)) {
      PassOfAlternates(false, Of(trace, id));
    }
    hide Pass, PassOf, Of, Alternates;
    if Paired(trace) {
      forall id ensures PassOf(false, Of(trace, id)) == Some(false) {
        assert Alternates(Of(trace, id));
      }
      assert forall id :: id in Pass({}, trace).value ==> PassOf(false, Of(trace, id)) == Some(true);
      assert Pass({}, trace).value == {};
    }
    if Pass({}, trace) == Some({}) {
      forall id ensures Alternates(Of(trace, id)) {
        assert PassOf(false, Of(trace, id)) == Some(false);
      }
    }
  }

  lemma {:induction false} PassConcat(pending: set<string>, a: seq<Event>, b: seq<Event>)
    ensures Pass(pending, a + b)
            == match Pass(pending, a) case None => None case Some(middle) => Pass(middle, b)
    decreases |a|
  {
    if a == [] {
      assert a + b == b;
    } else {
      assert (a + b)[0] == a[0] && (a + b)[1..] == a[1..] + b;
      PassConcat(if a[0].Called? then pending + {a[0].id} else pending - {a[0].id}, a[1..], b);
    }
  }

  lemma PassPush(pending: set<string>, trace: seq<Event>, e: Event)
    requires Pass(pending, trace).Some?
    ensures var p := Pass(pending, trace).value;
            Pass(pending, trace + [e])
            == if e.Called? == (e.id in p) then None
               else Some(if e.Called? then p + {e.id} else p - {e.id})
  {
    PassConcat(pending, trace, [e]);
    var p := Pass(pending, trace).value;
    assert Pass(p, [e]) == if e.Called? == (e.id in p) then None
                           else Pass(if e.Called? then p + {e.id} else p - {e.id}, [e][1..]);
  }

  lemma TracePush(messages: seq<Message>, m: Message)
    ensures Trace(messages + [m]) == Trace(messages) + MessageEvents(m)
  {
    assert (messages + [m])[..|messages|] == messages;
  }

  lemma {:induction false} TracePrefix(messages: seq<Message>, i: nat)
    requires i <= |messages|
    ensures exists rest :: Trace(messages) == Trace(messages[..i]) + rest
    decreases |messages| - i
  {
    hide MessageEvents;
    if i == |messages| {
      assert messages[..i] == messages && Trace(messages) == Trace(messages[..i]) + [];
    } else {
      TracePrefix(messages, i + 1);
      var rest :| Trace(messages) == Trace(messages[..i + 1]) + rest;
      assert messages[..i + 1] == messages[..i] + [messages[i]];
      TracePush(messages[..i], messages[i]);
      assert Trace(messages) == Trace(messages[..i]) + (MessageEvents(messages[i]) + rest);
    }
  }

  // A rejected prefix settles the whole conversation.
  lemma RejectedPrefix(messages: seq<Message>, i: nat, events: seq<Event>)
    requires i < |messages| && events <= MessageEvents(messages[i])
    requires Pass({}, Trace(messages[..i]) + events) == None
    ensures !Paired(Trace(messages))
  {
    hide Pass, Trace, MessageEvents, Paired;
    TracePrefix(messages, i + 1);
    var rest :| Trace(messages) == Trace(messages[..i + 1]) + rest;
    assert messages[..i + 1] == messages[..i] + [messages[i]];
    TracePush(messages[..i], messages[i]);
    var more := MessageEvents(messages[i])[|events|..];
    assert MessageEvents(messages[i]) == events + more;
    assert Trace(messages) == (Trace(messages[..i]) + events) + (more + rest);
    PassConcat({}, Trace(messages[..i]) + events, more + rest);
    PassIsPairing(Trace(messages));
  }

  lemma TraceOfNothing(messages: seq<Message>)
    ensures Trace(messages[..0]) == []
  {
  }

  datatype Refusal =
    | BadModel | NoMessages | BadRole | ContentTooLong | ResultIdOnAssistant | BadToolCall | DuplicateCall
    | BadToolMessage | BadPlainMessage | UnansweredCall | BadToolDefinition | ZeroTokens | BadTemperature
    | SearchOnConsumerSurface | CitationsWithoutSearch

  /** `CompletionRequest::validate`. */
  method Validate(r: CompletionRequest) returns (result: Result<(), Refusal>)
    ensures result.Ok? <==> ValidRequest(r)
    ensures result == Err(DuplicateCall) || result == Err(UnansweredCall) ==> !Paired(Trace(r.messages))
  {
    hide ValidToolCall, Contains, Finds, Trim, Blank, Paired, Utf8Len, MessageOk, TailOk, Trace;
    var model := Trim(r.model);
    TrimIsEmpty(r.model);
    FindsExactly(model, "://");
    if model == "" || Utf8Len(model) > MAX_MODEL_LENGTH || Finds(model, "://") { return Err(BadModel); }
    if r.messages == [] { return Err(NoMessages); }
    var pending: set<string> := {};
    assert Trace(r.messages[..0]) == [] by { TraceOfNothing(r.messages); }
    for i := 0 to |r.messages|
      invariant Pass({}, Trace(r.messages[..i])) == Some(pending)
      invariant forall k :: 0 <= k < i ==> MessageOk(r.messages[k])
    {
      var step := ValidateMessage(r.messages, i, pending);
      if step.Err? { return Err(step.error); }
      pending := step.value;
    }
    assert r.messages[..|r.messages|] == r.messages;
    PassIsPairing(Trace(r.messages));
    if pending != {} { return Err(UnansweredCall); }
    result := ValidateTail(r);
  }

  lemma ToolOkExactly(t: ToolDefinition)
    ensures ToolOk(t) <==> !(t.kind != "function" || !FunctionNameChecks(t.name) || !t.parameters.Obj?)
  {
    hide ValidFunctionName, FunctionNameChecks;
    FunctionNameExactly(t.name);
  }

  // The checks after the conversation.
  method ValidateTail(r: CompletionRequest) returns (result: Result<(), Refusal>)
    ensures result.Ok? <==> TailOk(r)
    ensures result != Err(DuplicateCall) && result != Err(UnansweredCall)
  {
    hide ToolOk;
    for i := 0 to |r.tools|
      invariant forall k :: 0 <= k < i ==> ToolOk(r.tools[k])
    {
      ToolOkExactly(r.tools[i]);
      if r.tools[i].kind != "function" || !FunctionNameChecks(r.tools[i].name) || !r.tools[i].parameters.Obj? {
        return Err(BadToolDefinition);
      }
    }
    if r.maxOutputTokens == Some(0) { return Err(ZeroTokens); }
    if r.temperature.Some?
       && (r.temperature.value.NotFinite? || !(0.0 <= r.temperature.value.value <= 2.0)) { return Err(BadTemperature); }
    if r.surface == ConsumerSurface && r.searchMode == Official { return Err(SearchOnConsumerSurface); }
    if r.includeCitations && r.searchMode != Official { return Err(CitationsWithoutSearch); }
    return Ok(());
  }

  // The body of the loop over messages: the pending set after message i.
  method ValidateMessage(messages: seq<Message>, i: nat, before: set<string>) returns (result: Result<set<string>, Refusal>)
    requires i < |messages| && Pass({}, Trace(messages[..i])) == Some(before)
    ensures result.Ok? ==> MessageOk(messages[i]) && Pass({}, Trace(messages[..i + 1])) == Some(result.value)
    ensures result.Err? ==> !MessageOk(messages[i]) || !Paired(Trace(messages))
    ensures result == Err(DuplicateCall) ==> !Paired(Trace(messages))
    ensures result != Err(UnansweredCall)
  {
    hide ValidToolCall, ToolCallChecks, Trim, Blank, Paired, Utf8Len, Trace;
    var message := messages[i];
    var pending := before;
    if !(message.role == "system" || message.role == "user" || message.role == "assistant" || message.role == "tool") {
      return Err(BadRole);
    }
    if message.content.Some? && Utf8Len(message.content.value) > MAX_MESSAGE_LENGTH { return Err(ContentTooLong); }
    assert messages[..i + 1] == messages[..i] + [message];
    TracePush(messages[..i], message);
    if message.role == "assistant" && message.toolCalls != [] {
      if message.toolCallId.Some? { return Err(ResultIdOnAssistant); }
      assert Trace(messages[..i]) + CallEvents(message.toolCalls)[..0] == Trace(messages[..i]);
      for j := 0 to |message.toolCalls|
        invariant Pass({}, Trace(messages[..i]) + CallEvents(message.toolCalls)[..j]) == Some(pending)
        invariant forall k :: 0 <= k < j ==> ValidToolCall(message.toolCalls[k])
      {
        var call := message.toolCalls[j];
        ToolCallExactly(call);
        if !ToolCallChecks(call) { return Err(BadToolCall); }
        var events := CallEvents(message.toolCalls);
        assert Trace(messages[..i]) + events[..j + 1] == (Trace(messages[..i]) + events[..j]) + [Called(call.id)];
        PassPush({}, Trace(messages[..i]) + events[..j], Called(call.id));
        if call.id in pending {
          RejectedPrefix(messages, i, events[..j + 1]);
          return Err(DuplicateCall);
        }
        pending := pending + {call.id};
      }
      assert CallEvents(message.toolCalls)[..|message.toolCalls|] == CallEvents(message.toolCalls);
      return Ok(pending);
    } else if message.role == "tool" {
      if message.toolCalls != [] || message.content.None? || message.content.value == "" || message.toolCallId.None? {
        return Err(BadToolMessage);
      }
      var id := message.toolCallId.value;
      PassPush({}, Trace(messages[..i]), Resulted(id));
      if id !in pending {
        RejectedPrefix(messages, i, [Resulted(id)]);
        return Err(BadToolMessage);
      }
      return Ok(pending - {id});
    } else {
      if message.content.Some? { TrimIsEmpty(message.content.value); }
      if message.toolCalls != [] || message.toolCallId.Some?
         || message.content.None? || Trim(message.content.value) == "" { return Err(BadPlainMessage); }
      assert Trace(messages[..i]) + [] == Trace(messages[..i]);
      return Ok(pending);
    }
  }

  // ----- Continuing a conversation -----

  function ResultIds(results: seq<Message>): seq<string>
    requires forall i :: 0 <= i < |results| ==> results[i].toolCallId.Some?
  {
    seq(|results|, i requires 0 <= i < |results| => results[i].toolCallId.value)
  }

  function Calls(ids: seq<string>): seq<Event> { seq(|ids|, i requires 0 <= i < |ids| => Called(ids[i])) }

  function Results(ids: seq<string>): seq<Event> { seq(|ids|, i requires 0 <= i < |ids| => Resulted(ids[i])) }

  lemma {:induction false} PassCalls(pending: set<string>, ids: seq<string>)
    requires Distinct(ids) && Elements(ids) !! pending
    ensures Pass(pending, Calls(ids)) == Some(pending + Elements(ids))
    decreases |ids|
  {
    if ids == [] {
      assert Elements(ids) == {} && pending + {} == pending && Calls(ids) == [];
    } else {
      var rest := ids[1..];
      ElementsHead(ids);
      hide Elements, Distinct;
      PassCalls(pending + {ids[0]}, rest);
      assert Calls(ids)[1..] == Calls(rest);
      assert pending + {ids[0]} + Elements(rest) == pending + Elements(ids);
    }
  }

  lemma {:induction false} PassResults(pending: set<string>, ids: seq<string>)
    requires Distinct(ids) && Elements(ids) <= pending
    ensures Pass(pending, Results(ids)) == Some(pending - Elements(ids))
    decreases |ids|
  {
    if ids == [] {
      assert Elements(ids) == {} && pending - {} == pending && Results(ids) == [];
    } else {
      var rest := ids[1..];
      ElementsHead(ids);
      hide Elements, Distinct;
      PassResults(pending - {ids[0]}, rest);
      assert Results(ids)[1..] == Results(rest);
      assert pending - {ids[0]} - Elements(rest) == pending - Elements(ids);
    }
  }

  lemma ElementsHead(ids: seq<string>)
    requires ids != [] && Distinct(ids)
    ensures Elements(ids) == {ids[0]} + Elements(ids[1..]) && ids[0] !in Elements(ids[1..])
    ensures Distinct(ids[1..])
  {
    var rest := ids[1..];
    forall i | 0 <= i < |ids| ensures ids[i] in {ids[0]} + Elements(rest) {
      if i > 0 { assert ids[i] == rest[i - 1]; }
    }
    forall i | 0 <= i < |rest| ensures rest[i] in Elements(ids) {
      assert rest[i] == ids[i + 1];
    }
  }

  lemma ResultsPush(results: seq<Message>, m: Message)
    requires forall i :: 0 <= i < |results| ==> results[i].toolCallId.Some?
    requires m.toolCallId.Some?
    ensures Results(ResultIds(results + [m])) == Results(ResultIds(results)) + [Resulted(m.toolCallId.value)]
  {
  }

  lemma {:induction false} TraceResults(messages: seq<Message>, results: seq<Message>)
    requires forall i :: 0 <= i < |results| ==> results[i].role == "tool" && results[i].toolCallId.Some?
    ensures Trace(messages + results) == Trace(messages) + Results(ResultIds(results))
    decreases |results|
  {
    if results == [] {
      assert messages + results == messages;
    } else {
      var n := |results| - 1;
      var before, last := results[..n], results[n];
      TraceResults(messages, before);
      TracePush(messages + before, last);
      ResultsPush(before, last);
      assert MessageEvents(last) == [Resulted(last.toolCallId.value)];
      hide Trace, MessageEvents, Results, ResultIds;
      InitLast(results);
      Assoc(messages, before, [last]);
      Assoc(Trace(messages), Results(ResultIds(before)), [Resulted(last.toolCallId.value)]);
    }
  }

  predicate IsToolResult(m: Message) {
    && m.role == "tool" && m.toolCalls == [] && m.toolCallId.Some?
    && m.content.Some? && m.content.value != "" && Utf8Len(m.content.value) <= 1_000_000
  }

  lemma AnsweredCallsPass(before: seq<Message>, ids: seq<string>, answered: seq<string>)
    requires Paired(Trace(before)) && Distinct(ids) && Distinct(answered) && Elements(ids) == Elements(answered)
    ensures Paired((Trace(before) + Calls(ids)) + Results(answered))
  {
    hide Paired, Trace, Pass, Elements, Distinct;
    var trace := Trace(before);
    assert {} + Elements(ids) == Elements(ids) && Elements(ids) - Elements(answered) == {};
    PassIsPairing(trace);
    PassCalls({}, ids);
    PassConcat({}, trace, Calls(ids));
    PassResults(Elements(ids), answered);
    PassConcat({}, trace + Calls(ids), Results(answered));
    PassIsPairing((trace + Calls(ids)) + Results(answered));
  }

  /** A valid conversation stays valid when it is continued with an assistant message carrying
      the tool calls of a normalized response and one result per call, in any order, provided
      the assistant's content is null or within the size limit. */
  lemma ContinuedConversationIsValid(
      r: CompletionRequest, message: Json, finishReason: string, assistant: Message, results: seq<Message>)
    requires ValidRequest(r)
    requires NormalizeAnswer(message, finishReason).Some? && NormalizeAnswer(message, finishReason).value.1 != []
    requires assistant.role == "assistant" && assistant.toolCallId == None
    requires assistant.toolCalls == NormalizeAnswer(message, finishReason).value.1
    requires assistant.content.Some? ==> Utf8Len(assistant.content.value) <= 1_000_000
    requires forall i :: 0 <= i < |results| ==> IsToolResult(results[i]) && results[i].toolCallId.Some?
    requires Distinct(ResultIds(results)) && Elements(ResultIds(results)) == Elements(CallIds(assistant.toolCalls))
    ensures ValidRequest(r.(messages := r.messages + [assistant] + results))
  {
    hide Trim, Blank, Contains, ValidToolCall, TailOk, Utf8Len, Trace, Paired, NormalizeAnswer;
    NormalizedCallsAreValid(message, finishReason);
    var calls := assistant.toolCalls;
    var longer := r.messages + [assistant];
    var all := longer + results;
    TracePush(r.messages, assistant);
    assert CallEvents(calls) == Calls(CallIds(calls));
    TraceResults(longer, results);
    AnsweredCallsPass(r.messages, CallIds(calls), ResultIds(results));
    assert MessageOk(assistant);
    forall i | 0 <= i < |all| ensures MessageOk(all[i]) {
      if i < |r.messages| { assert all[i] == r.messages[i]; }
      else if i > |r.messages| { assert all[i] == results[i - |longer|]; }
    }
    assert HeaderOk(r.(messages := all)) && TailOk(r.(messages := all)) by { TailIgnoresMessages(r, all); }
  }

  lemma TailIgnoresMessages(r: CompletionRequest, messages: seq<Message>)
    requires HeaderOk(r) && messages != []
    ensures HeaderOk(r.(messages := messages)) && (TailOk(r.(messages := messages)) <==> TailOk(r))
  {
    hide Trim, Contains, Utf8Len;
  }
}
