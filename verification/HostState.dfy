/** The Rust-owned output log of one worker isolate: the emit budget with its cached byte
    total, the checkpoint text, and the atomic restore of an untrusted checkpoint. */
module HostState {
  import opened Text
  import opened Utf8
  import opened Json

  type u64 = x: nat | x < U64_END

  // The host's pointer width is 64 bits.
  type usize = x: nat | x < U64_END

  datatype HostEvent = HostEvent(topic: string, payload: string)

  datatype HostOutputLimits = HostOutputLimits(maxEventBytes: usize, maxTotalEventBytes: usize, maxEvents: usize)

  datatype HostError =
    | Overflowed | EventTooLarge | TooManyEvents | TotalTooLarge
    | CheckpointTooLong | InvalidCheckpoint | NotInstalled

  const DEFAULT_LIMITS := HostOutputLimits(64 * 1024, 1024 * 1024, 1024)

  const MAX_CHECKPOINT_INPUT_BYTES: nat := 15 + 20 + 11 + 2 + 1024 * 1024 * 6 + 1024 * 25 + 1023 * 1

  predicate NoLooserThan(a: HostOutputLimits, b: HostOutputLimits) {
    a.maxEventBytes <= b.maxEventBytes && a.maxTotalEventBytes <= b.maxTotalEventBytes && a.maxEvents <= b.maxEvents
  }

  function EventBytes(e: HostEvent): nat { Utf8Len(e.topic) + Utf8Len(e.payload) }

  function TotalBytes(events: seq<HostEvent>): nat {
    if events == [] then 0 else TotalBytes(events[..|events| - 1]) + EventBytes(events[|events| - 1])
  }

  /** A log within the budget. */
  predicate Legal(limits: HostOutputLimits, events: seq<HostEvent>) {
    && |events| <= limits.maxEvents
    && (forall i :: 0 <= i < |events| ==> EventBytes(events[i]) <= limits.maxEventBytes)
    && TotalBytes(events) <= limits.maxTotalEventBytes
  }

  // What an emit answers, from the log alone: no cached total is consulted.
  function EmitOutcome(limits: HostOutputLimits, events: seq<HostEvent>, e: HostEvent): Result<(), HostError> {
    if EventBytes(e) >= U64_END then Err(Overflowed)
    else if EventBytes(e) > limits.maxEventBytes then Err(EventTooLarge)
    else if |events| >= limits.maxEvents then Err(TooManyEvents)
    else if TotalBytes(events) + EventBytes(e) >= U64_END then Err(Overflowed)
    else if TotalBytes(events) + EventBytes(e) > limits.maxTotalEventBytes then Err(TotalTooLarge)
    else Ok(())
  }

  lemma TotalPush(events: seq<HostEvent>, e: HostEvent)
    ensures TotalBytes(events + [e]) == TotalBytes(events) + EventBytes(e)
  {
    assert (events + [e])[..|events|] == events;
  }

  lemma {:induction false} TotalPrefix(events: seq<HostEvent>, k: nat)
    requires k <= |events|
    ensures TotalBytes(events[..k]) <= TotalBytes(events)
    ensures k < |events| ==> TotalBytes(events[..k]) + EventBytes(events[k]) <= TotalBytes(events)
    decreases |events| - k
  {
    if k < |events| {
      TotalPush(events[..k], events[k]);
      assert events[..k + 1] == events[..k] + [events[k]];
      TotalPrefix(events, k + 1);
    } else {
      assert events[..k] == events;
    }
  }

  /** On a legal log an event is accepted exactly when the longer log is legal. */
  lemma EmitAcceptsExactlyLegal(limits: HostOutputLimits, events: seq<HostEvent>, e: HostEvent)
    requires Legal(limits, events)
    ensures EmitOutcome(limits, events, e).Ok? <==> Legal(limits, events + [e])
  {
    TotalPush(events, e);
    assert (events + [e])[|events|] == e;
    assert forall i :: 0 <= i < |events| ==> (events + [e])[i] == events[i];
  }

  // ----- Checkpoint text -----

  function EventJson(e: HostEvent): Json {
    Obj([("topic", Str(e.topic)), ("payload", Str(e.payload))])
  }

  function EventJsons(events: seq<HostEvent>): (vs: seq<Json>)
    ensures |vs| == |events| && forall i :: 0 <= i < |vs| ==> vs[i] == EventJson(events[i])
  {
    if events == [] then [] else [EventJson(events[0])] + EventJsons(events[1..])
  }

  function StateJson(modelCalls: u64, events: seq<HostEvent>): Json {
    Obj([("model_calls", Num(Decimal(modelCalls))), ("events", Arr(EventJsons(events)))])
  }

  // serde_json::to_string of a host state: limits and cache are skipped.
  function CheckpointText(modelCalls: u64, events: seq<HostEvent>): string {
    Print(StateJson(modelCalls, events))
  }

  // The value of the one member with this name; a repeated field is an error in serde.
  function OnlyMember(members: seq<(string, Json)>, name: string): Option<Json> {
    var values := MemberValues(members, name);
    if |values| == 1 then Some(values[0]) else None
  }

  function MemberValues(members: seq<(string, Json)>, name: string): seq<Json> {
    if members == [] then []
    else (if members[0].0 == name then [members[0].1] else []) + MemberValues(members[1..], name)
  }

  // A two-field struct reads from an object, other members ignored, or from an array of two.
  function StructFields(v: Json, first: string, second: string): Option<(Json, Json)> {
    match v
    case Obj(members) =>
      (match (OnlyMember(members, first), OnlyMember(members, second))
       case (Some(a), Some(b)) => Some((a, b))
       case _ => None)
    case Arr(items) => if |items| == 2 then Some((items[0], items[1])) else None
    case _ => None
  }

  function AsU64(v: Json): Option<u64> {
    if v.Num? && AllDigits(v.lexeme) && DecimalValue(v.lexeme) < U64_END then Some(DecimalValue(v.lexeme)) else None
  }

  function DecodeEvent(v: Json): Option<HostEvent> {
    match StructFields(v, "topic", "payload")
    case Some((Str(topic), Str(payload))) => Some(HostEvent(topic, payload))
    case _ => None
  }

  function DecodeEvents(vs: seq<Json>): Option<seq<HostEvent>> {
    if vs == [] then Some([])
    else
      match (DecodeEvent(vs[0]), DecodeEvents(vs[1..]))
      case (Some(e), Some(es)) => Some([e] + es)
      case _ => None
  }

  function DecodeState(v: Json): Option<(u64, seq<HostEvent>)> {
    match StructFields(v, "model_calls", "events")
    case Some((calls, Arr(items))) =>
      (match (AsU64(calls), DecodeEvents(items))
       case (Some(n), Some(events)) => Some((n, events))
       case _ => None)
    case _ => None
  }

  function ParseCheckpoint(text: string): Option<(u64, seq<HostEvent>)> {
    match FromStr(text) case None => None case Some(v) => DecodeState(v)
  }

  // ----- Which values are checkpoints -----

  // The object has this member, and no other of its name.
  ghost predicate NamesOnce(members: seq<(string, Json)>, name: string, v: Json) {
    exists i :: 0 <= i < |members| && members[i] == (name, v) && forall j :: 0 <= j < |members| && j != i ==> members[j].0 != name
  }

  // A record of two fields: an object that names both once, or an array of the two.
  ghost predicate IsRecord(v: Json, first: string, a: Json, second: string, b: Json) {
    (v.Obj? && NamesOnce(v.members, first, a) && NamesOnce(v.members, second, b)) || v == Arr([a, b])
  }

  ghost predicate IsEvent(v: Json, e: HostEvent) {
    IsRecord(v, "topic", Str(e.topic), "payload", Str(e.payload))
  }

  ghost predicate AreEvents(items: seq<Json>, events: seq<HostEvent>) {
    |items| == |events| && forall i :: 0 <= i < |items| ==> IsEvent(items[i], events[i])
  }

  // An unsigned numeral below 2^64 for the counter, and the events in order.
  ghost predicate IsState(v: Json, modelCalls: u64, events: seq<HostEvent>) {
    exists numeral: string, items: seq<Json> ::
      && IsRecord(v, "model_calls", Num(numeral), "events", Arr(items))
      && AllDigits(numeral) && DecimalValue(numeral) == modelCalls
      && AreEvents(items, events)
  }

  lemma {:induction false} MemberValuesAt(members: seq<(string, Json)>, name: string)
    ensures MemberValues(members, name) == [] <==> forall i :: 0 <= i < |members| ==> members[i].0 != name
  {
    if members != [] {
      MemberValuesAt(members[1..], name);
      assert forall i :: 1 <= i < |members| ==> members[i] == members[1..][i - 1];
    }
  }

  lemma {:induction false} OnlyMemberAt(members: seq<(string, Json)>, name: string, i: nat)
    requires i < |members| && members[i].0 == name
    requires forall j :: 0 <= j < |members| && j != i ==> members[j].0 != name
    ensures OnlyMember(members, name) == Some(members[i].1)
  {
    var rest := members[1..];
    if i == 0 {
      MemberValuesAt(rest, name);
    } else {
      OnlyMemberAt(rest, name, i - 1);
    }
  }

  lemma {:induction false} OnlyMemberFrom(members: seq<(string, Json)>, name: string) returns (i: nat)
    requires OnlyMember(members, name).Some?
    ensures i < |members| && members[i] == (name, OnlyMember(members, name).value)
    ensures forall j :: 0 <= j < |members| && j != i ==> members[j].0 != name
  {
    var rest := members[1..];
    if members[0].0 == name {
      i := 0;
      MemberValuesAt(rest, name);
      assert forall j :: 1 <= j < |members| ==> members[j] == rest[j - 1];
    } else {
      var k := OnlyMemberFrom(rest, name);
      i := k + 1;
      assert forall j :: 1 <= j < |members| ==> members[j] == rest[j - 1];
    }
  }

  lemma OnlyMemberExactly(members: seq<(string, Json)>, name: string, v: Json)
    ensures OnlyMember(members, name) == Some(v) <==> NamesOnce(members, name, v)
  {
    hide OnlyMember;
    if OnlyMember(members, name) == Some(v) {
      var i := OnlyMemberFrom(members, name);
    }
    if i :| 0 <= i < |members| && members[i] == (name, v) && forall j :: 0 <= j < |members| && j != i ==> members[j].0 != name {
      OnlyMemberAt(members, name, i);
    }
  }

  lemma StructExactly(v: Json, first: string, a: Json, second: string, b: Json)
    ensures StructFields(v, first, second) == Some((a, b)) <==> IsRecord(v, first, a, second, b)
  {
    hide OnlyMember, NamesOnce;
    if v.Obj? {
      OnlyMemberExactly(v.members, first, a);
      OnlyMemberExactly(v.members, second, b);
    }
  }

  lemma EventExactly(v: Json, e: HostEvent)
    ensures DecodeEvent(v) == Some(e) <==> IsEvent(v, e)
  {
    hide StructFields, IsRecord;
    StructExactly(v, "topic", Str(e.topic), "payload", Str(e.payload));
  }

  lemma {:induction false} EventsExactly(items: seq<Json>, events: seq<HostEvent>)
    ensures DecodeEvents(items) == Some(events) <==> AreEvents(items, events)
  {
    hide DecodeEvent, IsEvent;
    if items != [] && events != [] {
      EventExactly(items[0], events[0]);
      EventsExactly(items[1..], events[1..]);
      assert forall i :: 1 <= i < |items| ==> items[i] == items[1..][i - 1];
      assert forall i :: 1 <= i < |events| ==> events[i] == events[1..][i - 1];
      HeadTail(events);
      assert AreEvents(items, events) <==> IsEvent(items[0], events[0]) && AreEvents(items[1..], events[1..]);
    }
  }

  lemma StateExactly(v: Json, modelCalls: u64, events: seq<HostEvent>)
    ensures DecodeState(v) == Some((modelCalls, events)) <==> IsState(v, modelCalls, events)
  {
    hide StructFields, IsRecord, DecodeEvents, AreEvents, DecimalValue;
    if numeral: string, items: seq<Json> :|
      && IsRecord(v, "model_calls", Num(numeral), "events", Arr(items))
      && AllDigits(numeral) && DecimalValue(numeral) == modelCalls && AreEvents(items, events) {
      StructExactly(v, "model_calls", Num(numeral), "events", Arr(items));
      EventsExactly(items, events);
    }
    if DecodeState(v) == Some((modelCalls, events)) {
      var (calls, log) := StructFields(v, "model_calls", "events").value;
      StructExactly(v, "model_calls", calls, "events", log);
      EventsExactly(log.items, events);
      assert calls == Num(calls.lexeme) && log == Arr(log.items);
    }
  }

  /** A restore succeeds exactly with a text within the bound that reads as a checkpoint of a
      state within the installed limits, and then restores that state: every other text is
      refused. */
  lemma RestoresExactly(text: string, limits: HostOutputLimits, modelCalls: u64, events: seq<HostEvent>)
    ensures Restored(text, limits) == Some((modelCalls, events)) <==>
              && Utf8Len(text) <= 6_318_127
              && FromStr(text).Some? && IsState(FromStr(text).value, modelCalls, events)
              && |events| <= limits.maxEvents
              && (forall i :: 0 <= i < |events| ==>
                    Utf8Len(events[i].topic) + Utf8Len(events[i].payload) <= limits.maxEventBytes)
              && TotalBytes(events) <= limits.maxTotalEventBytes
  {
    hide DecodeState, IsState, FromStr, Encode, TotalBytes;
    if FromStr(text).Some? { StateExactly(FromStr(text).value, modelCalls, events); }
  }

  lemma TwoMembers(a: (string, Json), b: (string, Json))
    requires a.0 != b.0
    ensures StructFields(Obj([a, b]), a.0, b.0) == Some((a.1, b.1))
  {
    var ms := [a, b];
    assert ms[1..] == [b];
    assert MemberValues([b], a.0) == [] && MemberValues([b], b.0) == [b.1];
  }

  lemma {:induction false} DecodeEventJsons(events: seq<HostEvent>)
    ensures DecodeEvents(EventJsons(events)) == Some(events)
  {
    if events != [] {
      var e := events[0];
      TwoMembers(("topic", Str(e.topic)), ("payload", Str(e.payload)));
      DecodeEventJsons(events[1..]);
      assert events == [e] + events[1..];
    }
  }

  /** The reader undoes the checkpoint printer on every state, legal or not. */
  lemma ParsePrinted(modelCalls: u64, events: seq<HostEvent>)
    ensures ParseCheckpoint(CheckpointText(modelCalls, events)) == Some((modelCalls, events))
  {
    var calls, items := Num(Decimal(modelCalls)), Arr(EventJsons(events));
    assert forall e: HostEvent :: Printable(EventJson(e));
    assert Printable(items);
    assert Printable(StateJson(modelCalls, events));
    FromStrPrint(StateJson(modelCalls, events));
    TwoMembers(("model_calls", calls), ("events", items));
    DecodeEventJsons(events);
    DecimalRoundTrip(modelCalls);
  }

  // ----- Checkpoint size -----

  lemma TwoMembersSize(a: (string, Json), b: (string, Json))
    requires PlainKey(a.0) && PlainKey(b.0)
    ensures Utf8Len(Print(Obj([a, b]))) == 9 + |a.0| + |b.0| + Utf8Len(Print(a.1)) + Utf8Len(Print(b.1))
  {
    assert [a, b][1..] == [b] && [b][1..] == [];
    assert MembersSize([b]) == 1 + Utf8Len(PrintMember(b));
    ObjectSize([a, b]);
    MemberSize(a);
    MemberSize(b);
  }

  lemma KeysArePlain()
    ensures PlainKey("model_calls") && PlainKey("events") && PlainKey("topic") && PlainKey("payload")
  {
  }

  lemma EventTextSize(e: HostEvent)
    ensures Utf8Len(Print(EventJson(e))) == 25 + Utf8Len(EscapeAll(e.topic)) + Utf8Len(EscapeAll(e.payload))
  {
    TwoMembersSize(("topic", Str(e.topic)), ("payload", Str(e.payload)));
    PrintStringSize(e.topic);
    PrintStringSize(e.payload);
  }

  function EscapedBytes(events: seq<HostEvent>): nat {
    if events == [] then 0
    else Utf8Len(EscapeAll(events[0].topic)) + Utf8Len(EscapeAll(events[0].payload)) + EscapedBytes(events[1..])
  }

  lemma {:induction false} EventsTextSize(events: seq<HostEvent>)
    ensures Utf8Len(PrintItems(EventJsons(events)))
            == EscapedBytes(events) + 25 * |events| + (if events == [] then 0 else |events| - 1)
  {
    if events != [] {
      var vs := EventJsons(events);
      EventTextSize(events[0]);
      EventsTextSize(events[1..]);
      assert vs[1..] == EventJsons(events[1..]);
      if |events| > 1 {
        JoinedSize(Print(vs[0]), ',', PrintItems(vs[1..]));
      }
    }
  }

  lemma CheckpointSize(modelCalls: u64, events: seq<HostEvent>)
    ensures Utf8Len(CheckpointText(modelCalls, events))
            == 28 + |Decimal(modelCalls)| + EscapedBytes(events) + 25 * |events|
               + (if events == [] then 0 else |events| - 1)
  {
    NumeralSize(modelCalls);
    EventsSize(events);
    KeysArePlain();
    hide Print, PlainKey, EscapedBytes, Utf8Len, Decimal;
    TwoMembersSize(("model_calls", Num(Decimal(modelCalls))), ("events", Arr(EventJsons(events))));
  }

  lemma NumeralSize(n: nat)
    ensures Utf8Len(Print(Num(Decimal(n)))) == |Decimal(n)|
  {
    AsciiLen(Decimal(n));
  }

  lemma EventsSize(events: seq<HostEvent>)
    ensures Utf8Len(Print(Arr(EventJsons(events))))
            == 2 + EscapedBytes(events) + 25 * |events| + (if events == [] then 0 else |events| - 1)
  {
    hide Print, Utf8Len;
    ArraySize(EventJsons(events));
    EventsTextSize(events);
  }

  lemma {:induction false} TotalConcat(a: seq<HostEvent>, b: seq<HostEvent>)
    ensures TotalBytes(a + b) == TotalBytes(a) + TotalBytes(b)
  {
    if b == [] {
      assert a + b == a && TotalBytes(b) == 0;
    } else {
      hide TotalBytes, EventBytes;
      var n := |b| - 1;
      TotalConcat(a, b[..n]);
      TotalPush(a + b[..n], b[n]);
      TotalPush(b[..n], b[n]);
      InitLast(b);
      Assoc(a, b[..n], [b[n]]);
    }
  }

  lemma TotalFromFront(events: seq<HostEvent>)
    requires events != []
    ensures TotalBytes(events) == EventBytes(events[0]) + TotalBytes(events[1..])
  {
    assert TotalBytes([]) == 0;
    TotalPush([], events[0]);
    hide TotalBytes, EventBytes;
    HeadTail(events);
    TotalConcat([events[0]], events[1..]);
    assert [] + [events[0]] == [events[0]];
  }

  // The closure of the fold over restored events.
  function AddRestored(limits: HostOutputLimits, total: usize, e: HostEvent): (r: Result<usize, HostError>)
    ensures r.Ok? <==>
              EventBytes(e) <= limits.maxEventBytes && total + EventBytes(e) <= limits.maxTotalEventBytes
    ensures r.Ok? ==> r.value == total + EventBytes(e)
  {
    var eventBytes := EventBytes(e);
    if eventBytes >= U64_END then Err(Overflowed)
    else if eventBytes > limits.maxEventBytes then Err(EventTooLarge)
    else if total + eventBytes >= U64_END then Err(Overflowed)
    else if total + eventBytes > limits.maxTotalEventBytes then Err(TotalTooLarge)
    else Ok(total + eventBytes)
  }

  function FoldRestored(limits: HostOutputLimits, total: usize, events: seq<HostEvent>): Result<usize, HostError>
    decreases |events|
  {
    if events == [] then Ok(total)
    else
      match AddRestored(limits, total, events[0])
      case Err(error) => Err(error)
      case Ok(next) => FoldRestored(limits, next, events[1..])
  }

  lemma {:induction false} FoldRestoredIs(limits: HostOutputLimits, total: usize, events: seq<HostEvent>)
    requires total <= limits.maxTotalEventBytes
    ensures var r := FoldRestored(limits, total, events);
            && (r.Ok? <==>
                  && (forall k :: 0 <= k < |events| ==> EventBytes(events[k]) <= limits.maxEventBytes)
                  && total + TotalBytes(events) <= limits.maxTotalEventBytes)
            && (r.Ok? ==> r.value == total + TotalBytes(events))
    decreases |events|
  {
    if events != [] {
      TotalFromFront(events);
      var next := AddRestored(limits, total, events[0]);
      if next.Ok? { FoldRestoredIs(limits, next.value, events[1..]); }
      hide EventBytes, TotalBytes, AddRestored;
      assert forall k :: 1 <= k < |events| ==> events[k] == events[1..][k - 1];
    }
  }

  lemma {:induction false} EscapedAtMostSixfold(events: seq<HostEvent>)
    ensures EscapedBytes(events) <= 6 * TotalBytes(events)
  {
    if events != [] {
      TotalFromFront(events);
      EscapeAllSize(events[0].topic);
      EscapeAllSize(events[0].payload);
      EscapedAtMostSixfold(events[1..]);
    }
  }

  /** The compile-time bound admits the checkpoint of every state legal under the default policy. */
  lemma BoundAdmitsLegal(modelCalls: u64, events: seq<HostEvent>)
    requires Legal(DEFAULT_LIMITS, events)
    ensures Utf8Len(CheckpointText(modelCalls, events)) <= MAX_CHECKPOINT_INPUT_BYTES
  {
    CheckpointSize(modelCalls, events);
    EscapedAtMostSixfold(events);
    U64Digits(modelCalls);
  }

  function Controls(n: nat): string { if n == 0 then "" else [0x01 as char] + Controls(n - 1) }

  lemma {:induction false} ControlsSize(n: nat)
    ensures Utf8Len(Controls(n)) == n && Utf8Len(EscapeAll(Controls(n))) == 6 * n
  {
    if n > 0 {
      var c := 0x01 as char;
      ControlsSize(n - 1);
      assert Controls(n)[1..] == Controls(n - 1);
      AsciiLen(Escape(c));
      Utf8LenConcat(Escape(c), EscapeAll(Controls(n - 1)));
    }
  }

  function Copies(e: HostEvent, n: nat): (es: seq<HostEvent>)
    ensures |es| == n && forall i :: 0 <= i < n ==> es[i] == e
  {
    if n == 0 then [] else [e] + Copies(e, n - 1)
  }

  lemma Times(n: nat, each: nat)
    requires n > 0
    ensures n * each == each + (n - 1) * each
  {
  }

  lemma {:induction false} CopiesTotal(e: HostEvent, n: nat, each: nat)
    requires EventBytes(e) == each
    ensures TotalBytes(Copies(e, n)) == n * each
  {
    if n > 0 {
      assert Copies(e, n) == [e] + Copies(e, n - 1);
      TotalPush([], e);
      assert [] + [e] == [e] && TotalBytes([]) == 0;
      hide TotalBytes, Copies, EventBytes;
      CopiesTotal(e, n - 1, each);
      TotalConcat([e], Copies(e, n - 1));
      Times(n, each);
    }
  }

  lemma {:induction false} CopiesEscaped(e: HostEvent, n: nat, each: nat)
    requires EscapedBytes([e]) == each
    ensures EscapedBytes(Copies(e, n)) == n * each
  {
    if n > 0 {
      var rest := Copies(e, n - 1);
      CopiesEscaped(e, n - 1, each);
      assert Copies(e, n)[1..] == rest && [e][1..] == [];
      assert EscapedBytes([e] + rest) == EscapedBytes([e]) + EscapedBytes(rest);
      hide EscapedBytes, Copies;
      Times(n, each);
    }
  }

  lemma ControlsEvent(n: nat)
    ensures var e := HostEvent(Controls(n), "");
            EventBytes(e) == n && EscapedBytes([e]) == 6 * n
  {
    ControlsSize(n);
    AsciiLen("");
    assert EscapeAll("") == "";
    hide Controls, EscapeAll, Utf8Len;
    var e := HostEvent(Controls(n), "");
    assert [e][1..] == [];
  }

  /** The bound is tight: some state legal under the default policy prints to exactly that
      many bytes. */
  lemma BoundAttained() returns (modelCalls: u64, events: seq<HostEvent>)
    ensures Legal(DEFAULT_LIMITS, events)
    ensures Utf8Len(CheckpointText(modelCalls, events)) == MAX_CHECKPOINT_INPUT_BYTES
  {
    var n: nat :| n == DEFAULT_LIMITS.maxEvents;
    var e := HostEvent(Controls(n), "");
    modelCalls, events := U64_END - 1, Copies(e, n);
    ControlsEvent(n);
    hide Controls, EventBytes, Utf8Len, TotalBytes, EscapedBytes, Copies, CheckpointText;
    CopiesTotal(e, n, 1024);
    CopiesEscaped(e, n, 6 * 1024);
    CheckpointSize(modelCalls, events);
    U64Digits(modelCalls);
  }

  // ----- Restore -----

  /** What restoring a text under installed limits yields. */
  function Restored(text: string, limits: HostOutputLimits): Option<(u64, seq<HostEvent>)> {
    if Utf8Len(text) > MAX_CHECKPOINT_INPUT_BYTES then None
    else
      match ParseCheckpoint(text)
      case Some((calls, events)) => if Legal(limits, events) then Some((calls, events)) else None
      case None => None
  }

  /** A legal state comes back from its own checkpoint exactly when the text is within the bound. */
  lemma RestoreOwnCheckpoint(modelCalls: u64, events: seq<HostEvent>, limits: HostOutputLimits)
    requires Legal(limits, events)
    ensures var text := CheckpointText(modelCalls, events);
            && (Restored(text, limits).Some? <==> Utf8Len(text) <= MAX_CHECKPOINT_INPUT_BYTES)
            && (Restored(text, limits).Some? ==> Restored(text, limits).value == (modelCalls, events))
  {
    ParsePrinted(modelCalls, events);
  }

  /** Checkpoint then restore is the identity for every legal state whose installed limits are
      no looser than the defaults. */
  lemma CheckpointRestoreIdentity(modelCalls: u64, events: seq<HostEvent>, limits: HostOutputLimits)
    requires Legal(limits, events) && NoLooserThan(limits, DEFAULT_LIMITS)
    ensures Restored(CheckpointText(modelCalls, events), limits) == Some((modelCalls, events))
  {
    BoundAdmitsLegal(modelCalls, events);
    RestoreOwnCheckpoint(modelCalls, events, limits);
  }

  /** A looser policy breaks it: this state is legal, and its own checkpoint is refused. */
  lemma LooserLimitsRefuseOwnCheckpoint()
    ensures var n := 1_060_000;
            var limits := HostOutputLimits(n, n, 1);
            var events := [HostEvent(Controls(n), "")];
            Legal(limits, events) && Restored(CheckpointText(0, events), limits) == None
  {
    var n := 1_060_000;
    var e := HostEvent(Controls(n), "");
    var events := [e];
    ControlsSize(n);
    AsciiLen("");
    assert events[..0] == [] && events[1..] == [];
    assert TotalBytes(events) == EventBytes(e);
    assert EscapedBytes(events) == 6 * n;
    CheckpointSize(0, events);
  }

  // ----- Whole runs -----

  datatype Live = Live(modelCalls: u64, events: seq<HostEvent>, limits: HostOutputLimits)

  datatype Action =
    | ModelComplete
    | Emit(topic: string, payload: string)
    | Checkpoint
    | Restore(text: string)

  function Step(s: Live, a: Action): Live {
    match a
    case ModelComplete => s.(modelCalls := (s.modelCalls + 1) % U64_END)
    case Emit(topic, payload) =>
      var e := HostEvent(topic, payload);
      if EmitOutcome(s.limits, s.events, e).Ok? then s.(events := s.events + [e]) else s
    case Checkpoint => s
    case Restore(text) =>
      (match Restored(text, s.limits)
       case Some((calls, events)) => s.(modelCalls := calls, events := events)
       case None => s)
  }

  function Run(s: Live, actions: seq<Action>): Live {
    if actions == [] then s else Step(Run(s, actions[..|actions| - 1]), actions[|actions| - 1])
  }

  /** Whatever the script and the restored texts are, the log stays within the installed
      budget and the installed budget never changes. */
  lemma {:induction false} RunsStayWithinBudget(s: Live, actions: seq<Action>)
    requires Legal(s.limits, s.events)
    ensures Run(s, actions).limits == s.limits
    ensures Legal(s.limits, Run(s, actions).events)
  {
    if actions != [] {
      var n := |actions| - 1;
      RunsStayWithinBudget(s, actions[..n]);
      var before := Run(s, actions[..n]);
      if actions[n].Emit? {
        EmitAcceptsExactlyLegal(s.limits, before.events, HostEvent(actions[n].topic, actions[n].payload));
      }
    }
  }

  /** What each step does, at any point of any run: an emit appends its event exactly when the
      longer log is within budget, and otherwise changes nothing; a restore replaces counter and
      log together by what a text within the bound and the budget says, or changes nothing; a
      model call counts by one; a checkpoint changes nothing. */
  lemma StepsDoExactly(s: Live, actions: seq<Action>, a: Action)
    requires Legal(s.limits, s.events)
    ensures var now, next := Run(s, actions), Run(s, actions + [a]);
            && (a.Emit? ==>
                  var longer := now.events + [HostEvent(a.topic, a.payload)];
                  next == if Legal(s.limits, longer) then now.(events := longer) else now)
            && (a.Restore? ==>
                  var read := ParseCheckpoint(a.text);
                  if Utf8Len(a.text) <= MAX_CHECKPOINT_INPUT_BYTES && read.Some? && Legal(s.limits, read.value.1)
                  then next == Live(read.value.0, read.value.1, s.limits)
                  else next == now)
            && (a.ModelComplete? ==> next == now.(modelCalls := (now.modelCalls + 1) % 0x1_0000_0000_0000_0000))
            && (a.Checkpoint? ==> next == now)
  {
    RunsStayWithinBudget(s, actions);
    RunPush(s, actions, a);
    hide Run, Legal, ParseCheckpoint, Step;
    StepExactly(Run(s, actions), a);
  }

  lemma RunPush(s: Live, actions: seq<Action>, a: Action)
    ensures Run(s, actions + [a]) == Step(Run(s, actions), a)
  {
    hide Step;
    assert (actions + [a])[..|actions|] == actions;
  }

  lemma StepExactly(now: Live, a: Action)
    requires Legal(now.limits, now.events)
    ensures var next := Step(now, a);
            && (a.Emit? ==>
                  var longer := now.events + [HostEvent(a.topic, a.payload)];
                  next == if Legal(now.limits, longer) then now.(events := longer) else now)
            && (a.Restore? ==>
                  var read := ParseCheckpoint(a.text);
                  if Utf8Len(a.text) <= MAX_CHECKPOINT_INPUT_BYTES && read.Some? && Legal(now.limits, read.value.1)
                  then next == Live(read.value.0, read.value.1, now.limits)
                  else next == now)
            && (a.ModelComplete? ==> next == now.(modelCalls := (now.modelCalls + 1) % 0x1_0000_0000_0000_0000))
            && (a.Checkpoint? ==> next == now)
  {
    hide Legal, ParseCheckpoint, EmitOutcome, Encode, MAX_CHECKPOINT_INPUT_BYTES;
    match a
    case Emit(topic, payload) => EmitAcceptsExactlyLegal(now.limits, now.events, HostEvent(topic, payload));
    case _ =>
  }

  /** At any point of any run, under any limits, a checkpoint taken now brings the same state
      back later, however the run went on in between, unless its text is over the bound: then
      it changes nothing. Limits no looser than the defaults keep every text within the bound. */
  lemma CheckpointSurvivesRuns(s: Live, actions: seq<Action>, later: seq<Action>)
    requires Legal(s.limits, s.events)
    ensures var saved := Run(s, actions);
            var now := Run(saved, later);
            var text := CheckpointText(saved.modelCalls, saved.events);
            && Step(now, Restore(text)) == (if Utf8Len(text) <= MAX_CHECKPOINT_INPUT_BYTES then saved else now)
            && (NoLooserThan(s.limits, DEFAULT_LIMITS) ==> Utf8Len(text) <= MAX_CHECKPOINT_INPUT_BYTES)
  {
    RunsStayWithinBudget(s, actions);
    var saved := Run(s, actions);
    RunsStayWithinBudget(saved, later);
    hide Run, CheckpointText, Legal, Restored;
    RestoreOwnCheckpoint(saved.modelCalls, saved.events, s.limits);
    if NoLooserThan(s.limits, DEFAULT_LIMITS) {
      CheckpointRestoreIdentity(saved.modelCalls, saved.events, s.limits);
    }
  }

  // ----- The stateful implementation -----

  class HostState {
    var modelCalls: u64
    var events: seq<HostEvent>
    var limits: HostOutputLimits
    var outputBytes: Option<usize>

    // The cached total, when there is one, is the total.
    ghost predicate CacheCoherent()
      reads this
    {
      outputBytes.Some? ==> outputBytes.value == TotalBytes(events)
    }

    ghost function View(): Live
      reads this
    {
      Live(modelCalls, events, limits)
    }

    constructor WithOutputLimits(limits: HostOutputLimits)
      ensures View() == Live(0, [], limits) && CacheCoherent() && Legal(limits, events)
    {
      this.modelCalls := 0;
      this.events := [];
      this.limits := limits;
      this.outputBytes := Some(0);
    }

    constructor Deserialized(modelCalls: u64, events: seq<HostEvent>)
      ensures View() == Live(modelCalls, events, DEFAULT_LIMITS) && outputBytes == None
    {
      this.modelCalls := modelCalls;
      this.events := events;
      this.limits := DEFAULT_LIMITS;
      this.outputBytes := None;
    }

    method OutputBytes() returns (r: Result<usize, HostError>)
      requires CacheCoherent()
      modifies this`outputBytes
      ensures CacheCoherent()
      ensures r == if TotalBytes(events) < U64_END then Ok(TotalBytes(events)) else Err(Overflowed)
      ensures outputBytes == if r.Ok? then Some(r.value) else old(outputBytes)
    {
      if outputBytes.Some? {
        return Ok(outputBytes.value);
      }
      var total := 0;
      var i := 0;
      while i < |events|
        invariant 0 <= i <= |events| && outputBytes == None
        invariant total == TotalBytes(events[..i]) && total < U64_END
      {
        var event := events[i];
        TotalPrefix(events, i);
        TotalPush(events[..i], event);
        assert events[..i + 1] == events[..i] + [event];
        var eventBytes := Utf8Len(event.topic) + Utf8Len(event.payload);
        if eventBytes >= U64_END { return Err(Overflowed); }
        if total + eventBytes >= U64_END { return Err(Overflowed); }
        total := total + eventBytes;
        i := i + 1;
      }
      assert events[..i] == events;
      outputBytes := Some(total);
      return Ok(total);
    }

    /** Whether or not the total is cached, the answer is the one computed from the log, and
        a refused event leaves the log and the counter as they were. */
    method EmitEvent(topic: string, payload: string) returns (r: Result<(), HostError>)
      requires CacheCoherent()
      modifies this
      ensures CacheCoherent()
      ensures r == EmitOutcome(old(limits), old(events), HostEvent(topic, payload))
      ensures View() == Step(old(View()), Emit(topic, payload))
      ensures r.Err? ==> View() == old(View())
    {
      var eventBytes := Utf8Len(topic) + Utf8Len(payload);
      if eventBytes >= U64_END { return Err(Overflowed); }
      if eventBytes > limits.maxEventBytes { return Err(EventTooLarge); }
      if |events| >= limits.maxEvents { return Err(TooManyEvents); }
      var spent := OutputBytes();
      if spent.Err? { return Err(spent.error); }
      var totalBytes := spent.value + eventBytes;
      if totalBytes >= U64_END { return Err(Overflowed); }
      if totalBytes > limits.maxTotalEventBytes { return Err(TotalTooLarge); }
      TotalPush(events, HostEvent(topic, payload));
      events := events + [HostEvent(topic, payload)];
      outputBytes := Some(totalBytes);
      return Ok(());
    }

    method ValidateRestoredEvents() returns (r: Result<usize, HostError>)
      ensures r.Ok? <==> Legal(limits, events)
      ensures r.Ok? ==> r.value == TotalBytes(events)
    {
      if |events| > limits.maxEvents { return Err(TooManyEvents); }
      FoldRestoredIs(limits, 0, events);
      r := FoldRestored(limits, 0, events);
    }

    static method RestoreCheckpoint(text: string, current: HostState) returns (r: Result<HostState, HostError>)
      ensures r.Ok? <==> Restored(text, current.limits).Some?
      ensures r.Ok? ==> fresh(r.value) && r.value.CacheCoherent() && r.value.outputBytes.Some?
      ensures r.Ok? ==> r.value.View() == Step(current.View(), Restore(text))
    {
      if Utf8Len(text) > MAX_CHECKPOINT_INPUT_BYTES { return Err(CheckpointTooLong); }
      var parsed := ParseCheckpoint(text);
      if parsed.None? { return Err(InvalidCheckpoint); }
      var restored := new HostState.Deserialized(parsed.value.0, parsed.value.1);
      restored.limits := current.limits;
      restored.outputBytes := None;
      var total := restored.ValidateRestoredEvents();
      if total.Err? { return Err(total.error); }
      restored.outputBytes := Some(total.value);
      return Ok(restored);
    }
  }

  /** The isolate's op state holds at most one host state; a restore replaces it whole. */
  class EmbeddedIsolate {
    var host: HostState?

    constructor (host: HostState?)
      ensures this.host == host
    {
      this.host := host;
    }

    method CheckpointNow() returns (r: Result<string, HostError>)
      ensures r == if host == null then Err(NotInstalled) else Ok(CheckpointText(host.modelCalls, host.events))
    {
      if host == null { return Err(NotInstalled); }
      return Ok(CheckpointText(host.modelCalls, host.events));
    }

    method RestoreCheckpoint(text: string) returns (r: Result<(), HostError>)
      requires host != null ==> host.CacheCoherent()
      modifies this
      ensures host == null <==> old(host) == null
      ensures r.Ok? <==> old(host) != null && Restored(text, old(host.limits)).Some?
      ensures host != null ==> host.CacheCoherent() && host.View() == Step(old(host.View()), Restore(text))
      ensures r.Err? ==> host == old(host)
      ensures r.Ok? ==> fresh(host)
    {
      if host == null { return Err(NotInstalled); }
      var state := HostState.RestoreCheckpoint(text, host);
      if state.Err? { return Err(state.error); }
      host := state.value;
      return Ok(());
    }

    /** One action of a run against the live isolate. */
    method Perform(a: Action)
      requires host != null && host.CacheCoherent()
      modifies this, host
      ensures host != null && host.CacheCoherent()
      ensures host == old(host) || fresh(host)
      ensures host.View() == Step(old(host.View()), a)
    {
      match a
      case ModelComplete => host.modelCalls := (host.modelCalls + 1) % U64_END;
      case Emit(topic, payload) => var _ := host.EmitEvent(topic, payload);
      case Checkpoint => var _ := CheckpointNow();
      case Restore(text) => var _ := RestoreCheckpoint(text);
    }

    /** Every run of the live isolate is a run of the abstract log, so it keeps the budget. */
    method PerformAll(actions: seq<Action>)
      requires host != null && host.CacheCoherent() && Legal(host.limits, host.events)
      modifies this, host
      ensures host != null && host.CacheCoherent()
      ensures host.View() == Run(old(host.View()), actions)
      ensures host.limits == old(host.limits) && Legal(host.limits, host.events)
    {
      ghost var start := host.View();
      for i := 0 to |actions|
        invariant host != null && host.CacheCoherent()
        invariant host == old(host) || fresh(host)
        invariant host.View() == Run(start, actions[..i])
      {
        assert actions[..i + 1][..i] == actions[..i];
        Perform(actions[i]);
      }
      assert actions[..|actions|] == actions;
      RunsStayWithinBudget(start, actions);
    }
  }
}
