/** The idempotency contract: the in-memory store, the JSON command middleware in front of it,
    and what every interleaving of any number of clients keeps. */
module Idempotency {
  import opened Text
  import opened Utf8
  import opened Tenancy

  type u16 = x: nat | x < 0x1_0000

  datatype ErrorCode = InvalidRequest | Conflict | Internal | DependencyUnavailable

  datatype StoredResponse = StoredResponse(status: u16, contentType: string, body: seq<byte>)

  datatype Token = Token(scope: string, key: string, bodyHash: string)

  datatype Decision = New(token: Token) | Replay(response: StoredResponse) | InFlight

  datatype Slot = Slot(scope: string, key: string)

  datatype Record =
    | Reserved(bodyHash: string)
    | Completed(bodyHash: string, response: StoredResponse)

  type Records = map<Slot, Record>

  const MAX_IDEMPOTENCY_REQUEST_BYTES := 1_048_576
  const MAX_IDEMPOTENCY_RESPONSE_BYTES := 1_048_576

  // ----- The store -----

  function Begin(records: Records, scope: string, key: string, bodyHash: string): (Result<Decision, ErrorCode>, Records) {
    var slot := Slot(scope, key);
    if Trim(key) == "" || Trim(bodyHash) == "" then (Err(InvalidRequest), records)
    else if slot !in records then (Ok(New(Token(scope, key, bodyHash))), records[slot := Reserved(bodyHash)])
    else if records[slot].bodyHash != bodyHash then (Err(Conflict), records)
    else
      match records[slot]
      case Reserved(_) => (Ok(InFlight), records)
      case Completed(_, response) => (Ok(Replay(response)), records)
  }

  function Complete(records: Records, token: Token, response: StoredResponse): (Result<(), ErrorCode>, Records) {
    var slot := Slot(token.scope, token.key);
    if slot !in records || records[slot].bodyHash != token.bodyHash then (Err(Conflict), records)
    else if records[slot].Completed? then (Ok(()), records)
    else (Ok(()), records[slot := Completed(token.bodyHash, response)])
  }

  class MemoryIdempotencyStore {
    var records: Records

    constructor ()
      ensures records == map[]
    {
      records := map[];
    }

    method BeginRequest(scope: TenantScope, key: string, bodyHash: string) returns (r: Result<Decision, ErrorCode>)
      modifies this
      ensures (r, records) == Begin(old(records), StorageKey(scope), key, bodyHash)
      ensures old(records).Keys <= records.Keys
      ensures forall slot :: slot in old(records) ==> records[slot] == old(records)[slot]
    {
      TrimIsEmpty(key);
      if Trim(key) == "" { return Err(InvalidRequest); }
      if Trim(bodyHash) == "" { return Err(InvalidRequest); }
      var slot := Slot(StorageKey(scope), key);
      if slot !in records {
        records := records[slot := Reserved(bodyHash)];
        return Ok(New(Token(slot.scope, slot.key, bodyHash)));
      }
      match records[slot] {
        case Reserved(existing) =>
          if existing == bodyHash { return Ok(InFlight); }
        case Completed(existing, response) =>
          if existing == bodyHash { return Ok(Replay(response)); }
      }
      return Err(Conflict);
    }

    method CompleteRequest(token: Token, response: StoredResponse) returns (r: Result<(), ErrorCode>)
      modifies this
      ensures (r, records) == Complete(old(records), token, response)
      ensures records.Keys == old(records).Keys
      ensures forall slot :: slot in old(records) && slot != Slot(token.scope, token.key) ==> records[slot] == old(records)[slot]
    {
      var slot := Slot(token.scope, token.key);
      if slot in records && records[slot].bodyHash == token.bodyHash {
        if records[slot].Reserved? {
          records := records[slot := Completed(token.bodyHash, response)];
        }
        return Ok(());
      }
      return Err(Conflict);
    }
  }

  // ----- Responses and their stored form -----

  /** The content type is the raw header value, when there is one. */
  datatype Response = Response(status: u16, contentType: Option<seq<byte>>, body: seq<byte>)

  predicate VisibleAscii(value: seq<byte>) {
    forall i :: 0 <= i < |value| ==> 0x20 <= value[i] < 0x7F || value[i] == 9
  }

  // HeaderValue::to_str.
  function HeaderText(value: seq<byte>): Option<string> {
    if VisibleAscii(value) then Some(seq(|value|, i requires 0 <= i < |value| => value[i] as char)) else None
  }

  // HeaderValue::try_from a text: its UTF-8 bytes, none of them a control other than tab.
  function HeaderFromText(text: string): Option<seq<byte>> {
    var bytes := Encode(text);
    if forall i :: 0 <= i < |bytes| ==> (bytes[i] >= 0x20 && bytes[i] != 0x7F) || bytes[i] == 9
    then Some(bytes) else None
  }

  function StoredForm(response: Response): StoredResponse {
    var contentType :=
      match response.contentType
      case None => ""
      case Some(value) => (match HeaderText(value) case Some(text) => text case None => "");
    StoredResponse(response.status, contentType, response.body)
  }

  function ReplayForm(stored: StoredResponse): Response {
    Response(
      if 100 <= stored.status <= 999 then stored.status else 500,
      if stored.contentType != "" then HeaderFromText(stored.contentType) else None,
      stored.body)
  }

  /** A replay has the live body and, where it is a status at all, the live status; it is the live
      response exactly when, besides, that has no content type or one of visible ASCII that is not
      empty. */
  lemma ReplayFidelity(live: Response)
    ensures var replay := ReplayForm(StoredForm(live));
            && replay.status == (if 100 <= live.status <= 999 then live.status else 500)
            && replay.body == live.body
            && (replay == live <==>
                  && 100 <= live.status <= 999
                  && (live.contentType == None
                      || (live.contentType.value != []
                          && forall i :: 0 <= i < |live.contentType.value| ==>
                               0x20 <= live.contentType.value[i] <= 0x7E || live.contentType.value[i] == 0x09)))
  {
    var text := StoredForm(live).contentType;
    if text != "" {
      AsciiEncoded(text);
      assert Encode(text) == live.contentType.value;
    }
  }

  /** An empty content type is not replayed. */
  lemma EmptyContentTypeIsLost()
    ensures var live := Response(200, Some([]), []);
            ReplayForm(StoredForm(live)) == Response(200, None, []) != live
  {
    ReplayFidelity(Response(200, Some([]), []));
  }

  /** Nor is one with a byte above 0x7F, which a header may hold: here a Latin-1 u with umlaut. */
  lemma ForeignContentTypeIsLost()
    ensures var live := Response(200, Some([0x74, 0xFC]), []);
            ReplayForm(StoredForm(live)) == Response(200, None, []) != live
  {
    assert !VisibleAscii([0x74, 0xFC]) by { assert [0x74, 0xFC][1] == 0xFC; }
  }

  // ----- The middleware -----

  datatype Request = Request(command: bool, scope: Option<TenantScope>, keyHeader: Option<seq<byte>>, body: seq<byte>)

  datatype Admission =
    | Bypass
    | Refuse(code: ErrorCode)
    | RefuseTooLarge
    | Admit(slot: Slot, bodyHash: string)

  type Hash = seq<byte> -> string

  // What the middleware decides before it asks the store.
  function Admitted(hash: Hash, r: Request): Admission {
    if !r.command then Bypass
    else if r.scope == None then Refuse(InvalidRequest)
    else if r.keyHeader == None || HeaderText(r.keyHeader.value) == None then Refuse(InvalidRequest)
    else
      var key := Trim(HeaderText(r.keyHeader.value).value);
      if key == "" then Refuse(InvalidRequest)
      else if |r.body| > MAX_IDEMPOTENCY_REQUEST_BYTES then RefuseTooLarge
      else Admit(Slot(StorageKey(r.scope.value), key), hash(r.body))
  }

  // The response that is cached and returned: the handler's own, or the internal error that
  // stands in for a body over the cache limit.
  function Cacheable(response: Response, overflow: Response): Response {
    if |response.body| <= MAX_IDEMPOTENCY_RESPONSE_BYTES then response
    else if |overflow.body| <= MAX_IDEMPOTENCY_RESPONSE_BYTES then overflow
    else overflow.(body := [])
  }

  datatype Reply =
    | PassedThrough
    | Refused(code: ErrorCode)
    | TooLarge
    | Replayed(stored: StoredResponse)
    | Fresh(response: Response)

  datatype Phase =
    | Arrived
    | Holding(token: Token)                        // begin answered New
    | Running(token: Token)                        // the handler has started
    | Returned(token: Token, response: Response)   // the handler has returned
    | Answered(reply: Reply)
    | Dropped                                      // the future was dropped midway

  datatype Client = Client(request: Request, phase: Phase)

  datatype Execution = Execution(client: nat, slot: Slot, bodyHash: string)

  /** The records and clients, with two histories the code does not keep: which client was
      given each reservation, and every handler execution in order. */
  datatype System = System(
    records: Records, clients: map<nat, Client>, owner: map<Slot, nat>, executions: seq<Execution>)

  const START := System(map[], map[], map[], [])

  datatype Action =
    | Arrive(client: nat, request: Request)
    | Enter(client: nat)
    | StartHandler(client: nat)
    | Return(client: nat, response: Response, overflow: Response)
    | Finish(client: nat)
    | Drop(client: nat)

  function Put(s: System, c: nat, phase: Phase): System
    requires c in s.clients
  {
    s.(clients := s.clients[c := s.clients[c].(phase := phase)])
  }

  // What the middleware does with the store's decision.
  function PhaseAfter(decision: Result<Decision, ErrorCode>): Phase {
    match decision
    case Ok(New(token)) => Holding(token)
    case Ok(Replay(stored)) => Answered(Replayed(stored))
    case Ok(InFlight) => Answered(Refused(Conflict))
    case Err(code) => Answered(Refused(code))
  }

  function EnterStep(hash: Hash, s: System, c: nat): System
    requires c in s.clients
  {
    match Admitted(hash, s.clients[c].request)
    case Bypass => Put(s, c, Answered(PassedThrough))
    case Refuse(code) => Put(s, c, Answered(Refused(code)))
    case RefuseTooLarge => Put(s, c, Answered(TooLarge))
    case Admit(slot, bodyHash) =>
      var (decision, records) := Begin(s.records, slot.scope, slot.key, bodyHash);
      var phase := PhaseAfter(decision);
      var owner := if phase.Holding? then s.owner[slot := c] else s.owner;
      Put(s.(records := records, owner := owner), c, phase)
  }

  // An action that is not enabled leaves the system as it is.
  function Step(hash: Hash, s: System, a: Action): System {
    var c := a.client;
    if a.Arrive? then
      if c in s.clients then s else s.(clients := s.clients[c := Client(a.request, Arrived)])
    else if c !in s.clients then s
    else
      match (a, s.clients[c].phase)
      case (Enter(_), Arrived) => EnterStep(hash, s, c)
      case (StartHandler(_), Holding(token)) =>
        Put(s, c, Running(token)).(executions := s.executions + [Execution(c, SlotOf(token), token.bodyHash)])
      case (Return(_, response, overflow), Running(token)) =>
        Put(s, c, Returned(token, Cacheable(response, overflow)))
      case (Finish(_), Returned(token, response)) =>
        var (result, records) := Complete(s.records, token, StoredForm(response));
        Put(s.(records := records), c,
            Answered(match result case Ok(_) => Fresh(response) case Err(code) => Refused(code)))
      case (Drop(_), Holding(_)) => Put(s, c, Dropped)
      case (Drop(_), Running(_)) => Put(s, c, Dropped)
      case (Drop(_), Returned(_, _)) => Put(s, c, Dropped)
      case _ => s
  }

  function Run(hash: Hash, actions: seq<Action>): System {
    if actions == [] then START
    else Step(hash, Run(hash, actions[..|actions| - 1]), actions[|actions| - 1])
  }

  lemma RunPush(hash: Hash, actions: seq<Action>, a: Action)
    ensures Run(hash, actions + [a]) == Step(hash, Run(hash, actions), a)
  {
    hide Step;
    assert (actions + [a])[..|actions|] == actions;
  }

  // ----- The invariant -----

  predicate HasToken(p: Phase) { p.Holding? || p.Running? || p.Returned? }

  function SlotOf(token: Token): Slot { Slot(token.scope, token.key) }

  /** The handler executions started for one slot, in order. */
  function StartsOf(executions: seq<Execution>, slot: Slot): seq<Execution> {
    if executions == [] then []
    else
      var n := |executions| - 1;
      StartsOf(executions[..n], slot) + if executions[n].slot == slot then [executions[n]] else []
  }

  lemma StartsPush(executions: seq<Execution>, e: Execution, slot: Slot)
    ensures StartsOf(executions + [e], slot) == StartsOf(executions, slot) + if e.slot == slot then [e] else []
  {
    assert (executions + [e])[..|executions|] == executions;
  }

  // The record of this client's own slot is completed with this response.
  predicate RecordIs(hash: Hash, s: System, r: Request, stored: StoredResponse) {
    var a := Admitted(hash, r);
    a.Admit? && a.slot in s.records && s.records[a.slot] == Completed(a.bodyHash, stored)
  }

  predicate ClientOk(hash: Hash, s: System, c: nat)
    requires c in s.clients
  {
    var p := s.clients[c].phase;
    && (HasToken(p) ==>
          var slot := SlotOf(p.token);
          && slot in s.records && s.records[slot] == Reserved(p.token.bodyHash)
          && slot in s.owner && s.owner[slot] == c
          && Admitted(hash, s.clients[c].request) == Admit(slot, p.token.bodyHash)
          && (p.Holding? <==> StartsOf(s.executions, slot) == []))
    && (AnsweredWith(s.clients[c]).Some? ==> RecordIs(hash, s, s.clients[c].request, AnsweredWith(s.clients[c]).value))
  }

  predicate SlotOk(s: System, slot: Slot) {
    var starts := StartsOf(s.executions, slot);
    if slot !in s.records then slot !in s.owner && starts == []
    else
      && slot in s.owner && s.owner[slot] in s.clients
      && (starts == [] || starts == [Execution(s.owner[slot], slot, s.records[slot].bodyHash)])
      && (s.records[slot].Completed? ==>
            var o := s.clients[s.owner[slot]].phase;
            && starts != [] && o.Answered? && o.reply.Fresh?
            && StoredForm(o.reply.response) == s.records[slot].response)
  }

  ghost predicate Inv(hash: Hash, s: System) {
    && (forall c :: c in s.clients ==> ClientOk(hash, s, c))
    && (forall slot :: SlotOk(s, slot))
  }

  // What one step may do to the rest: it moves client c, and changes the record, owner and
  // executions of no slot but one, which c holds or takes.
  predicate Touches(hash: Hash, s: System, t: System, c: nat, slot: Slot) {
    && t.clients.Keys == s.clients.Keys + {c}
    && (forall d :: d in s.clients && d != c ==> t.clients[d] == s.clients[d])
    && (forall k :: k in s.records && k != slot ==> k in t.records && t.records[k] == s.records[k])
    && (forall k :: k in t.records && k != slot ==> k in s.records)
    && (forall k :: k in s.owner && k != slot ==> k in t.owner && t.owner[k] == s.owner[k])
    && (forall k :: k in t.owner && k != slot ==> k in s.owner)
    && (slot !in s.records || (slot in s.owner && s.owner[slot] == c && s.records[slot].Reserved?))
  }

  // Steps that keep the touched slot's own conditions keep the invariant everywhere.
  lemma TouchKeepsInv(hash: Hash, s: System, t: System, c: nat, slot: Slot)
    requires Inv(hash, s) && Touches(hash, s, t, c, slot)
    requires forall k :: k != slot ==> StartsOf(t.executions, k) == StartsOf(s.executions, k)
    requires c in s.clients ==> !s.clients[c].phase.Answered?
    requires ClientOk(hash, t, c) && SlotOk(t, slot)
    ensures Inv(hash, t)
  {
    hide Admitted, StoredForm, StartsOf;
    assert SlotOk(s, slot);
    forall d | d in t.clients && d != c ensures ClientOk(hash, t, d) {
      assert ClientOk(hash, s, d);
    }
    forall k | k != slot ensures SlotOk(t, k) {
      assert SlotOk(s, k);
    }
  }

  // A begin either takes a free slot, or changes nothing; a replay shows the slot's record.
  lemma BeginOutcome(records: Records, scope: string, key: string, bodyHash: string)
    ensures var (d, next) := Begin(records, scope, key, bodyHash);
            var slot := Slot(scope, key);
            && (d.Ok? && d.value.New? ==>
                  slot !in records && next == records[slot := Reserved(bodyHash)]
                  && d.value.token == Token(scope, key, bodyHash))
            && (!(d.Ok? && d.value.New?) ==> next == records)
            && (d.Ok? && d.value.Replay? ==>
                  slot in records && records[slot] == Completed(bodyHash, d.value.response))
  {
    hide Trim;
  }

  // A begin that is not answered New moves only the client.
  lemma EnterCases(hash: Hash, s: System, c: nat)
    requires c in s.clients
    ensures var t := EnterStep(hash, s, c);
            var a := Admitted(hash, s.clients[c].request);
            && c in t.clients && t.clients[c].request == s.clients[c].request
            && (t.clients[c].phase.Holding? ==>
                  && a.Admit? && a.slot !in s.records
                  && t.clients[c].phase.token == Token(a.slot.scope, a.slot.key, a.bodyHash)
                  && t == Put(s.(records := s.records[a.slot := Reserved(a.bodyHash)], owner := s.owner[a.slot := c]),
                              c, t.clients[c].phase))
            && (!t.clients[c].phase.Holding? ==>
                  t.clients[c].phase.Answered? && t == s.(clients := s.clients[c := t.clients[c]]))
            && (t.clients[c].phase.Answered? && t.clients[c].phase.reply.Replayed? ==>
                  RecordIs(hash, s, s.clients[c].request, t.clients[c].phase.reply.stored))
            && (t.clients[c].phase.Answered? ==> !t.clients[c].phase.reply.Fresh?)
  {
    hide Begin, Admitted;
    var a := Admitted(hash, s.clients[c].request);
    if a.Admit? { BeginOutcome(s.records, a.slot.scope, a.slot.key, a.bodyHash); }
  }

  lemma TakingClient(hash: Hash, s: System, t: System, c: nat, token: Token)
    requires c in s.clients && Admitted(hash, s.clients[c].request) == Admit(SlotOf(token), token.bodyHash)
    requires StartsOf(s.executions, SlotOf(token)) == []
    requires t == Put(s.(records := s.records[SlotOf(token) := Reserved(token.bodyHash)],
                         owner := s.owner[SlotOf(token) := c]), c, Holding(token))
    ensures ClientOk(hash, t, c)
  {
    hide Admitted, StoredForm, StartsOf;
  }

  lemma TakingKeepsInv(hash: Hash, s: System, t: System, c: nat, token: Token)
    requires Inv(hash, s) && c in s.clients && s.clients[c].phase == Arrived
    requires SlotOf(token) !in s.records
    requires Admitted(hash, s.clients[c].request) == Admit(SlotOf(token), token.bodyHash)
    requires t == Put(s.(records := s.records[SlotOf(token) := Reserved(token.bodyHash)],
                         owner := s.owner[SlotOf(token) := c]), c, Holding(token))
    ensures Inv(hash, t)
  {
    hide Admitted, StoredForm, StartsOf;
    assert SlotOk(s, SlotOf(token));
    TakingClient(hash, s, t, c, token);
    hide Inv, ClientOk;
    TouchKeepsInv(hash, s, t, c, SlotOf(token));
  }

  function Completing(s: System, c: nat, token: Token, response: Response): System
    requires c in s.clients
  {
    Put(s.(records := s.records[SlotOf(token) := Completed(token.bodyHash, StoredForm(response))]),
        c, Answered(Fresh(response)))
  }

  lemma CompletingOwnSlot(s: System, c: nat, token: Token, response: Response)
    requires c in s.clients && SlotOk(s, SlotOf(token))
    requires SlotOf(token) in s.records && s.records[SlotOf(token)] == Reserved(token.bodyHash)
    requires s.owner[SlotOf(token)] == c && StartsOf(s.executions, SlotOf(token)) != []
    ensures SlotOk(Completing(s, c, token, response), SlotOf(token))
  {
    hide StoredForm, StartsOf;
  }

  lemma CompletingOwnClient(hash: Hash, s: System, c: nat, token: Token, response: Response)
    requires c in s.clients && Admitted(hash, s.clients[c].request) == Admit(SlotOf(token), token.bodyHash)
    ensures ClientOk(hash, Completing(s, c, token, response), c)
  {
    hide Admitted, StoredForm, StartsOf;
    var t := Completing(s, c, token, response);
    assert t.clients[c].request == s.clients[c].request;
    assert RecordIs(hash, t, t.clients[c].request, StoredForm(response));
  }

  lemma CompletingKeepsInv(hash: Hash, s: System, c: nat, token: Token, response: Response)
    requires Inv(hash, s) && c in s.clients && s.clients[c].phase == Returned(token, response)
    ensures Inv(hash, Completing(s, c, token, response))
  {
    hide Admitted, StoredForm, StartsOf;
    assert ClientOk(hash, s, c) && SlotOk(s, SlotOf(token));
    CompletingOwnSlot(s, c, token, response);
    CompletingOwnClient(hash, s, c, token, response);
    TouchKeepsInv(hash, s, Completing(s, c, token, response), c, SlotOf(token));
  }

  lemma EnterKeepsInv(hash: Hash, s: System, c: nat)
    requires Inv(hash, s) && c in s.clients && s.clients[c].phase == Arrived
    ensures Inv(hash, EnterStep(hash, s, c))
  {
    hide EnterStep, Admitted, StoredForm, StartsOf;
    var t := EnterStep(hash, s, c);
    EnterCases(hash, s, c);
    if t.clients[c].phase.Holding? {
      TakingKeepsInv(hash, s, t, c, t.clients[c].phase.token);
    } else {
      UntouchedKeepsInv(hash, s, t, c);
    }
  }

  // A step that only moves one unanswered client.
  lemma UntouchedKeepsInv(hash: Hash, s: System, t: System, c: nat)
    requires Inv(hash, s)
    requires c in t.clients && t == s.(clients := s.clients[c := t.clients[c]])
    requires c in s.clients ==> !s.clients[c].phase.Answered?
    requires ClientOk(hash, t, c)
    ensures Inv(hash, t)
  {
    hide Admitted, StoredForm, StartsOf;
    forall d | d in t.clients && d != c ensures ClientOk(hash, t, d) {
      assert ClientOk(hash, s, d);
    }
    forall k ensures SlotOk(t, k) {
      assert SlotOk(s, k);
    }
  }

  lemma StartKeepsInv(hash: Hash, s: System, c: nat)
    requires Inv(hash, s) && c in s.clients && s.clients[c].phase.Holding?
    ensures Inv(hash, Step(hash, s, StartHandler(c)))
  {
    hide Admitted, StoredForm, StartsOf;
    var t := Step(hash, s, StartHandler(c));
    var token := s.clients[c].phase.token;
    var slot := SlotOf(token);
    var e := Execution(c, slot, token.bodyHash);
    assert ClientOk(hash, s, c) && SlotOk(s, slot);
    forall k ensures StartsOf(t.executions, k) == StartsOf(s.executions, k) + if slot == k then [e] else [] {
      StartsPush(s.executions, e, k);
    }
    TouchKeepsInv(hash, s, t, c, slot);
  }

  lemma FinishSucceeds(hash: Hash, s: System, c: nat)
    requires c in s.clients && s.clients[c].phase.Returned? && ClientOk(hash, s, c)
    ensures var (token, response) := (s.clients[c].phase.token, s.clients[c].phase.response);
            Step(hash, s, Finish(c)) == Completing(s, c, token, response)
  {
    hide Admitted, StoredForm, StartsOf, EnterStep;
  }

  lemma FinishKeepsInv(hash: Hash, s: System, c: nat)
    requires Inv(hash, s) && c in s.clients && s.clients[c].phase.Returned?
    ensures Inv(hash, Step(hash, s, Finish(c)))
  {
    hide Step, Admitted, StoredForm, StartsOf;
    assert ClientOk(hash, s, c);
    FinishSucceeds(hash, s, c);
    CompletingKeepsInv(hash, s, c, s.clients[c].phase.token, s.clients[c].phase.response);
  }

  lemma StepKeepsInv(hash: Hash, s: System, a: Action)
    requires Inv(hash, s)
    ensures Inv(hash, Step(hash, s, a))
  {
    hide Admitted, StoredForm, StartsOf, EnterStep, Complete, Cacheable, ClientOk, Inv;
    var c := a.client;
    if a.Arrive? {
      if c !in s.clients { PhaseKeepsInv(hash, s, a.request, c, Arrived); }
    } else if c in s.clients {
      var p := s.clients[c].phase;
      match (a, p)
      case (Enter(_), Arrived) => EnterKeepsInv(hash, s, c);
      case (StartHandler(_), Holding(_)) => StartKeepsInv(hash, s, c);
      case (Finish(_), Returned(_, _)) => FinishKeepsInv(hash, s, c);
      case (Return(_, live, overflow), Running(token)) =>
        PhaseKeepsInv(hash, s, s.clients[c].request, c, Returned(token, Cacheable(live, overflow)));
      case (Drop(_), _) =>
        if HasToken(p) { PhaseKeepsInv(hash, s, s.clients[c].request, c, Dropped); }
      case _ =>
    }
  }

  // Arriving, returning from the handler and being dropped only set the client's phase.
  lemma PhaseKeepsInv(hash: Hash, s: System, r: Request, c: nat, phase: Phase)
    requires Inv(hash, s)
    requires c in s.clients ==> r == s.clients[c].request && HasToken(s.clients[c].phase)
    requires phase == Arrived || phase == Dropped
             || (c in s.clients && s.clients[c].phase.Running? && phase.Returned?
                 && phase.token == s.clients[c].phase.token)
    ensures Inv(hash, s.(clients := s.clients[c := Client(r, phase)]))
  {
    hide Admitted, StoredForm, StartsOf;
    UntouchedKeepsInv(hash, s, s.(clients := s.clients[c := Client(r, phase)]), c);
  }

  lemma {:induction false} RunKeepsInv(hash: Hash, actions: seq<Action>)
    ensures Inv(hash, Run(hash, actions))
  {
    if actions != [] {
      RunKeepsInv(hash, actions[..|actions| - 1]);
      StepKeepsInv(hash, Run(hash, actions[..|actions| - 1]), actions[|actions| - 1]);
    }
  }

  // ----- Main results -----

  /** Under every interleaving at most one handler execution ever starts for a scope and key. */
  lemma AtMostOneExecution(hash: Hash, actions: seq<Action>, slot: Slot)
    ensures |StartsOf(Run(hash, actions).executions, slot)| <= 1
  {
    hide Run;
    RunKeepsInv(hash, actions);
    InvOneExecution(hash, Run(hash, actions), slot);
  }

  lemma InvOneExecution(hash: Hash, s: System, slot: Slot)
    requires Inv(hash, s)
    ensures |StartsOf(s.executions, slot)| <= 1
  {
    hide StoredForm, StartsOf;
    assert SlotOk(s, slot);
  }

  function AnsweredWith(c: Client): Option<StoredResponse> {
    match c.phase
    case Answered(Replayed(stored)) => Some(stored)
    case Answered(Fresh(response)) => Some(StoredForm(response))
    case _ => None
  }

  /** A replay is the response of the one execution of the client's own slot, and the executed
      request had the same body hash: a different body hash never receives it. */
  lemma ReplayIsTheOneExecution(hash: Hash, actions: seq<Action>, c: nat) returns (e: Execution)
    requires var s := Run(hash, actions); c in s.clients && GotReplay(s.clients[c])
    ensures IsTheOneExecution(hash, Run(hash, actions), c, e)
  {
    hide Run, GotReplay, IsTheOneExecution;
    RunKeepsInv(hash, actions);
    e := InvReplay(hash, Run(hash, actions), c);
  }

  predicate GotReplay(c: Client) { c.phase.Answered? && c.phase.reply.Replayed? }

  // e is the one execution of c's slot, for a body of the same hash, and the client that ran it
  // was answered with the response that c was replayed.
  predicate IsTheOneExecution(hash: Hash, s: System, c: nat, e: Execution)
    requires c in s.clients && GotReplay(s.clients[c])
  {
    && Admitted(hash, s.clients[c].request) == Admit(e.slot, e.bodyHash)
    && e.bodyHash == hash(s.clients[c].request.body)
    && StartsOf(s.executions, e.slot) == [e]
    && e.client in s.clients && s.clients[e.client].phase.Answered?
    && s.clients[e.client].phase.reply.Fresh?
    && s.clients[c].phase.reply.stored == StoredForm(s.clients[e.client].phase.reply.response)
  }

  lemma AdmittedHash(hash: Hash, r: Request)
    requires Admitted(hash, r).Admit?
    ensures Admitted(hash, r).bodyHash == hash(r.body)
  {
    hide StorageKey, Trim, HeaderText;
  }

  lemma InvReplay(hash: Hash, s: System, c: nat) returns (e: Execution)
    requires Inv(hash, s) && c in s.clients && GotReplay(s.clients[c])
    ensures IsTheOneExecution(hash, s, c, e)
  {
    hide StoredForm, StartsOf;
    assert ClientOk(hash, s, c);
    var slot := Admitted(hash, s.clients[c].request).slot;
    assert SlotOk(s, slot);
    hide Inv;
    AdmittedHash(hash, s.clients[c].request);
    hide Admitted;
    assert s.records[slot].Completed? && StartsOf(s.executions, slot) != [];
    e := StartsOf(s.executions, slot)[0];
    assert slot == e.slot;
  }

  /** Two clients answered from one slot, fresh or by replay, sent bodies with the same hash
      and were given the same stored response. */
  lemma AnswersAgree(hash: Hash, actions: seq<Action>, c: nat, d: nat)
    requires var s := Run(hash, actions);
             && c in s.clients && d in s.clients
             && AnsweredWith(s.clients[c]).Some? && AnsweredWith(s.clients[d]).Some?
             && var (a, b) := (Admitted(hash, s.clients[c].request), Admitted(hash, s.clients[d].request));
                a.Admit? && b.Admit? && a.slot == b.slot
    ensures var s := Run(hash, actions);
            && AnsweredWith(s.clients[c]) == AnsweredWith(s.clients[d])
            && hash(s.clients[c].request.body) == hash(s.clients[d].request.body)
  {
    hide Run, StoredForm, StartsOf;
    RunKeepsInv(hash, actions);
    var s := Run(hash, actions);
    assert ClientOk(hash, s, c) && ClientOk(hash, s, d);
  }

  /** Whatever the others did meanwhile, a client whose handler returned finds its own
      reservation: finishing succeeds and completes the record, on the normal path and on the
      over-limit path. */
  lemma ReturnedClientsComplete(hash: Hash, actions: seq<Action>, c: nat)
    requires var s := Run(hash, actions); c in s.clients && s.clients[c].phase.Returned?
    ensures var s := Run(hash, actions);
            var t := Run(hash, actions + [Finish(c)]);
            var (token, response) := (s.clients[c].phase.token, s.clients[c].phase.response);
            && SlotOf(token) in s.records && s.records[SlotOf(token)] == Reserved(token.bodyHash)
            && c in t.clients && t.clients[c].phase == Answered(Fresh(response))
            && SlotOf(token) in t.records
            && t.records[SlotOf(token)] == Completed(hash(s.clients[c].request.body), StoredForm(response))
  {
    RunKeepsInv(hash, actions);
    RunPush(hash, actions, Finish(c));
    AdmittedHash(hash, Run(hash, actions).clients[c].request);
    hide Run, StoredForm, StartsOf, Step;
    assert ClientOk(hash, Run(hash, actions), c);
    FinishSucceeds(hash, Run(hash, actions), c);
  }

  lemma StepKeepsCompleted(hash: Hash, s: System, a: Action, slot: Slot)
    requires slot in s.records && s.records[slot].Completed?
    ensures slot in Step(hash, s, a).records && Step(hash, s, a).records[slot] == s.records[slot]
  {
    var c := a.client;
    if c in s.clients && a.Enter? {
      EnterCases(hash, s, c);
    } else if c in s.clients && a.Finish? && s.clients[c].phase.Returned? {
      CompleteKeepsCompleted(s.records, s.clients[c].phase.token, StoredForm(s.clients[c].phase.response), slot);
    }
  }

  lemma CompleteKeepsCompleted(records: Records, token: Token, response: StoredResponse, slot: Slot)
    requires slot in records && records[slot].Completed?
    ensures var next := Complete(records, token, response).1; slot in next && next[slot] == records[slot]
  {
  }

  /** A completed record stays as it is forever. */
  lemma {:induction false} CompletedForever(hash: Hash, actions: seq<Action>, later: seq<Action>, slot: Slot)
    requires slot in Run(hash, actions).records && Run(hash, actions).records[slot].Completed?
    ensures var s := Run(hash, actions + later);
            slot in s.records && s.records[slot] == Run(hash, actions).records[slot]
  {
    if later == [] {
      assert actions + later == actions;
    } else {
      hide Run, Step;
      var n := |later| - 1;
      CompletedForever(hash, actions, later[..n], slot);
      RunPush(hash, actions + later[..n], later[n]);
      InitLast(later);
      Assoc(actions, later[..n], [later[n]]);
      StepKeepsCompleted(hash, Run(hash, actions + later[..n]), later[n], slot);
    }
  }
}
