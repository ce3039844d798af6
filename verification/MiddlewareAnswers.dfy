/** What the idempotency middleware answers, said of the request itself: which requests it lets
    through and under which key, and what such a client meets at the store, in memory and in
    PostgreSQL. */
module MiddlewareAnswers {
  import opened Text
  import opened Utf8
  import opened Tenancy
  import opened Idempotency
  import opened PgIdempotency
  import opened PgMiddleware

  // ----- Admission -----

  predicate IsSpace(c: char) { c == ' ' || c == '\t' }

  predicate Spaces(s: string) { forall i :: 0 <= i < |s| ==> IsSpace(s[i]) }

  // The text of bytes that are ASCII and no controls but tabs.
  predicate Spells(text: string, bytes: seq<byte>) {
    && |text| == |bytes|
    && forall i :: 0 <= i < |text| ==> text[i] as int == bytes[i] && (0x20 <= bytes[i] <= 0x7E || bytes[i] == 0x09)
  }

  // The header reads as spaces, then the key, which has none at its ends, then spaces.
  ghost predicate Carries(header: seq<byte>, key: string) {
    exists a: string, b: string :: Surrounded(header, a, key, b)
  }

  predicate Surrounded(header: seq<byte>, a: string, key: string, b: string) {
    && Spells(a + key + b, header) && Spaces(a) && Spaces(b)
    && key != "" && !IsSpace(key[0]) && !IsSpace(key[|key| - 1])
  }

  ghost predicate HasKey(r: Request) { r.keyHeader.Some? && exists key :: Carries(r.keyHeader.value, key) }

  // The request reaches the store under this scope and key.
  ghost predicate LetThrough(r: Request, scope: TenantScope, key: string) {
    && r.command && r.scope == Some(scope)
    && r.keyHeader.Some? && Carries(r.keyHeader.value, key)
    && |r.body| <= 1_048_576
  }

  lemma HeaderTextSpells(header: seq<byte>)
    ensures HeaderText(header).Some? ==> Spells(HeaderText(header).value, header)
    ensures forall text :: Spells(text, header) ==> HeaderText(header) == Some(text)
  {
    forall text | Spells(text, header) ensures HeaderText(header) == Some(text) {
      assert VisibleAscii(header);
      assert HeaderText(header).value == text;
    }
  }

  lemma SpelledSpace(text: string, bytes: seq<byte>, i: nat)
    requires Spells(text, bytes) && i < |text|
    ensures IsWhitespace(text[i]) <==> IsSpace(text[i])
  {
  }

  lemma SurroundedIsTrimmed(header: seq<byte>, a: string, key: string, b: string)
    requires Spells(a + key + b, header)
    ensures Surrounded(header, a, key, b) <==> Blank(a) && Tight(key) && Blank(b)
  {
    var text := a + key + b;
    forall i | 0 <= i < |text| ensures IsWhitespace(text[i]) <==> IsSpace(text[i]) {
      SpelledSpace(text, header, i);
    }
    hide IsWhitespace, IsSpace, Spells;
    assert forall i :: 0 <= i < |a| ==> text[i] == a[i];
    assert forall i :: 0 <= i < |key| ==> text[|a| + i] == key[i];
    assert forall i :: 0 <= i < |b| ==> text[|a| + |key| + i] == b[i];
  }

  // What the code reads the key header as.
  function HeaderKey(header: seq<byte>): Option<string> {
    match HeaderText(header) case Some(text) => Some(Trim(text)) case None => None
  }

  // Trimming the text of the header finds the key it carries, and no other.
  lemma CarriesTrimmed(header: seq<byte>, key: string)
    ensures Carries(header, key) <==> HeaderKey(header) == Some(key) && key != ""
  {
    HeaderTextSpells(header);
    hide HeaderText, Trim, Spells, Blank, Tight;
    if a: string, b: string :| Surrounded(header, a, key, b) {
      SurroundedIsTrimmed(header, a, key, b);
      TrimOf(a, key, b);
    }
    if HeaderKey(header) == Some(key) && key != "" {
      var a, b := TrimParts(HeaderText(header).value);
      SurroundedIsTrimmed(header, a, key, b);
    }
  }

  lemma AdmittedCases(hash: Hash, r: Request)
    ensures Admitted(hash, r)
            == if !r.command then Bypass
               else if r.scope == None || r.keyHeader == None then Refuse(InvalidRequest)
               else if HeaderKey(r.keyHeader.value) == None || HeaderKey(r.keyHeader.value) == Some("") then Refuse(InvalidRequest)
               else if |r.body| > 1_048_576 then RefuseTooLarge
               else Admit(Slot(StorageKey(r.scope.value), HeaderKey(r.keyHeader.value).value), hash(r.body))
  {
    hide HeaderText, Trim, StorageKey;
  }

  lemma KeyOrNone(r: Request)
    ensures HasKey(r) <==> r.keyHeader.Some? && HeaderKey(r.keyHeader.value).Some? && HeaderKey(r.keyHeader.value) != Some("")
  {
    hide Carries, HeaderKey;
    if r.keyHeader.Some? {
      var header := r.keyHeader.value;
      if key :| Carries(header, key) { CarriesTrimmed(header, key); }
      if HeaderKey(header).Some? { CarriesTrimmed(header, HeaderKey(header).value); }
    }
  }

  /** Exactly the requests that are let through are admitted, each to its own scope and key with
      the hash of its body. */
  lemma AdmitsExactly(hash: Hash, r: Request, slot: Slot, h: string)
    ensures Admitted(hash, r) == Admit(slot, h) <==>
              h == hash(r.body) && r.scope.Some? && slot.scope == StorageKey(r.scope.value)
              && LetThrough(r, r.scope.value, slot.key)
  {
    AdmittedCases(hash, r);
    hide Admitted, Carries, HeaderKey, StorageKey;
    if r.keyHeader.Some? {
      CarriesTrimmed(r.keyHeader.value, slot.key);
    }
  }

  /** Every other request is answered before the store is asked, each for its own reason. */
  lemma RefusesExactly(hash: Hash, r: Request)
    ensures Admitted(hash, r) == Bypass <==> !r.command
    ensures Admitted(hash, r) == Refuse(InvalidRequest) <==> r.command && !(r.scope.Some? && HasKey(r))
    ensures Admitted(hash, r) == RefuseTooLarge <==> r.command && r.scope.Some? && HasKey(r) && |r.body| > 1_048_576
    ensures Admitted(hash, r).Refuse? ==> Admitted(hash, r) == Refuse(InvalidRequest)
  {
    AdmittedCases(hash, r);
    KeyOrNone(r);
    hide Admitted, HasKey, HeaderKey, StorageKey;
  }

  // ----- Answers over runs, in memory -----

  // What a client that is let through meets at a slot, by the record there.
  predicate AnswerFits(before: Records, after: Records, slot: Slot, h: string, phase: Phase) {
    if Blank(h) then after == before && phase == Answered(Refused(InvalidRequest))
    else if slot !in before then
      after == before[slot := Reserved(h)] && phase == Holding(Token(slot.scope, slot.key, h))
    else
      && after == before
      && match before[slot]
         case Completed(h2, stored) => phase == Answered(if h2 == h then Replayed(stored) else Refused(Conflict))
         case Reserved(_) => phase == Answered(Refused(Conflict))
  }

  lemma BeginFits(records: Records, slot: Slot, h: string)
    requires Trim(slot.key) != ""
    ensures var (d, next) := Begin(records, slot.scope, slot.key, h);
            AnswerFits(records, next, slot, h, PhaseAfter(d))
  {
    TrimIsEmpty(h);
    hide Trim, Blank;
  }

  lemma KeyNotBlank(r: Request, scope: TenantScope, key: string)
    requires LetThrough(r, scope, key)
    ensures Trim(key) != ""
  {
    hide Trim, Spells;
    var header := r.keyHeader.value;
    var a: string, b: string :| Surrounded(header, a, key, b);
    SurroundedIsTrimmed(header, a, key, b);
    TrimIsEmpty(key);
  }

  /** At any point of any run a client that is let through is answered by what its own slot
      holds: with a completed record of its body's hash, by exactly the stored response; with
      another hash or an open reservation, by a conflict; a free slot is reserved for it. */
  lemma EnterAnswers(hash: Hash, actions: seq<Action>, c: nat, scope: TenantScope, key: string)
    requires var s := Run(hash, actions);
             c in s.clients && s.clients[c].phase == Arrived && LetThrough(s.clients[c].request, scope, key)
    ensures var s, t := Run(hash, actions), Run(hash, actions + [Enter(c)]);
            && c in t.clients
            && AnswerFits(s.records, t.records, Slot(StorageKey(scope), key), hash(s.clients[c].request.body),
                          t.clients[c].phase)
  {
    var s := Run(hash, actions);
    var r := s.clients[c].request;
    var slot := Slot(StorageKey(scope), key);
    RunPush(hash, actions, Enter(c));
    AdmitsExactly(hash, r, slot, hash(r.body));
    KeyNotBlank(r, scope, key);
    hide Run, LetThrough, Admitted, Begin, AnswerFits, StorageKey, PhaseAfter;
    BeginFits(s.records, slot, hash(r.body));
  }

  // What a client that is not let through is told.
  ghost predicate Rejection(r: Request, reply: Reply) {
    if !r.command then reply == PassedThrough
    else if !(r.scope.Some? && HasKey(r)) then reply == Refused(InvalidRequest)
    else |r.body| > 1_048_576 && reply == TooLarge
  }

  /** A client that is not let through is told why, and the store is not touched. */
  lemma EnterRejects(hash: Hash, actions: seq<Action>, c: nat)
    requires var s := Run(hash, actions);
             && c in s.clients && s.clients[c].phase == Arrived
             && forall scope, key :: !LetThrough(s.clients[c].request, scope, key)
    ensures var s, t := Run(hash, actions), Run(hash, actions + [Enter(c)]);
            && t.records == s.records && c in t.clients && t.clients[c].phase.Answered?
            && Rejection(s.clients[c].request, t.clients[c].phase.reply)
  {
    var s := Run(hash, actions);
    var r := s.clients[c].request;
    RunPush(hash, actions, Enter(c));
    RefusesExactly(hash, r);
    hide Run, LetThrough, Admitted, Begin, HasKey;
    var a := Admitted(hash, r);
    if a.Admit? { AdmittedIsLetThrough(hash, r); }
  }

  lemma AdmittedIsLetThrough(hash: Hash, r: Request)
    requires Admitted(hash, r).Admit?
    ensures exists scope, key :: LetThrough(r, scope, key)
  {
    var a := Admitted(hash, r);
    AdmittedHash(hash, r);
    AdmittedScope(hash, r);
    AdmitsExactly(hash, r, a.slot, a.bodyHash);
    hide Admitted, LetThrough;
    assert LetThrough(r, r.scope.value, a.slot.key);
  }

  // What the client of a handler receives: the response itself within the cache limit, else the
  // error that stands in for it.
  predicate Receives(sent: Response, response: Response, overflow: Response) {
    if |response.body| <= 1_048_576 then sent == response
    else if |overflow.body| <= 1_048_576 then sent == overflow
    else sent == overflow.(body := [])
  }

  lemma CacheableReceives(response: Response, overflow: Response)
    ensures Receives(Cacheable(response, overflow), response, overflow)
  {
  }

  lemma Returns(hash: Hash, s: System, c: nat, response: Response, overflow: Response)
    requires c in s.clients && s.clients[c].phase.Running?
    ensures var m := Step(hash, s, Return(c, response, overflow));
            && c in m.clients && m.clients[c].request == s.clients[c].request
            && m.clients[c].phase == Returned(s.clients[c].phase.token, Cacheable(response, overflow))
  {
    hide Cacheable, EnterStep;
  }

  /** A handler's response within the limit is what its client receives and what is stored. */
  lemma HandlerResponseIsReceived(hash: Hash, actions: seq<Action>, c: nat, response: Response, overflow: Response)
    returns (sent: Response)
    requires var s := Run(hash, actions); c in s.clients && s.clients[c].phase.Running?
    ensures Receives(sent, response, overflow)
    ensures var s, t := Run(hash, actions), Run(hash, actions + [Return(c, response, overflow)] + [Finish(c)]);
            var slot := SlotOf(s.clients[c].phase.token);
            && c in t.clients && t.clients[c].phase == Answered(Fresh(sent))
            && slot in t.records
            && t.records[slot] == Completed(hash(s.clients[c].request.body), StoredForm(sent))
  {
    sent := Cacheable(response, overflow);
    CacheableReceives(response, overflow);
    RunPush(hash, actions, Return(c, response, overflow));
    Returns(hash, Run(hash, actions), c, response, overflow);
    hide Run, Step, Cacheable, Receives, StoredForm;
    ReturnedClientsComplete(hash, actions + [Return(c, response, overflow)], c);
  }

  /** A retry after an answer gets that answer: whatever happened in between, a client with the
      same scope, key and body hash is replayed exactly the stored form of the response that the
      first one received. */
  lemma RetryIsReplayed(hash: Hash, actions: seq<Action>, later: seq<Action>, c: nat, d: nat, scope: TenantScope, key: string)
    requires var s, t := Run(hash, actions), Run(hash, actions + later);
             && c in s.clients && s.clients[c].phase.Answered? && s.clients[c].phase.reply.Fresh?
             && LetThrough(s.clients[c].request, scope, key)
             && d in t.clients && t.clients[d].phase == Arrived && LetThrough(t.clients[d].request, scope, key)
             && hash(t.clients[d].request.body) == hash(s.clients[c].request.body)
             && !Blank(hash(s.clients[c].request.body))
    ensures var s, u := Run(hash, actions), Run(hash, actions + later + [Enter(d)]);
            && d in u.clients
            && u.clients[d].phase == Answered(Replayed(StoredForm(s.clients[c].phase.reply.response)))
  {
    hide Run, LetThrough, StoredForm, Blank, StorageKey;
    var slot := Slot(StorageKey(scope), key);
    FreshSlot(hash, actions, c, scope, key);
    CompletedForever(hash, actions, later, slot);
    EnterAnswers(hash, actions + later, d, scope, key);
  }

  lemma FreshSlot(hash: Hash, actions: seq<Action>, c: nat, scope: TenantScope, key: string)
    requires var s := Run(hash, actions);
             && c in s.clients && s.clients[c].phase.Answered? && s.clients[c].phase.reply.Fresh?
             && LetThrough(s.clients[c].request, scope, key)
    ensures var s := Run(hash, actions);
            var slot := Slot(StorageKey(scope), key);
            && slot in s.records
            && s.records[slot] == Completed(hash(s.clients[c].request.body), StoredForm(s.clients[c].phase.reply.response))
  {
    var s := Run(hash, actions);
    var r := s.clients[c].request;
    assert r.scope == Some(scope);
    hide Run, LetThrough, StoredForm, StartsOf, StorageKey, Inv, Admitted;
    RunKeepsInv(hash, actions);
    AnsweredRecord(hash, s, c);
    AdmitsExactly(hash, r, Slot(StorageKey(scope), key), hash(r.body));
  }

  lemma AnsweredRecord(hash: Hash, s: System, c: nat)
    requires Inv(hash, s) && c in s.clients && s.clients[c].phase.Answered? && s.clients[c].phase.reply.Fresh?
    ensures RecordIs(hash, s, s.clients[c].request, StoredForm(s.clients[c].phase.reply.response))
  {
    hide Admitted, StoredForm, StartsOf, RecordIs;
    assert ClientOk(hash, s, c);
  }

  // ----- Answers over runs, in PostgreSQL -----

  // What a client that is let through meets at the index entry of its scope and key.
  predicate RowAnswerFits(before: Table, after: Table, scope: TenantScope, key: string, h: string, phase: Phase) {
    var i := IndexOf(scope, key);
    if Blank(h) then after == before && phase == Answered(Refused(InvalidRequest))
    else if i !in before then
      && after == before[i := Row(scope, key, h, "in_flight", None, None, None)]
      && phase == Holding(Token(StorageKey(scope), key, h))
    else
      && after == before && RowOk(before[i])
      && var row := before[i];
         phase == Answered(
           if row.scope != scope then Refused(Internal)
           else if row.state == "completed" && row.requestHash == h
           then Replayed(StoredResponse(row.status.value, row.contentType.value, row.body.value))
           else Refused(Conflict))
  }

  lemma PgBeginFits(t: Table, records: Records, scope: TenantScope, key: string, h: string)
    requires Trim(key) != "" && Represents(t, records)
    ensures var (d, next) := PgBegin(t, scope, key, h);
            RowAnswerFits(t, next, scope, key, h, PhaseAfter(d))
  {
    hide Represents, PgBegin, RowDecision, PhaseAfter, IndexOf, Trim, Blank, RowOk, StorageKey;
    TrimIsEmpty(h);
    PgBeginCases(t, scope, key, h);
    IndexHoldsKey(t, records, scope, key);
    NewIsHeld(Token(StorageKey(scope), key, h));
    var i := IndexOf(scope, key);
    if i in t {
      EntryOk(t, records, i);
      RowDecides(t[i], h);
    }
  }

  lemma EntryOk(t: Table, records: Records, i: IndexKey)
    requires Represents(t, records) && i in t
    ensures RowOk(t[i])
  {
    hide RowOk, IndexOf, RowIndex, RecordOf;
  }

  lemma PgBeginCases(t: Table, scope: TenantScope, key: string, h: string)
    ensures var i := IndexOf(scope, key);
            PgBegin(t, scope, key, h)
            == if Trim(key) == "" || Trim(h) == "" then (Err(InvalidRequest), t)
               else if i !in t then
                 (Ok(New(Token(StorageKey(scope), key, h))), t[i := Row(scope, key, h, "in_flight", None, None, None)])
               else if t[i].scope != scope || t[i].key != key then (Err(Internal), t)
               else (if t[i].requestHash != h then Err(Conflict) else RowDecision(t[i]), t)
  {
    hide Trim, IndexOf, StorageKey, RowDecision;
  }

  lemma NewIsHeld(token: Token)
    ensures PhaseAfter(Ok(New(token))) == Holding(token)
    ensures PhaseAfter(Err(Internal)) == Answered(Refused(Internal))
    ensures PhaseAfter(Err(InvalidRequest)) == Answered(Refused(InvalidRequest))
  {
  }

  lemma RowDecides(row: Row, h: string)
    requires RowOk(row)
    ensures PhaseAfter(if row.requestHash != h then Err(Conflict) else RowDecision(row))
            == Answered(if row.state == "completed" && row.requestHash == h
                        then Replayed(StoredResponse(row.status.value, row.contentType.value, row.body.value))
                        else Refused(Conflict))
  {
  }

  /** In PostgreSQL, too: the row of the client's own scope and key decides, by its hash and
      state; an entry taken by the other spelling of a missing project is an internal error. */
  lemma PgEnterAnswers(hash: Hash, actions: seq<Action>, c: nat, scope: TenantScope, key: string)
    requires var p := PgRun(hash, actions);
             c in p.clients && p.clients[c].phase == Arrived && LetThrough(p.clients[c].request, scope, key)
    ensures var p, q := PgRun(hash, actions), PgRun(hash, actions + [Enter(c)]);
            && c in q.clients
            && RowAnswerFits(p.table, q.table, scope, key, hash(p.clients[c].request.body), q.clients[c].phase)
  {
    var p := PgRun(hash, actions);
    var r := p.clients[c].request;
    var slot := Slot(StorageKey(scope), key);
    PgRunPush(hash, actions, Enter(c));
    AdmitsExactly(hash, r, slot, hash(r.body));
    KeyNotBlank(r, scope, key);
    assert r.scope == Some(scope);
    hide PgRun, LetThrough, Admitted, PgBegin, RowAnswerFits, StorageKey, PhaseAfter, Represents, Inv;
    var records := PgRunKeepsInv(hash, actions);
    PgBeginFits(p.table, records, scope, key, hash(r.body));
  }

  lemma PgReturns(hash: Hash, p: PgSystem, c: nat, response: Response, overflow: Response)
    requires c in p.clients && p.clients[c].phase.Running?
    ensures var m := PgStep(hash, p, Return(c, response, overflow));
            && c in m.clients && m.clients[c].request == p.clients[c].request
            && m.clients[c].phase == Returned(p.clients[c].phase.token, Cacheable(response, overflow))
  {
    Returns(hash, Around(p, map[]), c, response, overflow);
    hide Cacheable, Step, PgEnter, PgFinish;
  }

  /** A handler's response within the limit is what its client receives and what its row holds. */
  lemma PgHandlerResponseIsReceived(hash: Hash, actions: seq<Action>, c: nat, response: Response, overflow: Response)
    returns (sent: Response)
    requires var p := PgRun(hash, actions); c in p.clients && p.clients[c].phase.Running?
    requires response.status < 0x8000 && overflow.status < 0x8000
    ensures Receives(sent, response, overflow)
    ensures var p, q := PgRun(hash, actions), PgRun(hash, actions + [Return(c, response, overflow)] + [Finish(c)]);
            var slot := SlotOf(p.clients[c].phase.token);
            && c in q.clients && q.clients[c].phase == Answered(Fresh(sent))
            && exists i :: i in q.table && SlotOfRow(q.table[i]) == slot && RowOk(q.table[i])
                           && RecordOf(q.table[i]) == Completed(hash(p.clients[c].request.body), StoredForm(sent))
  {
    sent := Cacheable(response, overflow);
    CacheableReceives(response, overflow);
    PgRunPush(hash, actions, Return(c, response, overflow));
    PgReturns(hash, PgRun(hash, actions), c, response, overflow);
    assert sent.status < 0x8000;
    hide PgRun, PgStep, Cacheable, Receives, StoredForm, SlotOfRow, RecordOf, RowOk;
    PgReturnedClientsComplete(hash, actions + [Return(c, response, overflow)], c);
  }
}
