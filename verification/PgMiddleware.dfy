/** The middleware in front of the PostgreSQL store: any number of clients whose begin and
    complete are row transactions, and what every interleaving keeps. Unlike the refinement,
    nothing here is restricted to scopes and statuses on which the two stores agree. */
module PgMiddleware {
  import opened Text
  import opened Tenancy
  import opened Idempotency
  import opened PgIdempotency

  /** The clients and histories of the in-memory system, around a table. */
  datatype PgSystem = PgSystem(
    table: Table, clients: map<nat, Client>, owner: map<Slot, nat>, executions: seq<Execution>)

  const PG_START := PgSystem(map[], map[], map[], [])

  function Around(p: PgSystem, records: Records): System { System(records, p.clients, p.owner, p.executions) }

  function Back(s: System, table: Table): PgSystem { PgSystem(table, s.clients, s.owner, s.executions) }

  function Set(p: PgSystem, c: nat, phase: Phase): PgSystem
    requires c in p.clients
  {
    p.(clients := p.clients[c := p.clients[c].(phase := phase)])
  }

  function PgEnter(p: PgSystem, c: nat, slot: Slot, bodyHash: string): PgSystem
    requires c in p.clients && p.clients[c].request.scope.Some?
  {
    var (decision, table) := PgBegin(p.table, p.clients[c].request.scope.value, slot.key, bodyHash);
    var phase := PhaseAfter(decision);
    Set(p.(table := table, owner := if phase.Holding? then p.owner[slot := c] else p.owner), c, phase)
  }

  function PgFinish(p: PgSystem, c: nat): PgSystem
    requires c in p.clients && p.clients[c].phase.Returned?
  {
    var (token, response) := (p.clients[c].phase.token, p.clients[c].phase.response);
    var (result, table) := PgComplete(p.table, token, StoredForm(response));
    Set(p.(table := table), c, Answered(match result case Ok(_) => Fresh(response) case Err(code) => Refused(code)))
  }

  // The client is let through to the store.
  predicate Begins(hash: Hash, p: PgSystem, a: Action) {
    && a.Enter? && a.client in p.clients && p.clients[a.client].phase == Arrived
    && Admitted(hash, p.clients[a.client].request).Admit?
  }

  predicate Finishes(p: PgSystem, a: Action) {
    a.Finish? && a.client in p.clients && p.clients[a.client].phase.Returned?
  }

  function PgStep(hash: Hash, p: PgSystem, a: Action): PgSystem {
    if Begins(hash, p, a) then
      var admitted := Admitted(hash, p.clients[a.client].request);
      PgEnter(p, a.client, admitted.slot, admitted.bodyHash)
    else if Finishes(p, a) then PgFinish(p, a.client)
    // The other actions do not call the store.
    else Back(Step(hash, Around(p, map[]), a), p.table)
  }

  function PgRun(hash: Hash, actions: seq<Action>): PgSystem {
    if actions == [] then PG_START
    else PgStep(hash, PgRun(hash, actions[..|actions| - 1]), actions[|actions| - 1])
  }

  lemma PgRunPush(hash: Hash, actions: seq<Action>, a: Action)
    ensures PgRun(hash, actions + [a]) == PgStep(hash, PgRun(hash, actions), a)
  {
    hide PgStep;
    assert (actions + [a])[..|actions|] == actions;
  }

  // ----- The invariant -----

  // The table stands for these records, and with them the clients keep the invariant.
  ghost predicate PgInv(hash: Hash, p: PgSystem, records: Records) {
    Represents(p.table, records) && Inv(hash, Around(p, records))
  }

  lemma StoreUntouched(hash: Hash, p: PgSystem, records: Records, a: Action)
    requires !Begins(hash, p, a) && !Finishes(p, a)
    ensures Around(PgStep(hash, p, a), records) == Step(hash, Around(p, records), a)
    ensures PgStep(hash, p, a).table == p.table
  {
    hide Admitted, Begin, Complete, StoredForm, Cacheable;
  }

  // A begin that meets the other spelling of its project is refused and writes nothing.
  lemma CollisionRefuses(t: Table, scope: TenantScope, key: string, bodyHash: string)
    requires Collides(t, scope, key) && Trim(key) != "" && Trim(bodyHash) != ""
    ensures PgBegin(t, scope, key, bodyHash) == (Err(Internal), t)
  {
    hide Trim, IndexOf, StorageKey;
  }

  // Where the two stores decide alike, so do the two systems.
  lemma SameDecision(hash: Hash, p: PgSystem, records: Records, c: nat, slot: Slot, bodyHash: string)
    requires c in p.clients && p.clients[c].request.scope.Some?
    requires Admitted(hash, p.clients[c].request) == Admit(slot, bodyHash)
    requires PgBegin(p.table, p.clients[c].request.scope.value, slot.key, bodyHash).0
             == Begin(records, slot.scope, slot.key, bodyHash).0
    ensures Around(PgEnter(p, c, slot, bodyHash), Begin(records, slot.scope, slot.key, bodyHash).1)
            == EnterStep(hash, Around(p, records), c)
  {
    hide Admitted, PgBegin, Begin;
  }

  lemma BeginKeepsInv(hash: Hash, p: PgSystem, records: Records, a: Action) returns (next: Records)
    requires PgInv(hash, p, records) && Begins(hash, p, a)
    ensures PgInv(hash, PgStep(hash, p, a), next)
  {
    var c := a.client;
    var request := p.clients[c].request;
    var admitted := Admitted(hash, request);
    var slot, bodyHash := admitted.slot, admitted.bodyHash;
    AdmittedScope(hash, request);
    var scope := request.scope.value;
    assert PgStep(hash, p, a) == PgEnter(p, c, slot, bodyHash);
    BeginRefines(p.table, records, scope, slot.key, bodyHash);
    hide Admitted, Trim, Represents, Begin, PgBegin, StorageKey, Inv, EnterStep, Collides, PgStep, Begins;
    if Collides(p.table, scope, slot.key) && Trim(slot.key) != "" && Trim(bodyHash) != "" {
      CollisionRefuses(p.table, scope, slot.key, bodyHash);
      next := records;
      RefusalKeepsInv(hash, Around(p, records), c, Internal);
    } else {
      hide PgEnter;
      next := Begin(records, slot.scope, slot.key, bodyHash).1;
      SameDecision(hash, p, records, c, slot, bodyHash);
      EnterKeepsInv(hash, Around(p, records), c);
      assert PgEnter(p, c, slot, bodyHash).table == PgBegin(p.table, scope, slot.key, bodyHash).1 by {
        PgEnterTable(p, c, slot, bodyHash);
      }
    }
  }

  lemma PgEnterTable(p: PgSystem, c: nat, slot: Slot, bodyHash: string)
    requires c in p.clients && p.clients[c].request.scope.Some?
    ensures PgEnter(p, c, slot, bodyHash).table
            == PgBegin(p.table, p.clients[c].request.scope.value, slot.key, bodyHash).1
  {
    hide PgBegin;
  }

  lemma AdmittedScope(hash: Hash, r: Request)
    requires Admitted(hash, r).Admit?
    ensures r.scope.Some? && Admitted(hash, r).slot.scope == StorageKey(r.scope.value)
  {
    hide StorageKey, Trim, HeaderText;
  }

  lemma RefusalKeepsInv(hash: Hash, s: System, c: nat, code: ErrorCode)
    requires Inv(hash, s) && c in s.clients && !s.clients[c].phase.Answered?
    ensures Inv(hash, Put(s, c, Answered(Refused(code))))
  {
    hide Admitted, StoredForm, StartsOf, Inv;
    UntouchedKeepsInv(hash, s, Put(s, c, Answered(Refused(code))), c);
  }

  // A reservation whose response does not fit the column stays open.
  lemma OversizeRefuses(t: Table, records: Records, scope: TenantScope, token: Token, response: StoredResponse)
    requires Represents(t, records) && token.scope == StorageKey(scope)
    requires IsReserved(records, SlotOf(token), token.bodyHash) && response.status >= 0x8000
    ensures PgComplete(t, token, response) == (Err(DependencyUnavailable), t)
  {
    hide StorageKey, ParseScope, IndexOf, Represents;
    ParseStorageKey(scope);
    SelectFindsRecord(t, records, scope, token.key);
  }

  lemma FinishKeepsPgInv(hash: Hash, p: PgSystem, records: Records, a: Action) returns (next: Records)
    requires PgInv(hash, p, records) && Finishes(p, a)
    ensures PgInv(hash, PgStep(hash, p, a), next)
    ensures var c := a.client;
            var (token, response) := (p.clients[c].phase.token, p.clients[c].phase.response);
            && IsReserved(records, SlotOf(token), token.bodyHash)
            && token.bodyHash == hash(p.clients[c].request.body)
            && PgStep(hash, p, a).clients[c].phase
               == Answered(if response.status < 0x8000 then Fresh(response) else Refused(DependencyUnavailable))
            && next == (if response.status < 0x8000
                        then records[SlotOf(token) := Completed(token.bodyHash, StoredForm(response))]
                        else records)
            && (response.status >= 0x8000 ==> PgStep(hash, p, a).table == p.table)
  {
    var c := a.client;
    var (token, response) := (p.clients[c].phase.token, p.clients[c].phase.response);
    HeldReservation(hash, p, records, c);
    FinishOutcome(hash, p, records, c);
    assert PgStep(hash, p, a) == PgFinish(p, c);
    hide Admitted, Represents, PgComplete, Inv, StoredForm, PgStep, ClientOk;
    if response.status >= 0x8000 {
      next := records;
      RefusalKeepsInv(hash, Around(p, records), c, DependencyUnavailable);
    } else {
      next := records[SlotOf(token) := Completed(token.bodyHash, StoredForm(response))];
      CompletingKeepsInv(hash, Around(p, records), c, token, response);
    }
  }

  // The complete transaction of a client that holds its reservation.
  lemma FinishOutcome(hash: Hash, p: PgSystem, records: Records, c: nat)
    requires PgInv(hash, p, records) && c in p.clients && p.clients[c].phase.Returned?
    ensures var (token, response) := (p.clients[c].phase.token, p.clients[c].phase.response);
            var (r, table) := PgComplete(p.table, token, StoredForm(response));
            if response.status < 0x8000 then
              && r == Ok(())
              && Represents(table, records[SlotOf(token) := Completed(token.bodyHash, StoredForm(response))])
            else r == Err(DependencyUnavailable) && table == p.table
  {
    var (token, response) := (p.clients[c].phase.token, p.clients[c].phase.response);
    HeldReservation(hash, p, records, c);
    AdmittedScope(hash, p.clients[c].request);
    var scope, stored := p.clients[c].request.scope.value, StoredForm(response);
    assert stored.status == response.status;
    hide Admitted, Represents, PgComplete, StorageKey, Inv, StoredForm;
    CompleteRefines(p.table, records, scope, token, stored);
    if response.status >= 0x8000 { OversizeRefuses(p.table, records, scope, token, stored); }
  }

  lemma HeldReservation(hash: Hash, p: PgSystem, records: Records, c: nat)
    requires Inv(hash, Around(p, records)) && c in p.clients && p.clients[c].phase.Returned?
    ensures var token, admitted := p.clients[c].phase.token, Admitted(hash, p.clients[c].request);
            && admitted == Admit(SlotOf(token), token.bodyHash)
            && token.bodyHash == hash(p.clients[c].request.body)
            && IsReserved(records, SlotOf(token), token.bodyHash)
  {
    var s := Around(p, records);
    assert ClientOk(hash, s, c);
    AdmittedHash(hash, p.clients[c].request);
    hide Admitted, StartsOf, StoredForm;
  }

  lemma {:induction false} PgRunKeepsInv(hash: Hash, actions: seq<Action>) returns (records: Records)
    ensures PgInv(hash, PgRun(hash, actions), records)
  {
    if actions == [] {
      records := map[];
      RunKeepsInv(hash, []);
      EmptyRepresents();
    } else {
      hide PgStep, Begins, Finishes, Inv, Represents, Step;
      var p, a := PgRun(hash, actions[..|actions| - 1]), actions[|actions| - 1];
      records := PgRunKeepsInv(hash, actions[..|actions| - 1]);
      if Begins(hash, p, a) {
        records := BeginKeepsInv(hash, p, records, a);
      } else if Finishes(p, a) {
        records := FinishKeepsPgInv(hash, p, records, a);
      } else {
        StoreUntouched(hash, p, records, a);
        StepKeepsInv(hash, Around(p, records), a);
      }
    }
  }

  lemma EmptyRepresents()
    ensures Represents(map[], map[])
  {
    hide RowIndex, IndexOf, RecordOf;
  }

  // ----- Main results -----

  /** Over every interleaving at most one handler execution ever starts for a scope and key. */
  lemma PgAtMostOneExecution(hash: Hash, actions: seq<Action>, slot: Slot)
    ensures |StartsOf(PgRun(hash, actions).executions, slot)| <= 1
  {
    hide PgRun, Inv, Represents, StartsOf;
    var records := PgRunKeepsInv(hash, actions);
    InvOneExecution(hash, Around(PgRun(hash, actions), records), slot);
  }

  /** A replay carries the response of the one execution of its slot, for a body of its hash. */
  lemma PgReplayIsTheOneExecution(hash: Hash, actions: seq<Action>, c: nat) returns (e: Execution)
    requires var p := PgRun(hash, actions); c in p.clients && GotReplay(p.clients[c])
    ensures IsTheOneExecution(hash, Around(PgRun(hash, actions), map[]), c, e)
  {
    var p := PgRun(hash, actions);
    hide PgRun, Inv, Represents, StartsOf, StoredForm, Admitted;
    var records := PgRunKeepsInv(hash, actions);
    e := InvReplay(hash, Around(p, records), c);
  }

  /** A client whose handler returned finds its own reservation, and its finish completes the
      row when the status fits the column, as every HTTP status does; otherwise the table stays
      as it was and the row stays reserved. */
  lemma PgReturnedClientsComplete(hash: Hash, actions: seq<Action>, c: nat)
    requires var p := PgRun(hash, actions); c in p.clients && p.clients[c].phase.Returned?
    ensures var p, q := PgRun(hash, actions), PgRun(hash, actions + [Finish(c)]);
            var (token, response) := (p.clients[c].phase.token, p.clients[c].phase.response);
            && c in q.clients && q.clients[c].request == p.clients[c].request
            && q.clients[c].phase
               == Answered(if response.status < 0x8000 then Fresh(response) else Refused(DependencyUnavailable))
            && (response.status >= 0x8000 ==>
                  && q.table == p.table
                  && exists i :: i in q.table && SlotOfRow(q.table[i]) == SlotOf(token) && RowOk(q.table[i])
                                 && RecordOf(q.table[i]) == Reserved(hash(p.clients[c].request.body)))
            && (response.status < 0x8000 ==>
                  exists i :: i in q.table && SlotOfRow(q.table[i]) == SlotOf(token) && RowOk(q.table[i])
                              && RecordOf(q.table[i]) == Completed(hash(p.clients[c].request.body), StoredForm(response)))
  {
    var longer, a := actions + [Finish(c)], Finish(c);
    var p := PgRun(hash, actions);
    PgRunPush(hash, actions, a);
    assert Finishes(p, a);
    hide PgRun, Inv, StartsOf, StoredForm, Admitted, PgComplete;
    var records := PgRunKeepsInv(hash, actions);
    var next := FinishKeepsPgInv(hash, p, records, a);
    hide PgStep, RowIndex, IndexOf;
    RowOfRecord(PgRun(hash, longer).table, next, SlotOf(p.clients[c].phase.token));
  }

  lemma RowOfRecord(t: Table, records: Records, slot: Slot)
    requires Represents(t, records)
    ensures slot in records ==>
              exists i :: i in t && SlotOfRow(t[i]) == slot && RowOk(t[i]) && RecordOf(t[i]) == records[slot]
  {
    hide IndexOf, StorageKey;
    if slot in records {
      var i := RowIndex(slot).value;
      assert i in t && SlotOfRow(t[i]) == slot;
    }
  }

  lemma StepKeepsCompletedRow(hash: Hash, p: PgSystem, a: Action, i: IndexKey)
    requires i in p.table && p.table[i].state == "completed"
    ensures i in PgStep(hash, p, a).table && PgStep(hash, p, a).table[i] == p.table[i]
  {
    hide Admitted, Trim, StorageKey, ParseScope, Step, StoredForm;
  }

  /** A completed row stays as it is forever. */
  lemma {:induction false} PgCompletedForever(hash: Hash, actions: seq<Action>, later: seq<Action>, i: IndexKey)
    requires i in PgRun(hash, actions).table && PgRun(hash, actions).table[i].state == "completed"
    ensures var q := PgRun(hash, actions + later);
            i in q.table && q.table[i] == PgRun(hash, actions).table[i]
  {
    if later == [] {
      assert actions + later == actions;
    } else {
      hide PgRun, PgStep;
      var n := |later| - 1;
      PgCompletedForever(hash, actions, later[..n], i);
      PgRunPush(hash, actions + later[..n], later[n]);
      InitLast(later);
      Assoc(actions, later[..n], [later[n]]);
      StepKeepsCompletedRow(hash, PgRun(hash, actions + later[..n]), later[n], i);
    }
  }
}
