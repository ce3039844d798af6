/** The PostgreSQL idempotency store as atomic row transactions, and its refinement of the
    in-memory store. The unique index of the table decides exactly where the two differ. */
module PgIdempotency {
  import opened Text
  import opened Utf8
  import opened Tenancy
  import opened Idempotency

  // A smallint column.
  type i16 = x: int | -0x8000 <= x < 0x8000

  datatype Row = Row(
    scope: TenantScope, key: string, requestHash: string, state: string,
    status: Option<i16>, contentType: Option<string>, body: Option<seq<byte>>)

  /** The key of the unique index: a missing project counts as the nil UUID. */
  datatype IndexKey = IndexKey(operatorId: Uuid, tenantId: Uuid, project: Uuid, key: string)

  type Table = map<IndexKey, Row>

  function IndexOf(scope: TenantScope, key: string): IndexKey {
    IndexKey(scope.operatorId, scope.tenantId, if scope.projectId.Some? then scope.projectId.value else NIL, key)
  }

  // The row a SELECT ... FOR UPDATE finds: the project must match, missing for missing.
  function SelectRow(t: Table, scope: TenantScope, key: string): Option<Row> {
    var i := IndexOf(scope, key);
    if i in t && t[i].scope == scope && t[i].key == key then Some(t[i]) else None
  }

  function RowDecision(row: Row): Result<Decision, ErrorCode> {
    if row.state == "in_flight" then Ok(InFlight)
    else if row.state != "completed" then Err(Internal)
    else
      match (row.status, row.contentType, row.body)
      case (Some(status), Some(contentType), Some(body)) =>
        if status < 0 then Err(DependencyUnavailable)
        else Ok(Replay(StoredResponse(status, contentType, body)))
      case _ => Err(Internal)
  }

  /** One begin transaction: insert unless the index conflicts, else lock and read. */
  function PgBegin(t: Table, scope: TenantScope, key: string, bodyHash: string): (Result<Decision, ErrorCode>, Table) {
    if Trim(key) == "" || Trim(bodyHash) == "" then (Err(InvalidRequest), t)
    else if IndexOf(scope, key) !in t then
      (Ok(New(Token(StorageKey(scope), key, bodyHash))),
       t[IndexOf(scope, key) := Row(scope, key, bodyHash, "in_flight", None, None, None)])
    else
      match SelectRow(t, scope, key)
      case None => (Err(Internal), t)
      case Some(row) => (if row.requestHash != bodyHash then Err(Conflict) else RowDecision(row), t)
  }

  /** One complete transaction. */
  function PgComplete(t: Table, token: Token, response: StoredResponse): (Result<(), ErrorCode>, Table) {
    match ParseScope(token.scope)
    case None => (Err(InvalidRequest), t)
    case Some(scope) =>
      match SelectRow(t, scope, token.key)
      case None => (Err(Conflict), t)
      case Some(row) =>
        if row.requestHash != token.bodyHash then (Err(Conflict), t)
        else if row.state == "completed" then (Ok(()), t)
        else if row.state != "in_flight" then (Err(Internal), t)
        else if response.status >= 0x8000 then (Err(DependencyUnavailable), t)
        else
          (Ok(()), t[IndexOf(scope, token.key) := row.(
             state := "completed", status := Some(response.status),
             contentType := Some(response.contentType), body := Some(response.body))])
  }

  class PgIdempotencyStore {
    var rows: Table

    constructor ()
      ensures rows == map[]
    {
      rows := map[];
    }

    method BeginRequest(scope: TenantScope, key: string, bodyHash: string) returns (r: Result<Decision, ErrorCode>)
      modifies this
      ensures (r, rows) == PgBegin(old(rows), scope, key, bodyHash)
    {
      if Trim(key) == "" { return Err(InvalidRequest); }
      if Trim(bodyHash) == "" { return Err(InvalidRequest); }
      var i := IndexOf(scope, key);
      var inserted := i !in rows;
      if inserted {
        rows := rows[i := Row(scope, key, bodyHash, "in_flight", None, None, None)];
        return Ok(New(Token(StorageKey(scope), key, bodyHash)));
      }
      var row := SelectRow(rows, scope, key);
      if row.None? { return Err(Internal); }
      if row.value.requestHash != bodyHash { return Err(Conflict); }
      return RowDecision(row.value);
    }

    method CompleteRequest(token: Token, response: StoredResponse) returns (r: Result<(), ErrorCode>)
      modifies this
      ensures (r, rows) == PgComplete(old(rows), token, response)
    {
      var scope := ParseScope(token.scope);
      if scope.None? { return Err(InvalidRequest); }
      var row := SelectRow(rows, scope.value, token.key);
      if row.None? || row.value.requestHash != token.bodyHash { return Err(Conflict); }
      if row.value.state == "completed" { return Ok(()); }
      if row.value.state != "in_flight" { return Err(Internal); }
      if response.status >= 0x8000 { return Err(DependencyUnavailable); }
      var completed := row.value.(
        state := "completed", status := Some(response.status),
        contentType := Some(response.contentType), body := Some(response.body));
      rows := rows[IndexOf(scope.value, token.key) := completed];
      return Ok(());
    }
  }

  // ----- The abstraction from rows to records -----

  predicate RowOk(row: Row) {
    || row.state == "in_flight"
    || (row.state == "completed" && row.status.Some? && row.status.value >= 0
        && row.contentType.Some? && row.body.Some?)
  }

  function RecordOf(row: Row): Record
    requires RowOk(row)
  {
    if row.state == "in_flight" then Reserved(row.requestHash)
    else Completed(row.requestHash, StoredResponse(row.status.value, row.contentType.value, row.body.value))
  }

  function SlotOfRow(row: Row): Slot { Slot(StorageKey(row.scope), row.key) }

  ghost predicate TableOk(t: Table) {
    forall i :: i in t ==> IndexOf(t[i].scope, t[i].key) == i && RowOk(t[i])
  }

  // Where the row of a slot would be.
  function RowIndex(slot: Slot): Option<IndexKey> {
    match ParseScope(slot.scope)
    case Some(scope) => Some(IndexOf(scope, slot.key))
    case None => None
  }

  lemma RowIndexOfStorageKey(scope: TenantScope, key: string)
    ensures RowIndex(Slot(StorageKey(scope), key)) == Some(IndexOf(scope, key))
  {
    hide StorageKey, ParseScope;
    ParseStorageKey(scope);
  }

  /** The records are the rows, each under its storage key, and nothing else. */
  ghost predicate Represents(t: Table, records: Records) {
    && TableOk(t)
    && (forall i :: i in t ==> SlotOfRow(t[i]) in records && records[SlotOfRow(t[i])] == RecordOf(t[i]))
    && (forall slot :: slot in records ==>
          RowIndex(slot).Some? && RowIndex(slot).value in t && SlotOfRow(t[RowIndex(slot).value]) == slot)
  }

  /** A row is found exactly when the slot has a record, and then it is that record. */
  lemma SelectFindsRecord(t: Table, records: Records, scope: TenantScope, key: string)
    requires Represents(t, records)
    ensures SelectRow(t, scope, key).Some? <==> Slot(StorageKey(scope), key) in records
    ensures SelectRow(t, scope, key).Some? ==>
              && RowOk(SelectRow(t, scope, key).value)
              && records[Slot(StorageKey(scope), key)] == RecordOf(SelectRow(t, scope, key).value)
  {
    hide StorageKey, RowIndex, IndexOf, RowOk, RecordOf;
    var slot := Slot(StorageKey(scope), key);
    RowIndexOfStorageKey(scope, key);
    if slot in records {
      StorageKeyInjective(t[IndexOf(scope, key)].scope, scope);
    }
  }

  /** The index entry of a scope is taken by the other spelling of its project: a missing
      project and the nil project share one entry. */
  predicate Collides(t: Table, scope: TenantScope, key: string) {
    IndexOf(scope, key) in t && t[IndexOf(scope, key)].scope != scope
  }

  // Writing one row and its record together keeps the two states matching.
  lemma WriteRow(t: Table, records: Records, row: Row)
    requires Represents(t, records) && RowOk(row)
    requires var i := IndexOf(row.scope, row.key); i in t ==> t[i].scope == row.scope && t[i].key == row.key
    ensures Represents(t[IndexOf(row.scope, row.key) := row], records[SlotOfRow(row) := RecordOf(row)])
  {
    hide StorageKey, RowIndex, IndexOf, RowOk, RecordOf;
    var i, slot := IndexOf(row.scope, row.key), SlotOfRow(row);
    RowIndexOfStorageKey(row.scope, row.key);
    forall j | j in t && j != i ensures SlotOfRow(t[j]) != slot {
      RowIndexOfStorageKey(t[j].scope, t[j].key);
    }
  }

  lemma IndexHoldsKey(t: Table, records: Records, scope: TenantScope, key: string)
    requires Represents(t, records)
    ensures IndexOf(scope, key) in t ==> t[IndexOf(scope, key)].key == key
  {
    hide RowIndex, StorageKey, RecordOf, RowOk;
  }

  /** A begin transaction answers as the in-memory store and leaves matching states exactly
      unless key and hash are acceptable and the scope's index entry is taken by the other
      spelling of its project. */
  lemma BeginRefines(t: Table, records: Records, scope: TenantScope, key: string, bodyHash: string)
    requires Represents(t, records)
    ensures var (r, t') := PgBegin(t, scope, key, bodyHash);
            var (m, records') := Begin(records, StorageKey(scope), key, bodyHash);
            && (r == m <==> !(Collides(t, scope, key) && Trim(key) != "" && Trim(bodyHash) != ""))
            && (r == m ==> Represents(t', records'))
  {
    hide StorageKey, Trim, IndexOf, Represents;
    SelectFindsRecord(t, records, scope, key);
    IndexHoldsKey(t, records, scope, key);
    if IndexOf(scope, key) !in t {
      WriteRow(t, records, Row(scope, key, bodyHash, "in_flight", None, None, None));
    }
  }

  /** The disagreement is reachable: a tenant-wide record makes a begin for the project with
      the nil UUID fail, though that scope has no record of its own. */
  lemma NilProjectIsRefused(operator: Uuid, tenant: Uuid, key: string, bodyHash: string)
    requires Trim(key) != "" && Trim(bodyHash) != ""
    ensures var wide, nil := TenantScope(operator, tenant, None), TenantScope(operator, tenant, Some(NIL));
            var t := PgBegin(map[], wide, key, bodyHash).1;
            var records := Begin(map[], StorageKey(wide), key, bodyHash).1;
            && PgBegin(t, nil, key, bodyHash).0 == Err(Internal)
            && Begin(records, StorageKey(nil), key, bodyHash).0
               == Ok(New(Token(StorageKey(nil), key, bodyHash)))
  {
    hide StorageKey, Trim;
    var wide, nil := TenantScope(operator, tenant, None), TenantScope(operator, tenant, Some(NIL));
    if StorageKey(wide) == StorageKey(nil) { StorageKeyInjective(wide, nil); }
  }

  /** Tables whose scopes never name the nil project have no collision to answer for. */
  ghost predicate NoNilProject(t: Table) {
    forall i :: i in t ==> t[i].scope.projectId != Some(NIL)
  }

  lemma BeginRefinesWithoutNil(t: Table, records: Records, scope: TenantScope, key: string, bodyHash: string)
    requires Represents(t, records) && NoNilProject(t) && scope.projectId != Some(NIL)
    ensures var (r, t') := PgBegin(t, scope, key, bodyHash);
            var (m, records') := Begin(records, StorageKey(scope), key, bodyHash);
            r == m && Represents(t', records') && NoNilProject(t')
  {
    NoCollision(t, scope, key);
    BeginKeepsNoNil(t, scope, key, bodyHash);
    hide StorageKey, PgBegin, Represents, Begin, NoNilProject, Collides;
    BeginRefines(t, records, scope, key, bodyHash);
  }

  lemma BeginKeepsNoNil(t: Table, scope: TenantScope, key: string, bodyHash: string)
    requires NoNilProject(t) && scope.projectId != Some(NIL)
    ensures NoNilProject(PgBegin(t, scope, key, bodyHash).1)
  {
    hide StorageKey, Trim, IndexOf, SelectRow, RowDecision;
  }

  lemma NoCollision(t: Table, scope: TenantScope, key: string)
    requires TableOk(t) && NoNilProject(t) && scope.projectId != Some(NIL)
    ensures !Collides(t, scope, key)
  {
  }

  // The slot is reserved for a body with this hash.
  predicate IsReserved(records: Records, slot: Slot, bodyHash: string) {
    slot in records && records[slot] == Reserved(bodyHash)
  }

  /** For a token whose scope text is a storage key, a complete transaction answers as the
      in-memory store and leaves matching states, exactly unless the token's reservation is
      open and the status does not fit the column. */
  lemma CompleteRefines(t: Table, records: Records, scope: TenantScope, token: Token, response: StoredResponse)
    requires Represents(t, records) && token.scope == StorageKey(scope)
    ensures var (r, t') := PgComplete(t, token, response);
            var (m, records') := Complete(records, token, response);
            && (r == m <==> !(response.status >= 0x8000 && IsReserved(records, Slot(token.scope, token.key), token.bodyHash)))
            && (r == m ==> Represents(t', records'))
            && (NoNilProject(t) ==> NoNilProject(t'))
  {
    hide StorageKey, ParseScope, IndexOf, Represents;
    ParseStorageKey(scope);
    SelectFindsRecord(t, records, scope, token.key);
    var row := SelectRow(t, scope, token.key);
    if row.Some? && row.value.requestHash == token.bodyHash && row.value.state == "in_flight" && response.status < 0x8000 {
      WriteRow(t, records, row.value.(
        state := "completed", status := Some(response.status),
        contentType := Some(response.contentType), body := Some(response.body)));
    }
  }

  // ----- Whole runs of the two stores -----

  datatype Call =
    | BeginCall(scope: TenantScope, key: string, bodyHash: string)
    | CompleteCall(scope: TenantScope, key: string, bodyHash: string, response: StoredResponse)

  datatype Answer = Begun(r: Result<Decision, ErrorCode>) | Finished(r2: Result<(), ErrorCode>)

  predicate Admissible(c: Call) {
    c.scope.projectId != Some(NIL) && (c.CompleteCall? ==> c.response.status < 0x8000)
  }

  function MemoryCall(records: Records, c: Call): (Answer, Records) {
    match c
    case BeginCall(scope, key, bodyHash) =>
      var p := Begin(records, StorageKey(scope), key, bodyHash); (Begun(p.0), p.1)
    case CompleteCall(scope, key, bodyHash, response) =>
      var p := Complete(records, Token(StorageKey(scope), key, bodyHash), response); (Finished(p.0), p.1)
  }

  function PgCall(t: Table, c: Call): (Answer, Table) {
    match c
    case BeginCall(scope, key, bodyHash) =>
      var p := PgBegin(t, scope, key, bodyHash); (Begun(p.0), p.1)
    case CompleteCall(scope, key, bodyHash, response) =>
      var p := PgComplete(t, Token(StorageKey(scope), key, bodyHash), response); (Finished(p.0), p.1)
  }

  function MemoryAnswers(records: Records, calls: seq<Call>): seq<Answer>
    decreases |calls|
  {
    if calls == [] then []
    else [MemoryCall(records, calls[0]).0] + MemoryAnswers(MemoryCall(records, calls[0]).1, calls[1..])
  }

  function PgAnswers(t: Table, calls: seq<Call>): seq<Answer>
    decreases |calls|
  {
    if calls == [] then []
    else [PgCall(t, calls[0]).0] + PgAnswers(PgCall(t, calls[0]).1, calls[1..])
  }

  lemma CallRefines(t: Table, records: Records, c: Call)
    requires Represents(t, records) && NoNilProject(t) && Admissible(c)
    ensures PgCall(t, c).0 == MemoryCall(records, c).0
    ensures Represents(PgCall(t, c).1, MemoryCall(records, c).1) && NoNilProject(PgCall(t, c).1)
  {
    hide Represents, NoNilProject, PgBegin, Begin, PgComplete, Complete, StorageKey;
    match c
    case BeginCall(scope, key, bodyHash) => BeginRefinesWithoutNil(t, records, scope, key, bodyHash);
    case CompleteCall(scope, key, bodyHash, response) =>
      CompleteRefines(t, records, scope, Token(StorageKey(scope), key, bodyHash), response);
  }

  lemma {:induction false} RunsRefineFrom(t: Table, records: Records, calls: seq<Call>)
    requires Represents(t, records) && NoNilProject(t)
    requires forall i :: 0 <= i < |calls| ==> Admissible(calls[i])
    ensures PgAnswers(t, calls) == MemoryAnswers(records, calls)
    decreases |calls|
  {
    hide PgCall, MemoryCall, Represents, NoNilProject, Admissible;
    if calls != [] {
      CallRefines(t, records, calls[0]);
      RunsRefineFrom(PgCall(t, calls[0]).1, MemoryCall(records, calls[0]).1, calls[1..]);
    }
  }

  /** Starting empty, no sequence of calls tells the two stores apart, as long as no scope names
      the nil project and every status fits the column. */
  lemma RunsRefine(calls: seq<Call>)
    requires forall i :: 0 <= i < |calls| ==> Admissible(calls[i])
    ensures PgAnswers(map[], calls) == MemoryAnswers(map[], calls)
  {
    hide PgAnswers, MemoryAnswers, Admissible, RowIndex, IndexOf;
    RunsRefineFrom(map[], map[], calls);
  }
}
