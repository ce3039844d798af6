/** The weekly report tick: discover new weeks project by project, then save and complete every
    due week, both a page at a time while calls fail and completed rows leave the table. */
module WeeklyScan {
  import opened Text
  import opened Tenancy
  import opened Keyset

  datatype Schedule = Schedule(id: Uuid, scope: TenantScope, dueAt: int)

  datatype Attempt = Attempt(scope: TenantScope, scheduleId: Uuid, reportId: Uuid)

  // The tables, and the log of the calls made on them.
  datatype Database = Database(
    projects: seq<Uuid>, schedules: seq<Schedule>, reports: map<Uuid, Uuid>, completed: set<Uuid>,
    visits: seq<Uuid>, saves: seq<Uuid>, attempts: seq<Attempt>)

  // A caller told of a failure does not know whether the write was applied.
  datatype Call = Done | Failed(applied: bool)

  datatype Discovery = NothingNew | Frozen(schedule: Schedule) | Refused

  // What one tick meets: its clock, the page queries that fail, and the result of each call.
  datatype Tick = Tick(
    now: int,
    projectPageFails: nat -> bool, discovery: Uuid -> Discovery,
    duePageFails: nat -> bool, saving: Uuid -> Call, newReport: Uuid -> Uuid, completing: Uuid -> Call)

  predicate Applied(call: Call) { call == Done || call == Failed(true) }

  predicate Earlier(a: Schedule, b: Schedule) { a.dueAt < b.dueAt || (a.dueAt == b.dueAt && a.id < b.id) }

  function IdOf(r: Schedule): Uuid { r.id }

  predicate HasId(rows: seq<Schedule>, id: Uuid) { Has(rows, IdOf, id) }

  ghost predicate DistinctIds(rows: seq<Schedule>) {
    forall i, j :: 0 <= i < j < |rows| ==> rows[i].id != rows[j].id
  }

  ghost predicate Valid(db: Database) {
    && Sorted(db.projects, (a: Uuid, b: Uuid) => a < b)
    && Sorted(db.schedules, Earlier)
    && DistinctIds(db.schedules)
    && (forall a :: a in db.attempts ==> a.scheduleId in db.reports && db.reports[a.scheduleId] == a.reportId)
  }

  // ---- One call ----

  function Visit(db: Database, project: Uuid, t: Tick): Database {
    var logged := db.(visits := db.visits + [project]);
    match t.discovery(project)
    case Frozen(schedule) =>
      // The primary key refuses an id that is taken.
      if HasId(db.schedules, schedule.id) then logged
      else logged.(schedules := Insert(db.schedules, schedule, Earlier))
    case _ => logged
  }

  function Try(db: Database, row: Schedule, t: Tick): Database {
    var report := if row.id in db.reports then db.reports[row.id] else t.newReport(row.id);
    var logged := db.(saves := db.saves + [row.id]);
    var saved := logged.(reports := db.reports[row.id := report]);
    match t.saving(row.id)
    case Failed(applied) => if applied then saved else logged
    case Done =>
      saved.(attempts := db.attempts + [Attempt(row.scope, row.id, report)],
             completed := if Applied(t.completing(row.id)) then db.completed + {row.id} else db.completed)
  }

  // ---- A whole tick, with no pages ----

  function VisitAll(db: Database, projects: seq<Uuid>, t: Tick): Database {
    if projects == [] then db
    else Visit(VisitAll(db, projects[..|projects| - 1], t), projects[|projects| - 1], t)
  }

  function TryAll(db: Database, rows: seq<Schedule>, t: Tick): Database {
    if rows == [] then db else Try(TryAll(db, rows[..|rows| - 1], t), rows[|rows| - 1], t)
  }

  function Due(db: Database, now: int): seq<Schedule> {
    Filter(db.schedules, (r: Schedule) => r.dueAt <= now && r.id !in db.completed)
  }

  function Discovered(db: Database, t: Tick): Database {
    VisitAll(db, db.projects[..Reached(|db.projects|, t.projectPageFails, 0)], t)
  }

  // The rows a tick tries to save.
  function Tried(db: Database, t: Tick): seq<Schedule> {
    var due := Due(Discovered(db, t), t.now);
    due[..Reached(|due|, t.duePageFails, 0)]
  }

  function AfterTick(db: Database, t: Tick): Database { TryAll(Discovered(db, t), Tried(db, t), t) }

  // ---- The paged code ----

  type DueCursor = Option<(int, Uuid)>

  predicate Beyond(after: DueCursor, r: Schedule) {
    after.Some? ==> after.value.0 < r.dueAt || (after.value.0 == r.dueAt && after.value.1 < r.id)
  }

  function CursorOf(rows: seq<Schedule>): DueCursor {
    if rows == [] then None else Some((rows[|rows| - 1].dueAt, rows[|rows| - 1].id))
  }

  function ProjectPage(db: Database, after: Option<Uuid>): seq<Uuid> {
    Page(Filter(db.projects, (p: Uuid) => after.Some? ==> p > after.value))
  }

  function DuePage(db: Database, now: int, after: DueCursor): seq<Schedule> {
    Page(Filter(db.schedules, (r: Schedule) => r.dueAt <= now && Beyond(after, r) && r.id !in db.completed))
  }

  class WeeklyReportStore {
    var db: Database

    constructor (db: Database)
      ensures this.db == db
    {
      this.db := db;
    }

    /** One page of projects; `query` numbers the page queries of a tick. */
    method Discover(t: Tick, after: Option<Uuid>, query: nat) returns (page: Option<seq<Uuid>>)
      modifies this
      ensures t.projectPageFails(query) ==> page == None && db == old(db)
      ensures !t.projectPageFails(query) ==>
                && page == Some(ProjectPage(old(db), after))
                && db == VisitAll(old(db), page.value, t)
    {
      if t.projectPageFails(query) { return None; }
      var ids := ProjectPage(db, after);
      ghost var start := db;
      VisitAllEnds(start, ids, t);
      hide VisitAll, Visit, ProjectPage;
      var i := 0;
      while i < |ids|
        invariant 0 <= i <= |ids|
        invariant db == VisitAll(start, ids[..i], t)
      {
        VisitAllNext(start, ids, i, t);
        db := Visit(db, ids[i], t);
        i := i + 1;
      }
      page := Some(ids);
    }

    method DueAfter(t: Tick, after: DueCursor, query: nat) returns (page: Option<seq<Schedule>>)
      ensures page == if t.duePageFails(query) then None else Some(DuePage(db, t.now, after))
    {
      page := if t.duePageFails(query) then None else Some(DuePage(db, t.now, after));
    }

    method Save(row: Schedule, t: Tick) returns (report: Option<Uuid>)
      modifies this
      ensures db == old(db).(
                saves := old(db.saves) + [row.id],
                reports := if !Applied(t.saving(row.id)) || row.id in old(db.reports) then old(db.reports)
                           else old(db.reports)[row.id := t.newReport(row.id)])
      ensures report == if t.saving(row.id).Done? then Some(db.reports[row.id]) else None
    {
      db := db.(saves := db.saves + [row.id]);
      if t.saving(row.id) == Failed(false) { return None; }
      if row.id !in db.reports {
        db := db.(reports := db.reports[row.id := t.newReport(row.id)]);
      }
      report := if t.saving(row.id).Done? then Some(db.reports[row.id]) else None;
    }

    method Complete(scope: TenantScope, scheduleId: Uuid, reportId: Uuid, t: Tick) returns (done: bool)
      modifies this
      ensures db == old(db).(
                attempts := old(db.attempts) + [Attempt(scope, scheduleId, reportId)],
                completed := old(db.completed) + if Applied(t.completing(scheduleId)) then {scheduleId} else {})
      ensures done == t.completing(scheduleId).Done?
    {
      db := db.(attempts := db.attempts + [Attempt(scope, scheduleId, reportId)]);
      if Applied(t.completing(scheduleId)) {
        db := db.(completed := db.completed + {scheduleId});
      }
      done := t.completing(scheduleId).Done?;
    }
  }

  method DiscoverAll(store: WeeklyReportStore, t: Tick)
    requires Valid(store.db)
    modifies store
    ensures store.db == Discovered(old(store.db), t)
  {
    hide VisitAll, ProjectPage, Valid, Reached;
    ghost var start, k := store.db, 0;
    ghost var all := start.projects;
    var after: Option<Uuid>, query: nat := None, 0;
    VisitAllNone(start, t);
    while true
      invariant 0 <= k <= |all|
      invariant store.db == VisitAll(start, all[..k], t)
      invariant after == if k == 0 then None else Some(all[k - 1])
      invariant Reached(|all|, t.projectPageFails, 0) == k + Reached(|all| - k, t.projectPageFails, query)
      decreases |all| - k
    {
      NextProjects(start, t, k, after);
      ReachedNext(|all| - k, t.projectPageFails, query);
      var candidates := store.Discover(t, after, query);
      if candidates == None { break; }
      var page := candidates.value;
      k := k + |page|;
      if page != [] { after := Some(page[|page| - 1]); }
      if |page| < PAGE_SIZE { break; }
      query := query + 1;
    }
  }

  method SaveOne(store: WeeklyReportStore, candidate: Schedule, t: Tick)
    modifies store
    ensures store.db == Try(old(store.db), candidate, t)
  {
    var report := store.Save(candidate, t);
    if report.Some? {
      var done := store.Complete(candidate.scope, candidate.id, report.value, t);
    }
  }

  method SaveAllDue(store: WeeklyReportStore, t: Tick)
    requires Valid(store.db)
    modifies store
    ensures var due := Due(old(store.db), t.now);
            store.db == TryAll(old(store.db), due[..Reached(|due|, t.duePageFails, 0)], t)
  {
    hide TryAll, Due, DuePage, Try, Valid, CursorOf, Reached;
    ghost var start, k := store.db, 0;
    ghost var due := Due(start, t.now);
    NothingTried(start, due, t);
    var after: DueCursor, query: nat := None, 0;
    while true
      invariant 0 <= k <= |due|
      invariant store.db == TryAll(start, due[..k], t)
      invariant after == CursorOf(due[..k])
      invariant Reached(|due|, t.duePageFails, 0) == k + Reached(|due| - k, t.duePageFails, query)
      decreases |due| - k
    {
      DuePageIs(start, t, k);
      ReachedNext(|due| - k, t.duePageFails, query);
      var candidates := store.DueAfter(t, after, query);
      if candidates == None { break; }
      var page := candidates.value;
      assert page == Page(due[k..]);
      var i := 0;
      while i < |page|
        invariant 0 <= i <= |page|
        invariant store.db == TryAll(start, due[..k + i], t)
        invariant after == CursorOf(due[..k + i])
      {
        NextTry(start, due, k, i, t);
        after := Some((page[i].dueAt, page[i].id));
        SaveOne(store, page[i], t);
        i := i + 1;
      }
      k := k + i;
      if |page| < PAGE_SIZE { break; }
      query := query + 1;
    }
  }

  /** The tick: pages, cursors and failing calls come to one ordered pass over everything due. */
  method ScanWith(store: WeeklyReportStore, t: Tick)
    requires Valid(store.db)
    modifies store
    ensures store.db == AfterTick(old(store.db), t)
    ensures Valid(store.db)
  {
    DiscoveredValid(store.db, t);
    TickKeepsValid(store.db, t);
    DiscoverAll(store, t);
    SaveAllDue(store, t);
  }

  // ---- Discovery ----

  lemma VisitAllNone(db: Database, t: Tick)
    ensures VisitAll(db, [], t) == db
  {
  }

  lemma VisitAllEnds(db: Database, projects: seq<Uuid>, t: Tick)
    ensures VisitAll(db, projects[..0], t) == db
    ensures projects[..|projects|] == projects
  {
  }

  lemma VisitAllNext(db: Database, projects: seq<Uuid>, i: nat, t: Tick)
    requires i < |projects|
    ensures VisitAll(db, projects[..i + 1], t) == Visit(VisitAll(db, projects[..i], t), projects[i], t)
  {
    hide Visit;
    assert projects[..i + 1][..i] == projects[..i];
  }

  lemma {:induction false} VisitAllConcat(db: Database, a: seq<Uuid>, b: seq<Uuid>, t: Tick)
    ensures VisitAll(db, a + b, t) == VisitAll(VisitAll(db, a, t), b, t)
  {
    if b == [] {
      assert a + b == a;
    } else {
      VisitAllConcat(db, a, b[..|b| - 1], t);
      assert (a + b)[..|a + b| - 1] == a + b[..|b| - 1];
    }
  }

  lemma InsertNew(rows: seq<Schedule>, r: Schedule)
    requires Sorted(rows, Earlier) && DistinctIds(rows) && !HasId(rows, r.id)
    ensures var more := Insert(rows, r, Earlier);
            && Sorted(more, Earlier) && DistinctIds(more)
            && forall x :: x in more <==> x == r || x in rows
  {
    forall x | x in rows ensures x.id != r.id {
      var i :| 0 <= i < |rows| && rows[i] == x;
    }
    InsertKeeps(rows, r, Earlier);
    var more := Insert(rows, r, Earlier);
    hide Insert;
    forall i, j | 0 <= i < j < |more| ensures more[i].id != more[j].id {
      assert more[i] in more && more[j] in more && Earlier(more[i], more[j]);
    }
  }

  /** Discovery visits projects in order, keeps every schedule there is, adds only weeks some
      visited project froze, and has each of them, so that the due pass sees it. */
  lemma {:induction false} VisitAllKeeps(db: Database, projects: seq<Uuid>, t: Tick)
    requires Valid(db)
    ensures var d := VisitAll(db, projects, t);
            && Valid(d)
            && d == db.(schedules := d.schedules, visits := db.visits + projects)
            && (forall r :: r in db.schedules ==> r in d.schedules)
            && (forall r :: r in d.schedules ==>
                  r in db.schedules || exists p :: p in projects && t.discovery(p) == Frozen(r))
            && (forall p :: p in projects && t.discovery(p).Frozen? ==>
                  HasId(d.schedules, t.discovery(p).schedule.id))
  {
    if projects != [] {
      var before, last := projects[..|projects| - 1], projects[|projects| - 1];
      assert projects == before + [last];
      VisitAllKeeps(db, before, t);
      VisitKeeps(VisitAll(db, before, t), last, t);
    }
  }

  lemma VisitKeeps(db: Database, p: Uuid, t: Tick)
    requires Valid(db)
    ensures var d := Visit(db, p, t);
            && Valid(d)
            && d == db.(schedules := d.schedules, visits := db.visits + [p])
            && (forall r :: r in db.schedules ==> r in d.schedules)
            && (forall r :: r in d.schedules ==> r in db.schedules || t.discovery(p) == Frozen(r))
            && (t.discovery(p).Frozen? ==> HasId(d.schedules, t.discovery(p).schedule.id))
            && (forall id :: HasId(db.schedules, id) ==> HasId(d.schedules, id))
  {
    var d := Visit(db, p, t);
    if t.discovery(p).Frozen? && !HasId(db.schedules, t.discovery(p).schedule.id) {
      var r := t.discovery(p).schedule;
      InsertNew(db.schedules, r);
      assert r in d.schedules;
    }
    forall id | HasId(db.schedules, id) ensures HasId(d.schedules, id) {
      var i :| 0 <= i < |db.schedules| && db.schedules[i].id == id;
      assert db.schedules[i] in d.schedules;
    }
  }

  lemma DiscoveredValid(db: Database, t: Tick)
    requires Valid(db)
    ensures Valid(Discovered(db, t))
  {
    VisitAllKeeps(db, db.projects[..Reached(|db.projects|, t.projectPageFails, 0)], t);
  }

  lemma NextProjects(db: Database, t: Tick, k: nat, after: Option<Uuid>)
    requires Valid(db)
    requires k <= |db.projects| && after == if k == 0 then None else Some(db.projects[k - 1])
    ensures var d, page := VisitAll(db, db.projects[..k], t), Page(db.projects[k..]);
            && ProjectPage(d, after) == page
            && k + |page| <= |db.projects|
            && VisitAll(d, page, t) == VisitAll(db, db.projects[..k + |page|], t)
  {
    hide VisitAll;
    var all, page := db.projects, Page(db.projects[k..]);
    VisitAllKeeps(db, all[..k], t);
    VisitAllConcat(db, all[..k], page, t);
    assert all[..k] + page == all[..k + |page|];
    FilterAll(all);
    hide Filter;
    var query := (p: Uuid) => after.Some? ==> p > after.value;
    if k > 0 {
      assert all[k..] == Filter(all, (p: Uuid) => true)[k..];
      NextPage(all, (p: Uuid) => true, (a: Uuid, b: Uuid) => a < b, query, k);
    } else {
      FilterCongruence(all, (p: Uuid) => true, query);
    }
    FilterCongruence(all, query, (p: Uuid) => after.Some? ==> p > after.value);
  }

  lemma {:induction false} FilterAll(all: seq<Uuid>)
    ensures Filter(all, (p: Uuid) => true) == all
  {
    if all != [] { FilterAll(all[1..]); }
  }

  // ---- The due pass ----

  // The save answered and the completion was applied.
  ghost predicate Finishes(id: Uuid, t: Tick) { t.saving(id) == Done && t.completing(id) != Failed(false) }

  // Completion attempts made for these rows, in their order, each with the report saved for it.
  ghost predicate Answers(attempts: seq<Attempt>, rows: seq<Schedule>, reports: map<Uuid, Uuid>) {
    && |attempts| == |rows|
    && forall i :: 0 <= i < |rows| ==>
         && rows[i].id in reports
         && attempts[i] == Attempt(rows[i].scope, rows[i].id, reports[rows[i].id])
  }

  function Ids(rows: seq<Schedule>): (ids: seq<Uuid>)
    ensures |ids| == |rows| && forall i :: 0 <= i < |ids| ==> ids[i] == rows[i].id
  {
    seq(|rows|, i requires 0 <= i < |rows| => rows[i].id)
  }

  function Saved(rows: seq<Schedule>, t: Tick): seq<Schedule> {
    Filter(rows, (r: Schedule) => t.saving(r.id).Done?)
  }

  ghost predicate ReportsKept(before: map<Uuid, Uuid>, after: map<Uuid, Uuid>) {
    forall id :: id in before ==> id in after && after[id] == before[id]
  }

  /** What a pass over any rows does, call by call. */
  lemma TryAllEffect(db: Database, rows: seq<Schedule>, t: Tick)
    ensures var d := TryAll(db, rows, t);
            && d == db.(saves := db.saves + Ids(rows), attempts := d.attempts, reports := d.reports, completed := d.completed)
            && ReportsKept(db.reports, d.reports)
            && (forall id :: id in d.completed <==> id in db.completed || (HasId(rows, id) && Finishes(id, t)))
            && |db.attempts| <= |d.attempts| && d.attempts[..|db.attempts|] == db.attempts
            && Answers(d.attempts[|db.attempts|..], Saved(rows, t), d.reports)
  {
    TryAllWrites(db, rows, t);
    var added := TryAllAnswers(db, rows, t);
    hide TryAll;
    assert TryAll(db, rows, t).attempts == db.attempts + added;
  }

  lemma {:induction false} TryAllWrites(db: Database, rows: seq<Schedule>, t: Tick)
    ensures var d := TryAll(db, rows, t);
            && d == db.(saves := db.saves + Ids(rows), attempts := d.attempts, reports := d.reports, completed := d.completed)
            && ReportsKept(db.reports, d.reports)
            && (forall id :: id in d.completed <==> id in db.completed || (HasId(rows, id) && Finishes(id, t)))
  {
    if rows != [] {
      var before, last := rows[..|rows| - 1], rows[|rows| - 1];
      TryAllSnoc(db, rows, t);
      InitLast(rows);
      TryAllWrites(db, before, t);
      TryEffect(TryAll(db, before, t), last, t);
      HasSnoc(before, last, IdOf);
      hide Try, TryAll, Has;
      assert db.saves + Ids(before) + [last.id] == db.saves + Ids(rows);
    }
  }

  lemma {:induction false} TryAllAnswers(db: Database, rows: seq<Schedule>, t: Tick) returns (added: seq<Attempt>)
    ensures TryAll(db, rows, t).attempts == db.attempts + added
    ensures Answers(added, Saved(rows, t), TryAll(db, rows, t).reports)
  {
    if rows == [] {
      added := [];
    } else {
      var before, last := rows[..|rows| - 1], rows[|rows| - 1];
      TryAllSnoc(db, rows, t);
      InitLast(rows);
      SavedSnoc(before, last, t);
      var e := TryAll(db, before, t);
      TryEffect(e, last, t);
      hide Try, TryAll, Saved, Answers;
      added := TryAllAnswers(db, before, t);
      var reports := TryAll(db, rows, t).reports;
      AnswersKept(added, Saved(before, t), e.reports, reports);
      if t.saving(last.id).Done? {
        var a := Attempt(last.scope, last.id, reports[last.id]);
        AnswersSnoc(added, Saved(before, t), last, reports);
        Assoc(db.attempts, added, [a]);
        added := added + [a];
      } else {
        assert Saved(before, t) + [] == Saved(before, t);
      }
    }
  }

  lemma AnswersKept(attempts: seq<Attempt>, rows: seq<Schedule>, before: map<Uuid, Uuid>, after: map<Uuid, Uuid>)
    requires Answers(attempts, rows, before) && ReportsKept(before, after)
    ensures Answers(attempts, rows, after)
  {
  }

  lemma AnswersSnoc(attempts: seq<Attempt>, rows: seq<Schedule>, row: Schedule, reports: map<Uuid, Uuid>)
    requires Answers(attempts, rows, reports) && row.id in reports
    ensures Answers(attempts + [Attempt(row.scope, row.id, reports[row.id])], rows + [row], reports)
  {
  }

  lemma SavedSnoc(rows: seq<Schedule>, row: Schedule, t: Tick)
    ensures Saved(rows + [row], t) == Saved(rows, t) + if t.saving(row.id).Done? then [row] else []
  {
    FilterSnoc(rows, row, (r: Schedule) => t.saving(r.id).Done?);
    FilterCongruence(rows, (r: Schedule) => t.saving(r.id).Done?, (r: Schedule) => t.saving(r.id).Done?);
    FilterCongruence(rows + [row], (r: Schedule) => t.saving(r.id).Done?, (r: Schedule) => t.saving(r.id).Done?);
  }

  lemma TryEffect(db: Database, row: Schedule, t: Tick)
    ensures var d := Try(db, row, t);
            && d == db.(saves := db.saves + [row.id], attempts := d.attempts, reports := d.reports, completed := d.completed)
            && ReportsKept(db.reports, d.reports)
            && (forall id :: id in d.completed <==> id in db.completed || (id == row.id && Finishes(id, t)))
            && (if t.saving(row.id).Done? then
                  row.id in d.reports && d.attempts == db.attempts + [Attempt(row.scope, row.id, d.reports[row.id])]
                else d.attempts == db.attempts)
  {
  }

  /** A pass stores a report exactly for the rows whose save was applied and had none. */
  lemma {:induction false} TryAllReports(db: Database, rows: seq<Schedule>, t: Tick)
    ensures var d := TryAll(db, rows, t);
            && (forall id :: id in d.reports && id !in db.reports ==>
                  d.reports[id] == t.newReport(id) && HasId(rows, id) && Applied(t.saving(id)))
            && (forall id :: id in db.reports || (HasId(rows, id) && Applied(t.saving(id))) ==> id in d.reports)
  {
    if rows != [] {
      var before, last := rows[..|rows| - 1], rows[|rows| - 1];
      assert rows == before + [last];
      TryAllReports(db, before, t);
      TryReports(TryAll(db, before, t), last, t);
      HasSnoc(before, last, IdOf);
      hide Has, Try;
    }
  }

  lemma TryReports(db: Database, row: Schedule, t: Tick)
    ensures var d := Try(db, row, t);
            && ReportsKept(db.reports, d.reports)
            && (forall id :: id in d.reports && id !in db.reports ==> id == row.id && d.reports[id] == t.newReport(id) && Applied(t.saving(id)))
            && (Applied(t.saving(row.id)) ==> row.id in d.reports)
  {
  }

  lemma TryAllSnoc(db: Database, rows: seq<Schedule>, t: Tick)
    ensures TryAll(db, [], t) == db
    ensures rows != [] ==> TryAll(db, rows, t) == Try(TryAll(db, rows[..|rows| - 1], t), rows[|rows| - 1], t)
  {
  }

  lemma NothingTried(db: Database, rows: seq<Schedule>, t: Tick)
    ensures TryAll(db, rows[..0], t) == db && CursorOf(rows[..0]) == None
  {
  }

  lemma NextTry(db: Database, due: seq<Schedule>, k: nat, i: nat, t: Tick)
    requires k + i < |due| && i < |Page(due[k..])|
    ensures var row := Page(due[k..])[i];
            && TryAll(db, due[..k + i + 1], t) == Try(TryAll(db, due[..k + i], t), row, t)
            && CursorOf(due[..k + i + 1]) == Some((row.dueAt, row.id))
  {
    TryAllSnoc(db, due[..k + i + 1], t);
    hide TryAll, Try;
    assert due[..k + i + 1][..k + i] == due[..k + i];
  }

  lemma DuePageIs(db: Database, t: Tick, k: nat)
    requires Valid(db) && k <= |Due(db, t.now)|
    ensures var due := Due(db, t.now);
            var d := TryAll(db, due[..k], t);
            DuePage(d, t.now, CursorOf(due[..k])) == Page(due[k..])
  {
    hide TryAll, Filter;
    var due := Due(db, t.now);
    var d := TryAll(db, due[..k], t);
    var after := CursorOf(due[..k]);
    var keep := (r: Schedule) => r.dueAt <= t.now && r.id !in db.completed;
    var query := (r: Schedule) => r.dueAt <= t.now && Beyond(after, r) && r.id !in d.completed;
    TryAllEffect(db, due[..k], t);
    if k == 0 {
      assert due[0..] == due;
      FilterCongruence(db.schedules, keep, query);
    } else {
      forall r | r in db.schedules && keep(r) && Earlier(due[k - 1], r) && r !in due[..k] ensures query(r) {
        AbsentId(db, due[..k], r);
      }
      NextPage(db.schedules, keep, Earlier, query, k);
    }
  }

  lemma SameRow(db: Database, a: Schedule, b: Schedule)
    requires Valid(db) && a in db.schedules && b in db.schedules && a.id == b.id
    ensures a == b
  {
    var i :| 0 <= i < |db.schedules| && db.schedules[i] == a;
    var j :| 0 <= j < |db.schedules| && db.schedules[j] == b;
  }

  lemma AbsentId(db: Database, rows: seq<Schedule>, r: Schedule)
    requires Valid(db) && r in db.schedules && r !in rows
    requires forall x :: x in rows ==> x in db.schedules
    ensures !HasId(rows, r.id)
  {
    forall i | 0 <= i < |rows| ensures rows[i] in rows && (rows[i].id == r.id ==> rows[i] == r) {
      if rows[i].id == r.id { SameRow(db, rows[i], r); }
    }
  }

  lemma TryAllValid(db: Database, rows: seq<Schedule>, t: Tick)
    requires Valid(db)
    ensures Valid(TryAll(db, rows, t))
  {
    hide TryAll;
    TryAllEffect(db, rows, t);
    var d := TryAll(db, rows, t);
    var more := d.attempts[|db.attempts|..];
    forall a | a in d.attempts ensures a.scheduleId in d.reports && d.reports[a.scheduleId] == a.reportId {
      assert d.attempts == db.attempts + more;
      if a !in db.attempts {
        var i :| 0 <= i < |more| && more[i] == a;
      }
    }
  }

  lemma TickKeepsValid(db: Database, t: Tick)
    requires Valid(db)
    ensures Valid(AfterTick(db, t))
  {
    DiscoveredValid(db, t);
    TryAllValid(Discovered(db, t), Tried(db, t), t);
  }

  // ---- What a tick promises ----

  /** Due weeks: all of them, in (due_at, id) order, each once. */
  lemma DueExactly(db: Database, now: int)
    requires Valid(db)
    ensures var due := Due(db, now);
            && Sorted(due, Earlier) && DistinctIds(due)
            && (forall i, j :: 0 <= i < j < |due| ==>
                  due[i].dueAt < due[j].dueAt || (due[i].dueAt == due[j].dueAt && due[i].id < due[j].id))
            && forall r :: r in due <==> r in db.schedules && r.dueAt <= now && r.id !in db.completed
  {
    hide Filter;
    var due := Due(db, now);
    FilterSorted(db.schedules, (r: Schedule) => r.dueAt <= now && r.id !in db.completed, Earlier);
    forall i, j | 0 <= i < j < |due| ensures due[i].id != due[j].id {
      assert Earlier(due[i], due[j]);
      if due[i].id == due[j].id { SameRow(db, due[i], due[j]); }
    }
  }

  /** One tick saves exactly the rows it tries, in order and whatever fails; asks for completion
      exactly of the rows whose save answered, each with its own scope and the report saved for
      it; stores a report exactly where the save was applied and there was none; and marks
      completed exactly the rows whose completion was applied. */
  lemma TickEffect(db: Database, t: Tick)
    requires Valid(db)
    ensures var d, tried := AfterTick(db, t), Tried(db, t);
            && d.saves == db.saves + Ids(tried)
            && d.visits == db.visits + db.projects[..Reached(|db.projects|, t.projectPageFails, 0)]
            && |db.attempts| <= |d.attempts| && d.attempts[..|db.attempts|] == db.attempts
            && Answers(d.attempts[|db.attempts|..], Saved(tried, t), d.reports)
            && ReportsKept(db.reports, d.reports)
            && (forall id :: id in d.completed <==> id in db.completed || (HasId(tried, id) && Finishes(id, t)))
            && (forall id :: id in d.reports && id !in db.reports ==>
                  d.reports[id] == t.newReport(id) && HasId(tried, id) && t.saving(id) != Failed(false))
            && (forall id :: HasId(tried, id) && t.saving(id) != Failed(false) ==> id in d.reports)
            && d.schedules == Discovered(db, t).schedules
  {
    hide TryAll, VisitAll, Due;
    VisitAllKeeps(db, db.projects[..Reached(|db.projects|, t.projectPageFails, 0)], t);
    TryAllEffect(Discovered(db, t), Tried(db, t), t);
    TryAllReports(Discovered(db, t), Tried(db, t), t);
  }

  /** When no page query fails, the tick visits every project, and tries every week that is due
      at its clock once its discovery is done. */
  lemma TickCovers(db: Database, t: Tick)
    requires Valid(db)
    requires forall q :: !t.projectPageFails(q) && !t.duePageFails(q)
    ensures Discovered(db, t) == VisitAll(db, db.projects, t)
    ensures Tried(db, t) == Due(Discovered(db, t), t.now)
  {
    hide VisitAll, Due;
    ReachedAll(|db.projects|, t.projectPageFails, 0);
    ReachedAll(|Due(Discovered(db, t), t.now)|, t.duePageFails, 0);
    assert db.projects[..|db.projects|] == db.projects;
  }

  lemma LeftOpen(db: Database, t: Tick, r: Schedule)
    requires Valid(db) && r in Discovered(db, t).schedules
    ensures r.id !in AfterTick(db, t).completed
            <==> r.id !in Discovered(db, t).completed && !(r in Tried(db, t) && Finishes(r.id, t))
  {
    TriedStored(db, t);
    hide TryAll, Discovered, Tried, Finishes, Valid;
    var before, tried := Discovered(db, t), Tried(db, t);
    TryAllWrites(before, tried, t);
    if r in tried {
      var i :| 0 <= i < |tried| && tried[i] == r;
      assert HasId(tried, r.id);
    } else {
      AbsentId(before, tried, r);
    }
  }

  lemma TriedStored(db: Database, t: Tick)
    requires Valid(db)
    ensures Valid(Discovered(db, t))
    ensures forall x :: x in Tried(db, t) ==> x in Discovered(db, t).schedules
  {
    hide Filter, Discovered;
    DiscoveredValid(db, t);
    DueExactly(Discovered(db, t), t.now);
    hide Due, Valid;
  }

  /** After a tick, what is left due is what was due and did not finish, in the same order: the
      next tick retries exactly that. */
  lemma RetriesExactlyUnfinished(db: Database, t: Tick)
    requires Valid(db)
    ensures Due(AfterTick(db, t), t.now)
            == Filter(Due(Discovered(db, t), t.now), (r: Schedule) => !(r in Tried(db, t) && Finishes(r.id, t)))
  {
    hide TryAll, VisitAll, Filter;
    var before, after, tried := Discovered(db, t), AfterTick(db, t), Tried(db, t);
    TickEffect(db, t);
    var keep := (r: Schedule) => r.dueAt <= t.now && r.id !in before.completed;
    var open := (r: Schedule) => !(r in tried && Finishes(r.id, t));
    FilterTwice(before.schedules, keep, open, (r: Schedule) => keep(r) && open(r));
    forall r | r in before.schedules
      ensures (r.dueAt <= t.now && r.id !in after.completed) == (keep(r) && open(r))
    {
      LeftOpen(db, t, r);
    }
    FilterCongruence(before.schedules, (r: Schedule) => r.dueAt <= t.now && r.id !in after.completed,
                     (r: Schedule) => keep(r) && open(r));
  }

  /** With no failing call nothing due is left. */
  lemma QuietTickClears(db: Database, t: Tick)
    requires Valid(db)
    requires forall q :: !t.projectPageFails(q) && !t.duePageFails(q)
    requires forall id :: t.saving(id).Done? && t.completing(id).Done?
    ensures Due(AfterTick(db, t), t.now) == []
  {
    hide TryAll, VisitAll, Due, Filter;
    TickCovers(db, t);
    RetriesExactlyUnfinished(db, t);
    var due := Due(Discovered(db, t), t.now);
    FilterNone(due, (r: Schedule) => !(r in Tried(db, t) && Finishes(r.id, t)));
  }

  // ---- Any number of ticks ----

  function Ticks(db: Database, ts: seq<Tick>): Database
    decreases |ts|
  {
    if ts == [] then db else Ticks(AfterTick(db, ts[0]), ts[1..])
  }

  /** Over any run of ticks: no completed week is saved or completed again, and every completion
      ever asked for a week carries the one report saved for it. */
  lemma {:induction false} TicksKeep(db: Database, ts: seq<Tick>)
    requires Valid(db)
    ensures var d := Ticks(db, ts);
            && Valid(d)
            && db.completed <= d.completed
            && ReportsKept(db.reports, d.reports)
            && |db.saves| <= |d.saves| && d.saves[..|db.saves|] == db.saves
            && (forall i :: |db.saves| <= i < |d.saves| ==> d.saves[i] !in db.completed)
            && |db.attempts| <= |d.attempts| && d.attempts[..|db.attempts|] == db.attempts
            && (forall i :: |db.attempts| <= i < |d.attempts| ==> d.attempts[i].scheduleId !in db.completed)
    decreases |ts|
  {
    hide AfterTick;
    if ts != [] {
      TickKeepsValid(db, ts[0]);
      CompletedStays(db, ts[0]);
      TicksKeep(AfterTick(db, ts[0]), ts[1..]);
    }
  }

  lemma CompletedStays(db: Database, t: Tick)
    requires Valid(db)
    ensures var d := AfterTick(db, t);
            && db.completed <= d.completed
            && ReportsKept(db.reports, d.reports)
            && |db.saves| <= |d.saves| && d.saves[..|db.saves|] == db.saves
            && (forall i :: |db.saves| <= i < |d.saves| ==> d.saves[i] !in db.completed)
            && |db.attempts| <= |d.attempts| && d.attempts[..|db.attempts|] == db.attempts
            && (forall i :: |db.attempts| <= i < |d.attempts| ==> d.attempts[i].scheduleId !in db.completed)
  {
    hide TryAll, VisitAll, Filter, Reached;
    var d, tried := AfterTick(db, t), Tried(db, t);
    TickEffect(db, t);
    DiscoveredValid(db, t);
    DueExactly(Discovered(db, t), t.now);
    VisitAllKeeps(db, db.projects[..Reached(|db.projects|, t.projectPageFails, 0)], t);
    assert forall r :: r in tried ==> r.id !in db.completed;
    hide AfterTick, Tried, Due;
    forall i | |db.saves| <= i < |d.saves| ensures d.saves[i] !in db.completed {
      assert d.saves[i] == tried[i - |db.saves|].id;
    }
    var more := d.attempts[|db.attempts|..];
    forall i | |db.attempts| <= i < |d.attempts| ensures d.attempts[i].scheduleId !in db.completed {
      assert d.attempts[i] == more[i - |db.attempts|];
      assert Saved(tried, t)[i - |db.attempts|] in Saved(tried, t);
    }
  }

  /** Every completion asked for one week, in whatever ticks, names the same report. */
  lemma SameReportAlways(db: Database, ts: seq<Tick>, a: Attempt, b: Attempt)
    requires Valid(db)
    requires a in Ticks(db, ts).attempts && b in Ticks(db, ts).attempts && a.scheduleId == b.scheduleId
    ensures a.reportId == b.reportId
  {
    TicksKeep(db, ts);
  }
}
