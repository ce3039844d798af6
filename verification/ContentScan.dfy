/** Recovery of accepted content requests: an endless loop that reads the unlinked requests a
    page at a time and tries to materialize each, while HTTP accepts and links others. */
module ContentScan {
  import opened Text
  import opened Tenancy
  import opened Keyset

  datatype Request = Request(id: Uuid, scope: TenantScope)

  datatype Database = Database(requests: seq<Request>, linked: set<Uuid>, calls: seq<Request>)

  // What one turn of the loop meets: requests accepted and linked by others since the last
  // turn, whether the page query fails, and which materializations take effect.
  datatype Poll = Poll(accepted: seq<Request>, linkedByOthers: set<Uuid>, scanFails: bool, materializes: Uuid -> bool)

  datatype Scanner = Scanner(db: Database, after: Option<Uuid>)

  predicate ById(a: Request, b: Request) { a.id < b.id }

  function IdOf(r: Request): Uuid { r.id }

  predicate HasId(rows: seq<Request>, id: Uuid) { Has(rows, IdOf, id) }

  ghost predicate Valid(db: Database) { Sorted(db.requests, ById) }

  predicate Beyond(after: Option<Uuid>, id: Uuid) { after.Some? ==> id > after.value }

  function Unlinked(db: Database, after: Option<Uuid>): seq<Request> {
    Filter(db.requests, (r: Request) => Beyond(after, r.id) && r.id !in db.linked)
  }

  // ---- One turn ----

  // The primary key refuses an id that is taken.
  function Accept(rows: seq<Request>, more: seq<Request>): seq<Request>
    decreases |more|
  {
    if more == [] then rows
    else Accept(if HasId(rows, more[0].id) then rows else Insert(rows, more[0], ById), more[1..])
  }

  function Others(db: Database, poll: Poll): Database {
    db.(requests := Accept(db.requests, poll.accepted), linked := db.linked + poll.linkedByOthers)
  }

  function Attempt(db: Database, r: Request, poll: Poll): Database {
    db.(calls := db.calls + [r], linked := db.linked + if poll.materializes(r.id) then {r.id} else {})
  }

  function AttemptAll(db: Database, rows: seq<Request>, poll: Poll): Database {
    if rows == [] then db else Attempt(AttemptAll(db, rows[..|rows| - 1], poll), rows[|rows| - 1], poll)
  }

  function LastId(rows: seq<Request>): Option<Uuid> {
    if rows == [] then None else Some(rows[|rows| - 1].id)
  }

  /** One turn of the loop in `spawn`, as a step of the scanner. */
  function Turn(s: Scanner, poll: Poll): Scanner {
    var db := Others(s.db, poll);
    if poll.scanFails then Scanner(db, s.after)
    else
      var page := Page(Unlinked(db, s.after));
      Scanner(AttemptAll(db, page, poll), if |page| == PAGE_SIZE then LastId(page) else None)
  }

  // A short page ends the pass; the next one starts from the beginning.
  predicate Ends(s: Scanner, poll: Poll) {
    !poll.scanFails && |Page(Unlinked(Others(s.db, poll), s.after))| < PAGE_SIZE
  }

  function Turns(s: Scanner, polls: seq<Poll>): Scanner
    decreases |polls|
  {
    if polls == [] then s else Turn(Turns(s, polls[..|polls| - 1]), polls[|polls| - 1])
  }

  // ---- The code ----

  class ContentRequestRepository {
    var db: Database

    constructor (db: Database)
      ensures this.db == db
    {
      this.db := db;
    }

    method Interleave(poll: Poll)
      modifies this
      ensures db == Others(old(db), poll)
    {
      db := Others(db, poll);
    }

    method ListUnlinked(after: Option<Uuid>, poll: Poll) returns (page: Option<seq<Request>>)
      ensures page == if poll.scanFails then None else Some(Page(Unlinked(db, after)))
    {
      page := if poll.scanFails then None else Some(Page(Unlinked(db, after)));
    }

    method Materialize(request: Request, poll: Poll) returns (ok: bool)
      modifies this
      ensures db == Attempt(old(db), request, poll)
      ensures ok == poll.materializes(request.id)
    {
      db := db.(calls := db.calls + [request]);
      ok := poll.materializes(request.id);
      if ok { db := db.(linked := db.linked + {request.id}); }
    }
  }

  method MaterializePage(repository: ContentRequestRepository, after: Option<Uuid>, poll: Poll)
    returns (next: Result<Option<Uuid>, ()>)
    modifies repository
    ensures poll.scanFails ==> next == Err(()) && repository.db == old(repository.db)
    ensures !poll.scanFails ==>
              var page := Page(Unlinked(old(repository.db), after));
              && next == Ok(if |page| == PAGE_SIZE then LastId(page) else None)
              && repository.db == AttemptAll(old(repository.db), page, poll)
  {
    var listed := repository.ListUnlinked(after, poll);
    if listed == None { return Err(()); }
    var requests := listed.value;
    next := Ok(if |requests| == PAGE_SIZE then Some(requests[|requests| - 1].id) else None);
    var i := 0;
    while i < |requests|
      invariant 0 <= i <= |requests|
      invariant repository.db == AttemptAll(old(repository.db), requests[..i], poll)
    {
      var ok := repository.Materialize(requests[i], poll);
      i := i + 1;
      assert requests[..i][..i - 1] == requests[..i - 1];
    }
    assert requests[..i] == requests;
  }

  class ContentDispatch {
    const repository: ContentRequestRepository
    var after: Option<Uuid>

    constructor (repository: ContentRequestRepository)
      ensures this.repository == repository && after == None
    {
      this.repository := repository;
      after := None;
    }

    /** The loop body of `spawn`; true means go on without sleeping. */
    method Poll(poll: Poll) returns (drain: bool)
      modifies this, repository
      ensures Scanner(repository.db, after) == Turn(Scanner(old(repository.db), old(after)), poll)
      ensures drain <==> !poll.scanFails && !Ends(Scanner(old(repository.db), old(after)), poll)
    {
      repository.Interleave(poll);
      var next := MaterializePage(repository, after, poll);
      drain := false;
      match next
      case Ok(Some(id)) => after := Some(id); drain := true;
      case Ok(None) => after := None;
      case Err(_) =>
    }

    method PollAll(polls: seq<Poll>)
      modifies this, repository
      ensures Scanner(repository.db, after) == Turns(Scanner(old(repository.db), old(after)), polls)
    {
      var i := 0;
      while i < |polls|
        invariant 0 <= i <= |polls|
        invariant Scanner(repository.db, after) == Turns(Scanner(old(repository.db), old(after)), polls[..i])
      {
        var drain := Poll(polls[i]);
        i := i + 1;
        assert polls[..i][..i - 1] == polls[..i - 1];
      }
      assert polls[..i] == polls;
    }
  }

  // ---- What other actors may do ----

  lemma {:induction false} AcceptKeeps(rows: seq<Request>, more: seq<Request>)
    requires Sorted(rows, ById)
    ensures Sorted(Accept(rows, more), ById)
    ensures forall x :: x in rows ==> x in Accept(rows, more)
    ensures forall x :: x in Accept(rows, more) ==> x in rows || x in more
    decreases |more|
  {
    if more != [] {
      if !HasId(rows, more[0].id) {
        forall x | x in rows ensures x.id != more[0].id {
          var i :| 0 <= i < |rows| && rows[i] == x;
        }
        InsertKeeps(rows, more[0], ById);
      }
      AcceptKeeps(if HasId(rows, more[0].id) then rows else Insert(rows, more[0], ById), more[1..]);
    }
  }

  lemma OthersKeep(db: Database, poll: Poll)
    requires Valid(db)
    ensures var d := Others(db, poll);
            && Valid(d)
            && d.calls == db.calls
            && (forall x :: x in db.requests ==> x in d.requests)
            && (forall x :: x in d.requests ==> x in db.requests || x in poll.accepted)
  {
    AcceptKeeps(db.requests, poll.accepted);
  }

  // ---- One turn's effect ----

  lemma {:induction false} AttemptAllEffect(db: Database, rows: seq<Request>, poll: Poll)
    ensures var d := AttemptAll(db, rows, poll);
            && d == db.(calls := db.calls + rows, linked := d.linked)
            && forall id :: id in d.linked <==> id in db.linked || (HasId(rows, id) && poll.materializes(id))
  {
    if rows != [] {
      var before, last := rows[..|rows| - 1], rows[|rows| - 1];
      assert rows == before + [last];
      AttemptAllEffect(db, before, poll);
      HasSnoc(before, last, IdOf);
      hide Has;
    }
  }

  /** A page holds the unlinked requests between the old cursor and the new one: all of them, in
      order, and only them. */
  lemma PageIs(db: Database, after: Option<Uuid>)
    requires Valid(db)
    ensures var page := Page(Unlinked(db, after));
            && Sorted(page, ById)
            && (forall r :: r in page ==> r in db.requests && Beyond(after, r.id) && r.id !in db.linked)
            && (forall r :: r in db.requests && Beyond(after, r.id) && r.id !in db.linked ==>
                  r in page || (|page| == PAGE_SIZE && LastId(page).value < r.id))
            && (forall r :: r in page ==> r.id <= LastId(page).value)
  {
    hide Filter;
    var all := Unlinked(db, after);
    var page := Page(all);
    FilterSorted(db.requests, (r: Request) => Beyond(after, r.id) && r.id !in db.linked, ById);
    forall r | r in all ensures r in page || (|page| == PAGE_SIZE && LastId(page).value < r.id) {
      var i :| 0 <= i < |all| && all[i] == r;
      if i < |page| { assert page[i] == r; } else { assert ById(all[|page| - 1], all[i]); }
    }
  }

  /** With nothing happening meanwhile, a turn reads the next page of one unpaged scan: it
      attempts the first hundred requests left, and leaves the others for the turns after it,
      so a pass ends after one turn for every hundred. A failed query changes nothing. */
  lemma TurnConsumesPage(s: Scanner, poll: Poll)
    requires Valid(s.db) && poll.accepted == [] && poll.linkedByOthers == {}
    ensures var left, n := Unlinked(s.db, s.after), Turn(s, poll);
            if poll.scanFails then n == s
            else
              && n.db.calls == s.db.calls + Page(left)
              && (Ends(s, poll) <==> |left| < PAGE_SIZE)
              && (Ends(s, poll) ==> n.after == None && n.db.calls == s.db.calls + left)
              && (!Ends(s, poll) ==> Unlinked(n.db, n.after) == left[PAGE_SIZE..])
  {
    assert Others(s.db, poll) == s.db;
    hide Unlinked, AttemptAll, Others;
    var left := Unlinked(s.db, s.after);
    AttemptAllEffect(s.db, Page(left), poll);
    if |left| >= PAGE_SIZE {
      assert Page(left) == left[..PAGE_SIZE];
      LeftAfterPage(s.db, s.after, poll);
    }
  }

  lemma LeftAfterPage(db: Database, after: Option<Uuid>, poll: Poll)
    requires Valid(db) && |Unlinked(db, after)| >= PAGE_SIZE
    ensures var left := Unlinked(db, after);
            Unlinked(AttemptAll(db, left[..PAGE_SIZE], poll), Some(left[PAGE_SIZE - 1].id)) == left[PAGE_SIZE..]
  {
    hide Filter, AttemptAll;
    var left := Unlinked(db, after);
    var page := left[..PAGE_SIZE];
    var next := Some(left[PAGE_SIZE - 1].id);
    var d := AttemptAll(db, page, poll);
    var keep := (r: Request) => Beyond(after, r.id) && r.id !in db.linked;
    var query := (r: Request) => Beyond(next, r.id) && r.id !in d.linked;
    AttemptAllEffect(db, page, poll);
    PageIs(db, after);
    assert page == Page(left) && page[PAGE_SIZE - 1] in page;
    hide Page, PAGE_SIZE;
    forall r | r in db.requests && keep(r) && ById(left[PAGE_SIZE - 1], r) ensures query(r) {
      assert forall i :: 0 <= i < |page| ==> page[i] in page;
    }
    NextPage(db.requests, keep, ById, query, PAGE_SIZE);
  }

  /** The cursor only moves forward until a pass ends. */
  lemma CursorAdvances(s: Scanner, poll: Poll)
    requires Valid(s.db)
    ensures var n := Turn(s, poll);
            if Ends(s, poll) then n.after == None
            else if poll.scanFails then n.after == s.after
            else n.after.Some? && Beyond(s.after, n.after.value)
  {
    hide Unlinked, AttemptAll;
    OthersKeep(s.db, poll);
    var page := Page(Unlinked(Others(s.db, poll), s.after));
    PageIs(Others(s.db, poll), s.after);
    if page != [] { assert page[|page| - 1] in page; }
  }

  // ---- A whole pass ----

  // No turn of the run ends a pass.
  predicate Unbroken(s: Scanner, polls: seq<Poll>)
    decreases |polls|
  {
    polls == [] ||
    (Unbroken(s, polls[..|polls| - 1]) && !Ends(Turns(s, polls[..|polls| - 1]), polls[|polls| - 1]))
  }

  // A run that starts at the beginning and ends with its last turn and not before.
  predicate IsPass(s: Scanner, polls: seq<Poll>) {
    && polls != [] && s.after == None
    && Unbroken(s, polls[..|polls| - 1])
    && Ends(Turns(s, polls[..|polls| - 1]), polls[|polls| - 1])
  }

  predicate LeftAlone(r: Request, polls: seq<Poll>) {
    forall i :: 0 <= i < |polls| ==> r.id !in polls[i].linkedByOthers
  }

  // What holds of the tables all along.
  ghost predicate Grown(s: Scanner, polls: seq<Poll>, now: Database, made: seq<Request>) {
    && Valid(now)
    && now.calls == s.db.calls + made
    && s.db.linked <= now.linked
    && (forall r :: r in s.db.requests ==> r in now.requests)
    && (forall id :: id in now.linked ==>
          id in s.db.linked || HasId(made, id) || exists i :: 0 <= i < |polls| && id in polls[i].linkedByOthers)
  }

  // The calls a pass has made are in id order, each for a stored request that was unlinked at
  // the start, under that request's own scope; within reach none was passed over.
  ghost predicate Covered(s: Scanner, polls: seq<Poll>, now: Database, made: seq<Request>, reach: Uuid -> bool) {
    && Sorted(made, ById)
    && (forall r :: r in made ==> r in now.requests && r.id !in s.db.linked && reach(r.id))
    && (forall r :: r in s.db.requests && r.id !in s.db.linked && LeftAlone(r, polls) && reach(r.id) ==> r in made)
  }

  function UpTo(after: Option<Uuid>): Uuid -> bool { (id: Uuid) => !Beyond(after, id) }

  function Everywhere(): Uuid -> bool { (id: Uuid) => true }

  lemma SortedJoin(a: seq<Request>, b: seq<Request>)
    requires Sorted(a, ById) && Sorted(b, ById)
    requires forall x, y :: x in a && y in b ==> x.id < y.id
    ensures Sorted(a + b, ById)
  {
    forall i, j | 0 <= i < j < |a + b| ensures ById((a + b)[i], (a + b)[j]) {
      if i < |a| <= j { assert a[i] in a && b[j - |a|] in b; }
    }
  }

  // The page of a turn that fails to read one is empty.
  function PageOf(m: Scanner, poll: Poll): seq<Request> {
    if poll.scanFails then [] else Page(Unlinked(Others(m.db, poll), m.after))
  }

  lemma TurnGrows(s: Scanner, polls: seq<Poll>, m: Scanner, made: seq<Request>, poll: Poll)
    requires Grown(s, polls, m.db, made)
    ensures Grown(s, polls + [poll], Turn(m, poll).db, made + PageOf(m, poll))
  {
    hide Unlinked, AttemptAll;
    OthersKeep(m.db, poll);
    var d, n := Others(m.db, poll), Turn(m, poll).db;
    var page := PageOf(m, poll);
    var more := polls + [poll];
    if !poll.scanFails { AttemptAllEffect(d, page, poll); }
    assert n.calls == s.db.calls + (made + page);
    forall id | id in n.linked
      ensures id in s.db.linked || HasId(made + page, id) || exists i :: 0 <= i < |more| && id in more[i].linkedByOthers
    {
      if id in poll.linkedByOthers {
        assert more[|polls|] == poll;
      } else if id in m.db.linked {
        if HasId(made, id) {
          var i :| 0 <= i < |made| && made[i].id == id;
          assert (made + page)[i].id == id;
        } else if id !in s.db.linked {
          var i :| 0 <= i < |polls| && id in polls[i].linkedByOthers;
          assert more[i] == polls[i];
        }
      } else {
        var i :| 0 <= i < |page| && page[i].id == id;
        assert (made + page)[|made| + i].id == id;
      }
    }
  }

  lemma OpenBeyond(s: Scanner, polls: seq<Poll>, m: Scanner, made: seq<Request>, poll: Poll, r: Request)
    requires Grown(s, polls, m.db, made) && Covered(s, polls, m.db, made, UpTo(m.after))
    requires r in s.db.requests && r.id !in s.db.linked && LeftAlone(r, polls + [poll])
    ensures LeftAlone(r, polls)
    ensures Beyond(m.after, r.id) ==> r in Others(m.db, poll).requests && r.id !in Others(m.db, poll).linked
  {
    OthersKeep(m.db, poll);
    var more := polls + [poll];
    assert more[|polls|] == poll;
    forall i | 0 <= i < |polls| ensures r.id !in polls[i].linkedByOthers {
      assert more[i] == polls[i];
    }
    if HasId(made, r.id) {
      var i :| 0 <= i < |made| && made[i].id == r.id;
      assert made[i] in made;
    }
  }

  lemma NothingMissed(s: Scanner, polls: seq<Poll>, m: Scanner, made: seq<Request>, poll: Poll, r: Request)
    requires Grown(s, polls, m.db, made) && Covered(s, polls, m.db, made, UpTo(m.after))
    requires r in s.db.requests && r.id !in s.db.linked && LeftAlone(r, polls + [poll])
    requires Ends(m, poll) || !Beyond(Turn(m, poll).after, r.id)
    ensures r in made + PageOf(m, poll)
  {
    OpenBeyond(s, polls, m, made, poll, r);
    OthersKeep(m.db, poll);
    PageIs(Others(m.db, poll), m.after);
    hide Unlinked, AttemptAll, Others, Page, Grown, Sorted, Valid;
  }

  // What a turn reads and where it leaves the cursor.
  lemma TurnReads(m: Scanner, poll: Poll)
    requires Valid(m.db)
    ensures var page, n := PageOf(m, poll), Turn(m, poll);
            && Sorted(page, ById)
            && (forall r :: r in m.db.requests ==> r in n.db.requests)
            && (forall r :: r in page ==>
                  && r in n.db.requests && r.id !in m.db.linked && Beyond(m.after, r.id)
                  && (!Ends(m, poll) ==> !Beyond(n.after, r.id)))
            && (!Ends(m, poll) ==> forall id :: !Beyond(m.after, id) ==> !Beyond(n.after, id))
  {
    var d := Others(m.db, poll);
    OthersKeep(m.db, poll);
    PageIs(d, m.after);
    hide Unlinked, AttemptAll, Valid, Sorted;
    var page := PageOf(m, poll);
    if !poll.scanFails { AttemptAllEffect(d, page, poll); }
    if page != [] { assert page[0] in page; }
  }

  lemma TurnMakes(s: Scanner, polls: seq<Poll>, m: Scanner, made: seq<Request>, poll: Poll)
    requires Grown(s, polls, m.db, made) && Covered(s, polls, m.db, made, UpTo(m.after))
    ensures var all := made + PageOf(m, poll);
            && Sorted(all, ById)
            && forall r :: r in all ==>
                 && r in Turn(m, poll).db.requests && r.id !in s.db.linked
                 && (!Ends(m, poll) ==> !Beyond(Turn(m, poll).after, r.id))
  {
    TurnReads(m, poll);
    hide PageOf, Turn, Ends, LeftAlone, Valid;
    assert forall x, y :: x in made && y in PageOf(m, poll) ==> x.id < y.id;
    SortedJoin(made, PageOf(m, poll));
    hide Sorted;
  }

  lemma TurnCovers(s: Scanner, polls: seq<Poll>, m: Scanner, made: seq<Request>, poll: Poll)
    requires Grown(s, polls, m.db, made) && Covered(s, polls, m.db, made, UpTo(m.after))
    ensures Covered(s, polls + [poll], Turn(m, poll).db, made + PageOf(m, poll),
                    if Ends(m, poll) then Everywhere() else UpTo(Turn(m, poll).after))
  {
    TurnMakes(s, polls, m, made, poll);
    hide Turn, Ends, Grown, PageOf, Sorted, LeftAlone;
    forall r | r in s.db.requests && r.id !in s.db.linked && LeftAlone(r, polls + [poll])
               && (Ends(m, poll) || !Beyond(Turn(m, poll).after, r.id))
      ensures r in made + PageOf(m, poll)
    {
      NothingMissed(s, polls, m, made, poll, r);
    }
  }

  lemma TurnsLast(s: Scanner, polls: seq<Poll>)
    requires polls != []
    ensures var before, last := polls[..|polls| - 1], polls[|polls| - 1];
            && Turns(s, polls) == Turn(Turns(s, before), last)
            && (Unbroken(s, polls) <==> Unbroken(s, before) && !Ends(Turns(s, before), last))
            && (IsPass(s, polls) <==> s.after == None && Unbroken(s, before) && Ends(Turns(s, before), last))
  {
    hide Turn, Ends;
  }

  lemma {:induction false} PassSoFar(s: Scanner, polls: seq<Poll>)
    returns (made: seq<Request>)
    requires Valid(s.db) && s.after == None
    requires Unbroken(s, polls)
    ensures Grown(s, polls, Turns(s, polls).db, made)
    ensures Covered(s, polls, Turns(s, polls).db, made, UpTo(Turns(s, polls).after))
    decreases |polls|
  {
    if polls == [] {
      made := [];
    } else {
      TurnsLast(s, polls);
      hide Turns, Unbroken, Turn, Ends, Grown, Covered;
      var before, last := polls[..|polls| - 1], polls[|polls| - 1];
      made := PassSoFar(s, before);
      InitLast(polls);
      var m := Turns(s, before);
      TurnGrows(s, before, m, made, last);
      TurnCovers(s, before, m, made, last);
      made := made + PageOf(m, last);
    }
  }

  /** A full pass, with failing rows and failing queries, and with other actors accepting and
      linking requests between its turns: it tries requests in id order, so each at most once,
      only requests unlinked at its start and under their own scopes; and it tries every one of
      those that nobody else links meanwhile. It leaves the cursor at the beginning. */
  lemma FullPass(s: Scanner, polls: seq<Poll>) returns (made: seq<Request>)
    requires Valid(s.db) && IsPass(s, polls)
    ensures var e := Turns(s, polls);
            && e.after == None && Valid(e.db) && e.db.calls == s.db.calls + made
            && (forall i, j :: 0 <= i < j < |made| ==> made[i].id < made[j].id)
            && Sorted(made, ById)
            && (forall r :: r in made ==> r in e.db.requests && r.id !in s.db.linked)
            && (forall r :: r in s.db.requests && r.id !in s.db.linked && LeftAlone(r, polls) ==> r in made)
  {
    TurnsLast(s, polls);
    hide Turns, IsPass, Unbroken, Turn, Ends, Valid, Sorted, LeftAlone;
    var before, last := polls[..|polls| - 1], polls[|polls| - 1];
    InitLast(polls);
    made := PassSoFar(s, before);
    made := LastTurn(s, before, Turns(s, before), made, last);
  }

  lemma LastTurn(s: Scanner, before: seq<Poll>, m: Scanner, made: seq<Request>, poll: Poll) returns (all: seq<Request>)
    requires Grown(s, before, m.db, made) && Covered(s, before, m.db, made, UpTo(m.after))
    requires Ends(m, poll)
    ensures Grown(s, before + [poll], Turn(m, poll).db, all)
    ensures Covered(s, before + [poll], Turn(m, poll).db, all, Everywhere())
    ensures Turn(m, poll).after == None
  {
    hide Grown, Covered;
    TurnGrows(s, before, m, made, poll);
    TurnCovers(s, before, m, made, poll);
    all := made + PageOf(m, poll);
  }

  // A turn with no other actor and a working scan.
  predicate Quiet(poll: Poll) { poll.accepted == [] && poll.linkedByOthers == {} && !poll.scanFails }

  lemma TurnKeepsValid(s: Scanner, poll: Poll)
    requires Valid(s.db)
    ensures Valid(Turn(s, poll).db)
  {
    hide Unlinked, Page;
    OthersKeep(s.db, poll);
    AttemptAllEffect(Others(s.db, poll), Page(Unlinked(Others(s.db, poll), s.after)), poll);
  }

  lemma {:induction false} QuietTurns(s: Scanner, polls: seq<Poll>)
    requires Valid(s.db) && forall i :: 0 <= i < |polls| ==> Quiet(polls[i])
    requires PAGE_SIZE * |polls| <= |Unlinked(s.db, s.after)|
    ensures Unbroken(s, polls)
    ensures var m := Turns(s, polls);
            Valid(m.db) && Unlinked(m.db, m.after) == Unlinked(s.db, s.after)[PAGE_SIZE * |polls|..]
    decreases |polls|
  {
    hide Turn, Ends, Unlinked;
    if polls != [] {
      var before, last := polls[..|polls| - 1], polls[|polls| - 1];
      QuietTurns(s, before);
      TurnConsumesPage(Turns(s, before), last);
      TurnKeepsValid(Turns(s, before), last);
      Drop(Unlinked(s.db, s.after), PAGE_SIZE * |before|, PAGE_SIZE);
    }
  }

  lemma Drop(rows: seq<Request>, m: nat, n: nat)
    requires m + n <= |rows|
    ensures rows[m..][n..] == rows[m + n..]
  {
  }

  /** Passes exist: undisturbed, one turn for every hundred unlinked requests and one more make
      a pass, and no other number of turns does. */
  lemma QuietTurnsArePass(s: Scanner, polls: seq<Poll>)
    requires Valid(s.db) && s.after == None && forall i :: 0 <= i < |polls| ==> Quiet(polls[i])
    ensures IsPass(s, polls) <==> |polls| == |Unlinked(s.db, None)| / PAGE_SIZE + 1
  {
    hide Unlinked, Turn, Ends, Turns, Unbroken, IsPass, Valid;
    var left := |Unlinked(s.db, None)|;
    if polls == [] {
      NoTurnsNoPass(s);
    } else {
      TurnsLast(s, polls);
      var before, last, full := polls[..|polls| - 1], polls[|polls| - 1], left / PAGE_SIZE;
      if |before| <= full {
        QuietTurns(s, before);
        TurnConsumesPage(Turns(s, before), last);
      } else {
        QuietTurns(s, polls[..full]);
        TurnConsumesPage(Turns(s, polls[..full]), polls[full]);
        if Unbroken(s, before) { UnbrokenPrefix(s, before, full); }
        assert before[..full] == polls[..full];
      }
    }
  }

  lemma NoTurnsNoPass(s: Scanner)
    ensures !IsPass(s, [])
  {
  }

  lemma {:induction false} UnbrokenPrefix(s: Scanner, polls: seq<Poll>, n: nat)
    requires n < |polls| && Unbroken(s, polls)
    ensures !Ends(Turns(s, polls[..n]), polls[n])
    decreases |polls|
  {
    hide Turns, Turn, Ends;
    var before := polls[..|polls| - 1];
    if n < |before| {
      UnbrokenPrefix(s, before, n);
      assert before[..n] == polls[..n];
    }
  }

  /** With no other actor a pass is the single unpaged scan. */
  lemma QuietPassIsUnpaged(s: Scanner, polls: seq<Poll>)
    requires Valid(s.db) && IsPass(s, polls)
    requires forall i :: 0 <= i < |polls| ==> polls[i].accepted == [] && polls[i].linkedByOthers == {}
    ensures Turns(s, polls).db.calls == s.db.calls + Unlinked(s.db, None)
    ensures Turns(s, polls).db.requests == s.db.requests
  {
    hide Ends, Turn;
    var made := FullPass(s, polls);
    RequestsStay(s, polls);
    var all := Unlinked(s.db, None);
    hide Turns, IsPass, Sorted;
    FilterSorted(s.db.requests, (r: Request) => Beyond(None, r.id) && r.id !in s.db.linked, ById);
    forall r ensures r in made <==> r in all {
      if r in all { assert LeftAlone(r, polls); }
    }
    SortedSame(made, all);
  }

  lemma {:induction false} RequestsStay(s: Scanner, polls: seq<Poll>)
    requires forall i :: 0 <= i < |polls| ==> polls[i].accepted == []
    ensures Turns(s, polls).db.requests == s.db.requests
    decreases |polls|
  {
    if polls != [] {
      var m, last := Turns(s, polls[..|polls| - 1]), polls[|polls| - 1];
      RequestsStay(s, polls[..|polls| - 1]);
      AttemptAllEffect(Others(m.db, last), Page(Unlinked(Others(m.db, last), m.after)), last);
    }
  }

  lemma TailHas(a: seq<Request>, x: Request)
    requires Sorted(a, ById) && a != []
    ensures x in a[1..] <==> x in a && x != a[0]
  {
    if x in a && x != a[0] {
      var i :| 0 <= i < |a| && a[i] == x;
      assert a[1..][i - 1] == x;
    }
    if x in a[1..] {
      var i :| 0 <= i < |a[1..]| && a[1..][i] == x;
      assert ById(a[0], a[i + 1]);
    }
  }

  lemma {:induction false} SortedSame(a: seq<Request>, b: seq<Request>)
    requires Sorted(a, ById) && Sorted(b, ById)
    requires forall x :: x in a <==> x in b
    ensures a == b
    decreases |a|
  {
    if a != [] || b != [] {
      var both := a + b;
      assert both[0] in both;
      assert a[0] in a && b[0] in b;
      var i :| 0 <= i < |b| && b[i] == a[0];
      var j :| 0 <= j < |a| && a[j] == b[0];
      assert i == 0 && j == 0;
      assert a == [a[0]] + a[1..] && b == [b[0]] + b[1..];
      forall x ensures x in a[1..] <==> x in b[1..] {
        TailHas(a, x);
        TailHas(b, x);
      }
      SortedSame(a[1..], b[1..]);
    }
  }
}
