/** Draining partner synchronization: the runner takes a batch of due operations, advances each
    by one item, and goes again as long as an item was committed. The scheduler moves an
    operation behind the others each time it is advanced. */
module PartnerSync {
  import opened Text
  import opened Tenancy

  const PAGE_SIZE: nat := 100

  datatype Disposition = Accepted | Unchanged | Rejected

  // What the next call for an operation meets.
  datatype Step = Commit(disposition: Disposition) | Deferred | Completed | Error

  datatype Work = Work(scope: TenantScope, connectionId: Uuid, operationId: Uuid)

  datatype Pending = Pending(work: Work, steps: seq<Step>)

  datatype Committed = Committed(operationId: Uuid, disposition: Disposition)

  datatype Stored = Stored(pending: seq<Pending>, calls: seq<Uuid>, results: seq<Committed>, scanError: bool)

  datatype Advance = ItemCommitted(operationCompleted: bool) | OperationCompleted | Postponed

  // An operation is pending while it has steps, and pending once.
  ghost predicate Valid(s: Stored) {
    && (forall i :: 0 <= i < |s.pending| ==> s.pending[i].steps != [])
    && (forall i, j :: 0 <= i < j < |s.pending| ==> s.pending[i].work.operationId != s.pending[j].work.operationId)
  }

  function Position(pending: seq<Pending>, operation: Uuid): (i: nat)
    requires exists p :: p in pending && p.work.operationId == operation
    ensures i < |pending| && pending[i].work.operationId == operation
  {
    if pending[0].work.operationId == operation then 0 else 1 + Position(pending[1..], operation)
  }

  // The steps an operation has left after one call; a deferral stays.
  function Left(steps: seq<Step>): seq<Step>
    requires steps != []
  {
    if steps[0].Deferred? then steps else steps[1..]
  }

  function Requeued(p: Pending): seq<Pending>
    requires p.steps != []
  {
    if Left(p.steps) == [] then [] else [p.(steps := Left(p.steps))]
  }

  function CommittedBy(p: Pending): seq<Committed>
    requires p.steps != []
  {
    if p.steps[0].Commit? then [Committed(p.work.operationId, p.steps[0].disposition)] else []
  }

  /** One call on the operation at position i: one step of it is taken, and what is left of it
      moves behind the others. */
  function AdvanceAt(s: Stored, i: nat): Stored
    requires i < |s.pending| && s.pending[i].steps != []
  {
    var p := s.pending[i];
    s.(pending := s.pending[..i] + s.pending[i + 1..] + Requeued(p),
       calls := s.calls + [p.work.operationId],
       results := s.results + CommittedBy(p))
  }

  function AdvanceFront(s: Stored): Stored {
    if s.pending == [] || s.pending[0].steps == [] then s else AdvanceAt(s, 0)
  }

  function Advanced(s: Stored, n: nat): Stored { if n == 0 then s else AdvanceFront(Advanced(s, n - 1)) }

  function BatchSize(s: Stored): (n: nat)
    ensures n <= |s.pending| && n <= 100 && (n == |s.pending| || n == 100)
  {
    if |s.pending| < PAGE_SIZE then |s.pending| else PAGE_SIZE
  }

  /** One batch: each of the first operations once, unless the scan fails. */
  function Round(s: Stored): Stored { if s.scanError then s else Advanced(s, BatchSize(s)) }

  function Rounds(s: Stored, n: nat): Stored { if n == 0 then s else Round(Rounds(s, n - 1)) }

  predicate HeadCommits(p: Pending) { p.steps != [] && p.steps[0].Commit? }

  predicate Progresses(s: Stored) {
    !s.scanError && exists k :: 0 <= k < BatchSize(s) && HeadCommits(s.pending[k])
  }

  class PartnerRepository {
    var stored: Stored

    constructor (stored: Stored)
      ensures this.stored == stored
    {
      this.stored := stored;
    }

    method Candidates(limit: nat) returns (candidates: Option<seq<Work>>)
      ensures stored.scanError ==> candidates == None
      ensures !stored.scanError ==>
                && candidates.Some?
                && |candidates.value| == (if |stored.pending| < limit then |stored.pending| else limit)
                && forall i :: 0 <= i < |candidates.value| ==> candidates.value[i] == stored.pending[i].work
    {
      if stored.scanError { return None; }
      var taken := stored.pending[..if |stored.pending| < limit then |stored.pending| else limit];
      candidates := Some(seq(|taken|, i requires 0 <= i < |taken| => taken[i].work));
    }

    method AdvanceOne(work: Work) returns (r: Result<Advance, ()>)
      requires Valid(stored)
      requires exists p :: p in stored.pending && p.work.operationId == work.operationId
      modifies this
      ensures var i := Position(old(stored.pending), work.operationId);
              var p := old(stored.pending)[i];
              && stored == AdvanceAt(old(stored), i)
              && r == match p.steps[0]
                      case Commit(_) => Ok(ItemCommitted(|p.steps| == 1))
                      case Deferred => Ok(Postponed)
                      case Completed => Ok(OperationCompleted)
                      case Error => Err(())
    {
      var i := Position(stored.pending, work.operationId);
      var p := stored.pending[i];
      stored := stored.(pending := stored.pending[..i] + stored.pending[i + 1..],
                        calls := stored.calls + [work.operationId]);
      var step := p.steps[0];
      var steps := p.steps[1..];
      match step {
        case Commit(disposition) =>
          stored := stored.(results := stored.results + [Committed(p.work.operationId, disposition)]);
          r := Ok(ItemCommitted(steps == []));
        case Deferred =>
          steps := [Deferred] + steps;
          r := Ok(Postponed);
        case Completed => r := Ok(OperationCompleted);
        case Error => r := Err(());
      }
      assert steps == Left(p.steps);
      if steps != [] {
        stored := stored.(pending := stored.pending + [p.(steps := steps)]);
      }
    }

    /** True exactly when an operation of the batch had an item to commit. Every operation of
        the batch is advanced once, in order, whatever happens to the others. */
    method AdvanceBatch() returns (progressed: bool)
      requires Valid(stored)
      modifies this
      ensures Valid(stored)
      ensures stored == Round(old(stored))
      ensures progressed <==> Progresses(old(stored))
    {
      hide Valid, AdvanceAt, AdvanceFront, Advanced, Position, PAGE_SIZE;
      var candidates := Candidates(PAGE_SIZE);
      if candidates == None { return false; }
      ghost var start := stored;
      AdvancedNext(start, 0);
      var i := 0;
      progressed := false;
      while i < |candidates.value|
        invariant 0 <= i <= |candidates.value| == BatchSize(start)
        invariant forall k :: 0 <= k < |candidates.value| ==> candidates.value[k] == start.pending[k].work
        invariant Valid(start) && Valid(stored) && stored == Advanced(start, i)
        invariant progressed <==> exists k :: 0 <= k < i && HeadCommits(start.pending[k])
      {
        BatchStep(start, i);
        var work := candidates.value[i];
        var r := AdvanceOne(work);
        if r.Ok? && r.value.ItemCommitted? { progressed := true; }
        i := i + 1;
      }
    }

    /** The loop of `spawn` up to the point where it sleeps. */
    method Drain() returns (ghost rounds: nat)
      requires Valid(stored)
      modifies this
      ensures Valid(stored)
      ensures stored == Rounds(old(stored), rounds)
      ensures rounds > 0 && !Progresses(Rounds(old(stored), rounds - 1))
      ensures forall k :: 0 <= k < rounds - 1 ==> Progresses(Rounds(old(stored), k))
    {
      hide Progresses, Round, Valid, Items;
      ghost var start := stored;
      rounds := 0;
      while true
        invariant Valid(stored) && stored == Rounds(start, rounds)
        invariant forall k :: 0 <= k < rounds ==> Progresses(Rounds(start, k))
        decreases Items(stored.pending)
      {
        RoundCounts(stored);
        var progressed := AdvanceBatch();
        rounds := rounds + 1;
        if !progressed { break; }
      }
    }
  }

  // ---- One batch ----

  lemma AdvancedNext(s: Stored, n: nat)
    ensures Advanced(s, 0) == s
    ensures Advanced(s, n + 1) == AdvanceFront(Advanced(s, n))
  {
  }

  lemma FrontIs(s: Stored)
    requires Valid(s) && s.pending != []
    ensures var d, p := AdvanceFront(s), s.pending[0];
            d == s.(pending := s.pending[1..] + Requeued(p), calls := s.calls + [p.work.operationId],
                    results := s.results + CommittedBy(p))
  {
    assert s.pending[..0] + s.pending[1..] == s.pending[1..];
  }

  /** In a batch the operation to advance next is always the one at the front, untouched. */
  lemma BatchStep(start: Stored, i: nat)
    requires Valid(start) && i < |start.pending|
    ensures var d := Advanced(start, i);
            && Valid(d) && d.pending != [] && d.pending[0] == start.pending[i] && d.pending[0] in d.pending
            && d.pending[0].steps != []
            && Position(d.pending, d.pending[0].work.operationId) == 0
            && Advanced(start, i + 1) == AdvanceFront(d) == AdvanceAt(d, 0)
            && Valid(AdvanceFront(d))
  {
    hide AdvanceAt, Advanced;
    AdvancedIs(start, i);
    AdvancedNext(start, i);
    var d := Advanced(start, i);
    assert d.pending[0] in d.pending;
    FrontKeeps(d);
  }

  lemma FrontKeeps(s: Stored)
    requires Valid(s)
    ensures Valid(AdvanceFront(s))
  {
    if s.pending != [] {
      var q := AdvanceFront(s).pending;
      forall i | 0 <= i < |q| ensures q[i].steps != [] {
        if i < |s.pending| - 1 { assert q[i] == s.pending[i + 1]; }
      }
      forall i, j | 0 <= i < j < |q| ensures q[i].work.operationId != q[j].work.operationId {
        assert q[i] == s.pending[i + 1];
        if j < |s.pending| - 1 { assert q[j] == s.pending[j + 1]; }
      }
    }
  }

  function Behind(ps: seq<Pending>): seq<Pending>
    requires forall i :: 0 <= i < |ps| ==> ps[i].steps != []
  {
    if ps == [] then [] else Behind(ps[..|ps| - 1]) + Requeued(ps[|ps| - 1])
  }

  lemma BehindSnoc(ps: seq<Pending>, p: Pending)
    requires p.steps != [] && forall i :: 0 <= i < |ps| ==> ps[i].steps != []
    ensures Behind(ps + [p]) == Behind(ps) + Requeued(p)
  {
    assert (ps + [p])[..|ps|] == ps;
  }

  /** After n calls the first n operations stand behind the others, in their order, those with
      no step left gone; each was called once, in order. */
  lemma {:induction false} AdvancedIs(s: Stored, n: nat)
    requires Valid(s) && n <= |s.pending|
    ensures var d := Advanced(s, n);
            && Valid(d) && d.scanError == s.scanError
            && d.pending == s.pending[n..] + Behind(s.pending[..n])
  {
    hide Advanced, AdvanceFront, Behind;
    AdvancedNext(s, 0);
    if n == 0 {
      NoneBehind(s);
    } else {
      AdvancedIs(s, n - 1);
      AdvancedNext(s, n - 1);
      OneMoreBehind(s, n - 1, Advanced(s, n - 1));
    }
  }

  lemma NoneBehind(s: Stored)
    ensures s.pending == s.pending[0..] + Behind(s.pending[..0])
  {
  }

  lemma OneMoreBehind(s: Stored, n: nat, e: Stored)
    requires Valid(s) && n < |s.pending|
    requires Valid(e) && e.pending == s.pending[n..] + Behind(s.pending[..n])
    ensures Valid(AdvanceFront(e)) && AdvanceFront(e).scanError == e.scanError
    ensures AdvanceFront(e).pending == s.pending[n + 1..] + Behind(s.pending[..n + 1])
  {
    var p := s.pending[n];
    Rotation(s.pending, n, Behind(s.pending[..n]), Requeued(p));
    BehindSnoc(s.pending[..n], p);
    FrontKeeps(e);
    FrontIs(e);
    hide AdvanceFront, AdvanceAt, Requeued, Behind, Valid;
  }

  lemma Rotation(ps: seq<Pending>, n: nat, behind: seq<Pending>, requeued: seq<Pending>)
    requires n < |ps|
    ensures var queue := ps[n..] + behind;
            && queue != [] && queue[0] == ps[n]
            && queue[1..] + requeued == ps[n + 1..] + (behind + requeued)
            && ps[..n + 1] == ps[..n] + [ps[n]]
  {
  }

  function Operations(ps: seq<Pending>): (ids: seq<Uuid>)
    ensures |ids| == |ps| && forall i :: 0 <= i < |ids| ==> ids[i] == ps[i].work.operationId
  {
    seq(|ps|, i requires 0 <= i < |ps| => ps[i].work.operationId)
  }

  lemma {:induction false} AdvancedCalls(s: Stored, n: nat)
    requires Valid(s) && n <= |s.pending|
    ensures Advanced(s, n).calls == s.calls + Operations(s.pending[..n])
  {
    hide Advanced;
    AdvancedNext(s, 0);
    if n > 0 {
      AdvancedCalls(s, n - 1);
      BatchStep(s, n - 1);
      FrontIs(Advanced(s, n - 1));
      hide AdvanceFront, AdvanceAt, Valid, Requeued, Position;
      assert Operations(s.pending[..n]) == Operations(s.pending[..n - 1]) + [s.pending[n - 1].work.operationId];
    }
  }

  /** A batch calls each of the first operations once, in order, whatever the calls meet. */
  lemma RoundCalls(s: Stored)
    requires Valid(s) && !s.scanError
    ensures Round(s).calls == s.calls + Operations(s.pending[..BatchSize(s)])
  {
    AdvancedCalls(s, BatchSize(s));
  }

  lemma RoundValid(s: Stored)
    requires Valid(s)
    ensures Valid(Round(s)) && Round(s).scanError == s.scanError
  {
    AdvancedIs(s, BatchSize(s));
  }

  lemma RoundsNext(s: Stored, n: nat)
    ensures Rounds(s, 0) == s
    ensures Rounds(s, n + 1) == Round(Rounds(s, n))
  {
  }

  lemma {:induction false} RoundsValid(s: Stored, n: nat)
    requires Valid(s)
    ensures Valid(Rounds(s, n)) && Rounds(s, n).scanError == s.scanError
  {
    hide Round;
    if n > 0 {
      RoundsValid(s, n - 1);
      RoundValid(Rounds(s, n - 1));
    }
  }

  // ---- Progress ----

  function CommitsOf(steps: seq<Step>): seq<Disposition> {
    if steps == [] then []
    else (if steps[0].Commit? then [steps[0].disposition] else []) + CommitsOf(steps[1..])
  }

  // Items not committed yet.
  function Items(ps: seq<Pending>): nat {
    if ps == [] then 0 else |CommitsOf(ps[0].steps)| + Items(ps[1..])
  }

  lemma {:induction false} ItemsConcat(a: seq<Pending>, b: seq<Pending>)
    ensures Items(a + b) == Items(a) + Items(b)
  {
    if a == [] {
      assert a + b == b;
    } else {
      assert (a + b)[1..] == a[1..] + b;
      ItemsConcat(a[1..], b);
    }
  }

  lemma FrontItems(s: Stored)
    requires Valid(s) && s.pending != []
    ensures var d := AdvanceFront(s);
            var committed := if HeadCommits(s.pending[0]) then 1 else 0;
            Items(d.pending) == Items(s.pending) - committed && |d.results| == |s.results| + committed
  {
    var p := s.pending[0];
    FrontIs(s);
    ItemsConcat(s.pending[1..], Requeued(p));
    assert Items(Requeued(p)) == |CommitsOf(Left(p.steps))|;
  }

  lemma {:induction false} AdvancedItems(s: Stored, n: nat)
    requires Valid(s) && n <= |s.pending|
    ensures var d := Advanced(s, n);
            && |d.results| + Items(d.pending) == |s.results| + Items(s.pending)
            && Items(d.pending) <= Items(s.pending)
            && (Items(d.pending) < Items(s.pending) <==> exists k :: 0 <= k < n && HeadCommits(s.pending[k]))
  {
    hide Advanced, Items, AdvanceFront, AdvanceAt, HeadCommits, Position, Behind, Valid;
    AdvancedNext(s, 0);
    if n > 0 {
      AdvancedItems(s, n - 1);
      BatchStep(s, n - 1);
      FrontItems(Advanced(s, n - 1));
    }
  }

  /** Every batch that reports progress leaves fewer items uncommitted, so draining ends; one
      that does not commits nothing. No item is committed twice or dropped: the items committed
      and those left add up to the same number. */
  lemma RoundCounts(s: Stored)
    requires Valid(s)
    ensures var d := Round(s);
            && |d.results| + Items(d.pending) == |s.results| + Items(s.pending)
            && (if Progresses(s) then Items(d.pending) < Items(s.pending) else Items(d.pending) == Items(s.pending))
  {
    hide Items, Advanced;
    AdvancedItems(s, BatchSize(s));
  }

  // ---- Order and conservation ----

  // What was committed for an operation, and what it still has to commit.
  function Log(results: seq<Committed>, operation: Uuid): seq<Disposition> {
    if results == [] then []
    else
      var last := results[|results| - 1];
      Log(results[..|results| - 1], operation) + if last.operationId == operation then [last.disposition] else []
  }

  function Owed(ps: seq<Pending>, operation: Uuid): seq<Disposition> {
    if ps == [] then []
    else (if ps[0].work.operationId == operation then CommitsOf(ps[0].steps) else []) + Owed(ps[1..], operation)
  }

  lemma {:induction false} OwedConcat(a: seq<Pending>, b: seq<Pending>, operation: Uuid)
    ensures Owed(a + b, operation) == Owed(a, operation) + Owed(b, operation)
  {
    if a == [] {
      assert a + b == b;
    } else {
      assert (a + b)[1..] == a[1..] + b;
      OwedConcat(a[1..], b, operation);
    }
  }

  lemma {:induction false} OwedNothing(ps: seq<Pending>, operation: Uuid)
    requires forall i :: 0 <= i < |ps| ==> ps[i].work.operationId != operation
    ensures Owed(ps, operation) == []
  {
    if ps != [] { OwedNothing(ps[1..], operation); }
  }

  lemma LogSnoc(results: seq<Committed>, c: Committed, operation: Uuid)
    ensures Log(results + [c], operation)
            == Log(results, operation) + if c.operationId == operation then [c.disposition] else []
  {
    assert (results + [c])[..|results|] == results;
  }

  // What an operation owes before a call is what the call commits and what it owes after.
  lemma OwnConserves(p: Pending, results: seq<Committed>)
    requires p.steps != []
    ensures var operation := p.work.operationId;
            Log(results + CommittedBy(p), operation) + Owed(Requeued(p), operation)
            == Log(results, operation) + CommitsOf(p.steps)
  {
    var operation := p.work.operationId;
    assert Owed(Requeued(p), operation) == CommitsOf(Left(p.steps));
    hide Owed, Requeued;
    if p.steps[0].Commit? {
      var c := Committed(operation, p.steps[0].disposition);
      LogSnoc(results, c, operation);
      hide Log;
      assert Log(results, operation) + [c.disposition] + CommitsOf(p.steps[1..])
          == Log(results, operation) + ([c.disposition] + CommitsOf(p.steps[1..]));
    } else {
      hide Log;
      assert results + [] == results;
      assert CommitsOf(p.steps) == CommitsOf(Left(p.steps));
    }
  }

  lemma OthersConserve(p: Pending, results: seq<Committed>, operation: Uuid)
    requires p.steps != [] && p.work.operationId != operation
    ensures Log(results + CommittedBy(p), operation) == Log(results, operation)
    ensures Owed(Requeued(p), operation) == []
  {
    OwedNothing(Requeued(p), operation);
    if p.steps[0].Commit? {
      LogSnoc(results, Committed(p.work.operationId, p.steps[0].disposition), operation);
    } else {
      assert results + [] == results;
    }
  }

  lemma FrontConserves(s: Stored, operation: Uuid)
    requires Valid(s) && s.pending != []
    ensures var d := AdvanceFront(s);
            Log(d.results, operation) + Owed(d.pending, operation) == Log(s.results, operation) + Owed(s.pending, operation)
  {
    var p, rest := s.pending[0], s.pending[1..];
    FrontIs(s);
    OwedConcat(rest, Requeued(p), operation);
    if p.work.operationId == operation {
      OwedNothing(rest, operation);
      OwnConserves(p, s.results);
      assert Owed(s.pending, operation) == CommitsOf(p.steps) + [] == CommitsOf(p.steps);
    } else {
      OthersConserve(p, s.results, operation);
      assert Owed(s.pending, operation) == [] + Owed(rest, operation) == Owed(rest, operation);
    }
    hide Log, Owed, Requeued, CommittedBy, CommitsOf, AdvanceFront, AdvanceAt;
    var owed := Owed(Requeued(p), operation);
    assert [] + owed == owed && Owed(rest, operation) + [] == Owed(rest, operation);
  }

  lemma {:induction false} AdvancedConserves(s: Stored, n: nat, operation: Uuid)
    requires Valid(s) && n <= |s.pending|
    ensures var d := Advanced(s, n);
            Log(d.results, operation) + Owed(d.pending, operation) == Log(s.results, operation) + Owed(s.pending, operation)
  {
    hide Advanced;
    AdvancedNext(s, 0);
    if n > 0 {
      AdvancedConserves(s, n - 1, operation);
      AdvancedIs(s, n - 1);
      AdvancedNext(s, n - 1);
      assert Advanced(s, n - 1).pending != [];
      hide Log, Owed, AdvanceFront, AdvanceAt, Valid, Position;
      FrontConserves(Advanced(s, n - 1), operation);
    }
  }

  lemma RoundConserves(s: Stored, operation: Uuid)
    requires Valid(s)
    ensures var d := Round(s);
            Log(d.results, operation) + Owed(d.pending, operation) == Log(s.results, operation) + Owed(s.pending, operation)
  {
    hide Log, Owed, Advanced;
    AdvancedConserves(s, BatchSize(s), operation);
  }

  /** Over any number of batches, each operation's items are committed in their own order, none
      twice and none left out: what it has committed followed by what it owes never changes. */
  lemma {:induction false} RoundsConserve(s: Stored, n: nat, operation: Uuid)
    requires Valid(s)
    ensures var d := Rounds(s, n);
            Log(d.results, operation) + Owed(d.pending, operation) == Log(s.results, operation) + Owed(s.pending, operation)
  {
    hide Log, Owed, Round, Rounds;
    RoundsNext(s, 0);
    if n > 0 {
      RoundsConserve(s, n - 1, operation);
      RoundsValid(s, n - 1);
      RoundsNext(s, n - 1);
      RoundConserves(Rounds(s, n - 1), operation);
    }
  }

  // ---- Fairness and rest ----

  /** Nobody waits behind a large operation: one at position j is still as it was, at position
      j % 100, after j / 100 batches, and the batch after those advances it. */
  lemma {:induction false} WaitsAtMost(s: Stored, j: nat)
    requires Valid(s) && !s.scanError && j < |s.pending|
    ensures var d := Rounds(s, j / PAGE_SIZE);
            && j % PAGE_SIZE < |d.pending| && d.pending[j % PAGE_SIZE] == s.pending[j]
            && |d.calls| + j % PAGE_SIZE < |Round(d).calls|
            && Round(d).calls[|d.calls| + j % PAGE_SIZE] == s.pending[j].work.operationId
    decreases j
  {
    hide Advanced, Rounds, Behind;
    if j < PAGE_SIZE {
      RoundsNext(s, 0);
      RoundCalls(s);
    } else {
      AdvancedIs(s, PAGE_SIZE);
      hide Valid;
      RoundsFirst(s, j / PAGE_SIZE);
      WaitsAtMost(Round(s), j - PAGE_SIZE);
    }
  }

  lemma {:induction false} RoundsFirst(s: Stored, n: nat)
    requires n > 0
    ensures Rounds(s, n) == Rounds(Round(s), n - 1)
  {
    hide Round;
    if n > 1 { RoundsFirst(s, n - 1); }
  }
}
