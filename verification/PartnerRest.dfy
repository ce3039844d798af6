/** When the partner runner comes to rest: how many batches any operation needs, and exactly
    when the first sleep leaves nothing to commit. */
module PartnerRest {
  import opened Text
  import opened Tenancy
  import opened PartnerSync

  // ---- How long an operation takes ----

  ghost predicate Absent(ps: seq<Pending>, operation: Uuid) {
    forall i :: 0 <= i < |ps| ==> ps[i].work.operationId != operation
  }

  // Batches in which every operation of a queue is advanced at least once.
  function Laps(length: nat): nat { (length + PAGE_SIZE - 1) / PAGE_SIZE }

  lemma {:induction false} BehindHas(ps: seq<Pending>, i: nat, q: Pending)
    requires forall k :: 0 <= k < |ps| ==> ps[k].steps != []
    requires i < |ps| && q in Requeued(ps[i])
    ensures q in Behind(ps)
  {
    if i < |ps| - 1 { BehindHas(ps[..|ps| - 1], i, q); }
  }

  lemma {:induction false} BehindFrom(ps: seq<Pending>, q: Pending) returns (i: nat)
    requires forall k :: 0 <= k < |ps| ==> ps[k].steps != []
    requires q in Behind(ps)
    ensures i < |ps| && q in Requeued(ps[i])
  {
    if q in Requeued(ps[|ps| - 1]) {
      i := |ps| - 1;
    } else {
      i := BehindFrom(ps[..|ps| - 1], q);
    }
  }

  lemma {:induction false} BehindShrinks(ps: seq<Pending>)
    requires forall k :: 0 <= k < |ps| ==> ps[k].steps != []
    ensures |Behind(ps)| <= |ps|
  {
    if ps != [] { BehindShrinks(ps[..|ps| - 1]); }
  }

  lemma BehindAbsent(ps: seq<Pending>, operation: Uuid)
    requires forall k :: 0 <= k < |ps| ==> ps[k].steps != []
    requires Absent(ps, operation)
    ensures Absent(Behind(ps), operation)
  {
    hide Behind;
    forall k | 0 <= k < |Behind(ps)| ensures Behind(ps)[k].work.operationId != operation {
      var i := BehindFrom(ps, Behind(ps)[k]);
    }
  }

  // One batch over the queue of s: what stays in front, and what goes behind.
  lemma RoundIs(s: Stored)
    requires Valid(s) && !s.scanError
    ensures var n := BatchSize(s);
            && n <= |s.pending| && Valid(Round(s)) && !Round(s).scanError
            && Round(s).pending == s.pending[n..] + Behind(s.pending[..n])
  {
    hide Advanced, Behind;
    AdvancedIs(s, BatchSize(s));
  }

  lemma AbsentStays(s: Stored, operation: Uuid)
    requires Valid(s) && !s.scanError
    ensures |Round(s).pending| <= |s.pending|
    ensures Absent(s.pending, operation) ==> Absent(Round(s).pending, operation)
  {
    hide Behind, Round;
    RoundIs(s);
    var front := s.pending[..BatchSize(s)];
    BehindShrinks(front);
    if Absent(s.pending, operation) { BehindAbsent(front, operation); }
  }

  lemma {:induction false} AbsentForever(s: Stored, operation: Uuid, n: nat)
    requires Valid(s) && !s.scanError
    ensures |Rounds(s, n).pending| <= |s.pending|
    ensures Absent(s.pending, operation) ==> Absent(Rounds(s, n).pending, operation)
  {
    hide Round, Rounds, Absent, Valid;
    RoundsNext(s, 0);
    if n > 0 {
      AbsentForever(s, operation, n - 1);
      RoundsValid(s, n - 1);
      RoundsNext(s, n - 1);
      AbsentStays(Rounds(s, n - 1), operation);
    }
  }

  lemma {:induction false} RoundsAdd(s: Stored, m: nat, n: nat)
    ensures Rounds(s, m + n) == Rounds(Rounds(s, m), n)
  {
    hide Round, Rounds;
    RoundsNext(Rounds(s, m), 0);
    if n > 0 {
      RoundsAdd(s, m, n - 1);
      RoundsNext(s, m + n - 1);
      RoundsNext(Rounds(s, m), n - 1);
    }
  }

  // The batch that advances an operation leaves it out, or behind the others.
  lemma Advances(s: Stored, i: nat)
    requires Valid(s) && !s.scanError && i < BatchSize(s)
    ensures var p, d := s.pending[i], Round(s);
            if Left(p.steps) == [] then Absent(d.pending, p.work.operationId)
            else p.(steps := Left(p.steps)) in d.pending
  {
    hide Behind, Round, Left;
    var p, n := s.pending[i], BatchSize(s);
    var front := s.pending[..n];
    RoundIs(s);
    assert front[i] == p;
    if Left(p.steps) == [] {
      forall q | q in Behind(front) ensures q.work.operationId != p.work.operationId {
        var k := BehindFrom(front, q);
        assert k != i;
      }
      var d := Round(s).pending;
      forall k | 0 <= k < |d| ensures d[k].work.operationId != p.work.operationId {
        if k < |s.pending| - n { assert d[k] == s.pending[n + k]; } else { assert d[k] in Behind(front); }
      }
    } else {
      var q := p.(steps := Left(p.steps));
      assert Requeued(front[i]) == [q];
      BehindHas(front, i, q);
    }
  }

  lemma {:induction false} GoneWithin(s: Stored, j: nat) returns (n: nat)
    requires Valid(s) && !s.scanError && j < |s.pending|
    requires Deferred !in s.pending[j].steps
    ensures n <= |s.pending[j].steps| * Laps(|s.pending|)
    ensures Absent(Rounds(s, n).pending, s.pending[j].work.operationId)
    decreases |s.pending[j].steps|
  {
    hide Rounds, Round, Absent;
    var p, k := s.pending[j], j / PAGE_SIZE;
    var d := Rounds(s, k);
    WaitsAtMost(s, j);
    RoundsValid(s, k);
    Advances(d, j % PAGE_SIZE);
    RoundsNext(s, k);
    AbsentForever(s, p.work.operationId, k + 1);
    RoundsValid(s, k + 1);
    var e, laps := Rounds(s, k + 1), Laps(|s.pending|);
    assert k + 1 <= laps;
    if |p.steps| == 1 {
      n := k + 1;
    } else {
      var q := p.(steps := p.steps[1..]);
      assert p.steps[0] in p.steps;
      var i :| 0 <= i < |e.pending| && e.pending[i] == q;
      var more := GoneWithin(e, i);
      n := k + 1 + more;
      RoundsAdd(s, k + 1, more);
      LapsFit(|q.steps|, |e.pending|, |s.pending|);
    }
  }

  lemma LapsFit(steps: nat, length: nat, before: nat)
    requires length <= before
    ensures (steps + 1) * Laps(before) >= Laps(before) + steps * Laps(length)
  {
    var few, many := Laps(length), Laps(before);
    assert few <= many;
    hide Laps;
    assert (steps + 1) * many == many + steps * many;
    assert steps * few <= steps * many;
  }

  lemma {:induction false} OwedBy(ps: seq<Pending>, j: nat)
    requires j < |ps| && forall i, k :: 0 <= i < k < |ps| ==> ps[i].work.operationId != ps[k].work.operationId
    ensures Owed(ps, ps[j].work.operationId) == CommitsOf(ps[j].steps)
  {
    var operation := ps[j].work.operationId;
    if j == 0 {
      OwedNothing(ps[1..], operation);
    } else {
      OwedBy(ps[1..], j - 1);
    }
  }

  /** An operation of m steps that never defers has committed all its items, in order, after m
      batches for every hundred operations queued, whatever the other operations do. */
  lemma DoneWithin(s: Stored, j: nat, n: nat)
    requires Valid(s) && !s.scanError && j < |s.pending|
    requires Deferred !in s.pending[j].steps
    requires n >= |s.pending[j].steps| * Laps(|s.pending|)
    ensures var d, p := Rounds(s, n), s.pending[j];
            && Absent(d.pending, p.work.operationId)
            && Log(d.results, p.work.operationId) == Log(s.results, p.work.operationId) + CommitsOf(p.steps)
  {
    hide Rounds, Laps, Log, CommitsOf, Owed;
    var operation := s.pending[j].work.operationId;
    var gone := GoneWithin(s, j);
    RoundsValid(s, gone);
    AbsentForever(Rounds(s, gone), operation, n - gone);
    RoundsAdd(s, gone, n - gone);
    RoundsConserve(s, n, operation);
    OwedBy(s.pending, j);
    OwedNothing(Rounds(s, n).pending, operation);
  }

  // ---- The first sleep ----

  // The runner sleeps after batch n and not before.
  ghost predicate FirstSleep(s: Stored, n: nat) {
    !Progresses(Rounds(s, n)) && forall k :: 0 <= k < n ==> Progresses(Rounds(s, k))
  }

  // The steps left after n calls; a deferral stays.
  function AfterSteps(steps: seq<Step>, n: nat): seq<Step> {
    if n == 0 || steps == [] || steps[0].Deferred? then steps else AfterSteps(steps[1..], n - 1)
  }

  // The k-th call on an operation with these steps commits an item.
  predicate CommitsAt(steps: seq<Step>, k: nat) {
    k < |steps| && steps[k].Commit? && Deferred !in steps[..k]
  }

  lemma {:induction false} AfterStepsNext(steps: seq<Step>, n: nat)
    ensures var now := AfterSteps(steps, n);
            AfterSteps(steps, n + 1) == if now == [] then [] else Left(now)
  {
    if n > 0 && steps != [] && !steps[0].Deferred? { AfterStepsNext(steps[1..], n - 1); }
  }

  lemma {:induction false} AfterStepsHead(steps: seq<Step>, n: nat)
    ensures CommitsAt(steps, n) <==> AfterSteps(steps, n) != [] && AfterSteps(steps, n)[0].Commit?
  {
    if n > 0 && steps != [] {
      assert n < |steps| ==> steps[..n] == [steps[0]] + steps[1..][..n - 1];
      if !steps[0].Deferred? { AfterStepsHead(steps[1..], n - 1); }
    }
  }

  function Kept(p: Pending, n: nat): seq<Pending> {
    if AfterSteps(p.steps, n) == [] then [] else [p.(steps := AfterSteps(p.steps, n))]
  }

  function Survivors(ps: seq<Pending>, n: nat): (qs: seq<Pending>)
    ensures |qs| <= |ps| && forall i :: 0 <= i < |qs| ==> qs[i].steps != []
  {
    if ps == [] then [] else Survivors(ps[..|ps| - 1], n) + Kept(ps[|ps| - 1], n)
  }

  lemma {:induction false} BehindSurvivors(ps: seq<Pending>, n: nat)
    ensures Behind(Survivors(ps, n)) == Survivors(ps, n + 1)
  {
    if ps != [] {
      var first, last := ps[..|ps| - 1], ps[|ps| - 1];
      BehindSurvivors(first, n);
      AfterStepsNext(last.steps, n);
      hide AfterSteps, Left;
      if Kept(last, n) == [] {
        assert Survivors(ps, n) == Survivors(first, n);
      } else {
        var q := Kept(last, n)[0];
        assert Kept(last, n) == [q] && Requeued(q) == Kept(last, n + 1);
        BehindSnoc(Survivors(first, n), q);
      }
    }
  }

  lemma {:induction false} NobodyAdvanced(ps: seq<Pending>)
    requires forall i :: 0 <= i < |ps| ==> ps[i].steps != []
    ensures Survivors(ps, 0) == ps
  {
    if ps != [] {
      NobodyAdvanced(ps[..|ps| - 1]);
      assert ps == ps[..|ps| - 1] + [ps[|ps| - 1]];
    }
  }

  /** Up to a hundred operations go in lockstep: after n batches each has taken n steps. */
  lemma {:induction false} Lockstep(s: Stored, n: nat)
    requires Valid(s) && !s.scanError && |s.pending| <= PAGE_SIZE
    ensures Rounds(s, n).pending == Survivors(s.pending, n)
  {
    hide Round, Rounds, Behind, Survivors;
    RoundsNext(s, 0);
    NobodyAdvanced(s.pending);
    if n > 0 {
      Lockstep(s, n - 1);
      RoundsNext(s, n - 1);
      RoundsValid(s, n - 1);
      var e := Rounds(s, n - 1);
      RoundIs(e);
      BehindSurvivors(s.pending, n - 1);
      assert e.pending[..|e.pending|] == e.pending;
    }
  }

  // Some operation commits an item with its k-th call.
  predicate SomeCommitsAt(ps: seq<Pending>, k: nat) {
    exists i :: 0 <= i < |ps| && CommitsAt(ps[i].steps, k)
  }

  predicate SomeHeadCommits(qs: seq<Pending>) { exists i :: 0 <= i < |qs| && HeadCommits(qs[i]) }

  lemma SomeHeadSnoc(qs: seq<Pending>, more: seq<Pending>)
    ensures SomeHeadCommits(qs + more) <==> SomeHeadCommits(qs) || SomeHeadCommits(more)
  {
    hide HeadCommits;
    if i :| 0 <= i < |qs| && HeadCommits(qs[i]) { assert HeadCommits((qs + more)[i]); }
    if i :| 0 <= i < |more| && HeadCommits(more[i]) { assert HeadCommits((qs + more)[|qs| + i]); }
  }

  lemma SurvivorsSnoc(ps: seq<Pending>, n: nat)
    requires ps != []
    ensures Survivors(ps, n) == Survivors(ps[..|ps| - 1], n) + Kept(ps[|ps| - 1], n)
    ensures Survivors([], n) == []
  {
  }

  lemma KeptItems(p: Pending, n: nat)
    ensures Items(Kept(p, n)) == |CommitsOf(AfterSteps(p.steps, n))|
  {
    hide AfterSteps;
  }

  lemma {:induction false} SurvivorsCommit(ps: seq<Pending>, n: nat)
    ensures SomeHeadCommits(Survivors(ps, n)) <==> SomeCommitsAt(ps, n)
  {
    if ps != [] {
      var first, last := ps[..|ps| - 1], ps[|ps| - 1];
      SurvivorsCommit(first, n);
      SomeHeadSnoc(Survivors(first, n), Kept(last, n));
      assert SomeHeadCommits(Kept(last, n)) <==> CommitsAt(last.steps, n) by {
        AfterStepsHead(last.steps, n);
        hide CommitsAt, AfterSteps;
        assert Kept(last, n) != [] ==> SomeHeadCommits(Kept(last, n)) == HeadCommits(Kept(last, n)[0]);
      }
      hide SomeHeadCommits, CommitsAt, Kept;
      assert forall i :: 0 <= i < |first| ==> ps[i] == first[i];
    }
  }

  // Every operation's own share of the items left is part of the whole.
  lemma {:induction false} SurvivorsShare(ps: seq<Pending>, n: nat, i: nat)
    requires i < |ps|
    ensures |CommitsOf(AfterSteps(ps[i].steps, n))| <= Items(Survivors(ps, n))
  {
    hide Items, CommitsOf, AfterSteps, Survivors, Kept;
    var first, last := ps[..|ps| - 1], ps[|ps| - 1];
    SurvivorsSnoc(ps, n);
    ItemsConcat(Survivors(first, n), Kept(last, n));
    KeptItems(last, n);
    if i < |first| { SurvivorsShare(first, n, i); }
  }

  lemma {:induction false} SurvivorsItems(ps: seq<Pending>, n: nat)
    requires forall i :: 0 <= i < |ps| ==> CommitsOf(AfterSteps(ps[i].steps, n)) == []
    ensures Items(Survivors(ps, n)) == 0
  {
    if ps != [] {
      var first, last := ps[..|ps| - 1], ps[|ps| - 1];
      SurvivorsSnoc(ps, n);
      ItemsConcat(Survivors(first, n), Kept(last, n));
      KeptItems(last, n);
      hide Items, CommitsOf, Kept, AfterSteps, Survivors;
      SurvivorsItems(first, n);
    }
  }

  /** Of up to a hundred operations, batch n commits something exactly when some operation has
      an item as its n-th step, with no deferral before it. */
  lemma ProgressesAfter(s: Stored, n: nat)
    requires Valid(s) && !s.scanError && |s.pending| <= PAGE_SIZE
    ensures Progresses(Rounds(s, n)) <==> SomeCommitsAt(s.pending, n)
  {
    hide Rounds, Survivors, SomeCommitsAt, HeadCommits;
    Lockstep(s, n);
    RoundsValid(s, n);
    SurvivorsCommit(s.pending, n);
  }

  lemma {:induction false} CommitsExist(steps: seq<Step>)
    ensures CommitsOf(steps) != [] <==> exists k :: 0 <= k < |steps| && steps[k].Commit?
  {
    if steps != [] {
      CommitsExist(steps[1..]);
      if k :| 0 <= k < |steps| && steps[k].Commit? {
        if k > 0 { assert steps[1..][k - 1].Commit?; }
      }
    }
  }

  // What n calls leave to commit: the items that were not among the first n steps, or that
  // stand behind a deferral.
  lemma {:induction false} CommitsLeft(steps: seq<Step>, n: nat)
    ensures CommitsOf(AfterSteps(steps, n)) != []
            <==> exists k :: 0 <= k < |steps| && steps[k].Commit? && !(k < n && CommitsAt(steps, k))
  {
    if n == 0 || steps == [] || steps[0].Deferred? {
      CommitsExist(steps);
      forall k | 0 < k < |steps| && steps[0].Deferred? ensures !CommitsAt(steps, k) {
        assert steps[..k][0] == steps[0];
      }
    } else {
      var rest := steps[1..];
      CommitsLeft(rest, n - 1);
      forall k | 0 < k < |steps| ensures CommitsAt(steps, k) <==> CommitsAt(rest, k - 1) {
        assert steps[..k] == [steps[0]] + rest[..k - 1];
      }
      assert CommitsAt(steps, 0) <==> steps[0].Commit?;
      if k :| 0 <= k < |steps| && steps[k].Commit? && !(k < n && CommitsAt(steps, k)) {
        assert rest[k - 1].Commit? && !(k - 1 < n - 1 && CommitsAt(rest, k - 1));
      }
      if k :| 0 <= k < |rest| && rest[k].Commit? && !(k < n - 1 && CommitsAt(rest, k)) {
        assert steps[k + 1].Commit? && !(k + 1 < n && CommitsAt(steps, k + 1));
      }
    }
  }

  // No item stands behind a deferral, and below a number of calls at which somebody commits
  // there is none at which nobody does.
  ghost predicate Gapless(ps: seq<Pending>) {
    && (forall i, k :: 0 <= i < |ps| && 0 <= k < |ps[i].steps| && ps[i].steps[k].Commit? ==> CommitsAt(ps[i].steps, k))
    && (forall k: nat, m: nat :: SomeCommitsAt(ps, k) && m < k ==> SomeCommitsAt(ps, m))
  }

  // Where nobody commits any more after n calls, what is left to commit breaks Gapless.
  lemma GaplessLeaves(ps: seq<Pending>, n: nat)
    requires !SomeCommitsAt(ps, n) && forall k: nat :: k < n ==> SomeCommitsAt(ps, k)
    ensures Gapless(ps) <==> forall i :: 0 <= i < |ps| ==> CommitsOf(AfterSteps(ps[i].steps, n)) == []
  {
    hide CommitsAt, AfterSteps, CommitsOf;
    forall i | 0 <= i < |ps|
      ensures CommitsOf(AfterSteps(ps[i].steps, n)) == []
              <==> forall k :: 0 <= k < |ps[i].steps| && ps[i].steps[k].Commit? ==> k < n && CommitsAt(ps[i].steps, k)
    {
      CommitsLeft(ps[i].steps, n);
    }
    if Gapless(ps) {
      forall i, k | 0 <= i < |ps| && 0 <= k < |ps[i].steps| && ps[i].steps[k].Commit?
        ensures k < n && CommitsAt(ps[i].steps, k)
      {
        assert SomeCommitsAt(ps, k);
      }
    }
    if forall i :: 0 <= i < |ps| ==> CommitsOf(AfterSteps(ps[i].steps, n)) == [] {
      forall k: nat | SomeCommitsAt(ps, k) ensures k < n {
        var i :| 0 <= i < |ps| && CommitsAt(ps[i].steps, k);
        CommitsAtStep(ps[i].steps, k);
      }
    }
  }

  lemma CommitsAtStep(steps: seq<Step>, k: nat)
    requires CommitsAt(steps, k)
    ensures k < |steps| && steps[k].Commit?
  {
  }

  /** Of up to a hundred operations, the first sleep leaves nothing to commit exactly when no
      item stands behind a deferral and no number of calls is one at which nobody commits
      although somebody does after more. */
  lemma FirstSleepInLockstep(s: Stored, n: nat)
    requires Valid(s) && !s.scanError && |s.pending| <= PAGE_SIZE
    requires FirstSleep(s, n)
    ensures Items(Rounds(s, n).pending) == 0 <==> Gapless(s.pending)
  {
    hide Rounds, Survivors, SomeCommitsAt, Progresses, Gapless, Items, CommitsOf, AfterSteps;
    Lockstep(s, n);
    if Items(Rounds(s, n).pending) == 0 {
      forall i | 0 <= i < |s.pending| ensures CommitsOf(AfterSteps(s.pending[i].steps, n)) == [] {
        SurvivorsShare(s.pending, n, i);
      }
    }
    if forall i :: 0 <= i < |s.pending| ==> CommitsOf(AfterSteps(s.pending[i].steps, n)) == [] {
      SurvivorsItems(s.pending, n);
    }
    forall k: nat | k <= n ensures Progresses(Rounds(s, k)) <==> SomeCommitsAt(s.pending, k) {
      ProgressesAfter(s, k);
    }
    GaplessLeaves(s.pending, n);
  }

  lemma {:induction false} NoneOwed(ps: seq<Pending>, operation: Uuid)
    ensures Items(ps) == 0 ==> Owed(ps, operation) == []
  {
    if ps != [] { NoneOwed(ps[1..], operation); }
  }

  // ---- More than a hundred operations ----

  lemma {:induction false} BehindConcat(a: seq<Pending>, b: seq<Pending>)
    requires forall i :: 0 <= i < |a| ==> a[i].steps != []
    requires forall i :: 0 <= i < |b| ==> b[i].steps != []
    ensures Behind(a + b) == Behind(a) + Behind(b)
  {
    if b == [] {
      assert a + b == a;
    } else {
      assert (a + b)[..|a + b| - 1] == a + b[..|b| - 1];
      BehindConcat(a, b[..|b| - 1]);
      hide Requeued;
    }
  }

  /** The first pass over a long queue: batch after batch, the next hundred operations as they
      were stored. */
  lemma {:induction false} FirstPass(s: Stored, k: nat)
    requires Valid(s) && !s.scanError && PAGE_SIZE * k <= |s.pending|
    ensures var n := PAGE_SIZE * k;
            Rounds(s, k).pending == s.pending[n..] + Behind(s.pending[..n])
  {
    hide Round, Rounds, Behind;
    RoundsNext(s, 0);
    if k == 0 {
      NoneBehind(s);
    } else {
      var m := PAGE_SIZE * (k - 1);
      FirstPass(s, k - 1);
      RoundsNext(s, k - 1);
      RoundsValid(s, k - 1);
      var e, done, next := Rounds(s, k - 1), s.pending[..m], s.pending[m..m + PAGE_SIZE];
      RoundIs(e);
      BehindConcat(done, next);
      assert e.pending[..PAGE_SIZE] == next && s.pending[..m + PAGE_SIZE] == done + next;
      hide Valid;
      assert e.pending[PAGE_SIZE..] == s.pending[m + PAGE_SIZE..] + Behind(done);
    }
  }

  ghost predicate HundredCommits(ps: seq<Pending>, k: nat)
    requires PAGE_SIZE * (k + 1) <= |ps|
  {
    exists i :: PAGE_SIZE * k <= i < PAGE_SIZE * (k + 1) && HeadCommits(ps[i])
  }

  lemma FirstPassProgresses(s: Stored, k: nat)
    requires Valid(s) && !s.scanError && PAGE_SIZE * (k + 1) <= |s.pending|
    ensures Progresses(Rounds(s, k)) <==> HundredCommits(s.pending, k)
  {
    hide Rounds, Behind, HeadCommits;
    FirstPass(s, k);
    RoundsValid(s, k);
    var d, n := Rounds(s, k).pending, PAGE_SIZE * k;
    assert forall i :: 0 <= i < PAGE_SIZE ==> d[i] == s.pending[n + i];
    if i :| n <= i < n + PAGE_SIZE && HeadCommits(s.pending[i]) {
      assert HeadCommits(d[i - n]);
    }
  }

  // The first n operations have no item but their first step, and the others have none.
  predicate NoneLeftAfter(ps: seq<Pending>, n: nat)
    requires n <= |ps| && forall i :: 0 <= i < |ps| ==> ps[i].steps != []
  {
    && (forall i :: 0 <= i < n ==> CommitsOf(Left(ps[i].steps)) == [])
    && (forall i :: n <= i < |ps| ==> CommitsOf(ps[i].steps) == [])
  }

  /** A queue with a k-th hundred: the runner first sleeps at it exactly when it is the first
      hundred with no item at any head. That sleep leaves nothing to commit exactly when the
      operations already advanced had no item but their first, and the others have none. */
  lemma FirstSleepInFirstPass(s: Stored, k: nat)
    requires Valid(s) && !s.scanError && PAGE_SIZE * (k + 1) <= |s.pending|
    ensures FirstSleep(s, k) <==>
              !HundredCommits(s.pending, k) && forall m :: 0 <= m < k ==> HundredCommits(s.pending, m)
    ensures Items(Rounds(s, k).pending) == 0 <==> NoneLeftAfter(s.pending, PAGE_SIZE * k)
  {
    hide Rounds, Progresses, HundredCommits, Behind, Items, NoneLeftAfter;
    forall m | 0 <= m <= k ensures Progresses(Rounds(s, m)) <==> HundredCommits(s.pending, m) {
      FirstPassProgresses(s, m);
    }
    FirstPass(s, k);
    ItemsInFirstPass(s.pending, PAGE_SIZE * k);
  }

  lemma ItemsInFirstPass(ps: seq<Pending>, n: nat)
    requires n <= |ps| && forall i :: 0 <= i < |ps| ==> ps[i].steps != []
    ensures Items(ps[n..] + Behind(ps[..n])) == 0 <==> NoneLeftAfter(ps, n)
  {
    hide Behind, Items, CommitsOf, Left, Survivors;
    var done, rest := ps[..n], ps[n..];
    BehindAsSurvivors(done);
    ItemsConcat(rest, Behind(done));
    forall i | 0 <= i < n ensures AfterSteps(done[i].steps, 1) == Left(ps[i].steps) {
      AfterStepsNext(done[i].steps, 0);
    }
    hide AfterSteps;
    if Items(rest + Behind(done)) == 0 {
      forall i | 0 <= i < n ensures CommitsOf(Left(ps[i].steps)) == [] {
        SurvivorsShare(done, 1, i);
      }
      forall i | n <= i < |ps| ensures CommitsOf(ps[i].steps) == [] {
        Share(rest, i - n);
      }
    }
    if NoneLeftAfter(ps, n) {
      SurvivorsItems(done, 1);
      NoItems(rest);
    }
  }

  lemma {:induction false} Share(ps: seq<Pending>, i: nat)
    requires i < |ps|
    ensures |CommitsOf(ps[i].steps)| <= Items(ps)
  {
    hide CommitsOf;
    if i > 0 { Share(ps[1..], i - 1); }
  }

  lemma {:induction false} NoItems(ps: seq<Pending>)
    requires forall i :: 0 <= i < |ps| ==> CommitsOf(ps[i].steps) == []
    ensures Items(ps) == 0
  {
    hide CommitsOf;
    if ps != [] { NoItems(ps[1..]); }
  }

  // A batch over the whole queue is one step for each operation.
  lemma {:induction false} BehindAsSurvivors(ps: seq<Pending>)
    requires forall i :: 0 <= i < |ps| ==> ps[i].steps != []
    ensures Behind(ps) == Survivors(ps, 1)
  {
    NobodyAdvanced(ps);
    BehindSurvivors(ps, 0);
  }

  // ---- Any number of operations ----

  // The k-th hundred is the first in which no operation has an item at its head.
  ghost predicate FirstIdle(ps: seq<Pending>, k: nat) {
    PAGE_SIZE * (k + 1) <= |ps| && !HundredCommits(ps, k) && forall m :: 0 <= m < k ==> HundredCommits(ps, m)
  }

  // The operations in the full hundreds of a queue.
  function FullHundreds(ps: seq<Pending>): (n: nat)
    ensures n <= |ps| && n == PAGE_SIZE * (|ps| / PAGE_SIZE)
  {
    PAGE_SIZE * (|ps| / PAGE_SIZE)
  }

  /** What the stored queue says about the first sleep: at its first idle hundred, or, when it
      has none, what the queue after that pass says. */
  ghost predicate Clears(ps: seq<Pending>)
    requires forall i :: 0 <= i < |ps| ==> ps[i].steps != []
    decreases Items(ps)
  {
    if |ps| <= PAGE_SIZE then Gapless(ps)
    else if exists k: nat :: FirstIdle(ps, k) then
      exists k: nat :: FirstIdle(ps, k) && NoneLeftAfter(ps, PAGE_SIZE * k)
    else
      PassTakesItems(ps);
      var n := FullHundreds(ps);
      BehindHasSteps(ps[..n]);
      Clears(ps[n..] + Behind(ps[..n]))
  }

  lemma {:induction false} BehindHasSteps(ps: seq<Pending>)
    requires forall i :: 0 <= i < |ps| ==> ps[i].steps != []
    ensures forall i :: 0 <= i < |Behind(ps)| ==> Behind(ps)[i].steps != []
  {
    hide Survivors;
    BehindAsSurvivors(ps);
  }

  lemma {:induction false} BehindItems(ps: seq<Pending>)
    requires forall i :: 0 <= i < |ps| ==> ps[i].steps != []
    ensures Items(Behind(ps)) <= Items(ps)
    ensures SomeHeadCommits(ps) ==> Items(Behind(ps)) < Items(ps)
  {
    if ps != [] {
      var first, last := ps[..|ps| - 1], ps[|ps| - 1];
      BehindItems(first);
      InitLast(ps);
      BehindSnoc(first, last);
      RequeuedItems(last);
      SomeHeadSnoc(first, [last]);
      assert SomeHeadCommits([last]) <==> HeadCommits(last);
      ItemsConcat(first, [last]);
      ItemsConcat(Behind(first), Requeued(last));
      hide Items, Behind, Requeued, SomeHeadCommits, HeadCommits;
    }
  }

  lemma RequeuedItems(p: Pending)
    requires p.steps != []
    ensures Items(Requeued(p)) == Items([p]) - if HeadCommits(p) then 1 else 0
  {
    assert Items(Requeued(p)) == |CommitsOf(Left(p.steps))|;
  }

  // The least of the hundreds that do not commit.
  lemma {:induction false} LeastIdle(ps: seq<Pending>, k: nat)
    requires PAGE_SIZE * (k + 1) <= |ps| && !HundredCommits(ps, k)
    ensures exists m: nat :: FirstIdle(ps, m)
  {
    hide HundredCommits;
    if m :| 0 <= m < k && !HundredCommits(ps, m) {
      LeastIdle(ps, m);
    } else {
      assert FirstIdle(ps, k);
    }
  }

  lemma FirstIdleUnique(ps: seq<Pending>, k: nat)
    requires FirstIdle(ps, k)
    ensures forall m: nat :: FirstIdle(ps, m) ==> m == k
  {
    hide HundredCommits;
  }

  lemma NeverIdle(ps: seq<Pending>, k: nat)
    requires PAGE_SIZE * (k + 1) <= |ps| && !exists m: nat :: FirstIdle(ps, m)
    ensures HundredCommits(ps, k)
  {
    if !HundredCommits(ps, k) { LeastIdle(ps, k); }
  }

  lemma {:induction false} FullHundredsCommit(ps: seq<Pending>)
    requires |ps| > PAGE_SIZE && !exists k: nat :: FirstIdle(ps, k)
    ensures SomeHeadCommits(ps[..FullHundreds(ps)])
  {
    hide HeadCommits;
    var done := ps[..FullHundreds(ps)];
    NeverIdle(ps, 0);
    var i :| 0 <= i < PAGE_SIZE && HeadCommits(ps[i]);
    assert done[i] == ps[i];
  }

  // A pass over full hundreds that are never idle commits something.
  lemma {:induction false} PassTakesItems(ps: seq<Pending>)
    requires forall i :: 0 <= i < |ps| ==> ps[i].steps != []
    requires |ps| > PAGE_SIZE && !exists k: nat :: FirstIdle(ps, k)
    ensures var n := FullHundreds(ps); Items(ps[n..] + Behind(ps[..n])) < Items(ps)
  {
    FullHundredsCommit(ps);
    hide Items, Behind, HeadCommits, SomeHeadCommits, FirstIdle, FullHundreds;
    var n := FullHundreds(ps);
    BehindItems(ps[..n]);
    SplitItems(ps, n);
    ItemsConcat(ps[n..], Behind(ps[..n]));
  }

  lemma SplitItems(ps: seq<Pending>, n: nat)
    requires n <= |ps|
    ensures Items(ps) == Items(ps[..n]) + Items(ps[n..])
  {
    hide Items;
    assert ps == ps[..n] + ps[n..];
    ItemsConcat(ps[..n], ps[n..]);
  }

  lemma FirstSleepUnique(s: Stored, m: nat, n: nat)
    requires FirstSleep(s, m) && FirstSleep(s, n)
    ensures m == n
  {
    hide Rounds, Progresses;
  }

  // A run that does not sleep in its first k batches sleeps first where the run after them does.
  lemma FirstSleepLater(s: Stored, k: nat, n: nat)
    requires FirstSleep(s, n) && forall m :: 0 <= m < k ==> Progresses(Rounds(s, m))
    ensures k <= n && FirstSleep(Rounds(s, k), n - k)
    ensures Rounds(Rounds(s, k), n - k) == Rounds(s, n)
  {
    hide Rounds, Progresses;
    assert k <= n;
    RoundsAdd(s, k, n - k);
    forall m | 0 <= m < n - k ensures Progresses(Rounds(Rounds(s, k), m)) {
      RoundsAdd(s, k, m);
    }
  }

  lemma {:induction false} SleepLeaves(s: Stored, n: nat)
    requires Valid(s) && !s.scanError && FirstSleep(s, n)
    ensures Items(Rounds(s, n).pending) == 0 <==> Clears(s.pending)
    decreases Items(s.pending)
  {
    hide Rounds, Items, Behind, Gapless, NoneLeftAfter, FirstSleep, Valid, Progresses;
    var ps := s.pending;
    ValidSteps(s);
    if |ps| <= PAGE_SIZE {
      FirstSleepInLockstep(s, n);
    } else if k: nat :| FirstIdle(ps, k) {
      FirstSleepInFirstPass(s, k);
      FirstSleepUnique(s, k, n);
      FirstIdleUnique(ps, k);
    } else {
      var k := |ps| / PAGE_SIZE;
      forall m | 0 <= m < k ensures Progresses(Rounds(s, m)) {
        FirstPassProgresses(s, m);
        NeverIdle(ps, m);
      }
      FirstPass(s, k);
      PassTakesItems(ps);
      RoundsValid(s, k);
      FirstSleepLater(s, k, n);
      SleepLeaves(Rounds(s, k), n - k);
    }
  }

  lemma ValidSteps(s: Stored)
    requires Valid(s)
    ensures forall i :: 0 <= i < |s.pending| ==> s.pending[i].steps != []
  {
  }

  /** For every queue, the first sleep leaves nothing to commit exactly when the stored queue
      clears, or, with a failing scan, had nothing to commit; then every operation's log is
      complete and in order. */
  lemma FirstSleepClears(s: Stored, n: nat, operation: Uuid)
    requires Valid(s) && FirstSleep(s, n)
    ensures Items(Rounds(s, n).pending) == 0 <==> if s.scanError then Items(s.pending) == 0 else Clears(s.pending)
    ensures Items(Rounds(s, n).pending) == 0 ==>
              Log(Rounds(s, n).results, operation) == Log(s.results, operation) + Owed(s.pending, operation)
  {
    hide Clears, Log, Owed, Items;
    if s.scanError { NoScanNoChange(s, n); } else { SleepLeaves(s, n); }
    hide Rounds, FirstSleep, Valid;
    RoundsConserve(s, n, operation);
    NoneOwed(Rounds(s, n).pending, operation);
  }

  lemma {:induction false} NoScanNoChange(s: Stored, n: nat)
    requires s.scanError
    ensures Rounds(s, n) == s
  {
    if n > 0 { NoScanNoChange(s, n - 1); }
  }

  /** Every run sleeps at some point. */
  lemma {:induction false} SleepComes(s: Stored) returns (n: nat)
    requires Valid(s)
    ensures FirstSleep(s, n)
    decreases Items(s.pending)
  {
    hide Rounds, Round, Progresses, Items, Valid;
    RoundsNext(s, 0);
    RoundCounts(s);
    RoundValid(s);
    if Progresses(s) {
      var m := SleepComes(Round(s));
      n := m + 1;
      forall k | 0 <= k <= n ensures k > 0 ==> Rounds(s, k) == Rounds(Round(s), k - 1) {
        if k > 0 { RoundsFirst(s, k); }
      }
    } else {
      n := 0;
    }
  }

  ghost predicate OnlyCommits(ps: seq<Pending>) {
    forall p, k :: p in ps && 0 <= k < |p.steps| ==> p.steps[k].Commit?
  }

  lemma {:induction false} BehindOnlyCommits(ps: seq<Pending>)
    requires forall i :: 0 <= i < |ps| ==> ps[i].steps != []
    requires OnlyCommits(ps)
    ensures OnlyCommits(Behind(ps))
  {
    if ps != [] {
      var last := ps[|ps| - 1];
      assert last in ps;
      assert OnlyCommits(ps[..|ps| - 1]);
      BehindOnlyCommits(ps[..|ps| - 1]);
    }
  }

  lemma {:induction false} RoundsOnlyCommits(s: Stored, n: nat)
    requires Valid(s) && OnlyCommits(s.pending)
    ensures OnlyCommits(Rounds(s, n).pending)
  {
    hide Round, Rounds, OnlyCommits;
    RoundsNext(s, 0);
    if n > 0 {
      RoundsOnlyCommits(s, n - 1);
      RoundsValid(s, n - 1);
      RoundsNext(s, n - 1);
      RoundOnlyCommits(Rounds(s, n - 1));
    }
  }

  lemma RoundOnlyCommits(s: Stored)
    requires Valid(s) && OnlyCommits(s.pending)
    ensures OnlyCommits(Round(s).pending)
  {
    hide Behind, Advanced;
    var n := BatchSize(s);
    AdvancedIs(s, n);
    BehindOnlyCommits(s.pending[..n]);
  }

  /** With nothing but items to commit and a scan that works, a batch reports no progress only
      when nothing is left; by then every operation has committed all it owed, in order. */
  lemma SleepsOnlyWhenDone(s: Stored, n: nat, operation: Uuid)
    requires Valid(s) && !s.scanError && OnlyCommits(s.pending)
    requires !Progresses(Rounds(s, n))
    ensures Rounds(s, n).pending == []
    ensures Log(Rounds(s, n).results, operation) == Log(s.results, operation) + Owed(s.pending, operation)
  {
    var d := Rounds(s, n);
    RoundsValid(s, n);
    RoundsOnlyCommits(s, n);
    RoundsConserve(s, n, operation);
    hide Rounds;
    assert d.pending == [] || d.pending[0] in d.pending;
    assert d.pending != [] ==> HeadCommits(d.pending[0]);
    assert Owed([], operation) == [];
  }

  // ---- Work the first sleep leaves ----

  const SOMEWHERE := TenantScope(NIL, NIL, None)

  function Operation(id: Uuid, steps: seq<Step>): Pending { Pending(Work(SOMEWHERE, NIL, id), steps) }

  /** One operation whose first call fails makes the runner sleep on its second item. */
  lemma ErrorHidesWork()
    ensures var s := Stored([Operation(1, [Error, Commit(Accepted)])], [], [], false);
            Valid(s) && FirstSleep(s, 0) && Items(s.pending) == 1
  {
    assert CommitsOf([Error, Commit(Accepted)]) == [Accepted];
  }

  // A hundred operations with one step, and one with an item to commit.
  function Blocked(step: Step): (s: Stored)
    ensures !s.scanError && |s.pending| == 101
    ensures forall i :: 0 <= i < 100 ==> s.pending[i] == Operation(i, [step])
    ensures s.pending[100] == Operation(100, [Commit(Accepted)])
  {
    Stored(seq(100, i requires 0 <= i < 100 => Operation(i, [step])) + [Operation(100, [Commit(Accepted)])],
           [], [], false)
  }

  /** A hundred operations that defer, are complete or fail make it sleep on the one behind them. */
  lemma HundredHideWork(step: Step)
    requires step == Deferred || step == Completed || step == Error
    ensures Valid(Blocked(step)) && FirstSleep(Blocked(step), 0) && Items(Blocked(step).pending) == 1
  {
    hide Blocked, FirstSleep;
    FirstSleepInFirstPass(Blocked(step), 0);
    BlockedItems(step);
  }

  lemma BlockedItems(step: Step)
    requires !step.Commit?
    ensures Items(Blocked(step).pending) == 1
  {
    hide Blocked;
    var ps := Blocked(step).pending;
    var front := ps[..100];
    assert ps == front + [ps[100]];
    ItemsConcat(front, [ps[100]]);
    assert forall i :: 0 <= i < 100 ==> front[i].steps == [step];
    NoItems(front);
  }

  // Two hundred operations that commit, are complete for one call, and commit again.
  function Pausing(): (s: Stored)
    ensures !s.scanError && |s.pending| == 200
    ensures forall i :: 0 <= i < 200 ==> s.pending[i] == Operation(i, [Commit(Accepted), Completed, Commit(Accepted)])
  {
    Stored(seq(200, i requires 0 <= i < 200 => Operation(i, [Commit(Accepted), Completed, Commit(Accepted)])), [], [], false)
  }

  /** No failure and no deferral is needed, and no idle hundred in front: here the first sleep
      comes after a whole pass, with an item of every operation left. */
  lemma SecondPassHidesWork()
    ensures Valid(Pausing()) && FirstSleep(Pausing(), 2) && Items(Rounds(Pausing(), 2).pending) > 0
  {
    hide Pausing, Rounds, Behind, Items, Progresses;
    var s := Pausing();
    var ps := s.pending;
    FirstPass(s, 2);
    assert ps[200..] == [] && ps[..200] == ps;
    FirstPassProgresses(s, 0);
    FirstPassProgresses(s, 1);
    assert HeadCommits(ps[0]) && HeadCommits(ps[100]);
    assert HundredCommits(ps, 0) && HundredCommits(ps, 1);
    PausesAfterPass(ps);
    SleepsOnIdle(Rounds(s, 2));
  }

  lemma {:induction false} PausesAfterPass(ps: seq<Pending>)
    requires |ps| > 0
    requires forall i :: 0 <= i < |ps| ==> ps[i].steps == [Commit(Accepted), Completed, Commit(Accepted)]
    ensures Items([] + Behind(ps)) > 0
    ensures forall q :: q in [] + Behind(ps) ==> !HeadCommits(q)
  {
    hide Behind, Items;
    assert [] + Behind(ps) == Behind(ps);
    forall q | q in Behind(ps) ensures !HeadCommits(q) {
      var i := BehindFrom(ps, q);
      assert Left(ps[i].steps) == [Completed, Commit(Accepted)];
    }
    var q := ps[0].(steps := [Completed, Commit(Accepted)]);
    assert Left(ps[0].steps) == q.steps && q in Requeued(ps[0]);
    BehindHas(ps, 0, q);
    var i :| 0 <= i < |Behind(ps)| && Behind(ps)[i] == q;
    Share(Behind(ps), i);
    assert CommitsOf([Completed, Commit(Accepted)]) == [Accepted];
  }

  lemma SleepsOnIdle(s: Stored)
    requires forall q :: q in s.pending ==> !HeadCommits(q)
    ensures !Progresses(s)
  {
  }
}
