/** The double-buffered submit and wait loop of the Cell benchmarks. */
module JobLoop {

  const NJDS := 64

  /** A job descriptor. */
  type Job = nat

  ghost predicate Distinct(jobs: seq<Job>) {
    forall i, j :: 0 <= i < j < |jobs| ==> jobs[i] != jobs[j]
  }

  // ---- one pass over the outstanding jobs ----

  /** The jobs remembered for the next pass, the jobs submitted and completed so far, and the submit calls made. */
  datatype Pass = Pass(next: seq<Job>, submitted: nat, completed: nat, calls: nat)

  /** One job: remembered if not done, otherwise counted and, while jobs are wanted, submitted again. */
  function PassJob(p: Pass, job: Job, done: bool, njobs: int, ok: nat -> bool): Pass {
    if !done then p.(next := p.next + [job])
    else if p.submitted < njobs then
      if ok(p.calls) then Pass(p.next + [job], p.submitted + 1, p.completed + 1, p.calls + 1)
      else p.(completed := p.completed + 1, calls := p.calls + 1)
    else p.(completed := p.completed + 1)
  }

  function PassOver(p: Pass, jobs: seq<Job>, done: seq<bool>, njobs: int, ok: nat -> bool): Pass
    requires |jobs| == |done|
    decreases |jobs|
  {
    var n := |jobs|;
    if n == 0 then p else PassJob(PassOver(p, jobs[..n - 1], done[..n - 1], njobs, ok), jobs[n - 1], done[n - 1], njobs, ok)
  }

  /** `next` picks jobs out of `jobs`, in order. */
  ghost predicate PickedFrom(next: seq<Job>, jobs: seq<Job>) {
    && |next| <= |jobs|
    && (forall i :: 0 <= i < |next| ==> next[i] in jobs)
    && (Distinct(jobs) ==> Distinct(next))
  }

  /** What one pass keeps, whatever completes and whatever is refused. */
  ghost predicate Keeps(p: Pass, jobs: seq<Job>, q: Pass, njobs: int) {
    && PickedFrom(q.next, jobs)
    && q.submitted - q.completed == p.submitted - p.completed - |jobs| + |q.next|
    && p.submitted <= q.submitted && p.completed <= q.completed <= p.completed + |jobs|
    && (q.submitted <= p.submitted || q.submitted <= njobs)
  }

  lemma DistinctLast(jobs: seq<Job>, job: Job)
    requires Distinct(jobs + [job])
    ensures Distinct(jobs) && job !in jobs
  {
    var all := jobs + [job];
    forall i, j | 0 <= i < j < |jobs| ensures jobs[i] != jobs[j] {
      assert all[i] != all[j];
    }
    forall i | 0 <= i < |jobs| ensures jobs[i] != job {
      assert all[i] != all[|jobs|];
    }
  }

  lemma PickedSnoc(next: seq<Job>, jobs: seq<Job>, job: Job)
    requires PickedFrom(next, jobs)
    ensures PickedFrom(next, jobs + [job]) && PickedFrom(next + [job], jobs + [job])
  {
    var all := jobs + [job];
    assert all[|jobs|] == job;
    forall i | 0 <= i < |next| ensures next[i] in all {
      var k :| 0 <= k < |jobs| && jobs[k] == next[i];
      assert all[k] == next[i];
    }
    if Distinct(all) {
      DistinctLast(jobs, job);
    }
  }

  lemma {:induction false} PassKeeps(p: Pass, jobs: seq<Job>, done: seq<bool>, njobs: int, ok: nat -> bool)
    requires |jobs| == |done| && p.next == []
    ensures Keeps(p, jobs, PassOver(p, jobs, done, njobs, ok), njobs)
    decreases |jobs|
  {
    if jobs != [] {
      hide PickedFrom;
      var n := |jobs| - 1;
      PassKeeps(p, jobs[..n], done[..n], njobs, ok);
      var q := PassOver(p, jobs[..n], done[..n], njobs, ok);
      PickedSnoc(q.next, jobs[..n], jobs[n]);
      assert jobs == jobs[..n] + [jobs[n]];
    } else {
      assert PickedFrom([], []);
    }
  }

  lemma {:induction false} PassLength(p: Pass, jobs: seq<Job>, done: seq<bool>, njobs: int, ok: nat -> bool)
    requires |jobs| == |done|
    ensures |PassOver(p, jobs, done, njobs, ok).next| <= |p.next| + |jobs|
    decreases |jobs|
  {
    if jobs != [] {
      PassLength(p, jobs[..|jobs| - 1], done[..|jobs| - 1], njobs, ok);
    }
  }

  ghost predicate SomeDone(done: seq<bool>) {
    exists i :: 0 <= i < |done| && done[i]
  }

  /** A pass that finds a completed job counts it. */
  lemma {:induction false} PassProgress(p: Pass, jobs: seq<Job>, done: seq<bool>, njobs: int, ok: nat -> bool)
    requires |jobs| == |done|
    ensures p.completed <= PassOver(p, jobs, done, njobs, ok).completed
    ensures SomeDone(done) ==> p.completed < PassOver(p, jobs, done, njobs, ok).completed
    decreases |jobs|
  {
    if jobs != [] {
      var n := |jobs| - 1;
      PassProgress(p, jobs[..n], done[..n], njobs, ok);
      if SomeDone(done) && !done[n] {
        var i :| 0 <= i < |done| && done[i];
        assert done[..n][i];
      }
    }
  }

  ghost predicate AllAccepted(ok: nat -> bool) {
    forall k: nat :: ok(k)
  }

  /** If no submission is refused, jobs are lost from the list only when enough have been submitted. */
  lemma {:induction false} PassFull(p: Pass, jobs: seq<Job>, done: seq<bool>, njobs: int, ok: nat -> bool)
    requires |jobs| == |done| && AllAccepted(ok)
    ensures var q := PassOver(p, jobs, done, njobs, ok);
            q.submitted < njobs ==> |q.next| == |p.next| + |jobs|
    decreases |jobs|
  {
    if jobs != [] {
      var n := |jobs| - 1;
      PassFull(p, jobs[..n], done[..n], njobs, ok);
    }
  }

  // ---- refused submissions ----

  /** How many of the first `n` submissions are refused. */
  function Refused(ok: nat -> bool, n: nat): (r: nat)
    ensures r <= n
  {
    if n == 0 then 0 else Refused(ok, n - 1) + if ok(n - 1) then 0 else 1
  }

  lemma NoneRefused(ok: nat -> bool)
    ensures Refused(ok, 0) == 0
  {
  }

  lemma OneMoreCall(ok: nat -> bool, n: nat)
    ensures Refused(ok, n + 1) == Refused(ok, n) + if ok(n) then 0 else 1
  {
  }

  lemma {:induction false} RefusedGrows(ok: nat -> bool, m: nat, n: nat)
    requires m <= n
    ensures Refused(ok, m) <= Refused(ok, n) <= Refused(ok, m) + (n - m)
    decreases n
  {
    if m < n {
      RefusedGrows(ok, m, n - 1);
    }
  }

  /** What becomes of the descriptors, `left` of them not yet looked at in this pass: until enough has been
      submitted, every one is waited for, remembered or lost to a refusal, and then one was left to the end. */
  ghost predicate Account(p: Pass, left: nat, njobs: int, ok: nat -> bool) {
    && p.calls == p.submitted + Refused(ok, p.calls)
    && (p.submitted < njobs ==> |p.next| + left + Refused(ok, p.calls) == NJDS)
    && (p.submitted >= njobs ==> Refused(ok, p.calls) < NJDS)
  }

  lemma AccountJob(p: Pass, left: nat, job: Job, done: bool, njobs: int, ok: nat -> bool)
    requires Account(p, left + 1, njobs, ok)
    ensures Account(PassJob(p, job, done, njobs, ok), left, njobs, ok)
  {
  }

  lemma {:induction false} AccountPass(p: Pass, jobs: seq<Job>, done: seq<bool>, left: nat, njobs: int, ok: nat -> bool)
    requires |jobs| == |done| && Account(p, |jobs| + left, njobs, ok)
    ensures Account(PassOver(p, jobs, done, njobs, ok), left, njobs, ok)
    decreases |jobs|
  {
    if jobs != [] {
      hide Account, PassJob;
      var n := |jobs| - 1;
      AccountPass(p, jobs[..n], done[..n], left + 1, njobs, ok);
      AccountJob(PassOver(p, jobs[..n], done[..n], njobs, ok), left, jobs[n], done[n], njobs, ok);
    }
  }

  /** At most `njobs - 1` jobs are accepted before the last descriptor is lost. */
  ghost predicate Starves(njobs: int, ok: nat -> bool) {
    njobs >= 1 && Refused(ok, njobs + NJDS - 1) >= NJDS
  }

  lemma NothingLeft(p: Pass, njobs: int, ok: nat -> bool)
    requires njobs >= 1 && Account(p, 0, njobs, ok) && p.next == [] && p.submitted < njobs
    ensures Starves(njobs, ok)
  {
    RefusedGrows(ok, p.calls, njobs + NJDS - 1);
  }

  lemma EnoughSubmitted(p: Pass, njobs: int, ok: nat -> bool)
    requires njobs >= 1 && Account(p, 0, njobs, ok) && p.submitted >= njobs
    ensures !Starves(njobs, ok)
  {
    if p.calls <= njobs + NJDS - 1 {
      RefusedGrows(ok, p.calls, njobs + NJDS - 1);
    } else {
      RefusedGrows(ok, njobs + NJDS - 1, p.calls);
    }
  }

  // ---- the loop ----

  /** What waiting for any of some jobs gives: an error, or which of them are done. */
  datatype Wait = Failed | Returned(done: seq<bool>)

  /** What the `n`-th wait gives, for a number of jobs. */
  type Waits = (nat, nat) -> Wait

  /** A wait that returns has found at least one of the jobs done. */
  ghost predicate WaitsForAny(wait: Waits) {
    forall n: nat, jobs: nat :: jobs > 0 && wait(n, jobs).Returned? ==>
      |wait(n, jobs).done| == jobs && SomeDone(wait(n, jobs).done)
  }

  ghost predicate NeverFails(wait: Waits) {
    forall n: nat, jobs: nat :: wait(n, jobs).Returned?
  }

  /** How the loop ends; with nothing outstanding a wait does not return. */
  datatype Outcome = Finished | WaitFailed | Hung

  class Benchmark {
    const njobs: int
    const jds: array2<Job>
    const njds: array<nat>
    var ci: nat
    var nsubmitted: nat
    var ncompleted: nat
    var calls: nat

    ghost predicate Room()
      reads njds
    {
      jds.Length0 == 2 && jds.Length1 == NJDS && njds.Length == 2 && njds[0] <= NJDS && njds[1] <= NJDS
    }

    ghost predicate Shape()
      reads this`ci, njds
    {
      Room() && ci < 2
    }

    /** One of the two lists of jobs. */
    ghost function Jobs(c: nat): (s: seq<Job>)
      requires Room() && c < 2
      reads njds, jds
      ensures |s| == njds[c]
      ensures forall i :: 0 <= i < njds[c] ==> s[i] == jds[c, i]
    {
      JobsUpTo(c, njds[c])
    }

    ghost function JobsUpTo(c: nat, n: nat): (s: seq<Job>)
      requires jds.Length0 == 2 && jds.Length1 == NJDS && c < 2 && n <= NJDS
      reads jds
      ensures |s| == n && forall i :: 0 <= i < n ==> s[i] == jds[c, i]
    {
      if n == 0 then [] else JobsUpTo(c, n - 1) + [jds[c, n - 1]]
    }

    /** The invariant of the loop head. */
    ghost predicate Valid()
      reads this, njds, jds
    {
      Shape() && nsubmitted == ncompleted + njds[ci] && Distinct(Jobs(ci))
    }

    constructor (njobs: int)
      ensures Valid() && this.njobs == njobs && fresh(jds) && fresh(njds)
      ensures nsubmitted == 0 && ncompleted == 0 && calls == 0 && ci == 0 && njds[0] == 0
    {
      this.njobs := njobs;
      jds := new Job[2, NJDS];
      njds := new nat[2](_ => 0);
      ci, nsubmitted, ncompleted, calls := 0, 0, 0, 0;
    }

    method Remember(c: nat, job: Job)
      requires Shape() && c < 2 && njds[c] < NJDS
      modifies jds, njds
      ensures Shape() && Jobs(c) == old(Jobs(c)) + [job] && Jobs(1 - c) == old(Jobs(1 - c))
    {
      jds[c, njds[c]] := job;
      njds[c] := njds[c] + 1;
    }

    /** Submit every descriptor once. */
    method FirstBatch(all: seq<Job>, ok: nat -> bool)
      requires Valid() && nsubmitted == 0 && ncompleted == 0 && calls == 0 && njds[ci] == 0
      requires |all| == NJDS && Distinct(all)
      modifies this`nsubmitted, this`calls, jds, njds
      ensures Valid() && PickedFrom(Jobs(ci), all) && nsubmitted <= NJDS
      ensures calls == NJDS == nsubmitted + Refused(ok, calls)
      ensures AllAccepted(ok) ==> nsubmitted == NJDS
    {
      hide PickedFrom, Distinct, Refused;
      assert all[..0] == [];
      NonePicked(Jobs(ci));
      NoneRefused(ok);
      for i := 0 to NJDS
        invariant Shape() && nsubmitted == njds[ci] <= i && ci == old(ci)
        invariant PickedFrom(Jobs(ci), all[..i])
        invariant calls == i == nsubmitted + Refused(ok, calls)
        invariant AllAccepted(ok) ==> nsubmitted == i
      {
        var accepted := ok(calls);
        OneMoreCall(ok, calls);
        calls := calls + 1;
        PickedSnoc(Jobs(ci), all[..i], all[i]);
        assert all[..i + 1] == all[..i] + [all[i]];
        if accepted {
          Remember(ci, all[i]);
          nsubmitted := nsubmitted + 1;
        }
      }
      assert all[..NJDS] == all;
      PickedDistinct(Jobs(ci), all);
    }

    ghost function Progress(c: nat): Pass
      requires Room() && c < 2
      reads this, njds, jds
    {
      Pass(Jobs(c), nsubmitted, ncompleted, calls)
    }

    /** One iteration of the wait loop, after the wait has returned. */
    method OnePass(done: seq<bool>, ok: nat -> bool)
      requires Valid() && |done| == njds[ci]
      modifies this`ci, this`nsubmitted, this`ncompleted, this`calls, jds, njds
      ensures Valid()
      ensures Progress(ci) ==
              PassOver(Pass([], old(nsubmitted), old(ncompleted), old(calls)), old(Jobs(ci)), done, njobs, ok)
    {
      hide PassJob, PassOver, PickedFrom, Distinct;
      ghost var jobs, p := Jobs(ci), Pass([], nsubmitted, ncompleted, calls);
      var other := 1 - ci;
      njds[other] := 0;
      assert jobs[..0] == [] && done[..0] == [];
      PassNone(p, njobs, ok);
      for i := 0 to njds[ci]
        invariant Shape() && ci == old(ci) && Jobs(ci) == jobs
        invariant Progress(other) == PassOver(p, jobs[..i], done[..i], njobs, ok)
      {
        PassLength(p, jobs[..i], done[..i], njobs, ok);
        PassTake(p, jobs, done, njobs, ok, i);
        OneJob(jds[ci, i], done[i], ok, other);
      }
      assert jobs[..|jobs|] == jobs && done[..|jobs|] == done;
      PassKeeps(p, jobs, done, njobs, ok);
      PickedDistinct(Jobs(other), jobs);
      ci := other;
    }

    /** The body of the inner loop. */
    method OneJob(job: Job, done: bool, ok: nat -> bool, other: nat)
      requires Shape() && other < 2 && other != ci && njds[other] < NJDS
      modifies this`nsubmitted, this`ncompleted, this`calls, jds, njds
      ensures Shape() && Jobs(ci) == old(Jobs(ci))
      ensures Progress(other) == PassJob(old(Progress(other)), job, done, njobs, ok)
    {
      if !done {
        Remember(other, job);
      } else {
        ncompleted := ncompleted + 1;
        if nsubmitted < njobs {
          Resubmit(job, ok, other);
        }
      }
    }

    method Resubmit(job: Job, ok: nat -> bool, other: nat)
      requires Shape() && other < 2 && other != ci && njds[other] < NJDS
      modifies this`nsubmitted, this`calls, jds, njds
      ensures Shape() && Jobs(ci) == old(Jobs(ci)) && calls == old(calls) + 1
      ensures nsubmitted == old(nsubmitted) + if ok(old(calls)) then 1 else 0
      ensures Jobs(other) == if ok(old(calls)) then old(Jobs(other)) + [job] else old(Jobs(other))
    {
      var accepted := ok(calls);
      calls := calls + 1;
      if accepted {
        Remember(other, job);
        nsubmitted := nsubmitted + 1;
      }
    }

    /** The whole test. Whatever is refused and whatever fails, the loop ends or hangs, and the jobs outstanding are
        those submitted and not completed. It hangs exactly when the last descriptor is lost to a refusal before
        the last job wanted is accepted; if nothing is refused or fails, every job wanted is completed. Wait number
        `k` is for `asked[k]` jobs; every one but the last returns, and the test fails exactly when the last fails. */
    method RunTest(all: seq<Job>, ok: nat -> bool, wait: Waits) returns (outcome: Outcome, ghost asked: seq<nat>)
      requires Valid() && nsubmitted == 0 && ncompleted == 0 && calls == 0 && njds[ci] == 0
      requires |all| == NJDS && Distinct(all)
      requires WaitsForAny(wait)
      modifies this, jds, njds
      ensures Valid()
      ensures outcome == Finished ==> ncompleted >= njobs && !Starves(njobs, ok)
      ensures outcome == Hung ==> ncompleted < njobs && njds[ci] == 0 && Starves(njobs, ok)
      ensures forall k :: 0 <= k < |asked| ==> asked[k] > 0 && (wait(k, asked[k]).Failed? ==> k == |asked| - 1)
      ensures outcome == WaitFailed <==> exists k :: 0 <= k < |asked| && wait(k, asked[k]).Failed?
      ensures outcome == WaitFailed ==> asked[|asked| - 1] == njds[ci] && ncompleted < njobs
      ensures NeverFails(wait) ==> (outcome == Hung <==> Starves(njobs, ok))
      ensures NeverFails(wait) ==> (outcome == Finished <==> !Starves(njobs, ok))
      ensures AllAccepted(ok) && NeverFails(wait) ==>
                outcome == Finished && nsubmitted == if njobs < NJDS then NJDS else njobs
      ensures AllAccepted(ok) && NeverFails(wait) && njobs >= NJDS ==> ncompleted == njobs && njds[ci] == 0
    {
      hide PassOver, Distinct, PickedFrom, Account, Starves, Refused;
      FirstBatch(all, ok);
      ghost var p := Pass([], nsubmitted, ncompleted, calls);
      FirstAccount(p, njds[ci], njobs, ok);
      var waits := 0;
      asked := [];
      while ncompleted < njobs
        invariant Valid() && p == Pass([], nsubmitted, ncompleted, calls)
        invariant |asked| == waits && forall k :: 0 <= k < waits ==> asked[k] > 0 && wait(k, asked[k]).Returned?
        invariant njobs >= 1 ==> Account(p, njds[ci], njobs, ok)
        invariant AllAccepted(ok) ==> NJDS <= nsubmitted && (nsubmitted <= NJDS || nsubmitted <= njobs)
        invariant AllAccepted(ok) && nsubmitted < njobs ==> njds[ci] == NJDS
        decreases njobs - ncompleted
      {
        if njds[ci] == 0 {
          NothingLeft(p, njobs, ok);
          return Hung, asked;
        }
        ghost var jobs := Jobs(ci);
        var result := wait(waits, njds[ci]);
        asked := asked + [njds[ci]];
        waits := waits + 1;
        if result.Failed? {
          assert wait(waits - 1, asked[waits - 1]).Failed?;
          return WaitFailed, asked;
        }
        PassKeeps(p, jobs, result.done, njobs, ok);
        PassProgress(p, jobs, result.done, njobs, ok);
        AccountPass(p, jobs, result.done, 0, njobs, ok);
        if AllAccepted(ok) {
          PassFull(p, jobs, result.done, njobs, ok);
        }
        OnePass(result.done, ok);
        p := Pass([], nsubmitted, ncompleted, calls);
        AccountNext(Progress(ci), njobs, ok);
      }
      Ended(p, njds[ci], njobs, ok);
      return Finished, asked;
    }
  }

  lemma FirstAccount(p: Pass, outstanding: nat, njobs: int, ok: nat -> bool)
    requires p.next == [] && p.calls == NJDS == p.submitted + Refused(ok, NJDS) && outstanding == p.submitted
    ensures njobs >= 1 ==> Account(p, outstanding, njobs, ok)
  {
  }

  /** The jobs remembered in one pass are those to wait for in the next. */
  lemma AccountNext(p: Pass, njobs: int, ok: nat -> bool)
    requires Account(p, 0, njobs, ok)
    ensures Account(p.(next := []), |p.next|, njobs, ok)
  {
  }

  lemma Ended(p: Pass, outstanding: nat, njobs: int, ok: nat -> bool)
    requires njobs >= 1 ==> Account(p, outstanding, njobs, ok)
    requires p.submitted >= p.completed >= njobs
    ensures !Starves(njobs, ok)
  {
    if njobs >= 1 {
      EnoughSubmitted(p, njobs, ok);
    }
  }

  // ---- a test that hangs ----

  lemma {:induction false} AllRefused(n: nat)
    ensures Refused(_ => false, n) == n
  {
    if n > 0 {
      AllRefused(n - 1);
    }
  }

  /** If every submission is refused, a test that wants any job hangs. */
  method RefusedTest(njobs: int) returns (outcome: Outcome)
    ensures outcome == if njobs >= 1 then Hung else Finished
  {
    var wait: Waits := (n: nat, jobs: nat) => Returned(seq(jobs, _ => true));
    forall n: nat, jobs: nat | jobs > 0 ensures SomeDone(wait(n, jobs).done) {
      assert wait(n, jobs).done[0];
    }
    if njobs >= 1 {
      AllRefused(njobs + NJDS - 1);
    }
    var test := new Benchmark(njobs);
    ghost var asked;
    outcome, asked := test.RunTest(seq(NJDS, i => i), _ => false, wait);
  }

  lemma NonePicked(jobs: seq<Job>)
    requires jobs == []
    ensures PickedFrom(jobs, [])
  {
  }

  lemma PickedDistinct(next: seq<Job>, jobs: seq<Job>)
    requires PickedFrom(next, jobs) && Distinct(jobs)
    ensures Distinct(next)
  {
  }

  lemma PassNone(p: Pass, njobs: int, ok: nat -> bool)
    ensures PassOver(p, [], [], njobs, ok) == p
  {
  }

  lemma PassTake(p: Pass, jobs: seq<Job>, done: seq<bool>, njobs: int, ok: nat -> bool, i: nat)
    requires |jobs| == |done| && i < |jobs|
    ensures PassOver(p, jobs[..i + 1], done[..i + 1], njobs, ok) ==
            PassJob(PassOver(p, jobs[..i], done[..i], njobs, ok), jobs[i], done[i], njobs, ok)
  {
    hide PassJob;
    assert jobs[..i + 1][..i] == jobs[..i] && done[..i + 1][..i] == done[..i];
  }
}
