/** The lock-free scope counter (include/utility.hpp, `ScopeRunner`) as a step relation: any number of
    threads interleave at every atomic operation, and a weak compare-exchange may fail for no reason. */
module ScopeRunner {

  /** Where a thread stands. `expected` is the local variable of `continue_lock`. */
  datatype Pc =
    | Outside
    | Locking(expected: int)     // in the loop of `continue_lock`
    | Holding                    // has a `SharedLock`
    | Denied                     // `continue_lock` returned null
    | Stopping                   // in the loop of `stop`, `expected` being 0
    | Stopped                    // `stop` returned

  datatype Runner = Runner(count: int, pcs: seq<Pc>)

  datatype Op = EnterLock | LockTry(spurious: bool) | Leave | Release | EnterStop | StopTry(spurious: bool) | Return

  ghost predicate Init(r: Runner) {
    r.count == 0 && forall t :: 0 <= t < |r.pcs| ==> r.pcs[t] == Outside
  }

  function At(r: Runner, t: nat, count: int, pc: Pc): Runner
    requires t < |r.pcs|
  {
    Runner(count, r.pcs[t := pc])
  }

  /** One atomic operation of thread `t`. */
  ghost predicate Step(r: Runner, t: nat, op: Op, r': Runner) {
    t < |r.pcs| &&
    match op
    case EnterLock =>                                    // expected = count
      r.pcs[t] == Outside && r' == At(r, t, r.count, Locking(r.count))
    case LockTry(spurious) =>
      r.pcs[t].Locking? &&
      var e := r.pcs[t].expected;
      if e < 0 then r' == At(r, t, r.count, Denied)
      else if r.count == e && !spurious then r' == At(r, t, e + 1, Holding)
      else r' == At(r, t, r.count, Locking(r.count))     // a failed exchange reloads `expected`
    case Leave => r.pcs[t] == Denied && r' == At(r, t, r.count, Outside)
    case Release => r.pcs[t] == Holding && r' == At(r, t, r.count - 1, Outside)
    case EnterStop => r.pcs[t] == Outside && r' == At(r, t, r.count, Stopping)
    case StopTry(spurious) =>
      r.pcs[t] == Stopping &&
      if r.count == 0 && !spurious then r' == At(r, t, -1, Stopped)
      else if r.count < 0 then r' == At(r, t, r.count, Stopped)
      else r' == r                                       // expected = 0 again
    case Return => r.pcs[t] == Stopped && r' == At(r, t, r.count, Outside)
  }

  /** How many locks are held. */
  function Holders(pcs: seq<Pc>): nat {
    if pcs == [] then 0 else (if pcs[0] == Holding then 1 else 0) + Holders(pcs[1..])
  }

  lemma {:induction false} HoldersUpdate(pcs: seq<Pc>, t: nat, pc: Pc)
    requires t < |pcs|
    ensures Holders(pcs[t := pc])
        == Holders(pcs) - (if pcs[t] == Holding then 1 else 0) + (if pc == Holding then 1 else 0)
  {
    if t == 0 {
      assert pcs[t := pc][1..] == pcs[1..];
    } else {
      HoldersUpdate(pcs[1..], t - 1, pc);
      assert pcs[t := pc][1..] == pcs[1..][t - 1 := pc];
    }
  }

  lemma {:induction false} NoHolders(pcs: seq<Pc>)
    ensures Holders(pcs) == 0 <==> forall t :: 0 <= t < |pcs| ==> pcs[t] != Holding
  {
    if pcs != [] {
      NoHolders(pcs[1..]);
      if pcs[0] != Holding {
        assert (forall t :: 0 <= t < |pcs| - 1 ==> pcs[1..][t] != Holding)
            <==> (forall t :: 1 <= t < |pcs| ==> pcs[t] != Holding) by {
          assert forall t :: 1 <= t < |pcs| ==> pcs[t] == pcs[1..][t - 1];
        }
      }
    }
  }

  /** The thread has seen the counter negative. */
  predicate KnowsStopped(pc: Pc) {
    pc.Stopped? || pc.Denied? || (pc.Locking? && pc.expected < 0)
  }

  /** The counter counts the locks held, or is -1 for good and no lock is held. */
  ghost predicate Inv(r: Runner) {
    && (r.count == Holders(r.pcs) || (r.count == -1 && Holders(r.pcs) == 0))
    && forall t :: 0 <= t < |r.pcs| && KnowsStopped(r.pcs[t]) ==> r.count == -1
  }

  lemma {:induction false} InitHolds(r: Runner)
    requires Init(r)
    ensures Inv(r)
  {
    NoHolders(r.pcs);
  }

  lemma StepKeeps(r: Runner, t: nat, op: Op, r': Runner)
    requires Inv(r) && Step(r, t, op, r')
    ensures Inv(r') && |r'.pcs| == |r.pcs| && (r.count == -1 ==> r'.count == -1)
  {
    if r' != r {
      HoldersUpdate(r.pcs, t, r'.pcs[t]);
      NoHolders(r.pcs);
      forall s | 0 <= s < |r'.pcs| && KnowsStopped(r'.pcs[s]) ensures r'.count == -1 {
        if s != t { assert KnowsStopped(r.pcs[s]); }
      }
    }
  }

  /** A finite run: `trace[i]` leads to `trace[i + 1]`. */
  ghost predicate IsRun(trace: seq<Runner>, ts: seq<nat>, ops: seq<Op>) {
    && |trace| == |ts| + 1 == |ops| + 1 && Init(trace[0])
    && forall i :: 0 <= i < |ts| ==> Step(trace[i], ts[i], ops[i], trace[i + 1])
  }

  lemma {:induction false} RunKeeps(trace: seq<Runner>, ts: seq<nat>, ops: seq<Op>, n: nat)
    requires IsRun(trace, ts, ops) && n < |trace|
    ensures Inv(trace[n]) && |trace[n].pcs| == |trace[0].pcs|
  {
    if n == 0 {
      InitHolds(trace[0]);
    } else {
      RunKeeps(trace, ts, ops, n - 1);
      StepKeeps(trace[n - 1], ts[n - 1], ops[n - 1], trace[n]);
    }
  }

  lemma {:induction false} StaysStopped(trace: seq<Runner>, ts: seq<nat>, ops: seq<Op>, m: nat, n: nat)
    requires IsRun(trace, ts, ops) && m <= n < |trace| && trace[m].count == -1
    ensures trace[n].count == -1
  {
    if m < n {
      StaysStopped(trace, ts, ops, m, n - 1);
      RunKeeps(trace, ts, ops, n - 1);
      StepKeeps(trace[n - 1], ts[n - 1], ops[n - 1], trace[n]);
    }
  }

  /** On every run: once `stop` has returned in some thread, no thread holds a lock, then or ever after. */
  lemma StopIsFinal(trace: seq<Runner>, ts: seq<nat>, ops: seq<Op>, m: nat, n: nat, t: nat, u: nat)
    requires IsRun(trace, ts, ops) && m <= n < |trace| && t < |trace[m].pcs| && trace[m].pcs[t] == Stopped
    requires u < |trace[n].pcs|
    ensures trace[n].pcs[u] != Holding
  {
    RunKeeps(trace, ts, ops, m);
    RunKeeps(trace, ts, ops, n);
    StaysStopped(trace, ts, ops, m, n);
    NoHolders(trace[n].pcs);
  }

  /** Between steps `j` and `k` thread `t` does nothing. */
  ghost predicate Rests(ts: seq<nat>, t: nat, j: nat, k: nat) {
    j < k < |ts| && ts[j] == ts[k] == t && forall i :: j < i < k ==> ts[i] != t
  }

  lemma {:induction false} OthersLeaveIt(trace: seq<Runner>, ts: seq<nat>, ops: seq<Op>, t: nat, j: nat, n: nat)
    requires IsRun(trace, ts, ops) && j < n < |trace| && forall i :: j < i < n ==> ts[i] != t
    requires t < |trace[j + 1].pcs|
    ensures t < |trace[n].pcs| && trace[n].pcs[t] == trace[j + 1].pcs[t]
  {
    if j + 1 < n {
      OthersLeaveIt(trace, ts, ops, t, j, n - 1);
      assert Step(trace[n - 1], ts[n - 1], ops[n - 1], trace[n]);
    }
  }

  /** In the loop, `expected` is what the counter was when the thread last looked. */
  lemma JustLooked(r: Runner, t: nat, op: Op, r': Runner)
    requires Step(r, t, op, r') && r'.pcs[t].Locking?
    ensures r'.pcs[t].expected == r'.count
  {
  }

  /** On every run: after a stop, a thread in the loop of `continue_lock` leaves it refused at the latest
      with its second try, whatever the others do in between. */
  lemma LeavesRefused(trace: seq<Runner>, ts: seq<nat>, ops: seq<Op>, m: nat, j: nat, k: nat, t: nat)
    requires IsRun(trace, ts, ops) && m <= j && Rests(ts, t, j, k) && trace[m].count == -1
    requires ops[j].LockTry? && ops[k].LockTry?
    ensures trace[k + 1].pcs[t] == Denied
  {
    StaysStopped(trace, ts, ops, m, j + 1);
    assert Step(trace[j], t, ops[j], trace[j + 1]) && Step(trace[k], t, ops[k], trace[k + 1]);
    OthersLeaveIt(trace, ts, ops, t, j, k);
    JustLooked(trace[j], t, ops[j], trace[j + 1]);
  }

  /** The lock is lock-free: a try that fails, though not for no reason, fails because since the thread
      last looked another one has changed the counter. */
  lemma FailureMeansProgress(trace: seq<Runner>, ts: seq<nat>, ops: seq<Op>, j: nat, k: nat, t: nat) returns (i: nat)
    requires IsRun(trace, ts, ops) && Rests(ts, t, j, k) && ops[k] == LockTry(false)
    requires t < |trace[k + 1].pcs| && trace[k + 1].pcs[t].Locking?
    ensures j < i < k && ts[i] != t && trace[i + 1].count != trace[i].count
  {
    assert Step(trace[j], t, ops[j], trace[j + 1]) && Step(trace[k], t, ops[k], trace[k + 1]);
    OthersLeaveIt(trace, ts, ops, t, j, k);
    JustLooked(trace[j], t, ops[j], trace[j + 1]);
    i := k - 1;
    while trace[i + 1].count == trace[i].count
      invariant j < i < k && trace[i + 1].count != trace[j + 1].count
      decreases i
    {
      i := i - 1;
    }
  }

  /** A refusal means that some `stop` has succeeded. */
  lemma RefusedOnlyIfStopped(trace: seq<Runner>, ts: seq<nat>, ops: seq<Op>, n: nat, t: nat)
    requires IsRun(trace, ts, ops) && n < |trace| && t < |trace[n].pcs| && trace[n].pcs[t] == Denied
    ensures trace[n].count == -1
  {
    RunKeeps(trace, ts, ops, n);
  }
}
