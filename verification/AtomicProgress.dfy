/** That the retry loops of Atomics get on: a thread left alone returns, and no thread reads the cell
    again without another one's commit. */
module AtomicProgress {
  import opened Limbs
  import opened Atomics

  // ---------------------------------------------------------------- a thread alone

  /** Thread t alone takes these steps, from s to s'. */
  ghost predicate Alone(s: State, t: nat, acts: seq<Action>, s': State)
    decreases |acts|
  {
    if acts == [] then s' == s
    else Enabled(s, t, acts[0]) && Alone(Step(s, t, acts[0]), t, acts[1..], s')
  }

  function Refusals(acts: seq<Action>): nat {
    if acts == [] then 0 else (if acts[0].Refuse? then 1 else 0) + Refusals(acts[1..])
  }

  /** The kernel helper refuses although the cell holds the expected value. */
  predicate Spurious(s: State, t: nat, a: Action)
    requires Enabled(s, t, a)
  {
    a.Refuse? && s.cell == s.pcs[t].prev
  }

  /** How many of thread t's refusals are spurious. */
  function SpuriousRefusals(s: State, t: nat, acts: seq<Action>): nat
    decreases |acts|
  {
    if acts == [] || !Enabled(s, t, acts[0]) then 0
    else (if Spurious(s, t, acts[0]) then 1 else 0) + SpuriousRefusals(Step(s, t, acts[0]), t, acts[1..])
  }

  /** The steps t still has to take when it is alone and nothing refuses it. */
  function Remaining(s: State, t: nat): nat
    requires t < |s.pcs|
  {
    match s.pcs[t]
    case Idle => 0
    case Reading(_) => 3
    case Trying(_, prev) => if s.cell == prev then 2 else 4
    case Rechecking(_, prev) => if s.cell == prev then 3 else 4
    case Finished(_, _) => 1
  }

  /** Only a swap for a value no longer there has to be refused, and only once. */
  function Forced(s: State, t: nat): nat
    requires t < |s.pcs|
  {
    if s.pcs[t].Trying? && s.cell != s.pcs[t].prev then 1 else 0
  }

  lemma {:induction false} AloneBound(s: State, t: nat, acts: seq<Action>, s': State)
    requires Alone(s, t, acts, s') && t < |s.pcs|
    requires forall i :: 0 <= i < |acts| ==> !acts[i].Begin?
    ensures t < |s'.pcs|
    ensures |acts| <= Remaining(s, t) + Refusals(acts) + SpuriousRefusals(s, t, acts)
    ensures Refusals(acts) <= Forced(s, t) + SpuriousRefusals(s, t, acts)
    decreases |acts|
  {
    if acts != [] {
      var s1 := Step(s, t, acts[0]);
      AloneBound(s1, t, acts[1..], s');
    }
  }

  /** ARM without load-linked. */
  predicate Arm(a: Action) {
    a.Read? || a.Swap? || a.Refuse? || a.Recheck? || a.End?
  }

  predicate X86(a: Action) {
    a.Read? || a.Swap? || a.Mismatch? || a.FetchAdd? || a.End?
  }

  /** A thread in a call that is not between an ARM refusal and its recheck can go on either way, on
      ARM with no spurious refusal. */
  lemma CanGoOn(s: State, t: nat)
    requires t < |s.pcs| == |s.failures| == |s.seen| && !s.pcs[t].Idle?
    ensures exists a :: Arm(a) && Enabled(s, t, a) && !Spurious(s, t, a)
    ensures !s.pcs[t].Rechecking? ==> exists a :: X86(a) && Enabled(s, t, a)
  {
    match s.pcs[t]
    case Reading(_) => assert Enabled(s, t, Read) && Arm(Read) && X86(Read);
    case Trying(_, prev) =>
      if s.cell == prev {
        assert Enabled(s, t, Swap) && Arm(Swap) && X86(Swap);
      } else {
        assert Enabled(s, t, Refuse) && Arm(Refuse) && !Spurious(s, t, Refuse);
        assert Enabled(s, t, Mismatch) && X86(Mismatch);
      }
    case Rechecking(_, _) => assert Enabled(s, t, Recheck) && Arm(Recheck);
    case Finished(_, _) => assert Enabled(s, t, End) && Arm(End) && X86(End);
  }

  /** The thread was invoked and has not returned since. */
  ghost predicate InCall(h: seq<Event>, t: nat) {
    exists v: nat :: v < |h| && h[v].Invoked? && h[v].tid == t && NoReturn(h, v, t)
  }

  ghost predicate NoReturn(h: seq<Event>, v: nat, t: nat) {
    forall j :: v < j < |h| && h[j].Tid() == t ==> !h[j].Returned?
  }

  lemma {:induction false} NotQuietSince(h: seq<Event>, v: nat, t: nat)
    requires v < |h| && h[v].Invoked? && h[v].tid == t && NoReturn(h, v, t)
    ensures PhaseOf(h, t) != Quiet
    decreases |h|
  {
    if v < |h| - 1 {
      NotQuietSince(h[..|h| - 1], v, t);
    }
  }

  /** Being in a call can be read off the thread or off the history. */
  lemma InCallIs(s: State, t: nat)
    requires Orderly(s) && t < |s.pcs|
    ensures InCall(s.history, t) <==> !s.pcs[t].Idle?
  {
    var h := s.history;
    assert PhaseOf(h, t) == PhaseOfPc(s.pcs[t]);
    if InCall(h, t) {
      var v: nat :| v < |h| && h[v].Invoked? && h[v].tid == t && NoReturn(h, v, t);
      NotQuietSince(h, v, t);
    }
    match PhaseOf(h, t)
    case Called(op) =>
      var v := FindInvocation(h, t, op);
      assert NoReturn(h, v, t);
    case Answered(op, ret) =>
      var v, c := FindCommit(h, t, op, ret);
      assert NoReturn(h, v, t);
    case _ =>
  }

  /** The history ends with a return of thread t. */
  ghost predicate JustReturned(h: seq<Event>, t: nat) {
    h != [] && h[|h| - 1].Returned? && h[|h| - 1].tid == t
  }

  lemma {:induction false} AloneKeeps(s: State, t: nat, acts: seq<Action>, s': State, x86: bool)
    requires Alone(s, t, acts, s') && Orderly(s) && t < |s.pcs| == |s.failures| == |s.seen|
    requires !s.pcs[t].Idle? || (acts == [] && JustReturned(s.history, t))
    requires forall i :: 0 <= i < |acts| ==> !acts[i].Begin?
    requires x86 ==> !s.pcs[t].Rechecking? && forall i :: 0 <= i < |acts| ==> X86(acts[i])
    ensures Orderly(s') && |s'.pcs| == |s'.failures| == |s'.seen| == |s.pcs|
    ensures s'.pcs[t].Idle? ==> JustReturned(s'.history, t)
    ensures x86 ==> !s'.pcs[t].Rechecking?
    decreases |acts|
  {
    if acts != [] {
      var s1 := Step(s, t, acts[0]);
      StepOrderly(s, t, acts[0]);
      AloneKeeps(s1, t, acts[1..], s', x86);
    }
  }

  /** What thread t did so far are x86 steps. */
  ghost predicate X86So(run: seq<(nat, Action)>, t: nat) {
    forall i :: 0 <= i < |run| && run[i].0 == t ==> run[i].1.Begin? || X86(run[i].1)
  }

  lemma {:induction false} NeverRechecking(init: word, n: nat, run: seq<(nat, Action)>, s: State, t: nat)
    requires Reaches(init, n, run, s) && t < n && X86So(run, t)
    ensures |s.pcs| == n && !s.pcs[t].Rechecking?
    decreases |run|
  {
    if run != [] {
      var (u, a) := run[|run| - 1];
      var p: State :| Reaches(init, n, run[..|run| - 1], p) && Enabled(p, u, a) && s == Step(p, u, a);
      NeverRechecking(init, n, run[..|run| - 1], p, t);
    }
  }

  /** Whatever happened before, a thread inside a call and left alone returns: it takes at most four
      steps and two for each refusal, of which only one need not be spurious; and until it has
      returned it can go on, on ARM with no spurious refusal and on x86 with no refusal at all. */
  lemma CallEnds(init: word, n: nat, run: seq<(nat, Action)>, s: State, t: nat, acts: seq<Action>, s': State)
    requires Reaches(init, n, run, s) && t < n && InCall(s.history, t)
    requires Alone(s, t, acts, s') && forall i :: 0 <= i < |acts| ==> !acts[i].Begin?
    ensures |acts| <= 2 * Refusals(acts) + 4 && |acts| <= 2 * SpuriousRefusals(s, t, acts) + 5
    ensures JustReturned(s'.history, t) || InCall(s'.history, t)
    ensures InCall(s'.history, t) ==> exists a :: Arm(a) && Enabled(s', t, a) && !Spurious(s', t, a)
    ensures InCall(s'.history, t) && X86So(run, t) && (forall i :: 0 <= i < |acts| ==> X86(acts[i])) ==>
              exists a :: X86(a) && Enabled(s', t, a)
  {
    RunKeeps(init, n, run, s);
    InCallIs(s, t);
    AloneBound(s, t, acts, s');
    SpuriousAreRefusals(s, t, acts);
    var x86 := X86So(run, t) && forall i :: 0 <= i < |acts| ==> X86(acts[i]);
    if x86 {
      NeverRechecking(init, n, run, s, t);
    }
    AloneKeeps(s, t, acts, s', x86);
    InCallIs(s', t);
    if !s'.pcs[t].Idle? {
      CanGoOn(s', t);
    }
  }

  /** A thread that is in no call can start any. */
  lemma CanStart(init: word, n: nat, run: seq<(nat, Action)>, s: State, t: nat, op: Op)
    requires Reaches(init, n, run, s) && t < n && !InCall(s.history, t)
    ensures Enabled(s, t, Begin(op)) && Step(s, t, Begin(op)).history == s.history + [Invoked(t, op)]
  {
    RunKeeps(init, n, run, s);
    InCallIs(s, t);
  }

  lemma {:induction false} SpuriousAreRefusals(s: State, t: nat, acts: seq<Action>)
    ensures SpuriousRefusals(s, t, acts) <= Refusals(acts)
    decreases |acts|
  {
    if acts != [] && Enabled(s, t, acts[0]) {
      SpuriousAreRefusals(Step(s, t, acts[0]), t, acts[1..]);
    }
  }

  // ---------------------------------------------------------------- retries

  /** The calls thread t started. */
  function Begins(run: seq<(nat, Action)>, t: nat): nat {
    if run == [] then 0
    else Begins(run[..|run| - 1], t) + if run[|run| - 1].0 == t && run[|run| - 1].1.Begin? then 1 else 0
  }

  /** The attempts thread t made: each starts by reading the cell. */
  function Attempts(run: seq<(nat, Action)>, t: nat): nat {
    if run == [] then 0
    else
      var (u, a) := run[|run| - 1];
      Attempts(run[..|run| - 1], t) + if u == t && (a.Read? || a.FetchAdd?) then 1 else 0
  }

  /** Every attempt is the first of its call or follows a reported failure. */
  lemma {:induction false} AttemptsAre(init: word, n: nat, run: seq<(nat, Action)>, s: State, t: nat)
    requires Reaches(init, n, run, s) && t < n
    ensures |s.pcs| == |s.failures| == n
    ensures Attempts(run, t) + (if s.pcs[t].Reading? then 1 else 0) == Begins(run, t) + s.failures[t]
    decreases |run|
  {
    if run != [] {
      var (u, a) := run[|run| - 1];
      var p: State :| Reaches(init, n, run[..|run| - 1], p) && Enabled(p, u, a) && s == Step(p, u, a);
      AttemptsAre(init, n, run[..|run| - 1], p, t);
    }
  }

  /** A thread reads the cell at most once for each of its calls and each commit of another thread. */
  lemma AttemptBound(init: word, n: nat, run: seq<(nat, Action)>, s: State, t: nat)
    requires Reaches(init, n, run, s) && t < n
    ensures Attempts(run, t) <= Begins(run, t) + Others(Commits(s.history), t)
  {
    AttemptsAre(init, n, run, s, t);
    FailureBound(init, n, run, s);
  }
}
