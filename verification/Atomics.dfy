/** cutils/atomic-arm.h and atomic-x86.h: the read-modify-write retry loops of any number of
    threads over one shared cell, as a step system. Each step is one access to the cell, so a run
    is an interleaving. int32_t is modelled by its 32-bit unsigned representation. */
module Atomics {
  import opened Limbs
  import Bits

  datatype Op = Add(v: word) | And(v: word) | Or(v: word)

  function Apply(op: Op, x: word): word {
    match op
    case Add(v) => (x + v) % WORD_BASE
    case And(v) => Bits.And(x, v)
    case Or(v) =>
      Bits.OrIsWord(x, v);
      Bits.Or(x, v)
  }

  /** left is what the operation makes of found: the sum modulo 2^32, or bit by bit the conjunction or
      the disjunction. */
  ghost predicate Does(op: Op, found: nat, left: nat) {
    && (op.Add? ==> left == (found + op.v) % 0x1_0000_0000)
    && (op.And? ==> forall i: nat :: Bits.Bit(left, i) <==> Bits.Bit(found, i) && Bits.Bit(op.v, i))
    && (op.Or? ==> forall i: nat :: Bits.Bit(left, i) <==> Bits.Bit(found, i) || Bits.Bit(op.v, i))
  }

  /** Every operation does what its name says. */
  lemma ApplyMeans(op: Op, x: word)
    ensures Does(op, x, Apply(op, x))
  {
    if op.And? {
      forall i: nat ensures Bits.Bit(Apply(op, x), i) <==> Bits.Bit(x, i) && Bits.Bit(op.v, i) {
        Bits.AndBits(x, op.v, i);
      }
    }
    if op.Or? {
      forall i: nat ensures Bits.Bit(Apply(op, x), i) <==> Bits.Bit(x, i) || Bits.Bit(op.v, i) {
        Bits.OrBits(x, op.v, i);
      }
    }
  }

  /** One thread inside android_atomic_add, _and or _or. */
  datatype Pc =
    | Idle
    | Reading(op: Op)                   // about to read the cell
    | Trying(op: Op, prev: word)        // about to compare and swap
    | Rechecking(op: Op, prev: word)    // the ARM helper refused; about to read the cell again
    | Finished(op: Op, prev: word)      // about to return prev

  /** A committed operation and what its caller will get back. */
  datatype Commit = Commit(tid: nat, op: Op, ret: word)

  datatype Event =
    | Invoked(tid: nat, op: Op)
    | Committed(commit: Commit)
    | Returned(tid: nat, op: Op, ret: word)
  {
    function Tid(): nat {
      match this
      case Invoked(t, _) => t
      case Committed(c) => c.tid
      case Returned(t, _, _) => t
    }
  }

  /** The cell and the threads, with what an observer writes down: the commits, all events,
      failures[t] the attempts of thread t reported as failed, and seen[t] the number of commits
      when it last read the cell. */
  datatype State = State(cell: word, pcs: seq<Pc>, log: seq<Commit>, history: seq<Event>,
                         failures: seq<nat>, seen: seq<nat>)

  datatype Action =
    | Begin(op: Op)   // a call starts
    | Read            // prev = *ptr
    | Swap            // the compare-and-swap succeeds
    | Refuse          // the ARM kernel helper does not swap, for a changed cell or no reason at all
    | Recheck         // ARM: prev = *ptr after a refusal, and retry inside or report failure
    | Mismatch        // x86: cmpxchg finds another value and reports failure
    | FetchAdd        // x86: lock xadd reads and adds in one step
    | End             // the call returns

  predicate Enabled(s: State, t: nat, a: Action) {
    && t < |s.pcs| == |s.failures| == |s.seen|
    && match a
       case Begin(_) => s.pcs[t].Idle?
       case Read => s.pcs[t].Reading?
       case Swap => s.pcs[t].Trying? && s.cell == s.pcs[t].prev
       case Refuse => s.pcs[t].Trying?
       case Recheck => s.pcs[t].Rechecking?
       case Mismatch => s.pcs[t].Trying? && s.cell != s.pcs[t].prev
       case FetchAdd => s.pcs[t].Reading? && s.pcs[t].op.Add?
       case End => s.pcs[t].Finished?
  }

  function Took(s: State, t: nat, op: Op, prev: word): State
    requires t < |s.pcs|
  {
    s.(cell := Apply(op, prev), pcs := s.pcs[t := Finished(op, prev)],
       log := s.log + [Commit(t, op, prev)], history := s.history + [Committed(Commit(t, op, prev))])
  }

  function Failed(s: State, t: nat, op: Op): State
    requires t < |s.pcs| == |s.failures|
  {
    s.(pcs := s.pcs[t := Reading(op)], failures := s.failures[t := s.failures[t] + 1])
  }

  function Step(s: State, t: nat, a: Action): State
    requires Enabled(s, t, a)
  {
    var pc := s.pcs[t];
    match a
    case Begin(op) => s.(pcs := s.pcs[t := Reading(op)], history := s.history + [Invoked(t, op)])
    case Read => s.(pcs := s.pcs[t := Trying(pc.op, s.cell)], seen := s.seen[t := |s.log|])
    case Swap => Took(s, t, pc.op, pc.prev)
    case Refuse => s.(pcs := s.pcs[t := Rechecking(pc.op, pc.prev)])
    case Recheck =>
      if s.cell == pc.prev then s.(pcs := s.pcs[t := Trying(pc.op, pc.prev)]) else Failed(s, t, pc.op)
    case Mismatch => Failed(s, t, pc.op)
    case FetchAdd => Took(s, t, pc.op, s.cell)
    case End => s.(pcs := s.pcs[t := Idle], history := s.history + [Returned(t, pc.op, pc.prev)])
  }

  /** n threads, none of them calling. */
  function Start(init: word, n: nat): State {
    State(init, seq(n, i => Idle), [], [], seq(n, i => 0), seq(n, i => 0))
  }

  /** The states some interleaving of n threads reaches: run is the schedule that gets there. */
  ghost predicate Reaches(init: word, n: nat, run: seq<(nat, Action)>, s: State) {
    if run == [] then s == Start(init, n)
    else
      var (t, a) := run[|run| - 1];
      exists p: State :: Reaches(init, n, run[..|run| - 1], p) && Enabled(p, t, a) && s == Step(p, t, a)
  }

  // ---------------------------------------------------------------- the sequential meaning

  /** The commits of a history, in order. */
  function Commits(h: seq<Event>): seq<Commit> {
    if h == [] then []
    else
      var e := h[|h| - 1];
      Commits(h[..|h| - 1]) + if e.Committed? then [e.commit] else []
  }

  /** The cell after performing the commits one after another. */
  function Fold(init: word, cs: seq<Commit>): word {
    if cs == [] then init else Apply(cs[|cs| - 1].op, Fold(init, cs[..|cs| - 1]))
  }

  /** Where the events of thread t leave it, if they are calls in good order: an invocation, one
      commit of the same operation, and a return of the committed answer. */
  datatype Phase = Quiet | Called(op: Op) | Answered(op: Op, ret: word) | Broken

  function NextPhase(p: Phase, e: Event, t: nat): Phase {
    if e.Tid() != t then p
    else match e
      case Invoked(_, op) => if p == Quiet then Called(op) else Broken
      case Committed(c) => if p == Called(c.op) then Answered(c.op, c.ret) else Broken
      case Returned(_, op, ret) => if p == Answered(op, ret) then Quiet else Broken
  }

  function PhaseOf(h: seq<Event>, t: nat): Phase {
    if h == [] then Quiet else NextPhase(PhaseOf(h[..|h| - 1], t), h[|h| - 1], t)
  }

  function PhaseOfPc(pc: Pc): Phase {
    match pc
    case Idle => Quiet
    case Reading(op) => Called(op)
    case Trying(op, _) => Called(op)
    case Rechecking(op, _) => Called(op)
    case Finished(op, prev) => Answered(op, prev)
  }

  /** How many commits are not by thread t. */
  function Others(cs: seq<Commit>, t: nat): nat {
    if cs == [] then 0
    else Others(cs[..|cs| - 1], t) + if cs[|cs| - 1].tid == t then 0 else 1
  }

  ghost predicate NoneBy(cs: seq<Commit>, from: nat, t: nat) {
    forall i :: from <= i < |cs| ==> cs[i].tid != t
  }

  // ---------------------------------------------------------------- what every step keeps

  /** What holds of thread t, with its own counters, given the commits so far. Between its read and
      its swap it holds the cell as it was after the first seen commits, and no later one is its. */
  ghost predicate ThreadOk(init: word, t: nat, pc: Pc, failures: nat, seen: nat, cs: seq<Commit>) {
    && failures <= Others(cs, t)
    && (pc.Trying? || pc.Rechecking? ==>
          && seen <= |cs|
          && failures <= Others(cs[..seen], t)
          && pc.prev == Fold(init, cs[..seen])
          && NoneBy(cs, seen, t))
  }

  ghost predicate Answers(init: word, n: nat, cs: seq<Commit>) {
    forall i :: 0 <= i < |cs| ==> cs[i].tid < n && cs[i].ret == Fold(init, cs[..i])
  }

  ghost predicate Inv(s: State, init: word, n: nat) {
    && |s.pcs| == |s.failures| == |s.seen| == n
    && s.cell == Fold(init, s.log)
    && Answers(init, n, s.log)
    && forall t :: 0 <= t < n ==> ThreadOk(init, t, s.pcs[t], s.failures[t], s.seen[t], s.log)
  }

  /** Every thread's events are calls in good order, and the log is what the history committed. */
  ghost predicate Orderly(s: State) {
    && Commits(s.history) == s.log
    && (forall i :: 0 <= i < |s.history| ==> s.history[i].Tid() < |s.pcs|)
    && forall t :: 0 <= t < |s.pcs| ==> PhaseOf(s.history, t) == PhaseOfPc(s.pcs[t])
  }

  lemma {:induction false} OthersMonotone(cs: seq<Commit>, k: nat, t: nat)
    requires k <= |cs|
    ensures Others(cs[..k], t) <= Others(cs, t)
    decreases |cs|
  {
    if k == |cs| {
      assert cs[..k] == cs;
    } else {
      assert cs[..|cs| - 1][..k] == cs[..k];
      OthersMonotone(cs[..|cs| - 1], k, t);
    }
  }

  /** Commits after the first k, all by others, all count. */
  lemma {:induction false} OthersGrow(cs: seq<Commit>, k: nat, t: nat)
    requires k <= |cs| && NoneBy(cs, k, t)
    ensures Others(cs, t) == Others(cs[..k], t) + |cs| - k
    decreases |cs|
  {
    if k == |cs| {
      assert cs[..k] == cs;
    } else {
      assert cs[..|cs| - 1][..k] == cs[..k];
      OthersGrow(cs[..|cs| - 1], k, t);
    }
  }

  lemma AppendEvent(h: seq<Event>, e: Event)
    ensures Commits(h + [e]) == Commits(h) + if e.Committed? then [e.commit] else []
    ensures forall t :: PhaseOf(h + [e], t) == NextPhase(PhaseOf(h, t), e, t)
  {
    assert (h + [e])[..|h|] == h;
  }

  /** A commit by another thread. */
  lemma OtherCommitKept(init: word, t: nat, pc: Pc, failures: nat, seen: nat, cs: seq<Commit>, c: Commit)
    requires ThreadOk(init, t, pc, failures, seen, cs) && c.tid != t
    ensures ThreadOk(init, t, pc, failures, seen, cs + [c])
  {
    OthersMonotone(cs + [c], |cs|, t);
    assert (cs + [c])[..|cs|] == cs;
    if seen <= |cs| {
      assert (cs + [c])[..seen] == cs[..seen];
    }
  }

  /** A commit answered with the fold so far extends the sequential run. */
  lemma AnswersAppend(init: word, n: nat, cs: seq<Commit>, c: Commit)
    requires Answers(init, n, cs) && c.tid < n && c.ret == Fold(init, cs)
    ensures Answers(init, n, cs + [c]) && Fold(init, cs + [c]) == Apply(c.op, c.ret)
  {
    var cs' := cs + [c];
    assert cs'[..|cs|] == cs;
    forall i | 0 <= i < |cs'| ensures cs'[i].tid < n && cs'[i].ret == Fold(init, cs'[..i]) {
      assert i < |cs| ==> cs'[..i] == cs[..i];
    }
  }

  lemma CommitKept(s: State, init: word, n: nat, t: nat, op: Op)
    requires Inv(s, init, n) && t < n
    ensures Inv(Took(s, t, op, s.cell), init, n)
  {
    var s', c := Took(s, t, op, s.cell), Commit(t, op, s.cell);
    AnswersAppend(init, n, s.log, c);
    forall u | 0 <= u < n ensures ThreadOk(init, u, s'.pcs[u], s'.failures[u], s'.seen[u], s'.log) {
      assert ThreadOk(init, u, s.pcs[u], s.failures[u], s.seen[u], s.log);
      if u != t {
        OtherCommitKept(init, u, s.pcs[u], s.failures[u], s.seen[u], s.log, c);
      } else {
        OthersMonotone(s'.log, |s.log|, t);
        assert s'.log[..|s.log|] == s.log;
      }
    }
  }

  /** A reported failure is paid for by a commit of another thread since this one's read. */
  lemma FailurePaid(s: State, init: word, n: nat, t: nat)
    requires Inv(s, init, n) && t < n && (s.pcs[t].Trying? || s.pcs[t].Rechecking?)
    requires s.cell != s.pcs[t].prev
    ensures s.seen[t] < |s.log| && NoneBy(s.log, s.seen[t], t)
    ensures s.failures[t] + 1 <= Others(s.log, t)
  {
    assert ThreadOk(init, t, s.pcs[t], s.failures[t], s.seen[t], s.log);
    assert s.log[..|s.log|] == s.log;
    OthersGrow(s.log, s.seen[t], t);
  }

  lemma StepKeeps(s: State, init: word, n: nat, t: nat, a: Action)
    requires Inv(s, init, n) && Enabled(s, t, a)
    ensures Inv(Step(s, t, a), init, n)
  {
    assert ThreadOk(init, t, s.pcs[t], s.failures[t], s.seen[t], s.log);
    if a.Swap? || a.FetchAdd? {
      CommitKept(s, init, n, t, s.pcs[t].op);
    } else {
      if (a.Mismatch? || a.Recheck?) && s.cell != s.pcs[t].prev {
        FailurePaid(s, init, n, t);
      }
      assert s.log[..|s.log|] == s.log;
      LocalKept(s, Step(s, t, a), init, n, t);
    }
  }

  /** A step of thread t that commits nothing touches no other thread. */
  lemma LocalKept(s: State, s': State, init: word, n: nat, t: nat)
    requires Inv(s, init, n) && t < n && |s'.pcs| == |s'.failures| == |s'.seen| == n
    requires s'.cell == s.cell && s'.log == s.log
    requires forall u :: 0 <= u < n && u != t ==>
               s'.pcs[u] == s.pcs[u] && s'.failures[u] == s.failures[u] && s'.seen[u] == s.seen[u]
    requires ThreadOk(init, t, s'.pcs[t], s'.failures[t], s'.seen[t], s.log)
    ensures Inv(s', init, n)
  {
    forall u | 0 <= u < n ensures ThreadOk(init, u, s'.pcs[u], s'.failures[u], s'.seen[u], s'.log) {
      assert u != t ==> ThreadOk(init, u, s.pcs[u], s.failures[u], s.seen[u], s.log);
    }
  }

  lemma EventOrderly(s: State, s': State, t: nat, e: Event)
    requires Orderly(s) && t < |s.pcs| == |s'.pcs|
    requires s'.history == s.history + [e] && e.Tid() == t
    requires s'.log == s.log + if e.Committed? then [e.commit] else []
    requires forall u :: 0 <= u < |s.pcs| && u != t ==> s'.pcs[u] == s.pcs[u]
    requires NextPhase(PhaseOfPc(s.pcs[t]), e, t) == PhaseOfPc(s'.pcs[t])
    ensures Orderly(s')
  {
    AppendEvent(s.history, e);
    forall u | 0 <= u < |s.pcs| ensures PhaseOf(s'.history, u) == PhaseOfPc(s'.pcs[u]) {
      assert PhaseOf(s.history, u) == PhaseOfPc(s.pcs[u]);
    }
  }

  lemma StepOrderly(s: State, t: nat, a: Action)
    requires Orderly(s) && Enabled(s, t, a)
    ensures Orderly(Step(s, t, a))
  {
    var pc, s' := s.pcs[t], Step(s, t, a);
    assert PhaseOf(s.history, t) == PhaseOfPc(pc);
    match a
    case Begin(op) => EventOrderly(s, s', t, Invoked(t, op));
    case Swap => EventOrderly(s, s', t, Committed(Commit(t, pc.op, pc.prev)));
    case FetchAdd => EventOrderly(s, s', t, Committed(Commit(t, pc.op, s.cell)));
    case End => EventOrderly(s, s', t, Returned(t, pc.op, pc.prev));
    case _ =>
  }

  /** Every state of every interleaving keeps the invariants. */
  lemma {:induction false} RunKeeps(init: word, n: nat, run: seq<(nat, Action)>, s: State)
    requires Reaches(init, n, run, s)
    ensures Inv(s, init, n) && Orderly(s)
    decreases |run|
  {
    if run != [] {
      var (t, a) := run[|run| - 1];
      var p: State :| Reaches(init, n, run[..|run| - 1], p) && Enabled(p, t, a) && s == Step(p, t, a);
      RunKeeps(init, n, run[..|run| - 1], p);
      StepKeeps(p, init, n, t, a);
      StepOrderly(p, t, a);
    }
  }

  // ---------------------------------------------------------------- linearizability

  /** In every interleaving the cell is the commits performed one after another, and each commit
      answers with the cell its predecessors left. */
  lemma CommitsAreSequential(init: word, n: nat, run: seq<(nat, Action)>, s: State)
    requires Reaches(init, n, run, s)
    ensures s.cell == Fold(init, Commits(s.history))
    ensures forall i :: 0 <= i < |Commits(s.history)| ==>
              Commits(s.history)[i].ret == Fold(init, Commits(s.history)[..i])
  {
    RunKeeps(init, n, run, s);
  }

  /** The value commit k leaves: what the next one finds, or the cell after the last. */
  function Left(cs: seq<Commit>, k: nat, cell: word): word
    requires k < |cs|
  {
    if k + 1 < |cs| then cs[k + 1].ret else cell
  }

  /** The sequential run spelled out: the first commit finds the initial value, each leaves its own
      operation done on what it found, and the last leaves the cell. */
  lemma CommitsDoTheirWork(init: word, n: nat, run: seq<(nat, Action)>, s: State)
    requires Reaches(init, n, run, s)
    ensures var cs := Commits(s.history);
            && (if cs == [] then s.cell else cs[0].ret) == init
            && forall k :: 0 <= k < |cs| ==> Does(cs[k].op, cs[k].ret, Left(cs, k, s.cell))
  {
    CommitsAreSequential(init, n, run, s);
    var cs := Commits(s.history);
    forall k | 0 <= k < |cs| ensures Does(cs[k].op, cs[k].ret, Left(cs, k, s.cell)) {
      LeftIs(init, cs, k, s.cell);
      ApplyMeans(cs[k].op, cs[k].ret);
    }
    FirstFinds(init, cs, s.cell);
  }

  lemma FirstFinds(init: word, cs: seq<Commit>, cell: word)
    requires cell == Fold(init, cs) && forall i :: 0 <= i < |cs| ==> cs[i].ret == Fold(init, cs[..i])
    ensures (if cs == [] then cell else cs[0].ret) == init
  {
    assert cs[..0] == [];
  }

  lemma LeftIs(init: word, cs: seq<Commit>, k: nat, cell: word)
    requires k < |cs| && cell == Fold(init, cs) && forall i :: 0 <= i < |cs| ==> cs[i].ret == Fold(init, cs[..i])
    ensures Left(cs, k, cell) == Apply(cs[k].op, cs[k].ret)
  {
    assert cs[..k + 1][..k] == cs[..k] && cs[..|cs|] == cs;
  }

  lemma {:induction false} NotBrokenBefore(h: seq<Event>, i: nat, t: nat)
    requires i <= |h| && PhaseOf(h, t) != Broken
    ensures PhaseOf(h[..i], t) != Broken
    decreases |h|
  {
    if i == |h| {
      assert h[..i] == h;
    } else {
      assert h[..|h| - 1][..i] == h[..i];
      NotBrokenBefore(h[..|h| - 1], i, t);
    }
  }

  lemma {:induction false} FindInvocation(h: seq<Event>, t: nat, op: Op) returns (v: nat)
    requires PhaseOf(h, t) == Called(op)
    ensures v < |h| && h[v] == Invoked(t, op) && forall j :: v < j < |h| ==> h[j].Tid() != t
    decreases |h|
  {
    if h[|h| - 1].Tid() == t {
      v := |h| - 1;
    } else {
      v := FindInvocation(h[..|h| - 1], t, op);
    }
  }

  lemma {:induction false} FindCommit(h: seq<Event>, t: nat, op: Op, ret: word) returns (v: nat, c: nat)
    requires PhaseOf(h, t) == Answered(op, ret)
    ensures v < c < |h| && h[v] == Invoked(t, op) && h[c] == Committed(Commit(t, op, ret))
    ensures forall j :: v < j < |h| && j != c ==> h[j].Tid() != t
    decreases |h|
  {
    if h[|h| - 1].Tid() == t {
      c := |h| - 1;
      v := FindInvocation(h[..|h| - 1], t, op);
    } else {
      v, c := FindCommit(h[..|h| - 1], t, op, ret);
    }
  }

  /** The event at i returns the call that was invoked at v and committed at c, and its thread did
      nothing else in between. */
  ghost predicate IsCall(h: seq<Event>, v: nat, c: nat, i: nat) {
    && v < c < i < |h| && h[i].Returned?
    && h[v] == Invoked(h[i].tid, h[i].op)
    && h[c] == Committed(Commit(h[i].tid, h[i].op, h[i].ret))
    && forall j :: v < j < i && j != c ==> h[j].Tid() != h[i].tid
  }

  /** A returned call has one invocation and one commit. */
  lemma CallUnique(h: seq<Event>, v: nat, c: nat, v': nat, c': nat, i: nat)
    requires IsCall(h, v, c, i) && IsCall(h, v', c', i)
    ensures v == v' && c == c'
  {
    assert h[v].Tid() == h[v'].Tid() == h[c].Tid() == h[c'].Tid() == h[i].tid;
  }

  lemma FindCall(h: seq<Event>, i: nat) returns (v: nat, c: nat)
    requires i < |h| && h[i].Returned? && PhaseOf(h, h[i].tid) != Broken
    ensures IsCall(h, v, c, i)
  {
    var r := h[i];
    NotBrokenBefore(h, i + 1, r.tid);
    assert h[..i + 1][..i] == h[..i];
    v, c := FindCommit(h[..i], r.tid, r.op, r.ret);
  }

  /** The commit at c belongs to the call invoked at v: its thread did nothing in between. */
  ghost predicate CommitOf(h: seq<Event>, v: nat, c: nat) {
    && v < c < |h| && h[c].Committed?
    && h[v] == Invoked(h[c].commit.tid, h[c].commit.op)
    && forall j :: v < j < c ==> h[j].Tid() != h[c].commit.tid
  }

  /** A commit belongs to one call, and a call has at most one commit. */
  lemma CommitOfUnique(h: seq<Event>, v: nat, c: nat, v': nat, c': nat)
    requires CommitOf(h, v, c) && CommitOf(h, v', c')
    ensures v == v' <==> c == c'
  {
    assert h[v].Tid() == h[c].Tid() && h[v'].Tid() == h[c'].Tid();
  }

  lemma FindCaller(h: seq<Event>, c: nat) returns (v: nat)
    requires c < |h| && h[c].Committed? && PhaseOf(h, h[c].commit.tid) != Broken
    ensures CommitOf(h, v, c)
  {
    var commit := h[c].commit;
    NotBrokenBefore(h, c + 1, commit.tid);
    assert h[..c + 1][..c] == h[..c];
    v := FindInvocation(h[..c], commit.tid, commit.op);
  }

  lemma NeverBroken(s: State, t: nat)
    requires Orderly(s) && t < |s.pcs|
    ensures PhaseOf(s.history, t) != Broken
  {
    assert PhaseOf(s.history, t) == PhaseOfPc(s.pcs[t]);
  }

  /** The place in the sequential order of the commit at c of the history. */
  function Place(h: seq<Event>, c: nat): nat
    requires c <= |h|
  {
    |Commits(h[..c])|
  }

  /** The commits before c are the first so many, and the commit at c comes next. */
  lemma {:induction false} CommitPlace(h: seq<Event>, c: nat)
    requires c <= |h|
    ensures Place(h, c) <= |Commits(h)| && Commits(h[..c]) == Commits(h)[..Place(h, c)]
    ensures c < |h| && h[c].Committed? ==> Place(h, c) < |Commits(h)| && Commits(h)[Place(h, c)] == h[c].commit
    decreases |h|
  {
    if c == |h| {
      assert h[..c] == h;
    } else {
      assert h[..|h| - 1][..c] == h[..c];
      CommitPlace(h[..|h| - 1], c);
    }
  }

  /** The commit at c of the history stands at its place in the sequential order and answers with the
      cell that the commits before that place leave. */
  ghost predicate InOrder(init: word, h: seq<Event>, c: nat) {
    && c < |h| && h[c].Committed? && Place(h, c) < |Commits(h)|
    && Commits(h)[Place(h, c)] == h[c].commit
    && h[c].commit.ret == Fold(init, Commits(h)[..Place(h, c)])
  }

  /** Each returned call took effect exactly once, between its invocation and its return, and the
      answer it returned is the cell left by the commits before its own. */
  lemma CallTakesEffectOnce(init: word, n: nat, run: seq<(nat, Action)>, s: State, i: nat) returns (v: nat, c: nat)
    requires Reaches(init, n, run, s) && i < |s.history| && s.history[i].Returned?
    ensures IsCall(s.history, v, c, i)
    ensures forall v', c' :: IsCall(s.history, v', c', i) ==> v' == v && c' == c
    ensures InOrder(init, s.history, c)
  {
    RunKeeps(init, n, run, s);
    var h := s.history;
    assert h[i].Tid() == h[i].tid;
    NeverBroken(s, h[i].tid);
    v, c := FindCall(h, i);
    forall v', c' | IsCall(h, v', c', i) ensures v' == v && c' == c {
      CallUnique(h, v, c, v', c', i);
    }
    CommitPlace(h, c);
  }

  /** Real-time order: when one call starts after another has returned, its own commit comes later in
      the sequential order. */
  lemma RealTimeOrder(h: seq<Event>, v: nat, c: nat, i: nat, v': nat, c': nat, i': nat)
    requires IsCall(h, v, c, i) && IsCall(h, v', c', i') && i < v'
    ensures Place(h, c) < Place(h, c') < |Commits(h)|
    ensures Commits(h)[Place(h, c)] == h[c].commit && Commits(h)[Place(h, c')] == h[c'].commit
  {
    assert h[..c'][..c] == h[..c];
    CommitPlace(h[..c'], c);
    CommitPlace(h, c);
    CommitPlace(h, c');
  }

  /** Nothing takes effect that was not called, and no call takes effect twice. */
  lemma CommitsAreCalled(init: word, n: nat, run: seq<(nat, Action)>, s: State)
    requires Reaches(init, n, run, s)
    ensures forall c :: 0 <= c < |s.history| && s.history[c].Committed? ==> exists v :: CommitOf(s.history, v, c)
    ensures forall v, c, v', c' :: CommitOf(s.history, v, c) && CommitOf(s.history, v', c') ==> (v == v' <==> c == c')
  {
    RunKeeps(init, n, run, s);
    var h := s.history;
    forall c | 0 <= c < |h| && h[c].Committed? ensures exists v :: CommitOf(h, v, c) {
      assert h[c].Tid() == h[c].commit.tid;
      NeverBroken(s, h[c].commit.tid);
      var v := FindCaller(h, c);
    }
    forall v, c, v', c' | CommitOf(h, v, c) && CommitOf(h, v', c') ensures v == v' <==> c == c' {
      CommitOfUnique(h, v, c, v', c');
    }
  }

  /** Linearizability, over every interleaving: the cell is all commits done one after another;
      every commit carries out an operation that was called, and no call has two; every returned call
      has a commit of its own whose place in that order explains its answer; and when one call starts
      after another has returned, its own commit has a later place. */
  lemma Linearizable(init: word, n: nat, run: seq<(nat, Action)>, s: State)
    requires Reaches(init, n, run, s)
    ensures s.cell == Fold(init, Commits(s.history))
    ensures forall c :: 0 <= c < |s.history| && s.history[c].Committed? ==> exists v :: CommitOf(s.history, v, c)
    ensures forall v, c, v', c' :: CommitOf(s.history, v, c) && CommitOf(s.history, v', c') ==> (v == v' <==> c == c')
    ensures forall i :: 0 <= i < |s.history| && s.history[i].Returned? ==>
              exists v, c :: IsCall(s.history, v, c, i) && CommitOf(s.history, v, c) && InOrder(init, s.history, c)
    ensures forall v, c, i, v', c', i' :: IsCall(s.history, v, c, i) && IsCall(s.history, v', c', i') && i < v' ==>
              Place(s.history, c) < Place(s.history, c')
  {
    CommitsAreSequential(init, n, run, s);
    CommitsAreCalled(init, n, run, s);
    var h := s.history;
    forall i | 0 <= i < |h| && h[i].Returned?
      ensures exists v, c :: IsCall(h, v, c, i) && CommitOf(h, v, c) && InOrder(init, h, c)
    {
      var v, c := CallTakesEffectOnce(init, n, run, s, i);
      assert CommitOf(h, v, c);
    }
    forall v, c, i, v', c', i' | IsCall(h, v, c, i) && IsCall(h, v', c', i') && i < v'
      ensures Place(h, c) < Place(h, c')
    {
      RealTimeOrder(h, v, c, i, v', c', i');
    }
  }

  function Sum(cs: seq<Commit>): nat {
    if cs == [] then 0
    else Sum(cs[..|cs| - 1]) + if cs[|cs| - 1].op.Add? then cs[|cs| - 1].op.v else 0
  }

  lemma {:induction false} FoldOfAdds(init: word, cs: seq<Commit>)
    requires forall i :: 0 <= i < |cs| ==> cs[i].op.Add?
    ensures Fold(init, cs) == (init + Sum(cs)) % WORD_BASE
  {
    if cs != [] {
      FoldOfAdds(init, cs[..|cs| - 1]);
      WrapLate(init + Sum(cs[..|cs| - 1]), cs[|cs| - 1].op.v);
    }
  }

  lemma WrapLate(a: int, b: int)
    ensures (a % WORD_BASE + b) % WORD_BASE == (a + b) % WORD_BASE
  {
  }

  /** When every thread only adds, no increment is lost or applied twice: the cell is the initial
      value plus all committed increments, modulo the word. */
  lemma NoIncrementLost(init: word, n: nat, run: seq<(nat, Action)>, s: State)
    requires Reaches(init, n, run, s)
    requires forall i :: 0 <= i < |Commits(s.history)| ==> Commits(s.history)[i].op.Add?
    ensures s.cell == (init + Sum(Commits(s.history))) % WORD_BASE
  {
    CommitsAreSequential(init, n, run, s);
    FoldOfAdds(init, Commits(s.history));
  }

  // ---------------------------------------------------------------- lock freedom

  /** A thread is told to try again only when another thread has committed since it read, even
      though the ARM helper may refuse for no reason. */
  lemma FailureMeansProgress(init: word, n: nat, run: seq<(nat, Action)>, s: State, t: nat, a: Action)
    requires Reaches(init, n, run, s) && Enabled(s, t, a)
    requires Step(s, t, a).failures[t] != s.failures[t]
    ensures s.seen[t] < |s.log| && forall i :: s.seen[t] <= i < |s.log| ==> s.log[i].tid != t
  {
    RunKeeps(init, n, run, s);
    FailurePaid(s, init, n, t);
  }

  function Total(failures: seq<nat>): nat {
    if failures == [] then 0 else Total(failures[..|failures| - 1]) + failures[|failures| - 1]
  }

  /** The commits by others, summed over the first n threads. */
  function OthersOfAll(cs: seq<Commit>, n: nat): nat {
    if n == 0 then 0 else OthersOfAll(cs, n - 1) + Others(cs, n - 1)
  }

  lemma {:induction false} OneMoreCommit(cs: seq<Commit>, n: nat)
    requires cs != []
    ensures OthersOfAll(cs, n) ==
            OthersOfAll(cs[..|cs| - 1], n) + if cs[|cs| - 1].tid < n then n - 1 else n
  {
    if n > 0 {
      OneMoreCommit(cs, n - 1);
    }
  }

  lemma {:induction false} OthersOfAllIs(cs: seq<Commit>, n: nat)
    requires forall i :: 0 <= i < |cs| ==> cs[i].tid < n
    ensures OthersOfAll(cs, n) == (n - 1) * |cs|
    decreases |cs|
  {
    if cs == [] {
      NoCommits(n);
    } else {
      OneMoreCommit(cs, n);
      OthersOfAllIs(cs[..|cs| - 1], n);
    }
  }

  lemma {:induction false} NoCommits(n: nat)
    ensures OthersOfAll([], n) == 0
  {
    if n > 0 {
      NoCommits(n - 1);
    }
  }

  lemma {:induction false} TotalBound(failures: seq<nat>, cs: seq<Commit>)
    requires forall t :: 0 <= t < |failures| ==> failures[t] <= Others(cs, t)
    ensures Total(failures) <= OthersOfAll(cs, |failures|)
  {
    if failures != [] {
      TotalBound(failures[..|failures| - 1], cs);
    }
  }

  /** Over any run of n threads, one thread's failures are at most the commits of the others, and
      all failures together at most n - 1 per commit. */
  lemma FailureBound(init: word, n: nat, run: seq<(nat, Action)>, s: State)
    requires Reaches(init, n, run, s)
    ensures |s.failures| == n && forall t :: 0 <= t < n ==> s.failures[t] <= Others(Commits(s.history), t)
    ensures Total(s.failures) <= (n - 1) * |Commits(s.history)|
  {
    RunKeeps(init, n, run, s);
    forall t | 0 <= t < n ensures s.failures[t] <= Others(s.log, t) {
      assert ThreadOk(init, t, s.pcs[t], s.failures[t], s.seen[t], s.log);
    }
    TotalBound(s.failures, s.log);
    OthersOfAllIs(s.log, n);
  }
}
