/** cutils/atomic-arm.h: the retry loops themselves, run by one thread against an environment that
    acts on the cell between any two of its accesses. */
module AtomicLoops {
  import opened Limbs
  import opened Atomics

  /** The shared word, with the operations performed on it so far, whoever performed them. */
  class Cell {
    var value: word
    const init: word
    ghost var log: seq<Commit>

    constructor (v: word)
      ensures value == init == v && log == [] && Valid()
    {
      value, init, log := v, v, [];
    }

    ghost predicate Valid()
      reads this
    {
      value == Fold(init, log)
    }

    /** One atomic operation: the new value goes in. */
    method Store(newValue: word, ghost c: Commit)
      requires Valid() && c.ret == value && newValue == Apply(c.op, c.ret)
      modifies this
      ensures Valid() && value == newValue && log == old(log) + [c]
    {
      value := newValue;
      log := log + [c];
      assert log[..|log| - 1] == old(log);
    }
  }

  /** What happens between two accesses: operations of other threads, and whether the kernel helper
      refuses the next swap for no reason. */
  datatype Turn = Turn(ops: seq<Op>, refuse: bool)

  /** The rest of the world; its turns run out. */
  class World {
    var turns: seq<Turn>
    const self: nat

    constructor (me: nat, t: seq<Turn>)
      ensures self == me && turns == t
    {
      self, turns := me, t;
    }

    method Interfere(ptr: Cell) returns (refuse: bool)
      requires ptr.Valid()
      modifies this, ptr
      ensures ptr.Valid() && old(ptr.log) <= ptr.log && NoneBy(ptr.log, |old(ptr.log)|, self)
      ensures |ptr.log| == |old(ptr.log)| ==> ptr.value == old(ptr.value)
      ensures if old(turns) == [] then !refuse && turns == [] && |ptr.log| == |old(ptr.log)|
              else turns == old(turns)[1..]
    {
      if turns == [] {
        return false;
      }
      var ops := turns[0].ops;
      refuse := turns[0].refuse;
      turns := turns[1..];
      for i := 0 to |ops|
        invariant ptr.Valid() && old(ptr.log) <= ptr.log && NoneBy(ptr.log, |old(ptr.log)|, self)
        invariant turns == old(turns)[1..] && |ptr.log| == |old(ptr.log)| + i
        invariant i == 0 ==> ptr.value == old(ptr.value)
      {
        ptr.Store(Apply(ops[i], ptr.value), Commit(self + 1, ops[i], ptr.value));
      }
    }
  }

  /** Any new value is some operation on the old one, so naming the operation is no restriction. */
  lemma SomeOperation(oldValue: word, newValue: word)
    ensures exists op :: newValue == Apply(op, oldValue)
  {
    var difference: int := newValue - oldValue;
    assert newValue == Apply(Add(difference % WORD_BASE), oldValue);
  }

  /** android_atomic_cas on ARM without load-linked. The ghost op names the step from oldValue to
      newValue in the log; by SomeOperation there always is one. A refusal is retried as long as the
      cell still holds the old value; failure is reported only after another value was seen there. */
  method AtomicCas(oldValue: word, newValue: word, ghost op: Op, ptr: Cell, world: World) returns (status: int)
    requires ptr.Valid() && newValue == Apply(op, oldValue)
    modifies ptr, world
    ensures ptr.Valid() && old(ptr.log) <= ptr.log && |world.turns| <= |old(world.turns)|
    ensures status == 0 || status == 1
    ensures status == 0 ==> Owned(ptr.init, ptr.log, |old(ptr.log)|, Commit(world.self, op, oldValue))
    ensures status == 1 ==> NoneBy(ptr.log, |old(ptr.log)|, world.self)
    ensures status == 1 && old(ptr.value) == oldValue ==>
              |ptr.log| > |old(ptr.log)| && |world.turns| < |old(world.turns)|
  {
    var prev := ptr.value;
    while true
      invariant ptr.Valid() && old(ptr.log) <= ptr.log && |world.turns| <= |old(world.turns)|
      invariant NoneBy(ptr.log, |old(ptr.log)|, world.self)
      invariant |ptr.log| > |old(ptr.log)| ==> |world.turns| < |old(world.turns)|
      invariant |ptr.log| == |old(ptr.log)| ==> ptr.value == old(ptr.value)
      decreases |world.turns|
    {
      var refuse := world.Interfere(ptr);
      if !refuse && ptr.value == oldValue {
        ghost var before := ptr.log;
        assert oldValue == Fold(ptr.init, before);
        ptr.Store(newValue, Commit(world.self, op, oldValue));
        assert ptr.log[..|ptr.log| - 1] == before && NoneBy(before, |old(ptr.log)|, world.self);
        return 0;
      }
      refuse := world.Interfere(ptr);
      prev := ptr.value;
      if prev != oldValue {
        return 1;
      }
    }
  }

  /** The log ends with c, answered with the fold before it, and c's thread did nothing else since
      the first k commits. */
  ghost predicate Owned(init: word, log: seq<Commit>, k: nat, c: Commit) {
    && k < |log| && log[|log| - 1] == c
    && c.ret == Fold(init, log[..|log| - 1])
    && NoneBy(log[..|log| - 1], k, c.tid)
  }

  /** android_atomic_add, _and and _or: whatever the others do, the operation takes effect exactly
      once, last among what happened meanwhile, and returns the value it was applied to. Every
      failed attempt is paid for by another thread's commit. */
  method AtomicUpdate(op: Op, ptr: Cell, world: World) returns (prev: word, ghost failures: nat)
    requires ptr.Valid()
    modifies ptr, world
    ensures ptr.Valid() && old(ptr.log) <= ptr.log && ptr.value == Apply(op, prev)
    ensures Does(op, prev, ptr.value)
    ensures Owned(ptr.init, ptr.log, |old(ptr.log)|, Commit(world.self, op, prev))
    ensures failures <= |ptr.log| - |old(ptr.log)| - 1
  {
    failures := 0;
    prev := ptr.value;
    var status := 1;
    while status != 0
      invariant ptr.Valid() && old(ptr.log) <= ptr.log
      invariant status == 0 || status == 1
      invariant status == 1 ==> NoneBy(ptr.log, |old(ptr.log)|, world.self) && failures <= |ptr.log| - |old(ptr.log)|
      invariant status == 0 ==>
                  && Owned(ptr.init, ptr.log, |old(ptr.log)|, Commit(world.self, op, prev))
                  && failures <= |ptr.log| - |old(ptr.log)| - 1
      decreases |world.turns|, status
    {
      var refuse := world.Interfere(ptr);
      prev := ptr.value;
      status := AtomicCas(prev, Apply(op, prev), op, ptr, world);
      failures := failures + if status != 0 then 1 else 0;
    }
    ApplyMeans(op, prev);
  }
}
