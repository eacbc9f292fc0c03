/** The triple buffer that hands values from one producer to one consumer:
    three slots, the slot the consumer has locked, the slot holding the
    most recent value and the slot being written. Modelled sequentially:
    every operation of either side is one step. */
module TripleBuffer {
  import opened Wrappers

  datatype TB<V> = TB(buffer: seq<V>, locked: int, recent: int, next: Option<int>)

  predicate IsSlot(i: int)
  {
    0 <= i < 3
  }

  /** All indices stay in {0, 1, 2}. */
  ghost predicate Valid<V>(tb: TB<V>)
  {
    |tb.buffer| == 3 && IsSlot(tb.locked) && IsSlot(tb.recent) && (tb.next.Some? ==> IsSlot(tb.next.value))
  }

  /** The constructor: the locked and the most recent slot are both 0; the
      slot being written is not set yet. The slot contents are whatever the
      value type's default construction gives. */
  function Create<V(!new)>(initial: seq<V>): (tb: TB<V>)
    requires |initial| == 3
    ensures Valid(tb) && !HasNewValue(tb) && tb.next.None?
    ensures GetLockedValue(tb) == initial[0]
  {
    TB(initial, 0, 0, None)
  }

  /** The slot the producer writes next: the one after the locked slot,
      skipping the most recent one. */
  function FreeSlot(locked: int, recent: int): (n: int)
    requires IsSlot(locked) && IsSlot(recent)
    ensures IsSlot(n) && n != locked && n != recent
  {
    var n := (locked + 1) % 3;
    if n == recent then (n + 1) % 3 else n
  }

  /** startNewValue: chooses the free slot; the producer then writes into it
      through the returned index. */
  function StartNewValue<V>(tb: TB<V>): (r: (TB<V>, int))
    requires Valid(tb)
    ensures Valid(r.0) && r.0.next == Some(r.1)
    ensures r.1 != tb.locked && r.1 != tb.recent
    ensures r.0.buffer == tb.buffer && r.0.locked == tb.locked && r.0.recent == tb.recent
  {
    var n := FreeSlot(tb.locked, tb.recent);
    (tb.(next := Some(n)), n)
  }

  /** The producer's write through the reference startNewValue returned. */
  function WriteSlot<V>(tb: TB<V>, v: V): (r: TB<V>)
    requires Valid(tb) && tb.next.Some?
    ensures Valid(r)
    ensures r.buffer[tb.next.value] == v
    ensures forall i :: 0 <= i < 3 && i != tb.next.value ==> r.buffer[i] == tb.buffer[i]
    ensures r.locked == tb.locked && r.recent == tb.recent && r.next == tb.next
  {
    tb.(buffer := tb.buffer[tb.next.value := v])
  }

  /** postNewValue(): publishes the slot just written. The slot index is
      uninitialised until startNewValue has run. */
  function PostNewValue<V(!new)>(tb: TB<V>): (r: TB<V>)
    requires Valid(tb) && tb.next.Some?
    ensures Valid(r) && r.recent == tb.next.value
    ensures r.buffer == tb.buffer && r.locked == tb.locked && r.next == tb.next
    ensures tb.next.value != tb.locked ==> HasNewValue(r)
  {
    tb.(recent := tb.next.value)
  }

  /** postNewValue(v): chooses the free slot, writes v there and publishes it. */
  function PostValue<V(!new)>(tb: TB<V>, v: V): (r: TB<V>)
    requires Valid(tb)
    ensures Valid(r) && r.next == Some(r.recent)
    ensures r.recent != tb.locked && r.recent != tb.recent
    ensures r.buffer[r.recent] == v
    ensures r.buffer[tb.locked] == tb.buffer[tb.locked] && r.buffer[tb.recent] == tb.buffer[tb.recent]
    ensures r.locked == tb.locked
    ensures HasNewValue(r)
  {
    var n := FreeSlot(tb.locked, tb.recent);
    tb.(buffer := tb.buffer[n := v], recent := n, next := Some(n))
  }

  /** hasNewValue: whether the most recent value has not been locked yet,
      which is the new-value flag of any slot-free buffer the slots
      represent. */
  function HasNewValue<V(!new)>(tb: TB<V>): (b: bool)
    ensures forall a: Abstract<V>, open: bool, written: bool ::
      Represents(tb, a, open, written) ==> (b <==> a.isNew)
  {
    tb.recent != tb.locked
  }

  /** lockNewValue: locks the most recent slot and reports whether it was new. */
  function LockNewValue<V(!new)>(tb: TB<V>): (r: (TB<V>, bool))
    requires Valid(tb)
    ensures Valid(r.0) && r.1 == HasNewValue(tb) && !HasNewValue(r.0)
    ensures r.0.locked == tb.recent
    ensures r.0.buffer == tb.buffer && r.0.recent == tb.recent && r.0.next == tb.next
    ensures GetLockedValue(r.0) == tb.buffer[tb.recent]
  {
    (tb.(locked := tb.recent), tb.recent != tb.locked)
  }

  /** getLockedValue: the consumer's value, that of any slot-free buffer
      the slots represent. */
  function GetLockedValue<V(!new)>(tb: TB<V>): (v: V)
    requires Valid(tb)
    ensures forall a: Abstract<V>, open: bool, written: bool ::
      Represents(tb, a, open, written) ==> v == a.lockedValue
  {
    tb.buffer[tb.locked]
  }

  /** Locking twice without a post in between: the second call reports
      nothing new and keeps the locked value. */
  lemma LockTwice<V(!new)>(tb: TB<V>)
    requires Valid(tb)
    ensures var t1 := LockNewValue(tb).0;
      var r2 := LockNewValue(t1);
      !r2.1 && GetLockedValue(r2.0) == GetLockedValue(t1)
  {
  }

  /** Pushing v and then locking makes v the locked value. */
  lemma PostThenLock<V(!new)>(tb: TB<V>, v: V)
    requires Valid(tb)
    ensures var r := LockNewValue(PostValue(tb, v));
      r.1 && GetLockedValue(r.0) == v
  {
  }

  /* ---------------------------------------------------------------- */
  /* Interleavings                                                      */
  /* ---------------------------------------------------------------- */

  /** Producer and consumer operations; Write stands for the producer
      filling the slot startNewValue handed out. */
  datatype Op<V> = Lock | Start | Write(v: V) | Post | Push(v: V)

  /** The producer's protocol: writes and postNewValue() only after a
      startNewValue, postNewValue() only after at least one write, and no
      write after the post. `open` says a slot is handed out, `written`
      that it has been filled. */
  ghost predicate Protocol<V>(ops: seq<Op<V>>, open: bool, written: bool)
    decreases |ops|
  {
    if |ops| == 0 then true
    else match ops[0]
      case Lock => Protocol(ops[1..], open, written)
      case Start => Protocol(ops[1..], true, false)
      case Write(_) => open && Protocol(ops[1..], true, true)
      case Post => open && written && Protocol(ops[1..], false, false)
      case Push(_) => Protocol(ops[1..], false, false)
  }

  /** The producer's phase after one step: whether a slot is handed out and
      whether it has been filled. */
  function NextPhase<V>(op: Op<V>, open: bool, written: bool): (bool, bool)
  {
    match op
    case Lock => (open, written)
    case Start => (true, false)
    case Write(_) => (true, true)
    case Post => (false, false)
    case Push(_) => (false, false)
  }

  function Apply<V(!new)>(tb: TB<V>, op: Op<V>): (r: TB<V>)
    requires Valid(tb) && (op.Write? || op.Post? ==> tb.next.Some?)
    ensures Valid(r)
  {
    match op
    case Lock => LockNewValue(tb).0
    case Start => StartNewValue(tb).0
    case Write(v) => WriteSlot(tb, v)
    case Post => PostNewValue(tb)
    case Push(v) => PostValue(tb, v)
  }

  /** The intended behaviour, without slots: the consumer's value, the
      latest published value, whether it is new, and the value being
      prepared. */
  datatype Abstract<V> = Abstract(lockedValue: V, latest: V, isNew: bool, pending: Option<V>)

  function AbstractApply<V>(a: Abstract<V>, op: Op<V>): Abstract<V>
  {
    match op
    case Lock => a.(lockedValue := a.latest, isNew := false)
    case Start => a.(pending := None)
    case Write(v) => a.(pending := Some(v))
    case Post => if a.pending.Some? then a.(latest := a.pending.value, isNew := true, pending := None) else a
    case Push(v) => a.(latest := v, isNew := true, pending := None)
  }

  /** The slots represent the abstract state: the locked slot holds the
      consumer's value, the recent slot the latest value, and a handed-out
      slot is neither of them and holds what was written to it. */
  ghost predicate Represents<V>(tb: TB<V>, a: Abstract<V>, open: bool, written: bool)
  {
    && Valid(tb)
    && tb.buffer[tb.locked] == a.lockedValue
    && tb.buffer[tb.recent] == a.latest
    && (tb.recent != tb.locked <==> a.isNew)
    && (open ==> tb.next.Some? && tb.next.value != tb.locked && tb.next.value != tb.recent)
    && (written <==> a.pending.Some?)
    && (open && written ==> tb.buffer[tb.next.value] == a.pending.value)
  }

  function Run<V(!new)>(tb: TB<V>, ops: seq<Op<V>>, open: bool, written: bool): (r: TB<V>)
    requires Valid(tb) && Protocol(ops, open, written)
    requires open ==> tb.next.Some?
    ensures Valid(r)
    decreases |ops|
  {
    if |ops| == 0 then tb
    else
      var op := ops[0];
      var t := Apply(tb, op);
      match op
      case Lock => Run(t, ops[1..], open, written)
      case Start => Run(t, ops[1..], true, false)
      case Write(_) => Run(t, ops[1..], true, true)
      case Post => Run(t, ops[1..], false, false)
      case Push(_) => Run(t, ops[1..], false, false)
  }

  function AbstractRun<V>(a: Abstract<V>, ops: seq<Op<V>>): Abstract<V>
    decreases |ops|
  {
    if |ops| == 0 then a else AbstractRun(AbstractApply(a, ops[0]), ops[1..])
  }

  /** One step keeps the representation. */
  lemma StepRepresents<V(!new)>(tb: TB<V>, a: Abstract<V>, op: Op<V>, open: bool, written: bool)
    requires Represents(tb, a, open, written)
    requires match op
      case Lock => true
      case Start => true
      case Write(_) => open
      case Post => open && written
      case Push(_) => true
    ensures var ow := NextPhase(op, open, written);
      Represents(Apply(tb, op), AbstractApply(a, op), ow.0, ow.1)
  {
  }

  /** Under the producer's protocol, any interleaving of producer and
      consumer steps behaves like the abstract buffer: the consumer reads
      the value it last locked, locking yields the latest published value,
      and the new-value flag is exact. */
  lemma {:induction false} RunRefinesAbstract<V(!new)>(tb: TB<V>, a: Abstract<V>, ops: seq<Op<V>>, open: bool, written: bool)
    requires Represents(tb, a, open, written) && Protocol(ops, open, written)
    ensures var r := Run(tb, ops, open, written);
      var b := AbstractRun(a, ops);
      && GetLockedValue(r) == b.lockedValue
      && r.buffer[r.recent] == b.latest
      && (HasNewValue(r) <==> b.isNew)
    decreases |ops|
  {
    if |ops| > 0 {
      var op := ops[0];
      StepRepresents(tb, a, op, open, written);
      var t := Apply(tb, op);
      var a1 := AbstractApply(a, op);
      match op
      case Lock => RunRefinesAbstract(t, a1, ops[1..], open, written);
      case Start => RunRefinesAbstract(t, a1, ops[1..], true, false);
      case Write(_) => RunRefinesAbstract(t, a1, ops[1..], true, true);
      case Post => RunRefinesAbstract(t, a1, ops[1..], false, false);
      case Push(_) => RunRefinesAbstract(t, a1, ops[1..], false, false);
    }
  }

  /** From construction: the locked value stays the initial slot-0 value
      until the first lock after a publication. */
  lemma CreateRepresents<V(!new)>(initial: seq<V>)
    requires |initial| == 3
    ensures Represents(Create(initial), Abstract(initial[0], initial[0], false, None), false, false)
  {
  }
}
