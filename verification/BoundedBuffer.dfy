/** Producers and consumers that share two semaphores: `full` starting at 0 and
    `empty` starting at N. */
module BoundedBuffer {
  import opened Machine
  import opened Locking
  import opened Wrappers

  const FULL: Sem := 0
  const EMPTY: Sem := 1
  const PRODUCE: nat := 0
  const CONSUME: nat := 1

  /** Where a thread stands in its loop. */
  datatype Phase = Idle | MayProduce | HasProduced | MayConsume | HasConsumed

  /** One event in a thread's life; None if the loop does not allow it here. */
  function StepPhase(p: Phase, e: Event): Option<Phase> {
    match e
    case Waited(_, sem) =>
      if sem == EMPTY then (if p == Idle then Some(MayProduce) else None)
      else if sem == FULL then (if p == Idle then Some(MayConsume) else None)
      else Some(p)
    case Mark(_, tag) =>
      if tag == PRODUCE then (if p == MayProduce then Some(HasProduced) else None)
      else if tag == CONSUME then (if p == MayConsume then Some(HasConsumed) else None)
      else Some(p)
    case Signalled(_, sem) =>
      if sem == FULL then (if p == HasProduced then Some(Idle) else None)
      else if sem == EMPTY then (if p == HasConsumed then Some(Idle) else None)
      else Some(p)
  }

  function PhaseOf(phases: map<Tid, Phase>, t: Tid): Phase {
    if t in phases then phases[t] else Idle
  }

  /** Every thread follows its loop: the phases after the log, if it does. */
  function Phases(log: seq<Event>): Option<map<Tid, Phase>> {
    if log == [] then Some(map[]) else
      match Phases(log[..|log| - 1])
      case None => None
      case Some(phases) =>
        var e := log[|log| - 1];
        match StepPhase(PhaseOf(phases, e.tid), e)
        case None => None
        case Some(p) => Some(phases[e.tid := p])
  }

  function Marks(log: seq<Event>, tag: nat): nat {
    if log == [] then 0 else
      Marks(log[..|log| - 1], tag) + (if log[|log| - 1].Mark? && log[|log| - 1].tag == tag then 1 else 0)
  }

  ghost function In(phases: map<Tid, Phase>, p: Phase): set<Tid> {
    set t | t in phases && phases[t] == p
  }

  lemma InUpdate(phases: map<Tid, Phase>, t: Tid, p: Phase, q: Phase)
    requires q != Idle
    ensures |In(phases[t := p], q)| == |In(phases, q)|
      + (if p == q then 1 else 0) - (if PhaseOf(phases, t) == q then 1 else 0)
  {
    var before, after := In(phases, q), In(phases[t := p], q);
    if p == q {
      assert after == before + {t};
    } else {
      assert after == before - {t};
    }
  }

  /** Threads between two events of their loop account for the differences of the counts. */
  lemma {:induction false} CountsByPhase(log: seq<Event>)
    requires Phases(log).Some?
    ensures var ph := Phases(log).value;
      && Waits(log, EMPTY) == Marks(log, PRODUCE) + |In(ph, MayProduce)|
      && Marks(log, PRODUCE) == Signals(log, FULL) + |In(ph, HasProduced)|
      && Waits(log, FULL) == Marks(log, CONSUME) + |In(ph, MayConsume)|
      && Marks(log, CONSUME) == Signals(log, EMPTY) + |In(ph, HasConsumed)|
  {
    if log == [] {
      assert forall q :: In(map[], q) == {};
    } else {
      var before := log[..|log| - 1];
      var e := log[|log| - 1];
      CountsByPhase(before);
      var ph := Phases(before).value;
      var p := StepPhase(PhaseOf(ph, e.tid), e).value;
      InUpdate(ph, e.tid, p, MayProduce);
      InUpdate(ph, e.tid, p, HasProduced);
      InUpdate(ph, e.tid, p, MayConsume);
      InUpdate(ph, e.tid, p, HasConsumed);
    }
  }

  /** In every interleaving the number of produced and not yet consumed items
      stays between 0 and N. */
  lemma BufferBounded(s0: State, moves: seq<Move>, n: nat)
    requires Start(s0) && Legal(s0, moves)
    requires FULL in s0.value && EMPTY in s0.value && s0.value[FULL] == 0 && s0.value[EMPTY] == n
    ensures Offered(s0, moves)
    ensures var log := Exec(s0, moves).log;
      Phases(log).Some? ==> 0 <= Marks(log, PRODUCE) - Marks(log, CONSUME) <= n
  {
    SemaphoreLaw(s0, moves, FULL);
    SemaphoreLaw(s0, moves, EMPTY);
    var log := Exec(s0, moves).log;
    if Phases(log).Some? { CountsByPhase(log); }
  }
}
