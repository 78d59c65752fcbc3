/** The concurrent read/write client: workers that share files and each seek to
    a fixed slot of their own, write a value, seek back and read it. */
module Workers {
  import opened Bits
  import opened FileSpec

  /** A worker's business with one file: its slot and the bytes it writes there. */
  datatype Agent = Agent(file: nat, slot: nat, value: seq<byte>)

  /** How far an agent has come in its loop body. */
  datatype Phase = ToSeek | ToWrite | ToSeekBack | ToRead

  /** An agent's private state: its handle, its phase, and whether it has ever written. */
  datatype Progress = Progress(handle: Handle, phase: Phase, wrote: bool)

  datatype World = World(files: seq<File>, progress: seq<Progress>)

  /** Slots of one file do not overlap, and hold something. */
  ghost predicate AgentsOk(agents: seq<Agent>, files: nat) {
    && (forall a :: 0 <= a < |agents| ==>
          agents[a].file < files && 0 < |agents[a].value|)
    && (forall a, b :: 0 <= a < |agents| && 0 <= b < |agents| && a != b && agents[a].file == agents[b].file ==>
          agents[a].slot + |agents[a].value| <= agents[b].slot || agents[b].slot + |agents[b].value| <= agents[a].slot)
  }

  /** The call an agent makes next. */
  function NextOp(a: Agent, phase: Phase): Op {
    match phase
    case ToSeek => Lseek(a.slot, SEEK_SET)
    case ToWrite => Write(a.value)
    case ToSeekBack => Lseek(-|a.value|, SEEK_CUR)
    case ToRead => Read(|a.value|)
  }

  function NextPhase(phase: Phase): Phase {
    match phase
    case ToSeek => ToWrite
    case ToWrite => ToSeekBack
    case ToSeekBack => ToRead
    case ToRead => ToSeek
  }

  predicate WorldOk(w: World, agents: seq<Agent>) {
    |w.progress| == |agents| && forall a :: 0 <= a < |agents| ==> agents[a].file < |w.files|
  }

  /** The outcome of agent a's next call; `memory` tells whether an allocation would succeed. */
  function Outcomes(w: World, agents: seq<Agent>, a: nat, memory: bool): Outcome
    requires WorldOk(w, agents) && a < |agents|
  {
    Apply(w.files[agents[a].file], w.progress[a].handle, NextOp(agents[a], w.progress[a].phase), memory)
  }

  /** One call of agent a. */
  function Turn(w: World, agents: seq<Agent>, a: nat, memory: bool): (w': World)
    requires WorldOk(w, agents) && a < |agents|
    ensures WorldOk(w', agents)
  {
    var o := Outcomes(w, agents, a, memory);
    var p := w.progress[a];
    World(w.files[agents[a].file := o.file],
          w.progress[a := Progress(o.handle, NextPhase(p.phase), p.wrote || p.phase == ToWrite)])
  }

  /** A schedule: who moves, and what the allocator would say. */
  type Schedule = seq<(nat, bool)>

  /** The allocator may refuse where it is not needed: a slot within a file's
      first 512 bytes never makes the file grow. */
  predicate Supplied(a: Agent, memory: bool) {
    memory || a.slot + |a.value| <= FIRST_CAPACITY
  }

  ghost predicate ScheduleOk(schedule: Schedule, agents: seq<Agent>) {
    forall i :: 0 <= i < |schedule| ==> schedule[i].0 < |agents| && Supplied(agents[schedule[i].0], schedule[i].1)
  }

  ghost function Play(w: World, agents: seq<Agent>, schedule: Schedule): (w': World)
    requires WorldOk(w, agents) && ScheduleOk(schedule, agents)
    ensures WorldOk(w', agents) && |w'.files| == |w.files|
    decreases |schedule|
  {
    if schedule == [] then w else Play(Turn(w, agents, schedule[0].0, schedule[0].1), agents, schedule[1..])
  }

  /** The bytes of the slot are the agent's value. */
  ghost predicate SlotHolds(f: File, a: Agent) {
    a.slot + |a.value| <= |f.content| && f.content[a.slot..a.slot + |a.value|] == a.value
  }

  /** The invariant of one agent. */
  ghost predicate AgentInv(f: File, a: Agent, p: Progress) {
    && BitAnd(p.handle.flags, O_RDONLY) != 0 && BitAnd(p.handle.flags, O_WRONLY) != 0
    && p.handle.offset <= |f.content|
    && (p.wrote ==> SlotHolds(f, a))
    && (p.phase == ToWrite ==> p.handle.offset == a.slot)
    && (p.phase == ToSeekBack ==> p.wrote && p.handle.offset == a.slot + |a.value|)
    && (p.phase == ToRead ==> p.wrote && p.handle.offset == a.slot)
  }

  ghost predicate Inv(w: World, agents: seq<Agent>) {
    && WorldOk(w, agents) && AgentsOk(agents, |w.files|)
    && (forall i :: 0 <= i < |w.files| ==> FileOk(w.files[i]))
    && (forall a :: 0 <= a < |agents| ==> AgentInv(w.files[agents[a].file], agents[a], w.progress[a]))
  }

  /** A fresh world: new files, every agent with its own read-write handle at 0. */
  ghost predicate Start(w: World, agents: seq<Agent>) {
    && WorldOk(w, agents) && AgentsOk(agents, |w.files|)
    && (forall i :: 0 <= i < |w.files| ==> w.files[i] == File([], FIRST_CAPACITY, 0))
    && (forall a :: 0 <= a < |agents| ==> w.progress[a] == Progress(Handle(0, 6), ToSeek, false))
  }

  /** An agent's own call keeps its invariant and does not fail. */
  lemma OwnTurn(f: File, a: Agent, p: Progress, memory: bool)
    requires FileOk(f) && AgentInv(f, a, p) && 0 < |a.value| && Supplied(a, memory)
    ensures var o := Apply(f, p.handle, NextOp(a, p.phase), memory);
      && FileOk(o.file) && o.ret != -1
      && AgentInv(o.file, a, Progress(o.handle, NextPhase(p.phase), p.wrote || p.phase == ToWrite))
      && (p.phase == ToRead ==> o.ret == |a.value| && o.data == a.value)
  {
  }

  /** A call on a disjoint slot leaves another agent's invariant alone. */
  lemma OtherTurn(f: File, a: Agent, p: Progress, b: Agent, q: Progress, memory: bool)
    requires FileOk(f) && AgentInv(f, a, p) && AgentInv(f, b, q)
    requires a.slot + |a.value| <= b.slot || b.slot + |b.value| <= a.slot
    ensures AgentInv(Apply(f, p.handle, NextOp(a, p.phase), memory).file, b, q)
  {
    var g := Apply(f, p.handle, NextOp(a, p.phase), memory).file;
    if q.wrote {
      assert |f.content| <= |g.content|;
      forall i | b.slot <= i < b.slot + |b.value| ensures g.content[i] == f.content[i] {}
    }
  }

  lemma TurnInv(w: World, agents: seq<Agent>, a: nat, memory: bool)
    requires Inv(w, agents) && a < |agents| && Supplied(agents[a], memory)
    ensures Inv(Turn(w, agents, a, memory), agents)
  {
    var w' := Turn(w, agents, a, memory);
    var f := w.files[agents[a].file];
    OwnTurn(f, agents[a], w.progress[a], memory);
    forall b | 0 <= b < |agents| && b != a
      ensures AgentInv(w'.files[agents[b].file], agents[b], w'.progress[b])
    {
      if agents[b].file == agents[a].file {
        OtherTurn(f, agents[a], w.progress[a], agents[b], w.progress[b], memory);
      }
    }
  }

  lemma {:induction false} PlayInv(w: World, agents: seq<Agent>, schedule: Schedule)
    requires Inv(w, agents) && ScheduleOk(schedule, agents)
    ensures Inv(Play(w, agents, schedule), agents)
    decreases |schedule|
  {
    if schedule != [] {
      TurnInv(w, agents, schedule[0].0, schedule[0].1);
      PlayInv(Turn(w, agents, schedule[0].0, schedule[0].1), agents, schedule[1..]);
    }
  }

  lemma StartInv(w: World, agents: seq<Agent>)
    requires Start(w, agents)
    ensures Inv(w, agents)
  {
  }

  /** Non-interference: after any schedule, whenever an agent is about to read,
      the read returns its full value, whatever the others have done. */
  lemma ReadsOwnValue(w: World, agents: seq<Agent>, schedule: Schedule, a: nat, memory: bool)
    requires Start(w, agents) && ScheduleOk(schedule, agents) && a < |agents|
    ensures var v := Play(w, agents, schedule);
      v.progress[a].phase == ToRead ==>
        var o := Outcomes(v, agents, a, memory);
        o.ret == |agents[a].value| && o.data == agents[a].value
  {
    StartInv(w, agents);
    PlayInv(w, agents, schedule);
    var v := Play(w, agents, schedule);
    OwnTurn(v.files[agents[a].file], agents[a], v.progress[a], true);
  }

  /** No call of any agent ever fails. */
  lemma NoCallFails(w: World, agents: seq<Agent>, schedule: Schedule, a: nat, memory: bool)
    requires Start(w, agents) && ScheduleOk(schedule, agents) && a < |agents| && Supplied(agents[a], memory)
    ensures Outcomes(Play(w, agents, schedule), agents, a, memory).ret != -1
  {
    StartInv(w, agents);
    PlayInv(w, agents, schedule);
    var v := Play(w, agents, schedule);
    OwnTurn(v.files[agents[a].file], agents[a], v.progress[a], memory);
  }

  /* ---- whole files ---- */

  function End(a: Agent): nat {
    a.slot + |a.value|
  }

  /** A file ends where some slot of it ends at the latest, and holds nothing but
      zeros outside its slots. */
  ghost predicate OnlySlots(f: File, agents: seq<Agent>, file: nat) {
    && (f.content != [] ==> exists a :: 0 <= a < |agents| && agents[a].file == file && |f.content| <= End(agents[a]))
    && (forall i :: 0 <= i < |f.content| && f.content[i] != 0 ==>
          exists a :: 0 <= a < |agents| && agents[a].file == file && agents[a].slot <= i < End(agents[a]))
  }

  ghost predicate AllOnlySlots(w: World, agents: seq<Agent>) {
    forall file :: 0 <= file < |w.files| ==> OnlySlots(w.files[file], agents, file)
  }

  /** A call reaches no further than its agent's slot and changes nothing in front
      of it or behind it but for zeros. */
  lemma CallReach(f: File, a: Agent, p: Progress, memory: bool)
    requires FileOk(f) && AgentInv(f, a, p) && 0 < |a.value|
    ensures var g := Apply(f, p.handle, NextOp(a, p.phase), memory).file;
      && |f.content| <= |g.content| && (|g.content| > |f.content| ==> |g.content| <= End(a))
      && forall i :: 0 <= i < |g.content| && !(a.slot <= i < End(a)) ==> g.content[i] == ByteAt(f.content, i)
  {
  }

  lemma TurnOnlySlots(w: World, agents: seq<Agent>, a: nat, memory: bool)
    requires Inv(w, agents) && AllOnlySlots(w, agents) && a < |agents|
    ensures AllOnlySlots(Turn(w, agents, a, memory), agents)
  {
    var file := agents[a].file;
    var f, g := w.files[file], Turn(w, agents, a, memory).files[file];
    CallReach(f, agents[a], w.progress[a], memory);
    assert OnlySlots(f, agents, file);
    hide Apply, AgentInv, FileOk;
    if |g.content| > |f.content| { assert |g.content| <= End(agents[a]); }
    forall i | 0 <= i < |g.content| && g.content[i] != 0
      ensures exists b :: 0 <= b < |agents| && agents[b].file == file && agents[b].slot <= i < End(agents[b])
    {
      if agents[a].slot <= i < End(agents[a]) { assert agents[a].file == file; }
    }
    assert OnlySlots(g, agents, file);
  }

  lemma {:induction false} PlayOnlySlots(w: World, agents: seq<Agent>, schedule: Schedule)
    requires Inv(w, agents) && AllOnlySlots(w, agents) && ScheduleOk(schedule, agents)
    ensures AllOnlySlots(Play(w, agents, schedule), agents)
    decreases |schedule|
  {
    if schedule != [] {
      TurnInv(w, agents, schedule[0].0, schedule[0].1);
      TurnOnlySlots(w, agents, schedule[0].0, schedule[0].1);
      PlayOnlySlots(Turn(w, agents, schedule[0].0, schedule[0].1), agents, schedule[1..]);
    }
  }

  ghost predicate AllWrote(w: World, agents: seq<Agent>, file: nat) {
    |w.progress| == |agents| && forall a :: 0 <= a < |agents| && agents[a].file == file ==> w.progress[a].wrote
  }

  lemma SlotByte(f: File, a: Agent, i: nat)
    requires SlotHolds(f, a) && a.slot <= i < End(a)
    ensures i < |f.content| && f.content[i] == a.value[i - a.slot]
  {
    assert f.content[i] == f.content[a.slot..End(a)][i - a.slot];
  }

  /** A file whose slots are all written reaches as far as any other that holds nothing else. */
  lemma ReachesAsFar(f: File, g: File, agents: seq<Agent>, file: nat)
    requires OnlySlots(f, agents, file)
    requires forall a :: 0 <= a < |agents| && agents[a].file == file ==> SlotHolds(g, agents[a])
    ensures |f.content| <= |g.content|
  {
  }

  /** Two files whose slots are all written, and that hold nothing else, are equal. */
  lemma SameFile(f: File, g: File, agents: seq<Agent>, file: nat)
    requires OnlySlots(f, agents, file) && OnlySlots(g, agents, file)
    requires forall a :: 0 <= a < |agents| && agents[a].file == file ==>
      SlotHolds(f, agents[a]) && SlotHolds(g, agents[a])
    ensures f.content == g.content
  {
    ReachesAsFar(f, g, agents, file);
    ReachesAsFar(g, f, agents, file);
    forall i | 0 <= i < |f.content| ensures f.content[i] == g.content[i] {
      if a :| 0 <= a < |agents| && agents[a].file == file && agents[a].slot <= i < End(agents[a]) {
        hide SlotHolds, OnlySlots;
        SlotByte(f, agents[a], i);
        SlotByte(g, agents[a], i);
      }
    }
  }

  /** The final contents do not depend on the schedule: once every agent of a file
      has written, two runs agree on the whole file. */
  lemma ScheduleIndependent(w: World, agents: seq<Agent>, s1: Schedule, s2: Schedule, file: nat)
    requires Start(w, agents) && ScheduleOk(s1, agents) && ScheduleOk(s2, agents) && file < |w.files|
    requires AllWrote(Play(w, agents, s1), agents, file) && AllWrote(Play(w, agents, s2), agents, file)
    ensures file < |Play(w, agents, s1).files| && file < |Play(w, agents, s2).files|
    ensures var f, g := Play(w, agents, s1).files[file], Play(w, agents, s2).files[file];
      && f.content == g.content
      && forall a :: 0 <= a < |agents| && agents[a].file == file ==> SlotHolds(f, agents[a])
  {
    StartInv(w, agents);
    PlayInv(w, agents, s1);
    PlayInv(w, agents, s2);
    PlayOnlySlots(w, agents, s1);
    PlayOnlySlots(w, agents, s2);
    var v1, v2 := Play(w, agents, s1), Play(w, agents, s2);
    SameFile(v1.files[file], v2.files[file], agents, file);
  }

  /* ---- the test's own workers ---- */

  /** Eight workers, each with one handle on each of four files: in file fn worker
      wid writes its number, as four bytes, at 4 * ((fn + wid) % 8). */
  function TestAgent(wid: nat, fn: nat): Agent
    requires wid < 8 && fn < 4
  {
    Agent(fn, 4 * ((fn + wid) % 8), [wid as byte, 0, 0, 0])
  }

  ghost predicate TestAgents(agents: seq<Agent>) {
    |agents| == 32 && forall wid, fn :: 0 <= wid < 8 && 0 <= fn < 4 ==> agents[4 * wid + fn] == TestAgent(wid, fn)
  }

  lemma AgentOfIndex(agents: seq<Agent>, a: nat)
    requires TestAgents(agents) && a < 32
    ensures agents[a] == TestAgent(a / 4, a % 4)
  {
    assert agents[4 * (a / 4) + a % 4] == TestAgent(a / 4, a % 4);
  }

  /** No two of them meet in a file. */
  lemma TestAgentsApart(agents: seq<Agent>)
    requires TestAgents(agents)
    ensures AgentsOk(agents, 4)
  {
    forall a | 0 <= a < 32 ensures agents[a].file < 4 && 0 < |agents[a].value| {
      AgentOfIndex(agents, a);
    }
    forall a, b | 0 <= a < 32 && 0 <= b < 32 && a != b && agents[a].file == agents[b].file
      ensures agents[a].slot + |agents[a].value| <= agents[b].slot || agents[b].slot + |agents[b].value| <= agents[a].slot
    {
      AgentOfIndex(agents, a);
      AgentOfIndex(agents, b);
      TwoApart(a / 4, b / 4, a % 4);
    }
  }

  lemma TwoApart(wid: nat, wid': nat, fn: nat)
    requires wid < 8 && wid' < 8 && wid != wid' && fn < 4
    ensures var a, b := TestAgent(wid, fn), TestAgent(wid', fn); a.slot + 4 <= b.slot || b.slot + 4 <= a.slot
  {
  }

  /** The verdict of the test: under every schedule in which all workers have
      written, file i is 32 bytes long and its j-th number is (8 - i + j) % 8,
      whatever the allocator would say. */
  lemma TestVerdict(w: World, agents: seq<Agent>, schedule: Schedule, i: nat, j: nat)
    requires TestAgents(agents) && |w.files| == 4 && |w.progress| == 32 && i < 4 && j < 8
    requires forall k :: 0 <= k < 4 ==> w.files[k] == File([], FIRST_CAPACITY, 0)
    requires forall a :: 0 <= a < 32 ==> w.progress[a] == Progress(Handle(0, 6), ToSeek, false)
    requires forall k :: 0 <= k < |schedule| ==> schedule[k].0 < 32
    ensures WorldOk(w, agents) && ScheduleOk(schedule, agents)
    ensures var v := Play(w, agents, schedule);
      AllWrote(v, agents, i) ==>
        |v.files[i].content| == 32 && v.files[i].content[4 * j..4 * j + 4] == [((8 - i + j) % 8) as byte, 0, 0, 0]
  {
    forall a | 0 <= a < 32 ensures agents[a].file < 4 && End(agents[a]) <= 32 { AgentOfIndex(agents, a); }
    assert ScheduleOk(schedule, agents);
    TestAgentsApart(agents);
    var v := Play(w, agents, schedule);
    if AllWrote(v, agents, i) {
      StartInv(w, agents);
      PlayOnlySlots(w, agents, schedule);
      ScheduleIndependent(w, agents, schedule, schedule, i);
      var f := v.files[i];
      assert OnlySlots(f, agents, i);
      TestSlot(f, agents, i, j);
      TestSlot(f, agents, i, 7);
    }
  }

  /** Slot j of file i belongs to worker (8 - i + j) % 8. */
  lemma TestSlot(f: File, agents: seq<Agent>, i: nat, j: nat)
    requires TestAgents(agents) && i < 4 && j < 8
    requires forall a :: 0 <= a < |agents| && agents[a].file == i ==> SlotHolds(f, agents[a])
    ensures 4 * j + 4 <= |f.content| && f.content[4 * j..4 * j + 4] == [((8 - i + j) % 8) as byte, 0, 0, 0]
  {
    var wid := (8 - i + j) % 8;
    assert (i + wid) % 8 == j;
    assert agents[4 * wid + i] == TestAgent(wid, i);
    assert SlotHolds(f, agents[4 * wid + i]);
  }
}
