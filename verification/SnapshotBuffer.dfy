/** The snapshot buffer as the program runs it: `Publish` stores cell by cell in place, `Read`
    loads cell by cell while the writer may be at work.  Both are tied to the state machine. */
module SnapshotBuffers {
  import opened JointTypes
  import opened SeqLock

  /** A robot state as the cells that hold it, in access order. */
  function Flatten(state: RobotState): Cells {
    seq(CELLS, k requires 0 <= k < CELLS => if k % 2 == 0 then state[k / 2].position else state[k / 2].velocity)
  }

  lemma FlattenAt(state: RobotState, i: nat)
    requires i < JOINT_COUNT
    ensures Flatten(state)[2 * i] == state[i].position && Flatten(state)[2 * i + 1] == state[i].velocity
  {
  }

  lemma FlattenExtend(state: RobotState, i: nat, value: real)
    requires i < JOINT_COUNT
    ensures Flatten(state[i := state[i].(position := value)])[..2 * i + 1] == Flatten(state)[..2 * i] + [value]
    ensures Flatten(state[i := state[i].(velocity := value)])[..2 * i + 2] == Flatten(state)[..2 * i + 1] + [value]
  {
  }

  lemma FlattenInjective(a: RobotState, b: RobotState)
    requires Flatten(a) == Flatten(b)
    ensures a == b
  {
    forall i | 0 <= i < JOINT_COUNT
      ensures a[i] == b[i]
    {
      assert Flatten(a)[2 * i] == Flatten(b)[2 * i] && Flatten(a)[2 * i + 1] == Flatten(b)[2 * i + 1];
    }
  }

  /** The memory after the first `k` of the fourteen accesses of one publication. */
  function DuringPublish(m: Memory, x: Cells, k: nat): Memory
    requires k <= CELLS + 2
  {
    if k == 0 then m
    else if k <= CELLS + 1 then Memory(m.sequence + 1, x[..k - 1] + m.cells[k - 1..])
    else Memory(m.sequence + 2, x)
  }

  /** The next store turns the k-th memory of a publication into the next one. */
  lemma NextDuring(m: Memory, x: Cells, k: nat)
    requires k <= CELLS + 1
    ensures k == 0 ==> DuringPublish(m, x, 1) == m.(sequence := m.sequence + 1)
    ensures 0 < k <= CELLS ==>
              DuringPublish(m, x, k + 1) == var d := DuringPublish(m, x, k); d.(cells := d.cells[k - 1 := x[k - 1]])
    ensures k == CELLS + 1 ==> DuringPublish(m, x, k + 1) == var d := DuringPublish(m, x, k); d.(sequence := d.sequence + 1)
  {
    if k == 0 {
      assert x[..0] + m.cells[0..] == m.cells;
    } else if k <= CELLS {
      assert (x[..k - 1] + m.cells[k - 1..])[k - 1 := x[k - 1]] == x[..k] + m.cells[k..];
    } else {
      assert x[..CELLS] + m.cells[CELLS..] == x;
    }
  }

  /** `trace` lists the memories of a publication, access by access, as far as it goes. */
  ghost predicate Traces(trace: seq<Memory>, m: Memory, x: Cells) {
    |trace| <= CELLS + 2 && forall k | 0 <= k < |trace| :: trace[k] == DuringPublish(m, x, k + 1)
  }

  lemma TraceGrows(trace: seq<Memory>, m: Memory, x: Cells, next: Memory)
    requires Traces(trace, m, x) && |trace| < CELLS + 2 && next == DuringPublish(m, x, |trace| + 1)
    ensures Traces(trace + [next], m, x)
  {
  }

  lemma DuringEnd(m: Memory, x: Cells)
    ensures DuringPublish(m, x, CELLS + 2) == Memory(m.sequence + 2, x)
  {
  }

  /** The writer's actions for one publication. */
  function PublishActions(x: Cells): (acts: seq<Action>)
    ensures |acts| == CELLS + 2
  {
    [Begin(x)] + seq(CELLS, _ => Store) + [End]
  }

  lemma PublishActionAt(x: Cells, k: nat)
    requires k < CELLS + 2
    ensures PublishActions(x)[k] == if k == 0 then Begin(x) else if k <= CELLS then Store else End
    ensures PublishActions(x)[..k + 1][..k] == PublishActions(x)[..k]
    ensures PublishActions(x)[..k + 1][k] == PublishActions(x)[k]
  {
  }

  function DoAll(s: System, acts: seq<Action>): System {
    if acts == [] then s else Do(DoAll(s, acts[..|acts| - 1]), acts[|acts| - 1])
  }

  /** The writer's actions of one publication produce exactly the memories of `DuringPublish`. */
  lemma {:induction false} PublishRun(s: System, x: Cells, k: nat)
    requires s.writer.Resting? && k <= CELLS + 2
    ensures var s' := DoAll(s, PublishActions(x)[..k]);
            && s'.memory == DuringPublish(s.memory, x, k) && s'.readers == s.readers
            && s'.writer == (if 0 < k < CELLS + 2 then Storing(x, k - 1) else Resting)
            && s'.published == (if k == CELLS + 2 then s.published + [x] else s.published)
  {
    if k > 0 {
      hide DuringPublish, PublishActions;
      PublishActionAt(x, k - 1);
      PublishRun(s, x, k - 1);
      NextDuring(s.memory, x, k - 1);
    }
  }

  /** A reader's progress over the memories that its loads meet, one memory a load. */
  function ReaderAfter(r: Reader, met: seq<Memory>): Reader {
    if met == [] then r else ReaderStep(ReaderAfter(r, met[..|met| - 1]), met[|met| - 1])
  }

  /** The memories that reader `r` meets, load by load, in the call it makes as action `i`. */
  function Met(n: nat, acts: seq<Action>, r: nat, i: nat, k: nat): seq<Memory>
    requires k <= |acts|
  {
    if k <= i + 1 then []
    else Met(n, acts, r, i, k - 1) +
         if acts[k - 1] == Access(r) then [StateAt(n, acts, k - 1).memory] else []
  }

  /** A reader of the state machine is at every point where its loads so far have taken it, so the
      loop `Read` over those memories returns what the machine's reader returns. */
  lemma {:induction false} ReaderFollowsLoads(n: nat, acts: seq<Action>, r: nat, i: nat, j: nat)
    requires CallSpans(n, acts, r, i, j)
    ensures ReaderAt(n, acts, r, j) == ReaderAfter(Attempting(0), Met(n, acts, r, i, j))
    decreases j
  {
    hide StateAt, CallSpans, InProgress, ReaderAt, ReaderStep;
    CallStarts(n, acts, r, i, j);
    if j > i + 1 {
      ReaderFollowsLoads(n, acts, r, i, j - 1);
      ReaderLoads(n, acts, r, j);
      var met, memory := Met(n, acts, r, i, j - 1), StateAt(n, acts, j - 1).memory;
      assert (met + [memory])[..|met|] == met;
      assert met + [] == met;
    }
  }

  lemma ReaderLoads(n: nat, acts: seq<Action>, r: nat, k: nat)
    requires 0 < k <= |acts| && InProgress(ReaderAt(n, acts, r, k - 1))
    ensures ReaderAt(n, acts, r, k) ==
            if acts[k - 1] == Access(r) then ReaderStep(ReaderAt(n, acts, r, k - 1), StateAt(n, acts, k - 1).memory)
            else ReaderAt(n, acts, r, k - 1)
  {
    hide ReaderStep;
  }

  class SnapshotBuffer {
    var sequence: nat
    const positions: array<real>
    const velocities: array<real>

    ghost predicate Valid()
      reads this
    {
      positions.Length == JOINT_COUNT && velocities.Length == JOINT_COUNT && positions != velocities
    }

    /** What the memory holds, with the cells in access order. */
    ghost function View(): Memory
      requires Valid()
      reads this, positions, velocities
    {
      Memory(sequence, seq(CELLS, k requires 0 <= k < CELLS reads this, positions, velocities requires Valid() =>
                                    if k % 2 == 0 then positions[k / 2] else velocities[k / 2]))
    }

    constructor ()
      ensures Valid() && fresh(positions) && fresh(velocities)
      ensures View() == Memory(0, ZEROS)
    {
      sequence := 0;
      positions := new real[JOINT_COUNT](_ => 0.0);
      velocities := new real[JOINT_COUNT](_ => 0.0);
    }

    /** Publishes a state.  `trace` lists the memory after each atomic access: it is exactly what the
        writer of the state machine produces, access by access. */
    method Publish(state: RobotState) returns (ghost trace: seq<Memory>)
      requires Valid()
      modifies this, positions, velocities
      ensures Valid()
      ensures View() == Memory(old(sequence) + 2, Flatten(state))
      ensures |trace| == CELLS + 2 && Traces(trace, old(View()), Flatten(state))
    {
      ghost var before, x := View(), Flatten(state);
      hide Flatten, DuringPublish, View;
      assert Traces([], before, x);
      AddOne();
      NextDuring(before, x, 0);
      TraceGrows([], before, x, View());
      hide Traces;
      trace := [] + [View()];
      for i := 0 to JOINT_COUNT
        invariant Valid() && |trace| == 2 * i + 1 && Traces(trace, before, x)
        invariant View() == DuringPublish(before, x, 2 * i + 1)
      {
        trace := StoreJoint(i, state, before, trace);
      }
      AddOne();
      NextDuring(before, x, CELLS + 1);
      TraceGrows(trace, before, x, View());
      trace := trace + [View()];
      DuringEnd(before, x);
    }

    /** The two stores of joint `i`, as part of publishing `state` over the memory `before`. */
    method StoreJoint(i: nat, state: RobotState, ghost before: Memory, ghost trace: seq<Memory>)
      returns (ghost trace': seq<Memory>)
      requires Valid() && i < JOINT_COUNT && |trace| == 2 * i + 1
      requires Traces(trace, before, Flatten(state)) && View() == DuringPublish(before, Flatten(state), 2 * i + 1)
      modifies positions, velocities
      ensures |trace'| == 2 * i + 3 && Traces(trace', before, Flatten(state))
      ensures View() == DuringPublish(before, Flatten(state), 2 * i + 3)
    {
      hide Flatten, DuringPublish, View, Traces;
      ghost var x := Flatten(state);
      FlattenAt(state, i);
      StorePosition(i, state[i].position);
      NextDuring(before, x, 2 * i + 1);
      TraceGrows(trace, before, x, View());
      trace' := trace + [View()];
      StoreVelocity(i, state[i].velocity);
      NextDuring(before, x, 2 * i + 2);
      TraceGrows(trace', before, x, View());
      trace' := trace' + [View()];
    }

    method AddOne()
      requires Valid()
      modifies this
      ensures Valid() && View() == old(View()).(sequence := old(sequence) + 1)
    {
      sequence := sequence + 1;
    }

    method StorePosition(i: nat, value: real)
      requires Valid() && i < JOINT_COUNT
      modifies positions
      ensures View() == old(View()).(cells := old(View()).cells[2 * i := value])
    {
      positions[i] := value;
    }

    method StoreVelocity(i: nat, value: real)
      requires Valid() && i < JOINT_COUNT
      modifies velocities
      ensures View() == old(View()).(cells := old(View()).cells[2 * i + 1 := value])
    {
      velocities[i] := value;
    }

    /** Reads a state.  `met[k]` is the memory that the k-th load meets; the writer may change it in
        any way between two loads.  The loop is the reader of the state machine: it returns the same
        answer after the same number of loads, and leaves `state` alone when it fails. */
    static method Read(met: seq<Memory>, state: RobotState) returns (ok: bool, result: RobotState, used: nat)
      requires |met| >= 42
      ensures used <= 42
      ensures ok ==> exists stamp :: ReaderAfter(Attempting(0), met[..used]) == Returned(true, Flatten(result), stamp)
      ensures !ok ==> ReaderAfter(Attempting(0), met[..used]) == Returned(false, [], 0) && result == state
    {
      used := 0;
      assert ReaderAfter(Attempting(0), met[..0]) == Attempting(0);
      hide Flatten, ReaderAfter;
      for attempt := 0 to MAX_READ_ATTEMPTS
        invariant used <= (CELLS + 2) * attempt
        invariant ReaderAfter(Attempting(0), met[..used]) == if attempt == 0 then Attempting(0) else NextAttempt(attempt - 1)
      {
        var before := met[used].sequence;
        OneMore(met, used);
        used := used + 1;
        if before % 2 != 0 {
          continue;
        }
        var candidate := Load(met, used, attempt, before);
        used := used + CELLS;
        var after := met[used].sequence;
        OneMore(met, used);
        used := used + 1;
        if before == after {
          return true, candidate, used;
        }
      }
      return false, state, used;
    }

    /** The twelve loads of one attempt. */
    static method Load(met: seq<Memory>, start: nat, ghost attempt: nat, ghost before: nat) returns (candidate: RobotState)
      requires start + CELLS <= |met|
      requires ReaderAfter(Attempting(0), met[..start]) == Loading(attempt, before, [])
      ensures ReaderAfter(Attempting(0), met[..start + CELLS]) == Loading(attempt, before, Flatten(candidate))
    {
      candidate := ZERO_STATE;
      hide Flatten, ReaderAfter;
      for i := 0 to JOINT_COUNT
        invariant ReaderAfter(Attempting(0), met[..start + 2 * i]) == Loading(attempt, before, Flatten(candidate)[..2 * i])
      {
        var used := start + 2 * i;
        FlattenExtend(candidate, i, met[used].cells[2 * i]);
        candidate := candidate[i := candidate[i].(position := met[used].cells[2 * i])];
        OneMore(met, used);
        FlattenExtend(candidate, i, met[used + 1].cells[2 * i + 1]);
        candidate := candidate[i := candidate[i].(velocity := met[used + 1].cells[2 * i + 1])];
        OneMore(met, used + 1);
      }
      assert Flatten(candidate)[..CELLS] == Flatten(candidate);
    }
  }

  lemma OneMore(met: seq<Memory>, used: nat)
    requires used < |met|
    ensures ReaderAfter(Attempting(0), met[..used + 1]) == ReaderStep(ReaderAfter(Attempting(0), met[..used]), met[used])
  {
    assert met[..used + 1][..used] == met[..used];
  }
}
