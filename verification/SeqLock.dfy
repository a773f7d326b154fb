/** The snapshot protocol as a state machine: one writer and any number of readers, interleaved at
    the granularity of single atomic accesses.  All accesses are sequentially consistent, so an
    execution is a sequence of such steps.  An execution is driven by an arbitrary sequence of
    actions; an action that is not enabled does nothing. */
module SeqLock {

  /** Six positions and six velocities. */
  const CELLS: nat := 12
  const MAX_READ_ATTEMPTS: nat := 3

  /** The cells in the order in which both sides access them: position 0, velocity 0, position 1, ... */
  type Cells = c: seq<real> | |c| == CELLS witness seq(CELLS, _ => 0.0)

  const ZEROS: Cells := [0.0, 0.0, 0.0, 0.0, 0.0, 0.0, 0.0, 0.0, 0.0, 0.0, 0.0, 0.0]

  datatype Memory = Memory(sequence: nat, cells: Cells)

  datatype Writer = Resting | Storing(snapshot: Cells, next: nat)

  /** A reader's program counter and local variables; `Away` before its first call.
      `stamp` is the value of `before` with which a successful read returned. */
  datatype Reader =
    | Away
    | Attempting(attempt: nat)
    | Loading(attempt: nat, before: nat, candidate: seq<real>)
    | Returned(ok: bool, value: seq<real>, stamp: nat)

  /** `published` is the history of completed publications, headed by the initial zeros. */
  datatype System = System(memory: Memory, writer: Writer, readers: seq<Reader>, published: seq<Cells>)

  datatype Action = Begin(snapshot: Cells) | Store | End | Call(reader: nat) | Access(reader: nat) | Idle

  function Initial(n: nat): System {
    System(Memory(0, ZEROS), Resting, seq(n, _ => Away), [ZEROS])
  }

  predicate InProgress(r: Reader) {
    r.Attempting? || r.Loading?
  }

  function NextAttempt(k: nat): Reader {
    if k + 1 < MAX_READ_ATTEMPTS then Attempting(k + 1) else Returned(false, [], 0)
  }

  /** One atomic load by a reader. */
  function ReaderStep(r: Reader, m: Memory): Reader {
    match r
    case Attempting(k) =>
      if m.sequence % 2 != 0 then NextAttempt(k) else Loading(k, m.sequence, [])
    case Loading(k, before, candidate) =>
      if |candidate| < CELLS then Loading(k, before, candidate + [m.cells[|candidate|]])
      else if m.sequence == before then Returned(true, candidate, before)
      else NextAttempt(k)
    case _ => r
  }

  function Do(s: System, a: Action): System {
    match a
    case Begin(x) =>
      if s.writer.Resting? then s.(memory := s.memory.(sequence := s.memory.sequence + 1), writer := Storing(x, 0)) else s
    case Store =>
      if s.writer.Storing? && s.writer.next < CELLS then
        var k, x := s.writer.next, s.writer.snapshot;
        s.(memory := s.memory.(cells := s.memory.cells[k := x[k]]), writer := Storing(x, k + 1))
      else s
    case End =>
      if s.writer.Storing? && s.writer.next == CELLS then
        s.(memory := s.memory.(sequence := s.memory.sequence + 1), writer := Resting, published := s.published + [s.writer.snapshot])
      else s
    case Call(r) =>
      if r < |s.readers| && !InProgress(s.readers[r]) then s.(readers := s.readers[r := Attempting(0)]) else s
    case Access(r) =>
      if r < |s.readers| then s.(readers := s.readers[r := ReaderStep(s.readers[r], s.memory)]) else s
    case Idle => s
  }

  /** The state after the first `k` actions. */
  function StateAt(n: nat, acts: seq<Action>, k: nat): System
    requires k <= |acts|
  {
    if k == 0 then Initial(n) else Do(StateAt(n, acts, k - 1), acts[k - 1])
  }

  /** How many publications are complete. */
  function Completed(s: System): nat {
    if |s.published| == 0 then 0 else |s.published| - 1
  }

  // ---------------------------------------------------------------- the inductive invariant

  ghost predicate WriterInv(s: System) {
    && |s.published| > 0
    && match s.writer
       case Resting =>
         s.memory.sequence == 2 * Completed(s) && s.memory.cells == s.published[Completed(s)]
       case Storing(x, k) =>
         && k <= CELLS && s.memory.sequence == 2 * Completed(s) + 1
         && s.memory.cells == x[..k] + s.published[Completed(s)][k..]
  }

  /** What a reader has collected so far is part of the publication it started from, for as long as
      the sequence has not moved; what it returned is a whole publication. */
  ghost predicate ReaderInv(s: System, r: Reader) {
    match r
    case Away => true
    case Attempting(k) => k < MAX_READ_ATTEMPTS
    case Loading(k, before, candidate) =>
      && k < MAX_READ_ATTEMPTS && |candidate| <= CELLS
      && before % 2 == 0 && before <= s.memory.sequence && before / 2 < |s.published|
      && (s.memory.sequence == before ==> candidate == s.published[before / 2][..|candidate|])
    case Returned(ok, value, stamp) =>
      ok ==> stamp % 2 == 0 && stamp / 2 < |s.published| && value == s.published[stamp / 2]
  }

  ghost predicate Inv(s: System) {
    WriterInv(s) && forall r | 0 <= r < |s.readers| :: ReaderInv(s, s.readers[r])
  }

  lemma WriterStepKeepsReader(s: System, a: Action, r: Reader)
    requires WriterInv(s) && ReaderInv(s, r) && (a.Begin? || a.Store? || a.End?)
    ensures ReaderInv(Do(s, a), r)
  {
  }

  lemma ReaderStepKeeps(s: System, r: Reader)
    requires WriterInv(s) && ReaderInv(s, r)
    ensures ReaderInv(s, ReaderStep(r, s.memory))
  {
    match r
    case Loading(k, before, candidate) =>
      if |candidate| < CELLS && s.memory.sequence == before {
        var p := s.published[before / 2];
        assert s.writer.Resting? && p == s.memory.cells;
        assert p[..|candidate| + 1] == p[..|candidate|] + [p[|candidate|]];
      } else if |candidate| == CELLS && s.memory.sequence == before {
        assert s.published[before / 2][..CELLS] == s.published[before / 2];
      }
    case _ =>
  }

  lemma WriterStepKeeps(s: System, a: Action)
    requires WriterInv(s)
    ensures WriterInv(Do(s, a))
  {
    match a
    case Begin(x) => assert x[..0] == [];
    case Store =>
      if s.writer.Storing? && s.writer.next < CELLS {
        var k, x, last := s.writer.next, s.writer.snapshot, s.published[Completed(s)];
        assert (x[..k] + last[k..])[k := x[k]] == x[..k + 1] + last[k + 1..];
      }
    case _ =>
  }

  lemma StepKeepsInv(s: System, a: Action)
    requires Inv(s)
    ensures Inv(Do(s, a)) && |Do(s, a).readers| == |s.readers|
  {
    hide ReaderInv;
    WriterStepKeeps(s, a);
    var s' := Do(s, a);
    forall r | 0 <= r < |s.readers|
      ensures ReaderInv(s', s'.readers[r])
    {
      if a.Begin? || a.Store? || a.End? {
        WriterStepKeepsReader(s, a, s.readers[r]);
      } else {
        OtherStepKeepsReader(s, a, r);
      }
    }
  }

  lemma OtherStepKeepsReader(s: System, a: Action, r: nat)
    requires WriterInv(s) && r < |s.readers| && ReaderInv(s, s.readers[r])
    requires a.Call? || a.Access? || a.Idle?
    ensures ReaderInv(Do(s, a), Do(s, a).readers[r])
  {
    ReaderStepKeeps(s, s.readers[r]);
    SameHistory(s, Do(s, a), Do(s, a).readers[r]);
  }

  lemma SameHistory(s: System, s': System, r: Reader)
    requires s'.memory == s.memory && s'.published == s.published
    ensures ReaderInv(s', r) == ReaderInv(s, r)
  {
  }

  lemma {:induction false} Invariant(n: nat, acts: seq<Action>, k: nat)
    requires k <= |acts|
    ensures Inv(StateAt(n, acts, k)) && |StateAt(n, acts, k).readers| == n
  {
    hide Inv;
    if k == 0 {
      InitialInv(n);
    } else {
      Invariant(n, acts, k - 1);
      StepKeepsInv(StateAt(n, acts, k - 1), acts[k - 1]);
    }
  }

  lemma InitialInv(n: nat)
    ensures Inv(Initial(n))
  {
  }

  // ---------------------------------------------------------------- history only grows

  lemma {:induction false} HistoryGrows(n: nat, acts: seq<Action>, i: nat, j: nat)
    requires i <= j <= |acts|
    ensures StateAt(n, acts, i).memory.sequence <= StateAt(n, acts, j).memory.sequence
    ensures StateAt(n, acts, i).published <= StateAt(n, acts, j).published
    ensures Completed(StateAt(n, acts, i)) <= Completed(StateAt(n, acts, j))
  {
    if i < j {
      HistoryGrows(n, acts, i, j - 1);
    }
  }

  // ---------------------------------------------------------------- one call of read

  /** Reader `r` calls `read` as action `i`, and is still inside that call until state `j`. */
  ghost predicate CallSpans(n: nat, acts: seq<Action>, r: nat, i: nat, j: nat) {
    && r < n && i < j <= |acts| && acts[i] == Call(r)
    && |StateAt(n, acts, i).readers| == n && !InProgress(StateAt(n, acts, i).readers[r])
    && forall k | i < k < j :: r < |StateAt(n, acts, k).readers| && InProgress(StateAt(n, acts, k).readers[r])
  }

  function ReaderAt(n: nat, acts: seq<Action>, r: nat, k: nat): Reader
    requires k <= |acts|
  {
    if r < |StateAt(n, acts, k).readers| then StateAt(n, acts, k).readers[r] else Away
  }

  /** What one action does to a reader inside a call: nothing, or one load of the current memory. */
  lemma ReaderMoves(n: nat, acts: seq<Action>, r: nat, k: nat)
    requires 0 < k <= |acts| && InProgress(ReaderAt(n, acts, r, k - 1))
    ensures var s, reader := StateAt(n, acts, k - 1), ReaderAt(n, acts, r, k - 1);
            || ReaderAt(n, acts, r, k) == reader
            || (ReaderAt(n, acts, r, k) == ReaderStep(reader, s.memory) && StateAt(n, acts, k).memory == s.memory)
  {
  }

  lemma CallStarts(n: nat, acts: seq<Action>, r: nat, i: nat, j: nat)
    requires CallSpans(n, acts, r, i, j)
    ensures i < j <= |acts| && ReaderAt(n, acts, r, i + 1) == Attempting(0)
    ensures j > i + 1 ==> CallSpans(n, acts, r, i, j - 1) && InProgress(ReaderAt(n, acts, r, j - 1))
  {
  }

  /** The sequence number a call relies on was the current one at some instant of the call. */
  lemma {:induction false} Sampled(n: nat, acts: seq<Action>, r: nat, i: nat, j: nat) returns (m: nat)
    requires CallSpans(n, acts, r, i, j)
    ensures i < m <= j
    ensures var reader := ReaderAt(n, acts, r, j);
            var sequence := StateAt(n, acts, m).memory.sequence;
            && (reader.Loading? ==> sequence == reader.before)
            && (reader.Returned? && reader.ok ==> sequence == reader.stamp)
    decreases j
  {
    hide StateAt, CallSpans, ReaderAt;
    CallStarts(n, acts, r, i, j);
    m := j;
    if j > i + 1 {
      var earlier := Sampled(n, acts, r, i, j - 1);
      ReaderMoves(n, acts, r, j);
      if ReaderAt(n, acts, r, j - 1).Loading? {
        m := earlier;
      }
    }
  }

  /** Every successful read returns what an atomic register would have held at one instant between
      its call and its return: one whole publication, whose index lies between the number of
      publications completed at the call and the number completed at the return. */
  lemma ReadIsLinearizable(n: nat, acts: seq<Action>, r: nat, i: nat, j: nat)
    requires CallSpans(n, acts, r, i, j)
    requires ReaderAt(n, acts, r, j).Returned? && ReaderAt(n, acts, r, j).ok
    ensures var reader, s := ReaderAt(n, acts, r, j), StateAt(n, acts, j);
            && reader.stamp / 2 < |s.published| && reader.value == s.published[reader.stamp / 2]
            && Completed(StateAt(n, acts, i)) <= reader.stamp / 2 <= Completed(s)
    ensures exists m | i < m <= j :: var then_ := StateAt(n, acts, m);
              && |then_.published| > 0
              && then_.writer.Resting?
              && then_.published[Completed(then_)] == ReaderAt(n, acts, r, j).value
  {
    hide StateAt;
    var m := Sampled(n, acts, r, i, j);
    WriterInvariant(n, acts, m);
    ReaderInvariant(n, acts, r, j);
    HistoryGrows(n, acts, i, m);
    HistoryGrows(n, acts, m, j);
  }

  lemma WriterInvariant(n: nat, acts: seq<Action>, k: nat)
    requires k <= |acts|
    ensures WriterInv(StateAt(n, acts, k))
  {
    hide WriterInv;
    Invariant(n, acts, k);
  }

  lemma ReaderInvariant(n: nat, acts: seq<Action>, r: nat, k: nat)
    requires k <= |acts|
    ensures ReaderInv(StateAt(n, acts, k), ReaderAt(n, acts, r, k))
  {
    Invariant(n, acts, k);
  }

  /** Reads that do not overlap see publications in order, whichever readers make them. */
  lemma ReadsAreOrdered(n: nat, acts: seq<Action>, r: nat, i: nat, j: nat, r': nat, i': nat, j': nat)
    requires CallSpans(n, acts, r, i, j) && CallSpans(n, acts, r', i', j') && j <= i'
    requires ReaderAt(n, acts, r, j).Returned? && ReaderAt(n, acts, r, j).ok
    requires ReaderAt(n, acts, r', j').Returned? && ReaderAt(n, acts, r', j').ok
    ensures ReaderAt(n, acts, r, j).stamp / 2 <= ReaderAt(n, acts, r', j').stamp / 2
  {
    ReadIsLinearizable(n, acts, r, i, j);
    ReadIsLinearizable(n, acts, r', i', j');
    HistoryGrows(n, acts, j, i');
  }

  // ---------------------------------------------------------------- failure and progress

  ghost predicate WriterActive(n: nat, acts: seq<Action>, i: nat, j: nat)
    requires i <= j <= |acts|
  {
    exists m | i <= m <= j :: StateAt(n, acts, m).writer.Storing?
  }

  lemma {:induction false} ChangeNeedsWriter(n: nat, acts: seq<Action>, i: nat, j: nat)
    requires i <= j <= |acts|
    requires StateAt(n, acts, i).memory.sequence != StateAt(n, acts, j).memory.sequence
    ensures WriterActive(n, acts, i, j)
  {
    if StateAt(n, acts, i).memory.sequence != StateAt(n, acts, j - 1).memory.sequence {
      ChangeNeedsWriter(n, acts, i, j - 1);
    } else {
      assert StateAt(n, acts, j - 1).writer.Storing? || StateAt(n, acts, j).writer.Storing?;
    }
  }

  lemma OddMeansActive(n: nat, acts: seq<Action>, i: nat, m: nat, j: nat)
    requires i <= m <= j <= |acts|
    ensures StateAt(n, acts, m).memory.sequence % 2 != 0 ==> WriterActive(n, acts, i, j)
  {
    WriterInvariant(n, acts, m);
  }

  lemma ActiveWidens(n: nat, acts: seq<Action>, i: nat, m: nat, j: nat, k: nat)
    requires i <= m <= j <= k <= |acts| && WriterActive(n, acts, m, j)
    ensures WriterActive(n, acts, i, k)
  {
  }

  /** A reader that has given up at least one attempt of its call. */
  predicate GaveUp(r: Reader) {
    if r.Returned? then !r.ok else !r.Away? && r.attempt > 0
  }

  /** A call that has given up an attempt has met the writer in the middle of a publication. */
  lemma {:induction false} RetryMeansOverlap(n: nat, acts: seq<Action>, r: nat, i: nat, j: nat)
    requires CallSpans(n, acts, r, i, j)
    requires GaveUp(ReaderAt(n, acts, r, j))
    ensures WriterActive(n, acts, i, j)
    decreases j
  {
    hide StateAt, WriterActive, CallSpans;
    CallStarts(n, acts, r, i, j);
    if j > i + 1 {
      var reader := ReaderAt(n, acts, r, j - 1);
      ReaderMoves(n, acts, r, j);
      if GaveUp(reader) {
        RetryMeansOverlap(n, acts, r, i, j - 1);
        ActiveWidens(n, acts, i, i, j - 1, j);
      } else if reader.Attempting? {
        OddMeansActive(n, acts, i, j - 1, j);
      } else {
        var m := Sampled(n, acts, r, i, j - 1);
        ChangeNeedsWriter(n, acts, m, j - 1);
        ActiveWidens(n, acts, i, m, j - 1, j);
      }
    }
  }

  /** How many attempts of a call have been given up. */
  function GivenUp(r: Reader): nat {
    match r
    case Attempting(k) => k
    case Loading(k, _, _) => k
    case Returned(ok, _, _) => if ok then 0 else 3
    case Away => 0
  }

  /** The writer was in the middle of a publication in a state from `i` up to, not including, `j`. */
  ghost predicate MetWithin(n: nat, acts: seq<Action>, i: nat, j: nat) {
    i < j <= |acts| + 1 && WriterActive(n, acts, i, j - 1)
  }

  /** Consecutive stretches of a call, one for each attempt given up, from its start at `cuts[0]` to its
      end before the next cut: in each of them it met the writer. */
  ghost predicate MetInEach(n: nat, acts: seq<Action>, i: nat, cuts: seq<nat>, j: nat) {
    && |cuts| > 0 && cuts[0] == i + 1 && cuts[|cuts| - 1] <= j <= |acts|
    && forall p, q | 0 <= p < q < |cuts| && q == p + 1 :: MetWithin(n, acts, cuts[p], cuts[q])
  }

  lemma OneMoreMet(n: nat, acts: seq<Action>, i: nat, cuts: seq<nat>, j: nat)
    requires MetInEach(n, acts, i, cuts, j) && j < |acts| && WriterActive(n, acts, cuts[|cuts| - 1], j)
    ensures MetInEach(n, acts, i, cuts + [j + 1], j + 1)
  {
    hide WriterActive;
  }

  lemma MetLonger(n: nat, acts: seq<Action>, i: nat, cuts: seq<nat>, j: nat)
    requires MetInEach(n, acts, i, cuts, j) && j < |acts|
    ensures MetInEach(n, acts, i, cuts, j + 1)
  {
    hide WriterActive;
  }

  /** The attempts of a call up to state `j`; `m` is when the current one loaded its first sequence number. */
  lemma {:induction false} Attempts(n: nat, acts: seq<Action>, r: nat, i: nat, j: nat) returns (cuts: seq<nat>, m: nat)
    requires CallSpans(n, acts, r, i, j)
    ensures j <= |acts| && MetInEach(n, acts, i, cuts, j)
    ensures var reader := ReaderAt(n, acts, r, j);
            && !(reader.Returned? && reader.ok) ==> |cuts| == GivenUp(reader) + 1
    ensures var reader := ReaderAt(n, acts, r, j);
            reader.Loading? ==> cuts[|cuts| - 1] <= m <= j && StateAt(n, acts, m).memory.sequence == reader.before
    decreases j
  {
    hide StateAt, CallSpans, ReaderAt, MetInEach, WriterActive;
    CallStarts(n, acts, r, i, j);
    if j == i + 1 {
      cuts, m := [j], j;
      FirstMet(n, acts, i);
    } else {
      cuts, m := Attempts(n, acts, r, i, j - 1);
      ReaderMoves(n, acts, r, j);
      ReaderInvariant(n, acts, r, j - 1);
      var reader, last := ReaderAt(n, acts, r, j - 1), cuts[|cuts| - 1];
      LastCut(n, acts, i, cuts, j - 1);
      if ReaderAt(n, acts, r, j) == reader {
        MetLonger(n, acts, i, cuts, j - 1);
      } else if reader.Attempting? && StateAt(n, acts, j - 1).memory.sequence % 2 != 0 {
        OddMeansActive(n, acts, last, j - 1, j - 1);
        OneMoreMet(n, acts, i, cuts, j - 1);
        cuts := cuts + [j];
      } else if reader.Attempting? {
        MetLonger(n, acts, i, cuts, j - 1);
        m := j - 1;
      } else if |reader.candidate| < CELLS || StateAt(n, acts, j - 1).memory.sequence == reader.before {
        MetLonger(n, acts, i, cuts, j - 1);
      } else {
        ChangeNeedsWriter(n, acts, m, j - 1);
        ActiveWidens(n, acts, last, m, j - 1, j - 1);
        OneMoreMet(n, acts, i, cuts, j - 1);
        cuts := cuts + [j];
      }
    }
  }

  lemma FirstMet(n: nat, acts: seq<Action>, i: nat)
    requires i < |acts|
    ensures MetInEach(n, acts, i, [i + 1], i + 1)
  {
  }

  lemma LastCut(n: nat, acts: seq<Action>, i: nat, cuts: seq<nat>, j: nat)
    requires MetInEach(n, acts, i, cuts, j)
    ensures |cuts| > 0 && cuts[|cuts| - 1] <= j <= |acts|
  {
  }

  /** A read fails only after three attempts, one after the other, in each of which it met the writer in
      the middle of a publication. */
  lemma FailureMeansThreeMeetings(n: nat, acts: seq<Action>, r: nat, i: nat, j: nat) returns (a: nat, b: nat, c: nat)
    requires CallSpans(n, acts, r, i, j)
    requires ReaderAt(n, acts, r, j).Returned? && !ReaderAt(n, acts, r, j).ok
    ensures i + 1 < a < b < c <= j
    ensures MetWithin(n, acts, i + 1, a) && MetWithin(n, acts, a, b) && MetWithin(n, acts, b, c)
  {
    hide StateAt, CallSpans, ReaderAt, WriterActive;
    var cuts, _ := Attempts(n, acts, r, i, j);
    assert |cuts| == 4;
    a, b, c := cuts[1], cuts[2], cuts[3];
    assert MetWithin(n, acts, cuts[0], cuts[1]) && MetWithin(n, acts, cuts[1], cuts[2]) && MetWithin(n, acts, cuts[2], cuts[3]);
  }

  /** A reader's loads of a memory that does not change. */
  function Loads(r: Reader, m: Memory, k: nat): Reader {
    if k == 0 then r else ReaderStep(Loads(r, m, k - 1), m)
  }

  lemma {:induction false} LoadsSoFar(m: Memory, k: nat)
    requires m.sequence % 2 == 0 && 1 <= k <= CELLS + 1
    ensures Loads(Attempting(0), m, k) == Loading(0, m.sequence, m.cells[..k - 1])
  {
    if k == 1 {
      assert Loads(Attempting(0), m, 0) == Attempting(0);
    } else {
      LoadsSoFar(m, k - 1);
      assert m.cells[..k - 1] == m.cells[..k - 2] + [m.cells[k - 2]];
    }
  }

  /** With the writer at rest the fourteen loads of the first attempt return what the memory holds. */
  lemma QuietLoads(m: Memory)
    requires m.sequence % 2 == 0
    ensures Loads(Attempting(0), m, CELLS + 2) == Returned(true, m.cells, m.sequence)
  {
    LoadsSoFar(m, CELLS + 1);
    assert m.cells[..CELLS] == m.cells;
  }

  /** The loads a reader may still make. */
  function LoadsLeft(r: Reader): int {
    match r
    case Attempting(k) => (CELLS + 2) * (MAX_READ_ATTEMPTS - k)
    case Loading(k, _, candidate) => (CELLS + 2) * (MAX_READ_ATTEMPTS - k) - 1 - |candidate|
    case _ => 0
  }

  /** Reading is wait-free: whatever the writer does, each load brings the return closer, so a call
      makes at most LoadsLeft(Attempting(0)) == 42 loads. */
  lemma ReadIsBounded(s: System, r: Reader)
    requires ReaderInv(s, r) && InProgress(r)
    ensures 0 <= LoadsLeft(ReaderStep(r, s.memory)) < LoadsLeft(r) <= 42
  {
  }
}
