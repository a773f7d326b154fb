/** The communication thread over the simulated bus: receive one frame, publish it if it is a
    command, transmit the joint state, repeat.  The bus loops every transmission back. */
module CanLoop {
  import opened JointTypes
  import opened Codec
  import RobotDynamics

  /** What the environment contributes to one turn of the loop: the frames other threads transmit
      before its receive and before its transmit, and what its read of the state buffer gave. */
  datatype Turn = Turn(before: seq<CanFrame>, between: seq<CanFrame>, state: Option<JointState>)

  /** The bus and what the loop has done: `received` and `published` are histories. */
  datatype Bus = Bus(queue: seq<CanFrame>, received: seq<CanFrame>, published: seq<JointCommand>)

  /** Every state inside the limits of a joint of the robot can be encoded. */
  lemma RobotStatesAreEncodable(i: nat, state: JointState)
    requires i < JOINT_COUNT && RobotDynamics.DEFAULT_LIMITS[i].Allows(state)
    ensures EncodableState(state)
  {
  }

  predicate EncodableTurn(turn: Turn) {
    turn.state.Some? ==> EncodableState(turn.state.value)
  }

  /** The commands among frames, in order. */
  function Commands(frames: seq<CanFrame>): seq<JointCommand> {
    if frames == [] then []
    else
      var c := DecodeCommand(frames[|frames| - 1]);
      Commands(frames[..|frames| - 1]) + if c.Some? then [c.value] else []
  }

  lemma CommandsOfOne(frame: CanFrame)
    ensures Commands([frame]) == if DecodeCommand(frame).Some? then [DecodeCommand(frame).value] else []
  {
    assert [frame][..0] == [];
  }

  function Receive(bus: Bus): Bus {
    if bus.queue == [] then bus
    else Bus(bus.queue[1..], bus.received + [bus.queue[0]], bus.published + Commands([bus.queue[0]]))
  }

  function Transmission(turn: Turn): seq<CanFrame> {
    if turn.state.Some? then [StateFrame(turn.state.value)] else []
  }

  function TakeTurn(bus: Bus, turn: Turn): Bus {
    var arrived := bus.(queue := bus.queue + turn.before);
    var read := Receive(arrived);
    read.(queue := read.queue + turn.between + Transmission(turn))
  }

  function TakeTurns(bus: Bus, turns: seq<Turn>): Bus {
    if turns == [] then bus else TakeTurn(TakeTurns(bus, turns[..|turns| - 1]), turns[|turns| - 1])
  }

  lemma NextTurn(bus: Bus, turns: seq<Turn>, k: nat)
    requires k < |turns|
    ensures TakeTurns(bus, turns[..k + 1]) == TakeTurn(TakeTurns(bus, turns[..k]), turns[k])
  {
    assert turns[..k + 1][..k] == turns[..k];
  }

  // ---------------------------------------------------------------- the program

  class SimulatedCan {
    var receivedFrames: seq<CanFrame>

    constructor ()
      ensures receivedFrames == []
    {
      receivedFrames := [];
    }

    method Receive(given: CanFrame) returns (ok: bool, frame: CanFrame)
      modifies this
      ensures ok <==> old(receivedFrames) != []
      ensures ok ==> [frame] + receivedFrames == old(receivedFrames)
      ensures !ok ==> frame == given && receivedFrames == []
    {
      frame := given;
      if receivedFrames == [] {
        return false, frame;
      }
      frame := receivedFrames[0];
      receivedFrames := receivedFrames[1..];
      return true, frame;
    }

    method Transmit(frame: CanFrame) returns (ok: bool)
      modifies this
      ensures ok && receivedFrames == old(receivedFrames) + [frame]
    {
      receivedFrames := receivedFrames + [frame];
      ok := true;
    }
  }

  class CanCommunication {
    const can: SimulatedCan

    /** Every command handed to the command buffer, in order. */
    var published: seq<JointCommand>

    constructor (can: SimulatedCan)
      ensures this.can == can && published == []
    {
      this.can, published := can, [];
    }

    /** Runs for as many turns as the environment has: the queue and the published commands are those
        of the turns taken one after the other. */
    method Run(turns: seq<Turn>)
      requires forall k | 0 <= k < |turns| :: EncodableTurn(turns[k])
      modifies this, can
      ensures var bus := TakeTurns(Bus(old(can.receivedFrames), [], old(published)), turns);
              can.receivedFrames == bus.queue && published == bus.published
    {
      ghost var start := Bus(can.receivedFrames, [], published);
      var turn := 0;
      while turn < |turns|
        invariant 0 <= turn <= |turns|
        invariant var bus := TakeTurns(start, turns[..turn]);
                  can.receivedFrames == bus.queue && published == bus.published
      {
        hide TakeTurn, TakeTurns;
        NextTurn(start, turns, turn);
        RunOnce(turns[turn], TakeTurns(start, turns[..turn]));
        turn := turn + 1;
      }
      assert turns[..turn] == turns;
    }

    /** One turn of the loop, from a queue and a history that are those of `bus`. */
    method RunOnce(turn: Turn, ghost bus: Bus)
      requires EncodableTurn(turn) && can.receivedFrames == bus.queue && published == bus.published
      modifies this, can
      ensures can.receivedFrames == TakeTurn(bus, turn).queue && published == TakeTurn(bus, turn).published
    {
      hide Commands;
      assert bus.published + [] == bus.published;
      can.receivedFrames := can.receivedFrames + turn.before;
      var ok, frame := can.Receive(EMPTY_FRAME);
      if ok {
        var isCommand, command := ReadCommand(frame, JointCommand(0.0));
        CommandsOfOne(frame);
        if isCommand {
          published := published + [command];
        }
      }
      can.receivedFrames := can.receivedFrames + turn.between;
      TransmitState(turn.state);
    }

    method TransmitState(state: Option<JointState>)
      requires state.Some? ==> EncodableState(state.value)
      modifies can
      ensures can.receivedFrames == old(can.receivedFrames) + if state.Some? then [StateFrame(state.value)] else []
    {
      if state.None? {
        return;
      }
      var frame := EncodeState(state.value);
      var _ := can.Transmit(frame);
    }
  }

  // ---------------------------------------------------------------- conservation and order

  /** Everything put on the bus during the turns, in order. */
  function Arrivals(turns: seq<Turn>): seq<CanFrame> {
    if turns == [] then []
    else
      var turn := turns[|turns| - 1];
      Arrivals(turns[..|turns| - 1]) + turn.before + turn.between + Transmission(turn)
  }

  /** What other threads put on the bus, in order. */
  function External(turns: seq<Turn>): seq<CanFrame> {
    if turns == [] then [] else External(turns[..|turns| - 1]) + turns[|turns| - 1].before + turns[|turns| - 1].between
  }

  lemma {:induction false} CommandsOfConcat(a: seq<CanFrame>, b: seq<CanFrame>)
    ensures Commands(a + b) == Commands(a) + Commands(b)
  {
    if b == [] {
      assert a + b == a;
    } else {
      var n := |b| - 1;
      CommandsOfConcat(a, b[..n]);
      assert (a + b)[..|a + b| - 1] == a + b[..n];
    }
  }

  lemma TransmissionHasNoCommand(turn: Turn)
    ensures Commands(Transmission(turn)) == []
  {
    if turn.state.Some? { CommandsOfOne(StateFrame(turn.state.value)); }
  }

  /** No frame is lost, made up or overtaken: what was received followed by what is queued is what was
      queued at first followed by what arrived. */
  lemma {:induction false} FirstInFirstOut(queue: seq<CanFrame>, sent: seq<JointCommand>, turns: seq<Turn>)
    ensures var bus := TakeTurns(Bus(queue, [], sent), turns);
            && bus.received + bus.queue == queue + Arrivals(turns)
            && bus.published == sent + Commands(bus.received)
  {
    hide Commands, TakeTurn;
    if turns != [] {
      var n := |turns| - 1;
      FirstInFirstOut(queue, sent, turns[..n]);
      TurnKeepsOrder(TakeTurns(Bus(queue, [], sent), turns[..n]), sent, queue + Arrivals(turns[..n]), turns[n]);
      assert queue + Arrivals(turns) == queue + Arrivals(turns[..n]) + turns[n].before + turns[n].between + Transmission(turns[n]);
    } else {
      NoCommands();
    }
  }

  lemma NoCommands()
    ensures Commands([]) == []
  {
  }

  lemma TurnKeepsOrder(bus: Bus, sent: seq<JointCommand>, all: seq<CanFrame>, turn: Turn)
    requires bus.received + bus.queue == all && bus.published == sent + Commands(bus.received)
    ensures var bus' := TakeTurn(bus, turn);
            && bus'.received + bus'.queue == all + turn.before + turn.between + Transmission(turn)
            && bus'.published == sent + Commands(bus'.received)
  {
    hide Commands, Receive;
    var arrived := bus.(queue := bus.queue + turn.before);
    assert arrived.received + arrived.queue == all + turn.before;
    ReceiveKeepsOrder(arrived, sent);
    var read := Receive(arrived);
    assert read.received + (read.queue + turn.between + Transmission(turn))
        == (read.received + read.queue) + turn.between + Transmission(turn);
  }

  lemma ReceiveKeepsOrder(bus: Bus, sent: seq<JointCommand>)
    requires bus.published == sent + Commands(bus.received)
    ensures Receive(bus).received + Receive(bus).queue == bus.received + bus.queue
    ensures Receive(bus).published == sent + Commands(Receive(bus).received)
  {
    if bus.queue != [] { CommandsOfConcat(bus.received, [bus.queue[0]]); }
  }

  lemma {:induction false} LoopbackCarriesNoCommand(turns: seq<Turn>)
    ensures Commands(Arrivals(turns)) == Commands(External(turns))
  {
    if turns != [] {
      var n := |turns| - 1;
      var turn := turns[n];
      LoopbackCarriesNoCommand(turns[..n]);
      CommandsOfConcat(External(turns[..n]), turn.before);
      CommandsOfConcat(External(turns[..n]) + turn.before, turn.between);
      CommandsOfConcat(Arrivals(turns[..n]), turn.before);
      CommandsOfConcat(Arrivals(turns[..n]) + turn.before, turn.between);
      CommandsOfConcat(Arrivals(turns[..n]) + turn.before + turn.between, Transmission(turn));
      TransmissionHasNoCommand(turn);
    }
  }

  /** After the commands `sent` in earlier runs, the published commands followed by those still queued are
      exactly the commands that were queued at first or sent by others, in order.  A looped-back state is never published as a command. */
  lemma PublishedInOrder(queue: seq<CanFrame>, sent: seq<JointCommand>, turns: seq<Turn>)
    ensures var bus := TakeTurns(Bus(queue, [], sent), turns);
            bus.published + Commands(bus.queue) == sent + Commands(queue) + Commands(External(turns))
  {
    hide Commands, TakeTurns, Arrivals, External;
    var bus := TakeTurns(Bus(queue, [], sent), turns);
    FirstInFirstOut(queue, sent, turns);
    CommandsOfConcat(bus.received, bus.queue);
    CommandsOfConcat(queue, Arrivals(turns));
    LoopbackCarriesNoCommand(turns);
    Associate(sent, Commands(bus.received), Commands(bus.queue));
    Associate(sent, Commands(queue), Commands(External(turns)));
  }

  lemma Associate(a: seq<JointCommand>, b: seq<JointCommand>, c: seq<JointCommand>)
    ensures a + b + c == a + (b + c)
  {
  }

  /** One frame is received a turn, as long as there is one, and never more. */
  lemma {:induction false} ReceivesOneATurn(queue: seq<CanFrame>, sent: seq<JointCommand>, turns: seq<Turn>)
    ensures var bus := TakeTurns(Bus(queue, [], sent), turns);
            (if |turns| <= |queue| then |turns| else |queue|) <= |bus.received| <= |turns|
  {
    if turns != [] {
      FirstInFirstOut(queue, sent, turns[..|turns| - 1]);
      ReceivesOneATurn(queue, sent, turns[..|turns| - 1]);
    }
  }

  /** A turn receives the oldest frame whenever there is one, also if it has only just been sent, and it
      takes only that one. */
  lemma ReceivesWheneverItCan(queue: seq<CanFrame>, sent: seq<JointCommand>, turns: seq<Turn>, k: nat)
    requires k < |turns|
    ensures var bus, bus' := TakeTurns(Bus(queue, [], sent), turns[..k]), TakeTurns(Bus(queue, [], sent), turns[..k + 1]);
            var waiting := bus.queue + turns[k].before;
            bus'.received == bus.received + if waiting == [] then [] else [waiting[0]]
  {
    NextTurn(Bus(queue, [], sent), turns, k);
    hide TakeTurns;
    var bus := TakeTurns(Bus(queue, [], sent), turns[..k]);
    assert bus.received + [] == bus.received;
  }

  /** The commands among the frames queued at first are all published, first and in order, after as
      many turns as there were frames. */
  lemma InitialCommandsArePublished(queue: seq<CanFrame>, sent: seq<JointCommand>, turns: seq<Turn>)
    requires |turns| >= |queue|
    ensures sent + Commands(queue) <= TakeTurns(Bus(queue, [], sent), turns).published
  {
    hide Commands, TakeTurns, Arrivals;
    var bus := TakeTurns(Bus(queue, [], sent), turns);
    FirstInFirstOut(queue, sent, turns);
    ReceivesOneATurn(queue, sent, turns);
    var rest := bus.received[|queue|..];
    assert bus.received == queue + rest by { PrefixOfConcat(bus.received, bus.queue, queue, Arrivals(turns)); }
    CommandsOfConcat(queue, rest);
    Associate(sent, Commands(queue), Commands(rest));
  }

  lemma PrefixOfConcat(a: seq<CanFrame>, b: seq<CanFrame>, c: seq<CanFrame>, d: seq<CanFrame>)
    requires a + b == c + d && |a| >= |c|
    ensures a == c + a[|c|..]
  {
    assert (a + b)[..|c|] == (c + d)[..|c|] == c;
    assert (a + b)[..|c|] == a[..|c|];
  }

  /** The loop's own transmissions never pile up: apart from what others send, the queue stays as long
      as it was, or at one frame. */
  lemma {:induction false} QueueIsBounded(queue: seq<CanFrame>, sent: seq<JointCommand>, turns: seq<Turn>)
    ensures |TakeTurns(Bus(queue, [], sent), turns).queue| <= (if |queue| > 1 then |queue| else 1) + |External(turns)|
  {
    if turns != [] { QueueIsBounded(queue, sent, turns[..|turns| - 1]); }
  }

  // ---------------------------------------------------------------- what the loop itself puts on the bus

  /** How many frames a turn brings: those of others, and one if its state could be read. */
  function Brings(turn: Turn): nat {
    |turn.before| + |turn.between| + if turn.state.Some? then 1 else 0
  }

  /** How many frames there have been on the bus, given `initial` of them at first. */
  function Total(initial: nat, turns: seq<Turn>): (total: nat)
    ensures total >= initial
  {
    if turns == [] then initial else Total(initial, turns[..|turns| - 1]) + Brings(turns[|turns| - 1])
  }

  /** `frame` says what `state` is, to the resolution of the bus. */
  ghost predicate Tells(frame: CanFrame, state: JointState) {
    && DecodeState(frame).Some?
    && Rounded(DecodeState(frame).value.position, state.position)
    && Rounded(DecodeState(frame).value.velocity, state.velocity)
  }

  /** `all`, from `start` on, holds what a turn brings: what others sent before the receive, what they
      sent after it, and then a frame that tells the state that was read, if one was. */
  ghost predicate Brought(all: seq<CanFrame>, start: nat, turn: Turn) {
    var first, second := start + |turn.before|, start + |turn.before| + |turn.between|;
    && start + Brings(turn) <= |all|
    && all[start..first] == turn.before && all[first..second] == turn.between
    && (turn.state.Some? ==> Tells(all[second], turn.state.value))
  }

  /** The whole content of the bus, place by place: the frames received and those still queued are the
      initial ones followed by what each turn brought, in the order of the turns, and nothing else.  In
      particular every state that could be read is transmitted once. */
  lemma {:induction false} EveryStateIsSent(queue: seq<CanFrame>, sent: seq<JointCommand>, turns: seq<Turn>, k: nat)
    requires k < |turns| && EncodableTurn(turns[k])
    ensures var bus := TakeTurns(Bus(queue, [], sent), turns);
            var all := bus.received + bus.queue;
            && |all| == Total(|queue|, turns) && all[..|queue|] == queue
            && Brought(all, Total(|queue|, turns[..k]), turns[k])
  {
    hide TakeTurns, Brought;
    FirstInFirstOut(queue, sent, turns);
    ArrivedInPlace(queue, turns, k);
    assert (queue + Arrivals(turns))[..|queue|] == queue;
  }

  lemma {:induction false} ArrivedInPlace(queue: seq<CanFrame>, turns: seq<Turn>, k: nat)
    requires k < |turns| && EncodableTurn(turns[k])
    ensures |queue + Arrivals(turns)| == Total(|queue|, turns)
    ensures Brought(queue + Arrivals(turns), Total(|queue|, turns[..k]), turns[k])
  {
    hide Total, Arrivals, Brought, EncodableTurn;
    var n := |turns| - 1;
    ArrivedTotal(queue, turns);
    ArrivedTotal(queue, turns[..n]);
    LastArrivals(queue, turns);
    if k == n {
      TurnInPlace(queue + Arrivals(turns[..n]), turns[n]);
    } else {
      assert turns[..n][..k] == turns[..k] && turns[..n][k] == turns[k];
      ArrivedInPlace(queue, turns[..n], k);
      StaysInPlace(queue + Arrivals(turns[..n]), Total(|queue|, turns[..k]), turns[k], Arrived(turns[n]));
    }
  }

  function Arrived(turn: Turn): seq<CanFrame> {
    turn.before + turn.between + Transmission(turn)
  }

  lemma LastArrivals(queue: seq<CanFrame>, turns: seq<Turn>)
    requires turns != []
    ensures queue + Arrivals(turns) == queue + Arrivals(turns[..|turns| - 1]) + Arrived(turns[|turns| - 1])
  {
    hide Transmission, Arrivals;
    var turn, earlier := turns[|turns| - 1], Arrivals(turns[..|turns| - 1]);
    ArrivalsEnd(turns);
    Regroup(queue, earlier, turn.before, turn.between, Transmission(turn));
  }

  lemma ArrivalsEnd(turns: seq<Turn>)
    requires turns != []
    ensures var turn := turns[|turns| - 1];
            Arrivals(turns) == Arrivals(turns[..|turns| - 1]) + turn.before + turn.between + Transmission(turn)
  {
    hide Transmission;
  }

  lemma Regroup(q: seq<CanFrame>, a: seq<CanFrame>, b: seq<CanFrame>, c: seq<CanFrame>, d: seq<CanFrame>)
    ensures q + (a + b + c + d) == q + a + (b + c + d)
  {
  }

  lemma {:induction false} ArrivedTotal(queue: seq<CanFrame>, turns: seq<Turn>)
    ensures |queue + Arrivals(turns)| == Total(|queue|, turns)
  {
    if turns != [] { ArrivedTotal(queue, turns[..|turns| - 1]); }
  }

  lemma TurnInPlace(earlier: seq<CanFrame>, turn: Turn)
    requires EncodableTurn(turn)
    ensures Brought(earlier + Arrived(turn), |earlier|, turn)
  {
    if turn.state.Some? { StateRoundTrip(turn.state.value); }
    hide Codec.StateFrame, Codec.DecodeState, Codec.Rounded;
  }

  lemma StaysInPlace(all: seq<CanFrame>, start: nat, turn: Turn, more: seq<CanFrame>)
    requires Brought(all, start, turn)
    ensures Brought(all + more, start, turn)
  {
    hide Tells;
    var first, second := start + |turn.before|, start + |turn.before| + |turn.between|;
    assert (all + more)[start..first] == all[start..first] && (all + more)[first..second] == all[first..second];
  }
}
