/** The body of `open_device`'s `for (;;)` loop: after each `poll` wake, the
    `revents` of the control stream (`fdset[0]`) and of the device
    (`fdset[1]`) decide which handlers run, in which order, and whether the
    loop stops. */
module PollLoop {

  /** The `poll` event bits a `revents` field can report; a `revents` value
      is modelled as the set of its bits. */
  datatype PollEvent = PollIn | PollPri | PollOut | PollErr | PollHup | PollNval

  /** A handler the loop body can run. */
  datatype Action =
    | ErlcmdProcess   // `erlcmd_process(&handler)`: a command, or the parent hanging up
    | DeviceProcess   // `device_process(fd)`: a new input report
    | DeviceClosed    // `device_closed(fd)`: the device went away

  /** Whether the `for (;;)` goes round again or leaves through `break`. */
  datatype Next = Continue | Stop

  /** The `revents` a wake reports for the two descriptors. */
  datatype Wake = Wake(control: set<PollEvent>, device: set<PollEvent>)

  /** The handlers one wake runs and what the loop does next. */
  datatype Step = Step(actions: seq<Action>, next: Next)

  /** Position of each handler in the fixed order of the loop body. */
  function Rank(a: Action): nat
  {
    match a
    case ErlcmdProcess => 0
    case DeviceProcess => 1
    case DeviceClosed => 2
  }

  /** `fdset[0].revents & (POLLIN | POLLHUP)` */
  predicate ControlReady(w: Wake) { PollIn in w.control || PollHup in w.control }
  /** `fdset[1].revents & POLLIN` */
  predicate DeviceReadable(w: Wake) { PollIn in w.device }
  /** `fdset[1].revents & POLLHUP` */
  predicate DeviceHangup(w: Wake) { PollHup in w.device }

  /** The three tests of the loop body, in source order. */
  function WakeStep(w: Wake): Step
  {
    var command := if ControlReady(w) then [ErlcmdProcess] else [];
    var report := if DeviceReadable(w) then [DeviceProcess] else [];
    if DeviceHangup(w) then Step(command + report + [DeviceClosed], Stop)
    else Step(command + report, Continue)
  }

  /** Which handlers one wake runs, and in which order. */
  lemma WakeStepRouting(w: Wake)
    ensures var s := WakeStep(w);
      && (ErlcmdProcess in s.actions <==> ControlReady(w))
      && (DeviceProcess in s.actions <==> DeviceReadable(w))
      && (DeviceClosed in s.actions <==> DeviceHangup(w))
      && (s.next == Stop <==> DeviceHangup(w))
      // each handler at most once, in the order control stream, device read, device closed
      && (forall i, j :: 0 <= i < j < |s.actions| ==> Rank(s.actions[i]) < Rank(s.actions[j]))
  {
  }

  /** A device `POLLPRI` on its own starts no handler and does not stop the
      loop; neither do the other device bits next to it change anything. */
  lemma PriorityIgnored(w: Wake)
    ensures WakeStep(Wake(w.control, w.device + {PollPri})) == WakeStep(Wake(w.control, w.device - {PollPri}))
    ensures !ControlReady(w) ==> WakeStep(Wake(w.control, {PollPri})) == Step([], Continue)
  {
  }

  /** A wake with a device hangup ends with the disconnect handler, which
      does not run earlier in that wake. */
  lemma HangupEndsStep(w: Wake)
    requires DeviceHangup(w)
    ensures var acts := WakeStep(w).actions;
      |acts| > 0 && acts[|acts| - 1] == DeviceClosed && DeviceClosed !in acts[..|acts| - 1]
  {
  }

  /** One pass of the loop: the wake `poll` reports, and whether each handler
      it can start ends the process through `err(EXIT_FAILURE, …)` when it
      runs: `erlcmd_process` through a fatal device write reached by way of
      `device_handle_request`, `device_process` through a failed read.
      `device_closed` always returns. */
  datatype Round = Round(wake: Wake, commandExits: bool, readExits: bool)

  /** Running `a` in round `r` ends the process. */
  predicate ExitsIn(r: Round, a: Action)
  {
    match a
    case ErlcmdProcess => r.commandExits
    case DeviceProcess => r.readExits
    case DeviceClosed => false
  }

  /** Some handler the wake starts ends the process. */
  predicate Exits(r: Round)
  {
    (ControlReady(r.wake) && r.commandExits) || (DeviceReadable(r.wake) && r.readExits)
  }

  /** The round reaches `device_closed` and the `break`. */
  predicate Closes(r: Round)
  {
    DeviceHangup(r.wake) && !Exits(r)
  }

  /** The round is the last one: the process ends or the loop breaks. */
  predicate Ends(r: Round)
  {
    Exits(r) || DeviceHangup(r.wake)
  }

  /** The handlers that run in round `r`: the three tests of the loop body in
      source order, where a handler that ends the process leaves the later
      tests untried. */
  function RoundActions(r: Round): seq<Action>
  {
    var w := r.wake;
    var command := if ControlReady(w) then [ErlcmdProcess] else [];
    if ControlReady(w) && r.commandExits then command
    else
      var report := if DeviceReadable(w) then [DeviceProcess] else [];
      if DeviceReadable(w) && r.readExits then command + report
      else if DeviceHangup(w) then command + report + [DeviceClosed]
      else command + report
  }

  /** What one round runs: the wake's handlers in order, cut short right
      after the first one that ends the process. */
  lemma RoundOutcome(r: Round)
    ensures var acts := RoundActions(r);
      && |acts| <= |WakeStep(r.wake).actions| && acts == WakeStep(r.wake).actions[..|acts|]
      && (!Exits(r) ==> acts == WakeStep(r.wake).actions)
      && (Exits(r) ==> acts != [] && ExitsIn(r, acts[|acts| - 1]) && forall i :: 0 <= i < |acts| - 1 ==> !ExitsIn(r, acts[i]))
  {
  }

  /** `device_closed` runs in a round exactly when the round closes, and then
      as its last handler. */
  lemma RoundCloses(r: Round)
    ensures var acts := RoundActions(r);
      && (DeviceClosed in acts <==> Closes(r))
      && (Closes(r) ==> acts != [] && acts[|acts| - 1] == DeviceClosed && DeviceClosed !in acts[..|acts| - 1])
  {
  }

  /** The handlers a run of rounds starts, one round after the other. */
  function Performed(rs: seq<Round>): seq<Action>
  {
    if rs == [] then [] else Performed(rs[..|rs| - 1]) + RoundActions(rs[|rs| - 1])
  }

  lemma PerformedSnoc(rs: seq<Round>, r: Round)
    ensures Performed(rs + [r]) == Performed(rs) + RoundActions(r)
  {
    assert (rs + [r])[..|rs|] == rs;
  }

  /** Serving one more round of `rounds` adds exactly its handlers. */
  lemma PerformedPrefix(rounds: seq<Round>, served: nat)
    requires served < |rounds|
    ensures Performed(rounds[..served + 1]) == Performed(rounds[..served]) + RoundActions(rounds[served])
  {
    assert rounds[..served + 1] == rounds[..served] + [rounds[served]];
    PerformedSnoc(rounds[..served], rounds[served]);
  }

  /** Without a round that closes, the disconnect handler never runs. */
  lemma {:induction false} NoHangupNoClose(rs: seq<Round>)
    requires forall i :: 0 <= i < |rs| ==> !Closes(rs[i])
    ensures DeviceClosed !in Performed(rs)
  {
    if rs != [] {
      assert forall i :: 0 <= i < |rs| - 1 ==> rs[..|rs| - 1][i] == rs[i];
      NoHangupNoClose(rs[..|rs| - 1]);
      RoundCloses(rs[|rs| - 1]);
    }
  }

  /** A run of rounds whose last round closes and whose earlier rounds do not
      starts the disconnect handler exactly once, as its very last action. */
  lemma ClosedOnlyAtEnd(rs: seq<Round>)
    requires rs != [] && Closes(rs[|rs| - 1])
    requires forall i :: 0 <= i < |rs| - 1 ==> !Closes(rs[i])
    ensures var p := Performed(rs);
      p != [] && p[|p| - 1] == DeviceClosed && DeviceClosed !in p[..|p| - 1]
  {
    var n := |rs| - 1;
    var earlier, last := rs[..n], rs[n];
    assert rs == earlier + [last];
    assert forall i :: 0 <= i < n ==> earlier[i] == rs[i];
    PerformedSnoc(earlier, last);
    NoHangupNoClose(earlier);
    RoundCloses(last);
    ClosedLast(Performed(earlier), RoundActions(last));
  }

  /** Handlers without the disconnect handler, followed by handlers that end
      with it and hold it nowhere else, hold it only at the very end. */
  lemma ClosedLast(earlier: seq<Action>, acts: seq<Action>)
    requires DeviceClosed !in earlier
    requires acts != [] && acts[|acts| - 1] == DeviceClosed && DeviceClosed !in acts[..|acts| - 1]
    ensures var p := earlier + acts;
      p != [] && p[|p| - 1] == DeviceClosed && DeviceClosed !in p[..|p| - 1]
  {
    assert (earlier + acts)[..|earlier + acts| - 1] == earlier + acts[..|acts| - 1];
  }

  /** A run of rounds whose last round exits ends with the handler that
      ended the process. */
  lemma ExitedAtEnd(rs: seq<Round>)
    requires rs != [] && Exits(rs[|rs| - 1])
    ensures var p := Performed(rs);
      p != [] && ExitsIn(rs[|rs| - 1], p[|p| - 1])
  {
    var n := |rs| - 1;
    assert rs == rs[..n] + [rs[n]];
    PerformedSnoc(rs[..n], rs[n]);
    RoundOutcome(rs[n]);
  }

  /** How the run ends: still serving when the rounds run out, through the
      `break` after `device_closed`, or with the process ended by `err`. */
  datatype Ending = Serving | Closed | Exited

  /** How a round leaves the loop, if it does. */
  function EndingOf(r: Round): (e: Ending)
    ensures e == Serving <==> !Ends(r)
    ensures e == Closed <==> Closes(r)
    ensures e == Exited <==> Exits(r)
  {
    if Exits(r) then Exited else if DeviceHangup(r.wake) then Closed else Serving
  }

  /** What the handlers of a run that served the first `served` rounds and
      then ended as `ending` look like: the disconnect handler runs once, as
      the very last action, and only on the `break`; a process exit comes
      from the last handler run. */
  lemma LoopEnding(rounds: seq<Round>, served: nat, ending: Ending)
    requires served <= |rounds|
    requires forall i :: 0 <= i < served - 1 ==> !Ends(rounds[i])
    requires ending == (if served == 0 then Serving else EndingOf(rounds[served - 1]))
    ensures var p := Performed(rounds[..served]);
      && (ending != Closed ==> DeviceClosed !in p)
      && (ending == Closed ==> p != [] && p[|p| - 1] == DeviceClosed && DeviceClosed !in p[..|p| - 1])
      && (ending == Exited ==> p != [] && ExitsIn(rounds[served - 1], p[|p| - 1]))
  {
    var rs := rounds[..served];
    assert forall i :: 0 <= i < served ==> rs[i] == rounds[i];
    if ending == Closed {
      ClosedOnlyAtEnd(rs);
    } else {
      NoHangupNoClose(rs);
    }
    if ending == Exited {
      ExitedAtEnd(rs);
    }
  }

  /** The `for (;;)` loop over the rounds `poll` delivers. `served` is how many
      rounds it took, `performed` the handlers it ran, in order, and `ending`
      how it ended. */
  method RunLoop(rounds: seq<Round>) returns (performed: seq<Action>, served: nat, ending: Ending)
    ensures served <= |rounds| && performed == Performed(rounds[..served])
    // it ends exactly at the first round that hangs up or exits
    ensures forall i :: 0 <= i < |rounds| && i < served - 1 ==> !Ends(rounds[i])
    ensures ending == Serving <==> forall i :: 0 <= i < |rounds| ==> !Ends(rounds[i])
    ensures ending == Serving ==> served == |rounds|
    ensures ending != Serving ==> served > 0 && Ends(rounds[served - 1])
    ensures ending == Closed <==> served > 0 && Closes(rounds[served - 1])
    // the disconnect handler runs once, as the very last action, and only on
    // the `break`; a process exit comes from the last handler run
    ensures ending != Closed ==> DeviceClosed !in performed
    ensures ending == Closed ==> performed != [] && performed[|performed| - 1] == DeviceClosed && DeviceClosed !in performed[..|performed| - 1]
    ensures ending == Exited ==> performed != [] && ExitsIn(rounds[served - 1], performed[|performed| - 1])
  {
    performed, served, ending := [], 0, Serving;
    while served < |rounds| && ending == Serving
      invariant served <= |rounds| && performed == Performed(rounds[..served])
      invariant forall i :: 0 <= i < served - 1 ==> !Ends(rounds[i])
      invariant ending == (if served == 0 then Serving else EndingOf(rounds[served - 1]))
    {
      var round := rounds[served];
      assert forall i :: 0 <= i < served ==> !Ends(rounds[i]);
      PerformedPrefix(rounds, served);
      performed := performed + RoundActions(round);
      served := served + 1;
      ending := EndingOf(round);
    }
    LoopEnding(rounds, served, ending);
  }
}
