/** The handshake between the update installer and the running client. */
module Handshake {

  // The new installer waits, over a named pipe, for the running client (the origin) to commit, to authorise its exit
  // and to be gone before it changes any file. Installer and origin take turns in any order. The origin is arbitrary:
  // it may write any byte, disconnect, exit or hang at any moment. Each installer step is one operating-system call,
  // and `Reply` is what the system answered.

  const READY := 82
  const COMMIT := 67
  const ACK := 65
  const EXIT_OK := 69

  /** What the installer can verify before it announces itself. */
  datatype Identity = Identity(
    token: bool, version: bool, channel: bool, hash: bool,  // command line and payload
    existing: bool, image: bool, origin: bool,              // the installation and the origin's executable
    server: bool)                                           // the process that owns the pipe
  {
    predicate Arguments() { token && version && channel && hash }
    predicate Process() { existing && image && origin }
    predicate Good() { Arguments() && Process() && server }
  }

  /** Where the installer is; `wait` is the time already spent in a polling loop. */
  datatype Phase =
    | CheckArguments | CheckProcess | Connect | CheckServer | SendReady
    | AwaitCommit(wait: nat) | SendAck | AwaitExitOk(wait: nat)
    | AwaitExit(wait: nat) | Peek(wait: nat) | Settle
    | Granted | Installed | Aborted
  {
    predicate Terminal() { Installed? || Aborted? }
  }

  /** A process closes its handles before its process object is signalled. */
  datatype Origin = Running | Closing | Gone

  datatype Event = Sent(b: int) | Got(b: int) | SawDisconnect | SawExit | Marked

  datatype State = State(
    id: Identity, timeout: nat, phase: Phase,
    origin: Origin, serverOpen: bool,
    written: seq<int>, consumed: nat,  // bytes from the origin, and how many the installer read
    replied: seq<int>, seen: nat,      // bytes from the installer, and how many the origin read
    log: seq<Event>,                   // what the installer did and observed
    marker: bool)                      // the destructive phase has run
  {
    predicate Unread() { consumed < |written| }
  }

  datatype Reply = Done | Data | Empty | Broken | Exited | TimedOut | Fault

  datatype OriginAct = Write(b: int) | Read | Disconnect | BeginExit | FinishExit

  datatype Action = Installer(reply: Reply) | Client(act: OriginAct)

  // ---------------------------------------------------------------- steps

  /** Which answers the system can give. A closed pipe may still hold bytes that can be read. */
  predicate Possible(s: State, r: Reply) {
    match s.phase
    case CheckArguments => r.Done? || r.Fault?
    case CheckProcess => r.Done? || r.Fault?
    case CheckServer => r.Done? || r.Fault?
    case Connect => r.Fault? || (if s.serverOpen then r.Done? else r.Broken?)
    case SendReady => r.Fault? || (if s.serverOpen then r.Done? else r.Broken?)
    case SendAck => r.Fault? || (if s.serverOpen then r.Done? else r.Broken?)
    case AwaitCommit(_) => r.Fault? || PossibleRead(s, r)
    case AwaitExitOk(_) => r.Fault? || PossibleRead(s, r)
    case AwaitExit(_) => r.Fault? || (if s.origin.Gone? then r.Exited? else r.TimedOut?)
    case Settle => r.Fault? || (if s.origin.Gone? then r.Exited? else r.TimedOut?)
    case Peek(_) => (r.Done? && (s.serverOpen || s.Unread())) || (r.Broken? && !s.serverOpen)
    case Granted => r.Done?
    case Installed => false
    case Aborted => false
  }

  predicate PossibleRead(s: State, r: Reply) {
    (r.Data? && s.Unread()) || (r.Empty? && !s.Unread() && s.serverOpen) || (r.Broken? && !s.serverOpen)
  }

  function Abort(s: State): State { s.(phase := Aborted) }

  function Send(s: State, b: int, next: Phase): State {
    s.(phase := next, replied := s.replied + [b], log := s.log + [Sent(b)])
  }

  /** One turn of the read loop: the expected byte, another poll, or failure. */
  function ReadExpected(s: State, r: Reply, expected: int, wait: nat, again: Phase, next: Phase): State
    requires r.Data? ==> s.Unread()
  {
    if r.Data? then
      if s.written[s.consumed] != expected then Abort(s)
      else s.(phase := next, consumed := s.consumed + 1, log := s.log + [Got(expected)])
    else if r.Empty? && wait < s.timeout then s.(phase := again)
    else Abort(s)
  }

  function InstallerStep(s: State, r: Reply): State
    requires Possible(s, r)
  {
    match s.phase
    case CheckArguments => if r.Done? && s.id.Arguments() then s.(phase := CheckProcess) else Abort(s)
    case CheckProcess => if r.Done? && s.id.Process() then s.(phase := Connect) else Abort(s)
    case Connect => if r.Done? then s.(phase := CheckServer) else Abort(s)
    case CheckServer => if r.Done? && s.id.server then s.(phase := SendReady) else Abort(s)
    case SendReady => if r.Done? then Send(s, READY, AwaitCommit(0)) else Abort(s)
    case AwaitCommit(wait) => ReadExpected(s, r, COMMIT, wait, AwaitCommit(wait + 25), SendAck)
    case SendAck => if r.Done? then Send(s, ACK, AwaitExitOk(0)) else Abort(s)
    case AwaitExitOk(wait) => ReadExpected(s, r, EXIT_OK, wait, AwaitExitOk(wait + 25), AwaitExit(0))
    case AwaitExit(wait) =>
      if r.Exited? then s.(phase := Granted, log := s.log + [SawExit])
      else if r.TimedOut? then s.(phase := Peek(wait))
      else Abort(s)
    case Peek(wait) =>
      if r.Broken? then s.(phase := Settle, log := s.log + [SawDisconnect])
      else if wait + 25 >= s.timeout then Abort(s)
      else s.(phase := AwaitExit(wait + 25))
    case Settle => if r.Exited? then s.(phase := Granted, log := s.log + [SawExit]) else Abort(s)
    case Granted => s.(phase := Installed, marker := true, log := s.log + [Marked])
    case _ => s
  }

  predicate ClientCan(s: State, a: OriginAct) {
    match a
    case Write(_) => s.origin.Running? && s.serverOpen
    case Read => s.origin.Running? && s.serverOpen && s.seen < |s.replied|
    case Disconnect => s.origin.Running? && s.serverOpen
    case BeginExit => s.origin.Running?
    case FinishExit => s.origin.Closing?
  }

  function ClientStep(s: State, a: OriginAct): State
    requires ClientCan(s, a)
  {
    match a
    case Write(b) => s.(written := s.written + [b])
    case Read => s.(seen := s.seen + 1)
    case Disconnect => s.(serverOpen := false)
    case BeginExit => s.(origin := Closing, serverOpen := false)
    case FinishExit => s.(origin := Gone)
  }

  predicate Enabled(s: State, a: Action) {
    match a
    case Installer(r) => Possible(s, r)
    case Client(act) => ClientCan(s, act)
  }

  function Apply(s: State, a: Action): State
    requires Enabled(s, a)
  {
    match a
    case Installer(r) => InstallerStep(s, r)
    case Client(act) => ClientStep(s, act)
  }

  predicate Initial(s: State) {
    && s.phase == CheckArguments && s.origin == Running && s.serverOpen && !s.marker
    && s.written == [] && s.consumed == 0 && s.replied == [] && s.seen == 0 && s.log == []
  }

  /** A run: every action is enabled when its turn comes. */
  predicate Runs(s: State, acts: seq<Action>)
    decreases |acts|
  {
    acts == [] || (Enabled(s, acts[0]) && Runs(Apply(s, acts[0]), acts[1..]))
  }

  function After(s: State, acts: seq<Action>): State
    requires Runs(s, acts)
    decreases |acts|
  {
    if acts == [] then s else After(Apply(s, acts[0]), acts[1..])
  }

  // ---------------------------------------------------------------- the invariant

  /** The four bytes in their order, as far as the installer has come. */
  const EXCHANGE := [Sent(READY), Got(COMMIT), Sent(ACK), Got(EXIT_OK)]

  /** How many bytes of the exchange are behind the installer. */
  function Exchanged(p: Phase): nat {
    match p
    case AwaitCommit(_) => 1
    case SendAck => 2
    case AwaitExitOk(_) => 3
    case AwaitExit(_) => 4
    case Peek(_) => 4
    case Settle => 4
    case Granted => 4
    case Installed => 4
    case _ => 0
  }

  /** What follows the exchange in the installer's log. */
  predicate Tail(s: State) {
    match s.phase
    case Settle => s.log == EXCHANGE + [SawDisconnect]
    case Granted => s.log == EXCHANGE + [SawExit] || s.log == EXCHANGE + [SawDisconnect, SawExit]
    case Installed => s.log == EXCHANGE + [SawExit, Marked] || s.log == EXCHANGE + [SawDisconnect, SawExit, Marked]
    case _ => s.log == EXCHANGE[..Exchanged(s.phase)]
  }

  predicate Checked(s: State) {
    match s.phase
    case CheckArguments => true
    case CheckProcess => s.id.Arguments()
    case Connect => s.id.Arguments() && s.id.Process()
    case CheckServer => s.id.Arguments() && s.id.Process()
    case _ => s.id.Good()
  }

  predicate Invariant(s: State) {
    && s.consumed <= |s.written| && s.seen <= |s.replied|
    && (!s.origin.Running? ==> !s.serverOpen)
    && (s.marker <==> s.phase.Installed?)
    && (!s.phase.Aborted? ==>
        && Checked(s) && Tail(s)
        && s.consumed == Exchanged(s.phase) / 2
        && s.written[..s.consumed] == [COMMIT, EXIT_OK][..s.consumed]
        && s.replied == [READY, ACK][..(Exchanged(s.phase) + 1) / 2]
        && (s.phase.Settle? ==> !s.serverOpen)
        && (s.phase.Granted? || s.phase.Installed? ==> s.origin.Gone?))
  }

  lemma {:induction false} StepKeepsInvariant(s: State, a: Action)
    requires Invariant(s) && Enabled(s, a)
    ensures Invariant(Apply(s, a))
  {
    match a
    case Installer(r) => InstallerKeepsInvariant(s, r);
    case Client(act) => ClientKeepsInvariant(s, act);
  }

  lemma {:induction false} ClientKeepsInvariant(s: State, act: OriginAct)
    requires Invariant(s) && ClientCan(s, act)
    ensures Invariant(ClientStep(s, act))
  {
    assert ClientStep(s, act).written[..s.consumed] == s.written[..s.consumed];
  }

  lemma {:induction false} InstallerKeepsInvariant(s: State, r: Reply)
    requires Invariant(s) && Possible(s, r)
    ensures Invariant(InstallerStep(s, r))
  {
    if s.phase.AwaitCommit? || s.phase.AwaitExitOk? {
      ReadKeepsInvariant(s, r);
    }
  }

  lemma {:induction false} ReadKeepsInvariant(s: State, r: Reply)
    requires Invariant(s) && Possible(s, r) && (s.phase.AwaitCommit? || s.phase.AwaitExitOk?)
    ensures Invariant(InstallerStep(s, r))
  {
    var t := InstallerStep(s, r);
    if r.Data? && !t.phase.Aborted? {
      assert t.written[..t.consumed] == s.written[..s.consumed] + [s.written[s.consumed]];
    }
  }

  // ---------------------------------------------------------------- safety over whole runs

  lemma {:induction false} RunKeepsInvariant(s: State, acts: seq<Action>)
    requires Invariant(s) && Runs(s, acts)
    ensures Invariant(After(s, acts))
    decreases |acts|
  {
    if acts != [] {
      StepKeepsInvariant(s, acts[0]);
      RunKeepsInvariant(Apply(s, acts[0]), acts[1..]);
    }
  }

  lemma {:induction false} FactsNeverChange(s: State, acts: seq<Action>)
    requires Runs(s, acts)
    ensures After(s, acts).id == s.id && s.written <= After(s, acts).written
    decreases |acts|
  {
    if acts != [] {
      FactsNeverChange(Apply(s, acts[0]), acts[1..]);
    }
  }

  /**
   Main result: whatever the origin does, no file changes before every identity check has passed, the four
   bytes have been exchanged in order, and the origin's process is gone.
   */
  lemma {:induction false} Safety(s: State, acts: seq<Action>)
    requires Initial(s) && Runs(s, acts) && After(s, acts).marker
    ensures var t := After(s, acts);
            var exchange := [Sent(82), Got(67), Sent(65), Got(69)];
            && s.id.token && s.id.version && s.id.channel && s.id.hash
            && s.id.existing && s.id.image && s.id.origin && s.id.server
            && t.origin.Gone? && [67, 69] <= t.written && t.replied == [82, 65]
            && (t.log == exchange + [SawExit, Marked] || t.log == exchange + [SawDisconnect, SawExit, Marked])
  {
    RunKeepsInvariant(s, acts);
    FactsNeverChange(s, acts);
  }

  /** A disconnect before the origin has written both of its bytes, in order, always ends in failure. */
  lemma {:induction false} EarlyDisconnectAborts(s: State, acts: seq<Action>)
    requires Invariant(s) && Runs(s, acts) && !s.serverOpen && !([COMMIT, EXIT_OK] <= s.written)
    ensures !After(s, acts).marker && !After(s, acts).phase.Installed?
    decreases |acts|
  {
    if acts != [] {
      StepKeepsInvariant(s, acts[0]);
      EarlyDisconnectAborts(Apply(s, acts[0]), acts[1..]);
    }
  }

  /** Committing and failing exclude each other, and neither is ever left. */
  lemma {:induction false} VerdictIsFinal(s: State, acts: seq<Action>)
    requires Runs(s, acts) && s.phase.Terminal()
    ensures After(s, acts).phase == s.phase && After(s, acts).marker == s.marker && After(s, acts).log == s.log
    decreases |acts|
  {
    if acts != [] {
      VerdictIsFinal(Apply(s, acts[0]), acts[1..]);
    }
  }

  function Turns(acts: seq<Action>): nat {
    if acts == [] then 0 else (if acts[0].Installer? then 1 else 0) + Turns(acts[1..])
  }

  /** One run after another is a run. */
  lemma {:induction false} RunOn(s: State, a: seq<Action>, b: seq<Action>)
    requires Runs(s, a) && Runs(After(s, a), b)
    ensures Runs(s, a + b) && After(s, a + b) == After(After(s, a), b) && Turns(a + b) == Turns(a) + Turns(b)
    decreases |a|
  {
    if a == [] {
      assert a + b == b;
    } else {
      assert (a + b)[0] == a[0] && (a + b)[1..] == a[1..] + b;
      RunOn(Apply(s, a[0]), a[1..], b);
    }
  }

  // ---------------------------------------------------------------- a disconnect after the authorisation

  predicate OnlyClient(acts: seq<Action>) { forall a <- acts :: a.Client? }

  /** In the settlement wait the installer's next step decides, and goes on only if the origin is gone by then. */
  lemma {:induction false} SettlesOnce(s: State, before: seq<Action>, r: Reply, later: seq<Action>)
    requires Invariant(s) && s.phase.Settle? && OnlyClient(before)
    requires Runs(s, before) && Possible(After(s, before), r) && Runs(InstallerStep(After(s, before), r), later)
    ensures var t := After(InstallerStep(After(s, before), r), later);
            t.marker ==> After(s, before).origin.Gone?
    ensures !After(s, before).origin.Gone? ==> InstallerStep(After(s, before), r).phase.Aborted?
  {
    ClientLeavesPhase(s, before);
    RunKeepsInvariant(s, before);
    var m := After(s, before);
    StepKeepsInvariant(m, Installer(r));
    if !m.origin.Gone? {
      VerdictIsFinal(InstallerStep(m, r), later);
    }
  }

  lemma {:induction false} ClientLeavesPhase(s: State, acts: seq<Action>)
    requires Runs(s, acts) && OnlyClient(acts)
    ensures After(s, acts).phase == s.phase
    decreases |acts|
  {
    if acts != [] {
      assert acts[0] in acts;
      ClientLeavesPhase(Apply(s, acts[0]), acts[1..]);
    }
  }

  /** The installer waits for the exit it was promised, and the pipe is closed. */
  predicate Deserted(s: State) {
    Invariant(s) && !s.serverOpen && (s.phase.AwaitExit? || s.phase.Peek? || s.phase.Settle?)
  }

  predicate Decided(p: Phase) { p.Granted? || p.Installed? || p.Aborted? }

  /** A byte nobody will read hides that the pipe is closed, and there is time for another poll. */
  predicate PollsOn(s: State) {
    s.Unread() && !s.origin.Gone?
    && (match s.phase
        case AwaitExit(wait) => wait + 25 < s.timeout
        case Peek(wait) => wait + 25 < s.timeout
        case _ => false)
  }

  /** How many turns the installer takes at most to decide, if it does not poll on. */
  function TurnsLeft(s: State): nat {
    match s.phase
    case AwaitExit(_) => if s.origin.Gone? then 1 else 3
    case Peek(_) => 2
    case Settle => 1
    case _ => 0
  }

  lemma {:induction false} WindsDown(s: State, acts: seq<Action>)
    requires Deserted(s) && !PollsOn(s) && Runs(s, acts)
    ensures Decided(After(s, acts).phase) || Turns(acts) < TurnsLeft(s)
    decreases |acts|
  {
    if acts != [] {
      var t := Apply(s, acts[0]);
      StepKeepsInvariant(s, acts[0]);
      if Decided(t.phase) {
        DecidedStays(t, acts[1..]);
      } else {
        WindsDown(t, acts[1..]);
      }
    }
  }

  lemma {:induction false} DecidedStays(s: State, acts: seq<Action>)
    requires Decided(s.phase) && Runs(s, acts)
    ensures Decided(After(s, acts).phase)
    decreases |acts|
  {
    if acts != [] {
      DecidedStays(Apply(s, acts[0]), acts[1..]);
    }
  }

  /** A run that commits in the end had seen the origin gone when its first part was over. */
  ghost predicate GoneInTime(s: State, acts: seq<Action>, later: seq<Action>) {
    Runs(s, acts) && Turns(acts) >= 3 && Runs(After(s, acts), later) && After(After(s, acts), later).marker
    ==> After(s, acts).origin.Gone?
  }

  /**
   Main result: once the pipe is closed after E, three turns of the installer are enough - a wait that was under way,
   the poll that finds the disconnect and the one settlement wait - and whoever commits had seen the origin gone by
   then; a later exit does not count. This holds over every run exactly unless a byte behind E was left unread, the
   origin still lives and another poll fits the timeout.
   */
  lemma {:induction false} SettlesExactly(s: State)
    requires Deserted(s)
    ensures (forall acts :: Runs(s, acts) && Turns(acts) >= 3 ==> Decided(After(s, acts).phase)) <==> !PollsOn(s)
    ensures (forall acts, later :: GoneInTime(s, acts, later)) <==> !PollsOn(s)
  {
    if PollsOn(s) {
      var acts, later := PollsPastSettlement(s);
      assert !GoneInTime(s, acts, later);
      assert Runs(s, acts) && Turns(acts) >= 3 && !Decided(After(s, acts).phase);
    } else {
      forall acts | Runs(s, acts) && Turns(acts) >= 3 ensures Decided(After(s, acts).phase) {
        WindsDown(s, acts);
      }
      forall acts, later ensures GoneInTime(s, acts, later) {
        if Runs(s, acts) && Turns(acts) >= 3 && Runs(After(s, acts), later) && !After(s, acts).origin.Gone? {
          WindsDown(s, acts);
          RunKeepsInvariant(s, acts);
          VerdictIsFinal(After(s, acts), later);
        }
      }
    }
  }

  /** The run that shows it: polled past the settlement wait, then granted. */
  lemma {:induction false} PollsPastSettlement(s: State) returns (acts: seq<Action>, later: seq<Action>)
    requires Deserted(s) && PollsOn(s)
    ensures Runs(s, acts) && Turns(acts) >= 3 && !Decided(After(s, acts).phase) && !After(s, acts).origin.Gone?
    ensures Runs(After(s, acts), later) && After(After(s, acts), later).marker
  {
    var first := if s.phase.AwaitExit? then [Installer(TimedOut)] else [];
    var wait := s.phase.wait;
    var t := s.(phase := Peek(wait));
    if first != [] {
      assert first[1..] == [] && Apply(s, first[0]) == t && Runs(t, []);
    }
    assert Runs(s, first) && After(s, first) == t;
    var next := [Installer(Done), Installer(TimedOut), Installer(Broken)];
    var u := t.(phase := Settle, log := t.log + [SawDisconnect]);
    Polls(t);
    RunOn(s, first, next);
    acts := first + next;
    later := Exits(u) + [Installer(Exited), Installer(Done)];
    Leaves(u);
  }

  lemma {:induction false} Polls(t: State)
    requires Deserted(t) && PollsOn(t) && t.phase.Peek?
    ensures var next := [Installer(Done), Installer(TimedOut), Installer(Broken)];
            && Turns(next) == 3 && Runs(t, next)
            && After(t, next) == t.(phase := Settle, log := t.log + [SawDisconnect])
  {
    var next := [Installer(Done), Installer(TimedOut), Installer(Broken)];
    assert next[1..] == [Installer(TimedOut), Installer(Broken)] && next[1..][1..] == [Installer(Broken)];
    assert [Installer(Broken)][1..] == [];
    assert Turns([Installer(Broken)]) == 1 && Turns(next[1..]) == 2;
    var a := Apply(t, next[0]);
    var b := Apply(a, next[1]);
    assert Runs(b, [Installer(Broken)]) && Runs(a, next[1..]);
  }

  /** What the origin still has to do to be gone. */
  function Exits(s: State): seq<Action> {
    match s.origin
    case Running => [Client(BeginExit), Client(FinishExit)]
    case Closing => [Client(FinishExit)]
    case Gone => []
  }

  /** The origin exits and the installer, waiting for it, goes on. */
  lemma {:induction false} Leaves(s: State)
    requires Deserted(s) && !s.phase.Peek?
    ensures var rest := Exits(s) + [Installer(Exited), Installer(Done)];
            && Runs(s, rest) && After(s, rest).marker && Turns(rest) == 2
            && After(s, rest).log == s.log + [SawExit, Marked]
  {
    var exits, end := Exits(s), [Installer(Exited), Installer(Done)];
    var t := s.(origin := Gone);
    assert s.origin.Running? ==> exits[1..] == [Client(FinishExit)];
    assert [Client(FinishExit)][1..] == [];
    assert Runs(s, exits) && After(s, exits) == t && Turns(exits) == 0;
    assert end[1..] == [Installer(Done)] && end[1..][1..] == [];
    assert Turns(end[1..]) == 1;
    var u := Apply(t, end[0]);
    assert Runs(u, end[1..]) && Runs(t, end);
    assert s.log + [SawExit] + [Marked] == s.log + [SawExit, Marked];
    RunOn(s, exits, end);
  }

  /** As many polls as the timeout allows, none of which finds the disconnect. */
  lemma {:induction false} PollsOften(s: State, n: nat) returns (acts: seq<Action>)
    requires Deserted(s) && s.phase.AwaitExit? && s.Unread() && !s.origin.Gone? && s.phase.wait + 25 * n < s.timeout
    ensures Turns(acts) == 2 * n && Runs(s, acts) && After(s, acts) == s.(phase := AwaitExit(s.phase.wait + 25 * n))
    decreases n
  {
    if n == 0 {
      acts := [];
    } else {
      var one := [Installer(TimedOut), Installer(Done)];
      assert one[1..] == [Installer(Done)] && one[1..][1..] == [];
      assert Turns(one[1..]) == 1 && Turns(one) == 2;
      var t := Apply(s, one[0]);
      assert Runs(t, one[1..]) && Runs(s, one);
      var u := s.(phase := AwaitExit(s.phase.wait + 25));
      assert After(s, one) == u;
      var rest := PollsOften(u, n - 1);
      RunOn(s, one, rest);
      acts := one + rest;
    }
  }

  /** The origin authorises the exit, writes one byte too many and closes the pipe. */
  const TALKATIVE := [Installer(Done), Installer(Done), Installer(Done), Installer(Done), Installer(Done),
                      Client(Write(COMMIT)), Client(Write(EXIT_OK)), Client(Write(0)),
                      Installer(Data), Installer(Done), Installer(Data), Client(Disconnect)]

  lemma {:induction false} TalkativeStep(s: State, n: nat)
    requires n < |TALKATIVE| && Runs(s, TALKATIVE[..n]) && Enabled(After(s, TALKATIVE[..n]), TALKATIVE[n])
    ensures Runs(s, TALKATIVE[..n + 1])
    ensures After(s, TALKATIVE[..n + 1]) == Apply(After(s, TALKATIVE[..n]), TALKATIVE[n])
  {
    var one := [TALKATIVE[n]];
    assert one[1..] == [] && TALKATIVE[..n + 1] == TALKATIVE[..n] + one;
    RunOn(s, TALKATIVE[..n], one);
  }

  lemma {:induction false} TalkativeOpens(s: State)
    requires Initial(s) && s.id.Good()
    ensures Runs(s, TALKATIVE[..8])
    ensures After(s, TALKATIVE[..8])
            == s.(phase := AwaitCommit(0), replied := [READY], log := [Sent(READY)], written := [COMMIT, EXIT_OK, 0])
  {
    TalkativeStep(s, 0);
    TalkativeStep(s, 1);
    TalkativeStep(s, 2);
    TalkativeStep(s, 3);
    TalkativeStep(s, 4);
    TalkativeStep(s, 5);
    TalkativeStep(s, 6);
    TalkativeStep(s, 7);
  }

  lemma {:induction false} TalkativeCommits(s: State)
    requires Initial(s) && s.id.Good()
    ensures Runs(s, TALKATIVE[..10])
    ensures After(s, TALKATIVE[..10])
            == s.(phase := AwaitExitOk(0), replied := [READY, ACK], log := [Sent(READY), Got(COMMIT), Sent(ACK)],
                  written := [COMMIT, EXIT_OK, 0], consumed := 1)
  {
    TalkativeOpens(s);
    TalkativeStep(s, 8);
    TalkativeStep(s, 9);
  }

  lemma {:induction false} TalkativeRuns(s: State)
    requires Initial(s) && s.id.Good()
    ensures Runs(s, TALKATIVE)
    ensures var t := After(s, TALKATIVE);
            Deserted(t) && t.Unread() && t.phase == AwaitExit(0) && t.origin.Running? && t.timeout == s.timeout
            && t.log == EXCHANGE
  {
    TalkativeCommits(s);
    TalkativeStep(s, 10);
    TalkativeStep(s, 11);
    assert TALKATIVE[..12] == TALKATIVE;
    RunKeepsInvariant(s, TALKATIVE);
  }

  /**
   The failing input: with one byte behind E and a disconnect at once, the installer can wait for an exit however long
   the timeout allows, and commits without ever having seen the disconnect.
   */
  lemma {:induction false} UnreadByteCommitsLate(s: State, n: nat)
    requires Initial(s) && s.id.Good() && 25 * n < s.timeout
    ensures Runs(s, TALKATIVE)
    ensures exists acts :: Runs(After(s, TALKATIVE), acts) && Turns(acts) == 2 * n + 2
                           && After(After(s, TALKATIVE), acts).marker
                           && SawDisconnect !in After(After(s, TALKATIVE), acts).log
  {
    TalkativeRuns(s);
    var t := After(s, TALKATIVE);
    var polls := PollsOften(t, n);
    var u := After(t, polls);
    Leaves(u);
    RunOn(t, polls, Exits(u) + [Installer(Exited), Installer(Done)]);
  }

  // ---------------------------------------------------------------- every run ends

  function Left(wait: nat, timeout: nat): nat { if wait < timeout then timeout - wait else 0 }

  /** An upper bound on the system calls the installer can still make. */
  function PhaseRank(p: Phase, t: nat): nat {
    match p
    case CheckArguments => 4 * t + 12
    case CheckProcess => 4 * t + 11
    case Connect => 4 * t + 10
    case CheckServer => 4 * t + 9
    case SendReady => 4 * t + 8
    case AwaitCommit(wait) => 3 * t + 7 + Left(wait, t)
    case SendAck => 3 * t + 6
    case AwaitExitOk(wait) => 2 * t + 5 + Left(wait, t)
    case AwaitExit(wait) => 2 * Left(wait, t) + 4
    case Peek(wait) => 2 * Left(wait, t) + 3
    case Settle => 2
    case Granted => 1
    case Installed => 0
    case Aborted => 0
  }

  function Rank(s: State): nat { PhaseRank(s.phase, s.timeout) }

  /** Where an installer step can lead. */
  predicate Leads(p: Phase, q: Phase, t: nat) {
    || (q.Aborted? && !p.Terminal())
    || (match p
        case CheckArguments => q.CheckProcess?
        case CheckProcess => q.Connect?
        case Connect => q.CheckServer?
        case CheckServer => q.SendReady?
        case SendReady => q == AwaitCommit(0)
        case AwaitCommit(w) => q.SendAck? || (w < t && q == AwaitCommit(w + 25))
        case SendAck => q == AwaitExitOk(0)
        case AwaitExitOk(w) => q == AwaitExit(0) || (w < t && q == AwaitExitOk(w + 25))
        case AwaitExit(w) => q.Granted? || q == Peek(w)
        case Peek(w) => q.Settle? || (w + 25 < t && q == AwaitExit(w + 25))
        case Settle => q.Granted?
        case Granted => q.Installed?
        case Installed => false
        case Aborted => false)
  }

  lemma {:induction false} StepLeads(s: State, r: Reply)
    requires Possible(s, r)
    ensures Leads(s.phase, InstallerStep(s, r).phase, s.timeout) && InstallerStep(s, r).timeout == s.timeout
  {
  }

  lemma {:induction false} RankDrops(s: State, a: Action)
    requires Enabled(s, a)
    ensures Rank(Apply(s, a)) + (if a.Installer? then 1 else 0) <= Rank(s)
  {
    if a.Installer? {
      StepLeads(s, a.reply);
    }
  }

  /**
   Deadlines in plain terms. A read is polled every 25 ms until the time already waited has reached the timeout; the
   exit is polled every 25 ms as long as the next poll stays below it.
   */
  lemma {:induction false} DeadlineMeaning(s: State, r: Reply)
    requires Possible(s, r)
    ensures match s.phase
            case AwaitCommit(wait) =>
              r.Empty? ==> InstallerStep(s, r).phase == if wait < s.timeout then AwaitCommit(wait + 25) else Aborted
            case AwaitExitOk(wait) =>
              r.Empty? ==> InstallerStep(s, r).phase == if wait < s.timeout then AwaitExitOk(wait + 25) else Aborted
            case Peek(wait) =>
              r.Done? ==> InstallerStep(s, r).phase == if wait + 25 < s.timeout then AwaitExit(wait + 25) else Aborted
            case _ => true
  {
  }

  /** A byte that is not the one expected, or a pipe that breaks before it, fails. */
  lemma {:induction false} ReadMeaning(s: State, r: Reply)
    requires Possible(s, r) && (s.phase.AwaitCommit? || s.phase.AwaitExitOk?)
    ensures r.Data? ==>
              var expected := if s.phase.AwaitCommit? then 67 else 69;
              if s.written[s.consumed] == expected then
                InstallerStep(s, r) == s.(phase := if s.phase.AwaitCommit? then SendAck else AwaitExit(0),
                                          consumed := s.consumed + 1, log := s.log + [Got(expected)])
              else InstallerStep(s, r).phase == Aborted
    ensures r.Broken? || r.Fault? ==> InstallerStep(s, r).phase == Aborted
  {
  }

  /** However long a run is, the installer takes a bounded number of steps in it. */
  lemma {:induction false} InstallerTurnsBounded(s: State, acts: seq<Action>)
    requires Runs(s, acts)
    ensures Turns(acts) + Rank(After(s, acts)) <= Rank(s)
    decreases |acts|
  {
    if acts != [] {
      RankDrops(s, acts[0]);
      InstallerTurnsBounded(Apply(s, acts[0]), acts[1..]);
    }
  }

  /** The installer is never stuck: short of a verdict, the system always has an answer for it. */
  lemma {:induction false} NeverStuck(s: State) returns (r: Reply)
    requires !s.phase.Terminal()
    ensures Possible(s, r)
  {
    match s.phase
    case AwaitCommit(_) => r := if s.Unread() then Data else if s.serverOpen then Empty else Broken;
    case AwaitExitOk(_) => r := if s.Unread() then Data else if s.serverOpen then Empty else Broken;
    case Peek(_) => r := if s.serverOpen then Done else Broken;
    case Granted => r := Done;
    case _ => r := Fault;
  }

  // ---------------------------------------------------------------- the fixture's cases

  /** The origin scripts of the recovery fixture. */
  datatype Case =
    | WrongIdentity | Cancel | InvalidCommit | Disconnected
    | CancelAfterAck | OriginHangs | DisconnectAfterExitOk | ExitAfterSettlement
    | Commit | ExitInsideSettlement

  predicate ShouldCommit(c: Case) { c.Commit? || c.ExitInsideSettlement? }

  /** What the case's script lets the origin do next; it waits for the installer's end otherwise. */
  predicate Scripted(c: Case, s: State, a: OriginAct) {
    if s.phase.Terminal() then true
    else if c.WrongIdentity? then false
    else if s.seen == 0 then a == Read
    else if c.Cancel? then false
    else if c.InvalidCommit? then a == Write(88) && s.written == []
    else if c.Disconnected? then a == Disconnect
    else if s.written == [] then a == Write(COMMIT)
    else if s.seen == 1 then a == Read
    else if c.CancelAfterAck? then a == Disconnect
    else if |s.written| == 1 then a == Write(EXIT_OK)
    else if c.OriginHangs? then false
    else if c.DisconnectAfterExitOk? || c.ExitAfterSettlement? then a == Disconnect
    else if c.Commit? then a == BeginExit || a == FinishExit
    else if s.serverOpen then a == Disconnect
    else SawDisconnect in s.log && (a == BeginExit || a == FinishExit)
  }

  predicate Follows(c: Case, s: State, acts: seq<Action>)
    decreases |acts|
  {
    acts == [] || (&& Enabled(s, acts[0])
                   && (acts[0].Client? ==> Scripted(c, s, acts[0].act))
                   && Follows(c, Apply(s, acts[0]), acts[1..]))
  }

  lemma {:induction false} FollowsRuns(c: Case, s: State, acts: seq<Action>)
    requires Follows(c, s, acts)
    ensures Runs(s, acts)
    decreases |acts|
  {
    if acts != [] {
      FollowsRuns(c, Apply(s, acts[0]), acts[1..]);
    }
  }

  predicate StartOf(c: Case, s: State) { Initial(s) && (c.WrongIdentity? <==> !s.id.Good()) }

  /** Why a case that must not commit cannot: an identity, a byte or the origin's exit is missing. */
  predicate Hopeless(c: Case, s: State) {
    && Invariant(s) && !s.phase.Installed?
    && (!s.phase.Aborted? ==>
        match c
        case WrongIdentity => !s.id.Good()
        case Cancel => s.written == []
        case InvalidCommit => s.written == [] || s.written == [88]
        case Disconnected => s.written == []
        case CancelAfterAck => |s.written| <= 1
        case _ => s.origin.Running?)
  }

  lemma {:induction false} InstallerKeepsPipe(s: State, r: Reply)
    requires Possible(s, r)
    ensures var t := InstallerStep(s, r);
            && t.id == s.id && t.written == s.written && t.seen == s.seen && t.serverOpen == s.serverOpen
            && t.origin == s.origin && (s.phase.Terminal() ==> t.phase.Terminal())
            && (t.phase.Aborted? || !s.phase.Aborted?) && (t.phase.Installed? ==> s.phase.Granted?)
  {
  }

  lemma {:induction false} HopelessStep(c: Case, s: State, a: Action)
    requires !ShouldCommit(c) && Hopeless(c, s) && Enabled(s, a) && (a.Client? ==> Scripted(c, s, a.act))
    ensures Hopeless(c, Apply(s, a))
  {
    StepKeepsInvariant(s, a);
    NeverGranted(c, s);
    if a.Installer? {
      InstallerKeepsPipe(s, a.reply);
    } else {
      ScriptKeepsHopeless(c, s, a.act);
    }
  }

  lemma {:induction false} NeverGranted(c: Case, s: State)
    requires !ShouldCommit(c) && Hopeless(c, s)
    ensures !s.phase.Granted?
  {
  }

  lemma {:induction false} ScriptKeepsHopeless(c: Case, s: State, act: OriginAct)
    requires !ShouldCommit(c) && Hopeless(c, s) && ClientCan(s, act) && Scripted(c, s, act)
    requires Invariant(ClientStep(s, act))
    ensures Hopeless(c, ClientStep(s, act))
  {
  }

  lemma {:induction false} HopelessForever(c: Case, s: State, acts: seq<Action>)
    requires !ShouldCommit(c) && Hopeless(c, s) && Follows(c, s, acts) && Runs(s, acts)
    ensures !After(s, acts).marker
    decreases |acts|
  {
    if acts != [] {
      HopelessStep(c, s, acts[0]);
      HopelessForever(c, Apply(s, acts[0]), acts[1..]);
    }
  }

  ghost predicate Reaches(c: Case, s: State, t: State) {
    exists acts :: Follows(c, s, acts) && Runs(s, acts) && After(s, acts) == t
  }

  lemma {:induction false} AfterSnoc(c: Case, s: State, acts: seq<Action>, a: Action)
    requires Follows(c, s, acts) && Runs(s, acts)
    requires Enabled(After(s, acts), a) && (a.Client? ==> Scripted(c, After(s, acts), a.act))
    ensures Follows(c, s, acts + [a]) && Runs(s, acts + [a])
    ensures After(s, acts + [a]) == Apply(After(s, acts), a)
    decreases |acts|
  {
    if acts == [] {
      assert acts + [a] == [a] && [a][1..] == [];
    } else {
      AfterSnoc(c, Apply(s, acts[0]), acts[1..], a);
      assert (acts + [a])[0] == acts[0] && (acts + [a])[1..] == acts[1..] + [a];
    }
  }

  lemma {:induction false} Forward(c: Case, s: State, t: State, a: Action) returns (next: State)
    requires Reaches(c, s, t) && Enabled(t, a) && (a.Client? ==> Scripted(c, t, a.act))
    ensures next == Apply(t, a) && Reaches(c, s, next)
  {
    var acts :| Follows(c, s, acts) && Runs(s, acts) && After(s, acts) == t;
    AfterSnoc(c, s, acts, a);
    next := Apply(t, a);
  }

  /** The run both committing cases share, up to the installer's announcement. */
  lemma {:induction false} Announced(c: Case, s: State) returns (t: State)
    requires ShouldCommit(c) && StartOf(c, s)
    ensures Reaches(c, s, t) && t.phase == AwaitCommit(0) && t.origin.Running? && t.serverOpen
    ensures t.replied == [READY] && t.seen == 0 && t.written == [] && t.consumed == 0
  {
    assert Follows(c, s, []) && After(s, []) == s;
    t := Forward(c, s, s, Installer(Done));
    t := Forward(c, s, t, Installer(Done));
    t := Forward(c, s, t, Installer(Done));
    t := Forward(c, s, t, Installer(Done));
    t := Forward(c, s, t, Installer(Done));
  }

  lemma {:induction false} Acknowledged(c: Case, s: State) returns (t: State)
    requires ShouldCommit(c) && StartOf(c, s)
    ensures Reaches(c, s, t) && t.phase == AwaitExitOk(0) && t.origin.Running? && t.serverOpen
    ensures |t.replied| == 2 && t.seen == 1 && |t.written| == t.consumed == 1
  {
    t := Announced(c, s);
    t := Forward(c, s, t, Client(Read));
    t := Forward(c, s, t, Client(Write(COMMIT)));
    t := Forward(c, s, t, Installer(Data));
    t := Forward(c, s, t, Installer(Done));
  }

  lemma {:induction false} Authorised(c: Case, s: State) returns (t: State)
    requires ShouldCommit(c) && StartOf(c, s)
    ensures Reaches(c, s, t) && t.phase == AwaitExit(0) && t.origin.Running? && t.serverOpen
    ensures t.seen == 2 && |t.written| == 2
  {
    t := Acknowledged(c, s);
    t := Forward(c, s, t, Client(Read));
    t := Forward(c, s, t, Client(Write(EXIT_OK)));
    t := Forward(c, s, t, Installer(Data));
  }

  lemma {:induction false} CommitReachable(c: Case, s: State)
    requires ShouldCommit(c) && StartOf(c, s)
    ensures exists t :: Reaches(c, s, t) && t.marker
  {
    var t := Authorised(c, s);
    if c.Commit? {
      t := Forward(c, s, t, Client(BeginExit));
    } else {
      t := Forward(c, s, t, Client(Disconnect));
      t := Forward(c, s, t, Installer(TimedOut));
      t := Forward(c, s, t, Installer(Broken));
      t := Forward(c, s, t, Client(BeginExit));
    }
    t := Forward(c, s, t, Client(FinishExit));
    t := Forward(c, s, t, Installer(Exited));
    t := Forward(c, s, t, Installer(Done));
  }

  /** Main result on the fixture: a case can commit exactly when it is one of the two that must. */
  lemma {:induction false} CaseOutcome(c: Case, s: State)
    requires StartOf(c, s)
    ensures (exists t :: Reaches(c, s, t) && t.marker) <==> ShouldCommit(c)
  {
    if ShouldCommit(c) {
      CommitReachable(c, s);
    } else {
      forall t | Reaches(c, s, t) ensures !t.marker {
        var acts :| Follows(c, s, acts) && Runs(s, acts) && After(s, acts) == t;
        HopelessForever(c, s, acts);
      }
    }
  }

  /** The answers a committing case can fail on. */
  predicate Excuse(s: State, r: Reply) {
    match s.phase
    case AwaitCommit(wait) => r.Fault? || (r.Empty? && wait >= s.timeout)
    case AwaitExitOk(wait) => r.Fault? || (r.Empty? && wait >= s.timeout) || (r.Broken? && s.Unread())
    case Peek(wait) => r.Done? && wait + 25 >= s.timeout
    case Settle => r.Fault? || r.TimedOut?
    case _ => r.Fault?
  }

  /** What a committing case keeps: the right bytes, each after the installer's, and no disconnect before the last. */
  predicate OnScript(s: State) {
    && Invariant(s) && s.id.Good()
    && (!s.phase.Terminal() ==>
        && s.written <= [COMMIT, EXIT_OK] && |s.written| <= s.seen && (!s.serverOpen ==> |s.written| == 2))
  }

  lemma {:induction false} OnScriptStep(c: Case, s: State, a: Action)
    requires ShouldCommit(c) && OnScript(s) && Enabled(s, a) && (a.Client? ==> Scripted(c, s, a.act))
    ensures OnScript(Apply(s, a))
  {
    StepKeepsInvariant(s, a);
    match a
    case Installer(r) => InstallerKeepsPipe(s, r);
    case Client(act) =>
      if !s.phase.Terminal() {
        ScriptedKeepsOrder(c, s, act);
      }
  }

  lemma {:induction false} ScriptedKeepsOrder(c: Case, s: State, act: OriginAct)
    requires ShouldCommit(c) && ClientCan(s, act) && Scripted(c, s, act) && !s.phase.Terminal()
    requires s.written <= [COMMIT, EXIT_OK] && |s.written| <= s.seen && (!s.serverOpen ==> |s.written| == 2)
    ensures var t := ClientStep(s, act);
            && t.id == s.id && t.phase == s.phase
            && t.written <= [COMMIT, EXIT_OK] && |t.written| <= t.seen && (!t.serverOpen ==> |t.written| == 2)
  {
  }

  lemma {:induction false} AbortIsExcused(s: State, r: Reply)
    requires OnScript(s) && Possible(s, r) && !s.phase.Aborted? && InstallerStep(s, r).phase.Aborted?
    ensures Excuse(s, r)
  {
    assert s.written <= [COMMIT, EXIT_OK];
  }

  /** No answer in the run is an excuse. */
  predicate Smooth(s: State, acts: seq<Action>)
    requires Runs(s, acts)
    decreases |acts|
  {
    acts == []
    || ((acts[0].Installer? ==> !Excuse(s, acts[0].reply)) && Smooth(Apply(s, acts[0]), acts[1..]))
  }

  /**
   A committing case fails only on a system error, on a poll that has used up the timeout, on bytes thrown away with the
   pipe, or on an origin that outlives the settlement wait.
   */
  lemma {:induction false} FailsOnlyWithExcuse(c: Case, s: State, acts: seq<Action>)
    requires ShouldCommit(c) && OnScript(s) && !s.phase.Aborted? && Follows(c, s, acts) && Runs(s, acts)
    requires Smooth(s, acts)
    ensures !After(s, acts).phase.Aborted?
    decreases |acts|
  {
    if acts != [] {
      OnScriptStep(c, s, acts[0]);
      if acts[0].Installer? && Apply(s, acts[0]).phase.Aborted? {
        AbortIsExcused(s, acts[0].reply);
      }
      FailsOnlyWithExcuse(c, Apply(s, acts[0]), acts[1..]);
    }
  }

  /** So a committing case whose run is over has committed, unless there was an excuse. */
  lemma {:induction false} CommitsUnlessExcused(c: Case, s: State, acts: seq<Action>)
    requires ShouldCommit(c) && StartOf(c, s) && Follows(c, s, acts) && Runs(s, acts)
    requires Smooth(s, acts) && After(s, acts).phase.Terminal()
    ensures After(s, acts).marker
  {
    FailsOnlyWithExcuse(c, s, acts);
    RunKeepsInvariant(s, acts);
  }
}
