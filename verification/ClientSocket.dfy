/** `ClientImpl`: who may close the shared socket.  Threads call `send` -- which holds the recursive
    request lock, and calls itself again to follow a redirect -- and `stop`, at any time.  Each
    block under `socket_mutex_` is one atomic step. */
module ClientSocket {
  import opened Text

  type Thread = nat
  type Descriptor = nat

  /** What the caller has set: `keep_alive_` and `follow_location_`, both off by default. */
  datatype Settings = Settings(keepAlive: bool, follows: bool)

  /** `CPPHTTPLIB_REDIRECT_MAX_COUNT` */
  const MAX_REDIRECTS := 20

  /** Where one activation of `send` stands.  `redirects` bounds the redirects its request may still lead
      to; an activation follows at most one itself, so none is left to it after that. */
  datatype Frame = Entered(redirects: nat) | InFlight(redirects: nat) | Returned

  /** What `socket_mutex_` protects, and the history of the descriptors. */
  datatype Shared = Shared(
    socket: Option<Descriptor>,  // socket_
    inFlight: nat,               // socket_requests_in_flight_
    from: Option<Thread>,        // socket_requests_are_from_thread_
    shouldClose: bool,           // socket_should_be_closed_when_request_is_done_
    shut: bool,                  // shutdown_socket was called on the open socket
    made: nat,                   // descriptors 0..made-1 were handed out
    closed: seq<Descriptor>,     // close calls, in order
    asserts: bool,               // every assertion so far held
    overwrites: nat)             // connects that replaced an open descriptor

  /** `request_mutex_`, and the activations of `send` in each thread, innermost last. */
  datatype Calls = Calls(owner: Option<Thread>, depth: nat, stacks: map<Thread, seq<Frame>>)

  datatype Client = Client(settings: Settings, shared: Shared, calls: Calls)

  function Start(settings: Settings): Client {
    Client(settings, Shared(None, 0, None, false, false, 0, [], true, 0), Calls(None, 0, map[]))
  }

  datatype Action =
    | Lock(t: Thread)                                 // send takes request_mutex_
    | Redirect(t: Thread)                             // handle_request calls send again
    | Begin(t: Thread, alive: bool, connects: bool)   // the first block of send_
    | CloseMidway(t: Thread)                          // handle_request, on "Connection: close"
    | End(t: Thread, close: bool)                     // the scope_exit block of send_
    | Unlock(t: Thread)                               // send returns
    | Stop(t: Thread)                                 // stop, from any thread

  // ---------------------------------------------------------------- call stacks

  function Stack(c: Calls, t: Thread): seq<Frame> { if t in c.stacks then c.stacks[t] else [] }

  function Top(c: Calls, t: Thread): Frame
    requires Stack(c, t) != []
  {
    Stack(c, t)[|Stack(c, t)| - 1]
  }

  function WithTop(c: Calls, t: Thread, f: Frame): Calls
    requires Stack(c, t) != []
  {
    c.(stacks := c.stacks[t := Stack(c, t)[|Stack(c, t)| - 1 := f]])
  }

  function Push(c: Calls, t: Thread, redirects: nat): Calls {
    Calls(Some(t), c.depth + 1, c.stacks[t := Stack(c, t) + [Entered(redirects)]])
  }

  function Pop(c: Calls, t: Thread): Calls
    requires Stack(c, t) != []
  {
    Calls(if c.depth <= 1 then None else c.owner,
          if c.depth > 0 then c.depth - 1 else 0,
          c.stacks[t := Stack(c, t)[..|Stack(c, t)| - 1]])
  }

  /** `Begin` may find a socket that was shut down alive, when bytes received on it are still unread;
      but then nothing can be written on it, so that request fails and closes it at its end. */
  predicate Enabled(s: Client, a: Action) {
    var fs := Stack(s.calls, a.t);
    match a
    case Lock(t) => s.calls.owner == None && fs == []
    case Redirect(t) => s.settings.follows && fs != [] && Top(s.calls, t).InFlight? && Top(s.calls, t).redirects > 0
    case Begin(t, _, _) => fs != [] && Top(s.calls, t).Entered?
    case CloseMidway(t) => fs != [] && Top(s.calls, t).InFlight?
    case End(t, close) =>
      && fs != [] && Top(s.calls, t).InFlight?
      && (!s.settings.keepAlive ==> close) && (s.shared.shut && !s.shared.shouldClose ==> close)
    case Unlock(t) => fs != [] && Top(s.calls, t).Returned?
    case Stop(_) => true
  }

  // ---------------------------------------------------------------- the shared state

  /** `close_socket`, with its assertion checked. */
  function Close(c: Shared, t: Thread): Shared {
    var checked := c.(asserts := c.asserts && (c.inFlight == 0 || c.from == Some(t)));
    if c.socket.None? then checked
    else checked.(socket := None, shut := false, closed := c.closed + [c.socket.value])
  }

  /** `create_and_connect_socket`, when it succeeds. */
  function Connect(c: Shared): Shared {
    c.(socket := Some(c.made), made := c.made + 1, overwrites := c.overwrites + if c.socket.Some? then 1 else 0)
  }

  /** The request is counted in, with its assertion checked. */
  function CountIn(c: Shared, t: Thread): Shared {
    c.(asserts := c.asserts && (c.inFlight > 1 ==> c.from == Some(t)), inFlight := c.inFlight + 1, from := Some(t))
  }

  predicate Starts(c: Shared, alive: bool, connects: bool) { (c.socket.Some? && alive) || connects }

  /** The first block of `send_`. */
  function BeginBlock(c: Shared, t: Thread, alive: bool, connects: bool): Shared {
    var c1 := c.(shouldClose := false);
    if c.socket.Some? && alive then CountIn(c1, t)
    else
      var c2 := if c.socket.Some? then Close(c1, t) else c1;
      if connects then CountIn(Connect(c2), t) else c2
  }

  /** The block that ends `send_`. */
  function EndBlock(c: Shared, t: Thread, close: bool): Shared {
    var n := if c.inFlight > 0 then c.inFlight - 1 else 0;
    var c1 := c.(inFlight := n, asserts := c.asserts && c.inFlight > 0, from := if n == 0 then None else c.from);
    if c.shouldClose || close then Close(c1, t) else c1
  }

  /** `stop`: a socket in use is only shut down and marked, an idle one is closed. */
  function StopBlock(c: Shared, t: Thread): Shared {
    if c.inFlight > 0 then c.(shouldClose := true, shut := c.shut || c.socket.Some?) else Close(c, t)
  }

  // ---------------------------------------------------------------- steps and runs

  function NextShared(s: Client, a: Action): Shared {
    match a
    case Begin(t, alive, connects) => BeginBlock(s.shared, t, alive, connects)
    case CloseMidway(t) => Close(s.shared, t)
    case End(t, close) => EndBlock(s.shared, t, close)
    case Stop(t) => StopBlock(s.shared, t)
    case _ => s.shared
  }

  function NextCalls(s: Client, a: Action): Calls
    requires Enabled(s, a)
  {
    match a
    case Lock(t) => Push(s.calls, t, MAX_REDIRECTS)
    case Redirect(t) => Push(WithTop(s.calls, t, InFlight(0)), t, Top(s.calls, t).redirects - 1)
    case Begin(t, alive, connects) =>
      WithTop(s.calls, t, if Starts(s.shared, alive, connects) then InFlight(Top(s.calls, t).redirects) else Returned)
    case End(t, _) => WithTop(s.calls, t, Returned)
    case Unlock(t) => Pop(s.calls, t)
    case _ => s.calls
  }

  function Step(s: Client, a: Action): Client
    requires Enabled(s, a)
  {
    Client(s.settings, NextShared(s, a), NextCalls(s, a))
  }

  predicate CanRun(s: Client, run: seq<Action>)
    decreases |run|
  {
    run == [] || (Enabled(s, run[0]) && CanRun(Step(s, run[0]), run[1..]))
  }

  function After(s: Client, run: seq<Action>): Client
    requires CanRun(s, run)
    decreases |run|
  {
    if run == [] then s else After(Step(s, run[0]), run[1..])
  }

  // ---------------------------------------------------------------- the invariant

  /** The lock's owner is the only thread inside `send`, as deep as the lock says; its outer
      activations are in flight, and have followed their redirect. */
  ghost predicate CallsInv(c: Calls) {
    && (c.owner.None? ==> c.depth == 0)
    && (c.owner.Some? ==> c.depth == |Stack(c, c.owner.value)| > 0)
    && (forall t: Thread :: c.owner != Some(t) ==> Stack(c, t) == [])
    && (forall t: Thread, i :: 0 <= i < |Stack(c, t)| - 1 ==> Stack(c, t)[i] == InFlight(0))
  }

  /** How many activations are in flight. */
  function Flying(c: Calls): int {
    if c.owner.None? || Stack(c, c.owner.value) == [] then 0
    else if Top(c, c.owner.value).InFlight? then c.depth else c.depth - 1
  }

  /** The counter counts the activations in flight, and names the lock's owner. */
  ghost predicate CountInv(s: Client) {
    s.shared.inFlight == Flying(s.calls) && s.shared.from == if s.shared.inFlight > 0 then s.calls.owner else None
  }

  /** Every assertion held; no open descriptor was overwritten; every descriptor handed out is the
      current one or was closed, once. */
  ghost predicate SharedInv(c: Shared) {
    && c.asserts && c.overwrites == 0
    && (forall i :: 0 <= i < |c.closed| ==> c.closed[i] < c.made)
    && (forall i, j :: 0 <= i < j < |c.closed| ==> c.closed[i] != c.closed[j])
    && (c.socket.Some? ==> c.socket.value < c.made && c.socket.value !in c.closed)
    && (c.shut ==> c.socket.Some?)
    && |c.closed| + (if c.socket.Some? then 1 else 0) == c.made
  }

  ghost predicate Inv(s: Client) { CallsInv(s.calls) && CountInv(s) && SharedInv(s.shared) }

  lemma StartInv(settings: Settings)
    ensures Inv(Start(settings))
  {
  }

  // ---------------------------------------------------------------- steps keep it

  /** `t` may close: nothing is in flight, or only its own requests are. */
  predicate MayClose(c: Shared, t: Thread) { c.inFlight == 0 || c.from == Some(t) }

  lemma CloseKeeps(c: Shared, t: Thread)
    requires SharedInv(c) && MayClose(c, t)
    ensures SharedInv(Close(c, t)) && Close(c, t).socket.None?
  {
  }

  lemma BeginKeeps(c: Shared, t: Thread, alive: bool, connects: bool)
    requires SharedInv(c) && MayClose(c, t)
    ensures SharedInv(BeginBlock(c, t, alive, connects))
  {
    hide Close;
    var c1 := c.(shouldClose := false);
    if c.socket.Some? && !alive {
      CloseKeeps(c1, t);
      CloseOnly(c1, t);
    }
  }

  lemma CloseOnly(c: Shared, t: Thread)
    ensures Close(c, t).inFlight == c.inFlight && Close(c, t).from == c.from
  {
  }

  lemma EndKeeps(c: Shared, t: Thread, close: bool)
    requires SharedInv(c) && c.inFlight > 0 && c.from == Some(t)
    ensures SharedInv(EndBlock(c, t, close))
  {
    hide Close;
    var n := c.inFlight - 1;
    var c1 := c.(inFlight := n, from := if n == 0 then None else c.from);
    CloseKeeps(c1, t);
  }

  lemma StopKeeps(c: Shared, t: Thread)
    requires SharedInv(c)
    ensures SharedInv(StopBlock(c, t))
  {
    hide Close;
    if c.inFlight == 0 { CloseKeeps(c, t); }
  }

  /** A thread inside `send` owns the lock, and may close. */
  lemma InsideMayClose(s: Client, t: Thread)
    requires CallsInv(s.calls) && CountInv(s) && Stack(s.calls, t) != []
    ensures s.calls.owner == Some(t) && MayClose(s.shared, t)
    ensures Top(s.calls, t).InFlight? ==> s.shared.inFlight > 0 && s.shared.from == Some(t)
  {
  }

  lemma SharedKept(s: Client, a: Action)
    requires Inv(s) && Enabled(s, a)
    ensures SharedInv(NextShared(s, a))
  {
    hide SharedInv, Close, BeginBlock, EndBlock, StopBlock, CallsInv;
    match a {
      case Begin(t, alive, connects) =>
        InsideMayClose(s, t);
        BeginKeeps(s.shared, t, alive, connects);
      case CloseMidway(t) =>
        InsideMayClose(s, t);
        CloseKeeps(s.shared, t);
      case End(t, close) =>
        InsideMayClose(s, t);
        EndKeeps(s.shared, t, close);
      case Stop(t) => StopKeeps(s.shared, t);
      case _ =>
    }
  }

  lemma CallsKept(s: Client, a: Action)
    requires CallsInv(s.calls) && Enabled(s, a)
    ensures CallsInv(NextCalls(s, a))
  {
    var c, c' := s.calls, NextCalls(s, a);
    match a {
      case CloseMidway(_) =>
      case Stop(_) =>
      case _ => assert forall u: Thread :: u != a.t ==> Stack(c', u) == Stack(c, u);
    }
  }

  lemma CountKept(s: Client, a: Action)
    requires CallsInv(s.calls) && CountInv(s) && Enabled(s, a)
    ensures CountInv(Step(s, a))
  {
    hide Close;
    match a {
      case Lock(t) =>
        assert Stack(NextCalls(s, a), t) == [Entered(MAX_REDIRECTS)];
      case Redirect(t) =>
        InsideMayClose(s, t);
      case Begin(t, alive, connects) =>
        InsideMayClose(s, t);
        CloseOnly(s.shared.(shouldClose := false), t);
      case CloseMidway(t) => CloseOnly(s.shared, t);
      case End(t, _) =>
        InsideMayClose(s, t);
        var c, n := s.shared, s.shared.inFlight - 1;
        CloseOnly(c.(inFlight := n, asserts := c.asserts, from := if n == 0 then None else c.from), t);
      case Unlock(t) =>
        InsideMayClose(s, t);
      case Stop(t) => CloseOnly(s.shared, t);
    }
  }

  lemma StepInv(s: Client, a: Action)
    requires Inv(s) && Enabled(s, a)
    ensures Inv(Step(s, a))
  {
    hide CallsInv, CountInv, SharedInv, NextShared, NextCalls;
    SharedKept(s, a);
    CallsKept(s, a);
    CountKept(s, a);
  }

  lemma {:induction false} RunInv(s: Client, run: seq<Action>)
    requires Inv(s) && CanRun(s, run)
    ensures Inv(After(s, run))
    decreases |run|
  {
    hide Inv, Step, Enabled;
    if run != [] {
      StepInv(s, run[0]);
      RunInv(Step(s, run[0]), run[1..]);
    }
  }

  /** MAIN RESULT.  In every interleaving of `send`, nested sends and `stop`, from any threads: the
      assertions hold, no connect overwrites an open descriptor, no descriptor is closed twice and
      none is lost, and a positive in-flight count names the thread that holds the request lock. */
  lemma SocketOwnership(settings: Settings, run: seq<Action>)
    requires CanRun(Start(settings), run)
    ensures var s := After(Start(settings), run);
      && s.shared.asserts && s.shared.overwrites == 0
      && (forall i, j :: 0 <= i < j < |s.shared.closed| ==> s.shared.closed[i] != s.shared.closed[j])
      && (s.shared.socket.Some? ==> s.shared.socket.value !in s.shared.closed)
      && |s.shared.closed| + (if s.shared.socket.Some? then 1 else 0) == s.shared.made
      && (s.shared.inFlight > 0 ==> s.shared.from.Some? && s.shared.from == s.calls.owner)
  {
    hide CanRun, After;
    StartInv(settings);
    RunInv(Start(settings), run);
  }

  /** When no activation of `send` is left, a `stop` leaves no descriptor open. */
  lemma StopWhenIdleClosesAll(settings: Settings, run: seq<Action>, t: Thread)
    requires CanRun(Start(settings), run) && After(Start(settings), run).calls.owner.None?
    ensures var s := After(Start(settings), run);
      Enabled(s, Stop(t)) && Step(s, Stop(t)).shared.socket.None? && |Step(s, Stop(t)).shared.closed| == s.shared.made
  {
    hide CanRun, After;
    StartInv(settings);
    RunInv(Start(settings), run);
    StepInv(After(Start(settings), run), Stop(t));
  }

  // ---------------------------------------------------------------- is a stop honoured?

  /** A run up to the moment when every call of `send` has returned. */
  predicate Completes(s: Client, run: seq<Action>)
    decreases |run|
  {
    if run == [] then s.calls.owner.None?
    else s.calls.owner.Some? && Enabled(s, run[0]) && Completes(Step(s, run[0]), run[1..])
  }

  lemma {:induction false} CompletesRuns(s: Client, run: seq<Action>)
    requires Completes(s, run)
    ensures CanRun(s, run) && After(s, run).calls.owner.None?
    decreases |run|
  {
    hide Step, Enabled;
    if run != [] { CompletesRuns(Step(s, run[0]), run[1..]); }
  }

  ghost predicate Closes(s: Client, run: seq<Action>) { CanRun(s, run) && After(s, run).shared.socket.None? }

  /** In every way the calls under way may go on and return, the socket is closed at the end. */
  ghost predicate Honoured(s: Client) { forall run :: Completes(s, run) ==> Closes(s, run) }

  /** What a `stop` leaves behind: a mark, until the last request in flight has closed the socket. */
  predicate Marked(c: Shared) { c.shouldClose && (c.inFlight > 0 || c.socket.None?) }

  lemma MarkStep(s: Client, a: Action)
    requires Enabled(s, a) && !a.Begin? && Marked(s.shared)
    ensures Marked(Step(s, a).shared)
  {
  }

  /** A marked socket is closed once all calls have returned, if none of them makes another `send_`. */
  lemma {:induction false} MarkedRun(s: Client, run: seq<Action>)
    requires Inv(s) && Marked(s.shared) && Completes(s, run) && forall i :: 0 <= i < |run| ==> !run[i].Begin?
    ensures Closes(s, run)
    decreases |run|
  {
    hide Step, Enabled, SharedInv;
    if run != [] {
      StepInv(s, run[0]);
      MarkStep(s, run[0]);
      MarkedRun(Step(s, run[0]), run[1..]);
    }
  }

  /** The innermost activation can still make a `send_`: its own, or that of a redirect. */
  predicate SendLeft(s: Client) {
    && s.calls.owner.Some? && Stack(s.calls, s.calls.owner.value) != []
    && var top := Top(s.calls, s.calls.owner.value);
       top.Entered? || (top.InFlight? && top.redirects > 0 && s.settings.follows)
  }

  lemma LeftStep(s: Client, a: Action)
    requires Inv(s) && Enabled(s, a) && s.calls.owner.Some? && !SendLeft(s)
    ensures !a.Begin? && Step(s, a).settings == s.settings && !SendLeft(Step(s, a))
  {
    hide SharedInv, NextShared;
    if !a.Stop? {
      assert Stack(s.calls, a.t) != [];
      InsideMayClose(s, a.t);
    }
  }

  /** Where no `send_` is left, none is made until all calls have returned. */
  lemma {:induction false} NothingBegins(s: Client, run: seq<Action>, i: nat)
    requires Inv(s) && Completes(s, run) && !SendLeft(s) && i < |run|
    ensures !run[i].Begin?
    decreases |run|
  {
    hide Step, Enabled, Inv, SendLeft;
    LeftStep(s, run[0]);
    StepInv(s, run[0]);
    if i > 0 {
      NothingBegins(Step(s, run[0]), run[1..], i - 1);
    }
  }

  /** Without `keep_alive_` there is no socket without a request in flight. */
  predicate IdleClosed(s: Client) { s.shared.inFlight == 0 ==> s.shared.socket.None? }

  lemma IdleStep(s: Client, a: Action)
    requires Enabled(s, a) && !s.settings.keepAlive && IdleClosed(s)
    ensures IdleClosed(Step(s, a)) && Step(s, a).settings == s.settings
  {
  }

  lemma {:induction false} IdleRun(s: Client, run: seq<Action>)
    requires CanRun(s, run) && !s.settings.keepAlive && IdleClosed(s)
    ensures IdleClosed(After(s, run)) && After(s, run).settings == s.settings
    decreases |run|
  {
    hide Step, Enabled, IdleClosed;
    if run != [] {
      IdleStep(s, run[0]);
      IdleRun(Step(s, run[0]), run[1..]);
    }
  }

  lemma {:induction false} SettingsStay(s: Client, run: seq<Action>)
    requires CanRun(s, run)
    ensures After(s, run).settings == s.settings
    decreases |run|
  {
    hide Enabled, NextShared, NextCalls;
    if run != [] { SettingsStay(Step(s, run[0]), run[1..]); }
  }

  /** Whatever happens, and `stop` or not: a client that does not keep connections alive has no open
      socket whenever all calls have returned. */
  lemma DefaultClosesAll(settings: Settings, run: seq<Action>)
    requires !settings.keepAlive && CanRun(Start(settings), run)
    requires After(Start(settings), run).calls.owner.None?
    ensures After(Start(settings), run).shared.socket.None?
  {
    hide CanRun, After;
    StartInv(settings);
    RunInv(Start(settings), run);
    IdleRun(Start(settings), run);
  }

  /** All that is left to do is to return: the ends and returns of the activations, innermost first. */
  lemma {:induction false} Unwinds(s: Client, t: Thread) returns (run: seq<Action>)
    requires Inv(s) && s.settings.keepAlive && s.calls.owner == Some(t) && !Top(s.calls, t).Entered?
    requires !s.shared.shouldClose && !s.shared.shut && s.shared.socket.Some?
    ensures Completes(s, run) && CanRun(s, run) && After(s, run).shared.socket == s.shared.socket
    decreases |Stack(s.calls, t)|, if Top(s.calls, t).InFlight? then 1 else 0
  {
    var a := if Top(s.calls, t).InFlight? then End(t, false) else Unlock(t);
    var s' := Step(s, a);
    StepInv(s, a);
    var rest := [];
    if a.End? || |Stack(s.calls, t)| > 1 {
      rest := Unwinds(s', t);
    }
    run := [a] + rest;
    assert run[1..] == rest;
  }

  /** The innermost activation makes the `send_` it has left, through a redirect if it is in flight: the
      socket found is shut down, a new one is connected, and nothing is left of the mark. */
  lemma Redirects(s: Client, t: Thread) returns (run: seq<Action>)
    requires Inv(s) && s.settings.keepAlive && s.calls.owner == Some(t) && SendLeft(s)
    ensures Completes(s, run) && CanRun(s, run) && After(s, run).shared.socket.Some?
    decreases if Top(s.calls, t).Entered? then 0 else 1
  {
    var top := Top(s.calls, t);
    var a := if top.Entered? then Begin(t, false, true) else Redirect(t);
    var s' := Step(s, a);
    StepInv(s, a);
    var rest;
    if top.Entered? {
      rest := Unwinds(s', t);
    } else {
      rest := Redirects(s', t);
    }
    run := [a] + rest;
    assert run[1..] == rest;
  }

  /** MAIN RESULT.  A `stop` during a request: by the time the calls under way have returned, the socket
      is closed, in every possible run, if and only if connections are not kept alive or the innermost
      call has no `send_` left to make -- neither its own nor that of a redirect. */
  lemma StopExact(settings: Settings, before: seq<Action>, t: Thread)
    requires CanRun(Start(settings), before) && After(Start(settings), before).shared.inFlight > 0
    ensures var s := After(Start(settings), before);
      Enabled(s, Stop(t)) && (Honoured(Step(s, Stop(t))) <==> !settings.keepAlive || !SendLeft(s))
  {
    hide CanRun, After, Completes;
    var start := Start(settings);
    StartInv(settings);
    RunInv(start, before);
    SettingsStay(start, before);
    var s := After(start, before);
    var s' := Step(s, Stop(t));
    StepInv(s, Stop(t));
    if !settings.keepAlive {
      IdleRun(start, before);
      IdleStep(s, Stop(t));
      forall run | Completes(s', run) ensures Closes(s', run) { AlwaysClosed(s', run); }
    } else if SendLeft(s) {
      var run := Redirects(s', s'.calls.owner.value);
      assert !Closes(s', run);
    } else {
      forall run: seq<Action> | Completes(s', run) ensures Closes(s', run) {
        forall i: nat | i < |run| ensures !run[i].Begin? { NothingBegins(s', run, i); }
        MarkedRun(s', run);
      }
    }
  }

  lemma AlwaysClosed(s: Client, run: seq<Action>)
    requires Inv(s) && !s.settings.keepAlive && IdleClosed(s) && Completes(s, run)
    ensures Closes(s, run)
  {
    hide CanRun, After, Completes;
    CompletesRuns(s, run);
    RunInv(s, run);
    IdleRun(s, run);
  }

  /** Such a run: `stop` comes while a request is in flight; the redirect it then follows finds the
      socket shut down, closes it and connects again; all calls return, and descriptor 1 is open. */
  const FORGOTTEN: seq<Action> :=
    [Lock(0), Begin(0, false, true), Stop(1), Redirect(0), Begin(0, false, true)] + RETURNS

  const KEEPING := Settings(true, true)

  const RETURNS: seq<Action> := [End(0, false), Unlock(0), End(0, false), Unlock(0)]

  /** Both activations in flight, the second on the new descriptor. */
  const REDIRECTED :=
    Client(KEEPING,
           Shared(Some(1), 2, Some(0), false, false, 2, [0], true, 0),
           Calls(Some(0), 2, map[0 := [InFlight(0), InFlight(MAX_REDIRECTS - 1)]]))

  lemma ForgottenEnds()
    ensures CanRun(REDIRECTED, RETURNS)
    ensures var s := After(REDIRECTED, RETURNS);
      s.calls.owner.None? && s.shared.socket == Some(1) && s.shared.closed == [0]
  {
    var s6 := Step(REDIRECTED, End(0, false));
    assert Stack(s6.calls, 0) == [InFlight(0), Returned];
    var s7 := Step(s6, Unlock(0));
    assert Stack(s7.calls, 0) == [InFlight(0)];
    var s8 := Step(s7, End(0, false));
    assert Stack(s8.calls, 0) == [Returned];
    var s9 := Step(s8, Unlock(0));
    hide Step, Enabled, CanRun, After;
    RunEnd(s9);
    RunCons(s8, Unlock(0), s9, []);
    RunCons(s7, End(0, false), s8, [Unlock(0)]);
    RunCons(s6, Unlock(0), s7, [End(0, false), Unlock(0)]);
    RunCons(REDIRECTED, End(0, false), s6, [Unlock(0), End(0, false), Unlock(0)]);
  }

  lemma StopForgotten()
    ensures CanRun(Start(KEEPING), FORGOTTEN)
    ensures var s := After(Start(KEEPING), FORGOTTEN);
      s.calls.owner.None? && s.shared.socket == Some(1) && s.shared.closed == [0]
  {
    var start := Start(KEEPING);
    var s1 := Step(start, Lock(0));
    assert Stack(s1.calls, 0) == [Entered(MAX_REDIRECTS)];
    var s2 := Step(s1, Begin(0, false, true));
    assert Stack(s2.calls, 0) == [InFlight(MAX_REDIRECTS)];
    var s3 := Step(s2, Stop(1));
    var s4 := Step(s3, Redirect(0));
    assert Stack(s4.calls, 0) == [InFlight(0), Entered(MAX_REDIRECTS - 1)];
    var s5 := Step(s4, Begin(0, false, true));
    assert Stack(s5.calls, 0) == [InFlight(0), InFlight(MAX_REDIRECTS - 1)];
    assert s5 == REDIRECTED;
    hide Step, Enabled, CanRun, After;
    ForgottenEnds();
    RunCons(s4, Begin(0, false, true), s5, RETURNS);
    RunCons(s3, Redirect(0), s4, [Begin(0, false, true)] + RETURNS);
    RunCons(s2, Stop(1), s3, [Redirect(0)] + ([Begin(0, false, true)] + RETURNS));
    var r2 := [Stop(1)] + ([Redirect(0)] + ([Begin(0, false, true)] + RETURNS));
    RunCons(s1, Begin(0, false, true), s2, r2);
    RunCons(start, Lock(0), s1, [Begin(0, false, true)] + r2);
    assert FORGOTTEN == [Lock(0)] + ([Begin(0, false, true)] + r2);
  }

  lemma RunEnd(s: Client)
    ensures CanRun(s, []) && After(s, []) == s
  {
  }

  lemma RunCons(s: Client, a: Action, s': Client, run: seq<Action>)
    requires Enabled(s, a) && Step(s, a) == s' && CanRun(s', run)
    ensures CanRun(s, [a] + run) && After(s, [a] + run) == After(s', run)
  {
    assert ([a] + run)[1..] == run;
  }

  // ---------------------------------------------------------------- what each block does

  /** A `send_` that finds the socket open and alive uses it. */
  lemma BeginReuses(s: Client, t: Thread, connects: bool)
    requires Enabled(s, Begin(t, true, connects)) && s.shared.socket.Some?
    ensures var c, d := s.shared, Step(s, Begin(t, true, connects));
      && d.shared.socket == c.socket && d.shared.made == c.made && d.shared.closed == c.closed
      && d.shared.inFlight == c.inFlight + 1 && d.shared.from == Some(t) && !d.shared.shouldClose
      && d.shared.shut == c.shut && Top(d.calls, t).InFlight?
  {
  }

  /** Otherwise an open socket is closed, and a new one connected; if that fails the call is over. */
  lemma BeginConnects(s: Client, t: Thread, alive: bool, connects: bool)
    requires Enabled(s, Begin(t, alive, connects)) && !(s.shared.socket.Some? && alive)
    ensures var c, d := s.shared, Step(s, Begin(t, alive, connects));
      && d.shared.closed == c.closed + (if c.socket.Some? then [c.socket.value] else [])
      && !d.shared.shouldClose && (c.socket.Some? ==> !d.shared.shut)
      && (connects ==>
            && d.shared.socket == Some(c.made) && d.shared.made == c.made + 1
            && d.shared.inFlight == c.inFlight + 1 && d.shared.from == Some(t) && Top(d.calls, t).InFlight?)
      && (!connects ==>
            && d.shared.socket == None && d.shared.made == c.made
            && d.shared.inFlight == c.inFlight && d.shared.from == c.from && Top(d.calls, t).Returned?)
  {
  }

  /** A response that says so closes the socket at once; the request stays in flight. */
  lemma MidwayCloses(s: Client, t: Thread)
    requires Enabled(s, CloseMidway(t))
    ensures var c, d := s.shared, Step(s, CloseMidway(t));
      && d.shared.socket == None && d.calls == s.calls && d.shared.inFlight == c.inFlight && d.shared.from == c.from
      && d.shared.closed == c.closed + (if c.socket.Some? then [c.socket.value] else [])
      && d.shared.shouldClose == c.shouldClose
  {
  }

  /** The end of a request counts it out, and closes the socket exactly when it is marked or the request asks
      for it. */
  lemma EndExact(s: Client, t: Thread, close: bool)
    requires Inv(s) && Enabled(s, End(t, close))
    ensures var c, d := s.shared, Step(s, End(t, close));
      && d.shared.inFlight == c.inFlight - 1 && Top(d.calls, t).Returned?
      && d.shared.from == (if c.inFlight == 1 then None else c.from) && d.shared.shouldClose == c.shouldClose
      && d.shared.made == c.made
      && (if c.shouldClose || close
          then d.shared.socket == None && d.shared.closed == c.closed + (if c.socket.Some? then [c.socket.value] else [])
          else d.shared.socket == c.socket && d.shared.closed == c.closed)
  {
    InsideMayClose(s, t);
  }

  /** `stop` marks and shuts down a socket in use, and closes an idle one. */
  lemma StopDoes(s: Client, t: Thread)
    ensures var c, d := s.shared, Step(s, Stop(t));
      && Enabled(s, Stop(t)) && d.calls == s.calls && d.shared.inFlight == c.inFlight
      && (c.inFlight > 0 ==>
            d.shared.shouldClose && d.shared.socket == c.socket && d.shared.closed == c.closed && (c.socket.Some? ==> d.shared.shut))
      && (c.inFlight == 0 ==>
            && d.shared.socket == None && d.shared.shouldClose == c.shouldClose
            && d.shared.closed == c.closed + (if c.socket.Some? then [c.socket.value] else []))
  {
  }

  /** A thread can enter when nobody is inside, and a redirect is possible exactly when locations are followed
      and the request has one left. */
  lemma CanEnter(s: Client, t: Thread)
    requires Inv(s)
    ensures Enabled(s, Lock(t)) <==> s.calls.owner.None?
    ensures Stack(s.calls, t) != [] && Top(s.calls, t).InFlight? ==>
      && (Enabled(s, Redirect(t)) <==> s.settings.follows && Top(s.calls, t).redirects > 0)
      && Enabled(s, CloseMidway(t)) && Enabled(s, End(t, true))
      && (s.settings.keepAlive && !s.shared.shut ==> Enabled(s, End(t, false)))
    ensures Stack(s.calls, t) != [] && Top(s.calls, t).Entered? ==>
      forall alive, connects :: Enabled(s, Begin(t, alive, connects))
    ensures Stack(s.calls, t) != [] && Top(s.calls, t).Returned? ==> Enabled(s, Unlock(t))
  {
  }

  /** A first request may lead to twenty redirects, each to one less. */
  lemma RedirectsCounted(s: Client, t: Thread)
    ensures Enabled(s, Lock(t)) ==> Top(Step(s, Lock(t)).calls, t) == Entered(20)
    ensures Enabled(s, Redirect(t)) ==>
      var u := Step(s, Redirect(t));
      && Top(u.calls, t) == Entered(Top(s.calls, t).redirects - 1) && u.shared == s.shared
      && |Stack(u.calls, t)| == |Stack(s.calls, t)| + 1
      && Stack(u.calls, t)[|Stack(s.calls, t)| - 1] == InFlight(0)
  {
  }
}
