/**
 The service supervisor (runit/src/runsv.c): start, stop, control commands, reaping and exit of a
 service and its optional log service, against a process table and a clock that behave as the
 operating system promises and no better.
 */
module Runsv {
  import opened Bytes
  import opened Counting
  import T = Taia

  datatype SState = Down | Run | Finish
  datatype Want = Up | WantDown | Exit
  datatype Sig = Term | Cont | Kill | Stop | Alrm | Hup | Int | Quit | Usr1 | Usr2

  /** What an observer of the supervisor sees. */
  datatype Event =
    | Started(service: nat, pid: nat, replaced: nat, at: nat)    // `./run`; `replaced` is the pid tracked before
    | FinishStarted(service: nat, pid: nat, replaced: nat)       // `./finish`
    | Signalled(pid: nat, sig: Sig, live: bool)                  // `live`: forked and not yet reaped
    | Scripted(command: char, handled: bool)                     // a control script, and whether it took over
    | Exited(pid0: nat, pid1: nat)                               // the tracked pids at exit

  // ---- The operating system ------------------------------------------------------------------

  class World {
    /** Children forked and not yet reaped. */
    var children: set<nat>
    /** No later clock reading is below this. */
    var clock: nat
    /** How many readings there have been, and how far the clock moves up to each. */
    var readings: nat
    const tick: nat -> nat
    var trace: seq<Event>
    /** Whether the control script run after so many events exists and succeeds. */
    const scripts: nat -> bool

    constructor (tick: nat -> nat, scripts: nat -> bool)
      ensures children == {} && trace == [] && this.tick == tick && this.scripts == scripts
    {
      this.tick, this.scripts := tick, scripts;
      children, clock, readings, trace := {}, 0, 0, [];
    }

    method Fork() returns (p: nat)
      modifies `children
      ensures p > 0 && p !in old(children) && children == old(children) + {p}
    {
      FreshExists(children);
      p :| p > 0 && p !in children;
      children := children + {p};
    }

    /** `taia_now` on a clock that never runs backwards. */
    method Now(t: T.Taia)
      modifies `clock, `readings, t
      ensures t.Normal() && t.Value() == clock == old(clock) + tick(old(readings)) && readings == old(readings) + 1
    {
      clock := clock + tick(readings);
      readings := readings + 1;
      T.Set(t, clock);
    }

    /** Sleeping longer is a later tick. */
    method Sleep(seconds: nat)
      modifies `clock
      ensures clock == old(clock) + seconds * T.SECOND
    {
      clock := clock + seconds * T.SECOND;
    }

    method Record(e: Event)
      modifies `trace
      ensures trace == old(trace) + [e]
    {
      trace := trace + [e];
    }

    method Signal(pid: nat, sig: Sig)
      modifies `trace
      ensures trace == old(trace) + [Signalled(pid, sig, pid in children)]
    {
      Record(Signalled(pid, sig, pid in children));
    }
  }

  class Service {
    var pid: nat
    var state: SState
    var ctrlTerm: bool
    var ctrlPause: bool
    var want: Want
    const start: T.Taia
    const isLog: bool
    /** When `./run` was last started. */
    ghost var lastRun: Option<nat>

    constructor (isLog: bool, want: Want)
      ensures pid == 0 && state == Down && this.want == want && this.isLog == isLog
      ensures lastRun == None && fresh(start) && start.Normal() && !ctrlTerm && !ctrlPause
    {
      pid, state, ctrlTerm, ctrlPause := 0, Down, false, false;
      this.want, this.isLog, lastRun := want, isLog, None;
      start := new T.Taia(0);
    }
  }

  // ---- What runs promise ---------------------------------------------------------------------

  /** Every signal goes to a child that was forked and not yet reaped. */
  ghost predicate SignalsReachChildren(trace: seq<Event>) {
    forall i :: 0 <= i < |trace| && trace[i].Signalled? ==> trace[i].pid != 0 && trace[i].live
  }

  /** No service is started over a tracked child, and the supervisor leaves none behind. */
  ghost predicate OneChildEach(trace: seq<Event>) {
    && (forall i :: 0 <= i < |trace| && (trace[i].Started? || trace[i].FinishStarted?) ==> trace[i].replaced == 0)
    && (forall i :: 0 <= i < |trace| && trace[i].Exited? ==> trace[i].pid0 == 0 && trace[i].pid1 == 0)
  }

  ghost predicate SameService(a: Event, b: Event) {
    a.Started? && b.Started? && a.service == b.service
  }

  /** Any two starts of a service are at least a second apart. */
  ghost predicate StartsSpaced(trace: seq<Event>) {
    forall i, j :: 0 <= i < j < |trace| && SameService(trace[i], trace[j]) ==> trace[j].at >= trace[i].at + T.SECOND
  }

  /** All starts of service `k` are no later than its last. */
  ghost predicate StartsUpTo(trace: seq<Event>, k: nat, last: Option<nat>) {
    forall i :: 0 <= i < |trace| && trace[i].Started? && trace[i].service == k ==>
      last.Some? && trace[i].at <= last.value
  }

  /** The last start of service `k` is among the starts. */
  ghost predicate HasLast(trace: seq<Event>, k: nat, last: Option<nat>) {
    last.Some? ==> exists i :: 0 <= i < |trace| && trace[i].Started? && trace[i].service == k && trace[i].at == last.value
  }

  /** The trace so far is as promised; `last0` and `last1` are the services' latest starts. */
  ghost predicate TraceOk(calm: bool, trace: seq<Event>, last0: Option<nat>, last1: Option<nat>) {
    && SignalsReachChildren(trace)
    && (calm ==> OneChildEach(trace) && StartsSpaced(trace))
    && StartsUpTo(trace, 0, last0) && StartsUpTo(trace, 1, last1)
    && HasLast(trace, 0, last0) && HasLast(trace, 1, last1)
  }

  /** An event that is itself as promised extends such a trace. */
  ghost predicate EventOk(calm: bool, e: Event, last0: Option<nat>, last1: Option<nat>) {
    match e
    case Signalled(pid, _, live) => pid != 0 && live
    case Scripted(_, _) => true
    case Exited(pid0, pid1) => calm ==> pid0 == 0 && pid1 == 0
    case FinishStarted(_, _, replaced) => calm ==> replaced == 0
    case Started(k, _, replaced, at) =>
      && (calm ==> replaced == 0)
      && k < 2
      && var last := if k == 0 then last0 else last1;
         last.Some? ==> at >= last.value && (calm ==> at >= last.value + T.SECOND)
  }

  function LastAfter(k: nat, last: Option<nat>, e: Event): Option<nat> {
    if e.Started? && e.service == k then Some(e.at) else last
  }

  lemma TraceAppend(calm: bool, trace: seq<Event>, last0: Option<nat>, last1: Option<nat>, e: Event)
    requires TraceOk(calm, trace, last0, last1) && EventOk(calm, e, last0, last1)
    ensures TraceOk(calm, trace + [e], LastAfter(0, last0, e), LastAfter(1, last1, e))
  {
    var t := trace + [e];
    if calm {
      forall i, j | 0 <= i < j < |t| && SameService(t[i], t[j]) ensures t[j].at >= t[i].at + T.SECOND {
        if j < |trace| { assert SameService(trace[i], trace[j]); }
      }
    }
    LastAppend(trace, 0, last0, e);
    LastAppend(trace, 1, last1, e);
  }

  lemma LastAppend(trace: seq<Event>, k: nat, last: Option<nat>, e: Event)
    requires HasLast(trace, k, last)
    ensures HasLast(trace + [e], k, LastAfter(k, last, e))
  {
    var t := trace + [e];
    assert t[|trace|] == e;
    if last.Some? && !(e.Started? && e.service == k) {
      var i :| 0 <= i < |trace| && trace[i].Started? && trace[i].service == k && trace[i].at == last.value;
      assert t[i] == trace[i];
    }
  }

  /** No starts and no exit. */
  ghost predicate Quiet(events: seq<Event>) {
    forall i :: 0 <= i < |events| ==> events[i].Signalled? || events[i].Scripted?
  }

  /** What one more start does to the guarantees: it keeps them exactly if it replaces no child and is due. */
  lemma StartDecides(trace: seq<Event>, last0: Option<nat>, last1: Option<nat>, events: seq<Event>, e: Event)
    requires TraceOk(true, trace, last0, last1) && Quiet(events) && e.Started? && e.service < 2
    ensures OneChildEach(trace + events + [e]) <==> e.replaced == 0
    ensures var last := if e.service == 0 then last0 else last1;
            StartsSpaced(trace + events + [e]) <==> (last.Some? ==> e.at >= last.value + T.SECOND)
  {
    var t, n := trace + events + [e], |trace| + |events|;
    var last := if e.service == 0 then last0 else last1;
    assert t[n] == e;
    assert forall i :: 0 <= i < |trace| ==> t[i] == trace[i];
    assert forall i :: |trace| <= i < n ==> t[i] == events[i - |trace|];
    if last.Some? ==> e.at >= last.value + T.SECOND {
      forall i, j | 0 <= i < j < |t| && SameService(t[i], t[j]) ensures t[j].at >= t[i].at + T.SECOND {
        if j < n { assert SameService(trace[i], trace[j]); }
      }
    } else {
      var i :| 0 <= i < |trace| && trace[i].Started? && trace[i].service == e.service && trace[i].at == last.value;
      assert SameService(t[i], t[n]);
    }
  }

  ghost predicate Extends(t: seq<Event>, r: seq<Event>) {
    |t| <= |r| && r[..|t|] == t
  }

  /** `r` is `t` and signals or scripts after it. */
  ghost predicate Adds(t: seq<Event>, r: seq<Event>) {
    Extends(t, r) && Quiet(r[|t|..])
  }

  lemma AddsMore(t: seq<Event>, r: seq<Event>, more: seq<Event>)
    requires Adds(t, r) && Quiet(more)
    ensures Adds(t, r + more)
  {
    assert (r + more)[|t|..] == r[|t|..] + more;
  }

  lemma AddsTransitive(t: seq<Event>, r: seq<Event>, u: seq<Event>)
    requires Adds(t, r) && Adds(r, u)
    ensures Adds(t, u)
  {
    AddsMore(t, r, u[|r|..]);
    assert u == r + u[|r|..];
  }

  // ---- The traces of the operations --------------------------------------------------------

  /** Whether the control script asked after the events of `t` takes over; the log service has none. */
  function Handled(scripts: nat -> bool, t: seq<Event>, isLog: bool): bool {
    !isLog && scripts(|t|)
  }

  /** A control script is given its chance. */
  function Asking(scripts: nat -> bool, t: seq<Event>, isLog: bool, c: char): (r: seq<Event>)
    ensures Adds(t, r)
  {
    if isLog then t else t + [Scripted(c, scripts(|t|))]
  }

  /** A signal, unless the script of command `c` takes over. */
  function Sending(scripts: nat -> bool, t: seq<Event>, pid: nat, isLog: bool, c: char, sig: Sig): (r: seq<Event>)
    ensures Adds(t, r)
  {
    var r := Asking(scripts, t, isLog, c);
    AddsMore(t, r, [Signalled(pid, sig, true)]);
    if Handled(scripts, t, isLog) then r else r + [Signalled(pid, sig, true)]
  }

  /** SIGTERM, and then SIGCONT and another script when the service is to stay down. */
  function Stopping(scripts: nat -> bool, t: seq<Event>, pid: nat, want: Want, isLog: bool): (r: seq<Event>)
    ensures Adds(t, r)
  {
    var r := Sending(scripts, t, pid, isLog, 't', Term);
    AddsMore(t, r, [Signalled(pid, Cont, true)]);
    var u := r + [Signalled(pid, Cont, true)];
    var d, x := Asking(scripts, u, isLog, 'd'), Asking(scripts, u, isLog, 'x');
    AddsTransitive(t, u, d);
    AddsTransitive(t, u, x);
    match want case Up => r case WantDown => d case Exit => x
  }

  /** Up to the fork of `startservice`: the script of `u` for a run, and a tracked child stopped. */
  function Clearing(scripts: nat -> bool, t: seq<Event>, v: View): (r: seq<Event>)
    ensures Adds(t, r)
  {
    var r := if v.state == Finish then t else Asking(scripts, t, v.isLog, 'u');
    if v.pid == 0 then r
    else
      var u := Stopping(scripts, r, v.pid, v.want, v.isLog);
      AddsTransitive(t, r, u);
      u
  }

  /** A service as `startservice` leaves it, and the trace with its start `e`. */
  function Launching(scripts: nat -> bool, t: seq<Event>, v: View, e: Event): seq<Event> {
    Clearing(scripts, t, v) + [e]
  }

  /** What is known of a service. */
  datatype View = View(pid: nat, state: SState, want: Want, isLog: bool)

  /** A start of this service: `./finish` after a run has exited, `./run` otherwise. */
  predicate StartOf(v: View, e: Event) {
    && (if v.state == Finish then e.FinishStarted? else e.Started?)
    && e.service == (if v.isLog then 1 else 0) && e.replaced == v.pid && e.pid != 0
  }

  function PidOf(e: Event): nat {
    match e
    case Started(_, pid, _, _) => pid
    case FinishStarted(_, pid, _) => pid
    case _ => 0
  }

  /** The main loop has to start the service: it has no child, and is wanted up or its finish script is due. */
  predicate Due(v: View) {
    v.pid == 0 && (v.want == Up || (!v.isLog && v.state == Finish))
  }

  function TraceStarted(scripts: nat -> bool, t: seq<Event>, v: View, e: Event): seq<Event> {
    if Due(v) then Launching(scripts, t, v, e) else t
  }

  function ViewStarted(v: View, e: Event): View {
    if Due(v) then v.(pid := PidOf(e), state := if v.state == Finish then Finish else Run) else v
  }

  /** A service whose child has exited has none, and goes to its finish script or down. */
  function ViewReaped(v: View, exits: set<nat>, hasFinish: bool): View {
    if v.pid == 0 || v.pid !in exits then v
    else v.(pid := 0, state := if !v.isLog && v.state != Finish && hasFinish then Finish else Down)
  }

  /** The trace after command `c`; `e` is the start it makes, if it makes one. */
  function TraceObeyed(scripts: nat -> bool, t: seq<Event>, v: View, c: char, e: Event): seq<Event> {
    var want := WantAfter(c, v.isLog, v.want);
    if Starts(c, v.state) then Launching(scripts, t, v.(want := want), e)
    else if v.state != Run then t
    else if Stops(c, v.isLog) then Stopping(scripts, t, v.pid, want, v.isLog)
    else if SignalOf(c).Some? then Sending(scripts, t, v.pid, v.isLog, c, SignalOf(c).value)
    else t
  }

  function ViewObeyed(v: View, c: char, e: Event): View {
    View(if Starts(c, v.state) then PidOf(e) else v.pid, StateAfter(c, v.state), WantAfter(c, v.isLog, v.want), v.isLog)
  }

  function WantAfter(c: char, isLog: bool, want: Want): Want {
    if c == 'd' || c == 'o' then WantDown
    else if c == 'u' then Up
    else if c == 'x' && !isLog then Exit
    else want
  }

  function StateAfter(c: char, state: SState): SState {
    if Starts(c, state) then Run
    else if c == 'k' then Down
    else state
  }

  /** The signal a command stands for. */
  function SignalOf(c: char): Option<Sig> {
    match c
    case 'k' => Some(Kill)  case 'p' => Some(Stop)  case 'c' => Some(Cont)
    case 'a' => Some(Alrm)  case 'h' => Some(Hup)   case 'i' => Some(Int)
    case 'q' => Some(Quit)  case '1' => Some(Usr1)  case '2' => Some(Usr2)
    case _ => None
  }

  /** The command stops a running service. */
  predicate Stops(c: char, isLog: bool) {
    c == 'd' || c == 't' || (c == 'x' && !isLog)
  }

  /** The command starts a service in this state. */
  predicate Starts(c: char, state: SState) {
    (c == 'u' || c == 'o') && state == Down
  }

  // ---- A turn of the main loop ---------------------------------------------------------------

  /** The supervisor as seen at a loop boundary. */
  datatype System = System(trace: seq<Event>, main: View, log: View)

  /** The starts of a turn, as far as they take place: by the loop and by the commands. */
  datatype Launches = Launches(main: Event, log: Event, byMain: Event, byLog: Event)

  function LogStarted(scripts: nat -> bool, haslog: bool, y: System, e: Event): System {
    if haslog then y.(trace := TraceStarted(scripts, y.trace, y.log, e), log := ViewStarted(y.log, e)) else y
  }

  function MainStarted(scripts: nat -> bool, y: System, e: Event): System {
    y.(trace := TraceStarted(scripts, y.trace, y.main, e), main := ViewStarted(y.main, e))
  }

  function Reaped(y: System, exits: set<nat>, hasFinish: bool): System {
    y.(main := ViewReaped(y.main, exits, hasFinish), log := ViewReaped(y.log, exits, hasFinish))
  }

  function MainObeyed(scripts: nat -> bool, y: System, c: Option<char>, e: Event): System {
    if c.None? then y
    else y.(trace := TraceObeyed(scripts, y.trace, y.main, c.value, e), main := ViewObeyed(y.main, c.value, e))
  }

  function LogObeyed(scripts: nat -> bool, y: System, c: Option<char>, e: Event): System {
    if c.None? then y
    else y.(trace := TraceObeyed(scripts, y.trace, y.log, c.value, e), log := ViewObeyed(y.log, c.value, e))
  }

  /** Asked to exit and down: the supervisor is gone once the log service has no child, and asks it to exit before. */
  function Ended(y: System): System {
    if y.main.want != Exit || y.main.state != Down then y
    else if y.log.pid == 0 then y.(trace := y.trace + [Exited(y.main.pid, y.log.pid)])
    else y.(log := y.log.(want := Exit))
  }

  function Commanded(scripts: nat -> bool, haslog: bool, y: System, t: Input, l: Launches): System {
    var a := MainObeyed(scripts, y, t.command, l.byMain);
    var b := LogObeyed(scripts, a, if haslog then t.logCommand else None, l.byLog);
    MainObeyed(scripts, b, if t.sigterm then Some('x') else None, l.byMain)
  }

  /** One turn: starts, reaping, commands, and the exit check. */
  function Turned(scripts: nat -> bool, haslog: bool, y: System, t: Input, l: Launches): System {
    var a := MainStarted(scripts, LogStarted(scripts, haslog, y, l.log), l.main);
    Ended(Commanded(scripts, haslog, Reaped(a, t.exits, t.hasFinish), t, l))
  }

  /** Service `k` is started between trace `t` and trace `r`. */
  ghost predicate StartsSince(t: seq<Event>, r: seq<Event>, k: nat, finish: bool) {
    exists i :: |t| <= i < |r| && (if finish then r[i].FinishStarted? else r[i].Started?) && r[i].service == k
  }

  lemma ExtendsMore(t: seq<Event>, r: seq<Event>, u: seq<Event>)
    requires Extends(t, r) && Extends(r, u)
    ensures Extends(t, u)
    ensures forall k, finish :: StartsSince(t, r, k, finish) || StartsSince(r, u, k, finish) ==> StartsSince(t, u, k, finish)
  {
    assert u[..|t|] == u[..|r|][..|t|];
    assert forall i :: 0 <= i < |r| ==> u[i] == u[..|r|][i] == r[i];
  }

  lemma ExtendsSelf(t: seq<Event>)
    ensures Extends(t, t)
  {
  }

  /** A launch is the last event, and nothing before it is lost. */
  lemma LaunchExtends(scripts: nat -> bool, t: seq<Event>, v: View, e: Event)
    ensures Extends(t, Launching(scripts, t, v, e))
    ensures StartOf(v, e) ==> StartsSince(t, Launching(scripts, t, v, e), if v.isLog then 1 else 0, v.state == Finish)
  {
    hide Clearing;
    var r := Launching(scripts, t, v, e);
    assert r[|r| - 1] == e;
  }

  lemma ObeyExtends(scripts: nat -> bool, t: seq<Event>, v: View, c: char, e: Event)
    ensures Extends(t, TraceObeyed(scripts, t, v, c, e))
  {
    hide Launching, Stopping, Sending;
    LaunchExtends(scripts, t, v.(want := WantAfter(c, v.isLog, v.want)), e);
  }

  /** The `x` of SIGTERM starts nothing. */
  lemma ExitStartsNothing(scripts: nat -> bool, y: System, e: Event, f: Event)
    ensures MainObeyed(scripts, y, Some('x'), e) == MainObeyed(scripts, y, Some('x'), f)
  {
  }

  lemma CommandsExtend(scripts: nat -> bool, haslog: bool, y: System, t: Input, l: Launches)
    ensures Extends(y.trace, Commanded(scripts, haslog, y, t, l).trace)
  {
    hide TraceObeyed, ViewObeyed, Extends;
    var a := MainObeyed(scripts, y, t.command, l.byMain);
    var b := LogObeyed(scripts, a, if haslog then t.logCommand else None, l.byLog);
    var c := Commanded(scripts, haslog, y, t, l);
    ExtendsSelf(y.trace);
    ExtendsSelf(a.trace);
    ExtendsSelf(b.trace);
    if t.command.Some? { ObeyExtends(scripts, y.trace, y.main, t.command.value, l.byMain); }
    if haslog && t.logCommand.Some? { ObeyExtends(scripts, a.trace, a.log, t.logCommand.value, l.byLog); }
    if t.sigterm { ObeyExtends(scripts, b.trace, b.main, 'x', l.byMain); }
    ExtendsMore(y.trace, a.trace, b.trace);
    ExtendsMore(y.trace, b.trace, c.trace);
  }

  lemma NothingReaped(v: View, hasFinish: bool)
    ensures ViewReaped(v, {}, hasFinish) == v
  {
  }

  lemma ReapedMore(v: View, reaped: set<nat>, child: nat, hasFinish: bool)
    requires child != 0
    ensures ViewReaped(ViewReaped(v, reaped, hasFinish), {child}, hasFinish) == ViewReaped(v, reaped + {child}, hasFinish)
  {
  }

  lemma NoneLeft(children: set<nat>, reaped: set<nat>, exits: set<nat>)
    requires reaped <= exits - {0} && (children - reaped) * exits - {0} == {}
    ensures children - reaped == children - (exits - {0})
  {
    forall c | c in children && c !in reaped ensures c !in exits - {0} {
      assert c !in (children - reaped) * exits - {0};
    }
  }

  lemma AllReaped(v: View, children: set<nat>, reaped: set<nat>, exits: set<nat>, hasFinish: bool)
    requires reaped <= exits && (children - reaped) * exits - {0} == {} && (v.pid != 0 ==> v.pid in children)
    ensures ViewReaped(v, reaped, hasFinish) == ViewReaped(v, exits, hasFinish)
  {
    var left := (children - reaped) * exits - {0};
    if v.pid != 0 && v.pid in exits {
      assert v.pid in left || v.pid in reaped;
    }
  }

  lemma EndExtends(y: System)
    ensures Extends(y.trace, Ended(y).trace)
  {
  }

  /** A turn forgets nothing, and starts whatever has no child and is wanted, or has to finish. */
  lemma TurnStarts(scripts: nat -> bool, haslog: bool, y: System, t: Input, l: Launches)
    requires !y.main.isLog && y.log.isLog && y.log.state != Finish
    requires Due(y.main) ==> StartOf(y.main, l.main)
    requires haslog && Due(y.log) ==> StartOf(y.log, l.log)
    ensures var events := Turned(scripts, haslog, y, t, l).trace;
            && Extends(y.trace, events)
            && (Due(y.main) ==> StartsSince(y.trace, events, 0, y.main.state == Finish))
            && (haslog && Due(y.log) ==> StartsSince(y.trace, events, 1, false))
  {
    hide Launching, Commanded, Ended, StartsSince, StartOf, Extends;
    var a := LogStarted(scripts, haslog, y, l.log);
    var b := MainStarted(scripts, a, l.main);
    var c := Reaped(b, t.exits, t.hasFinish);
    var d := Commanded(scripts, haslog, c, t, l);
    ExtendsSelf(y.trace);
    ExtendsSelf(a.trace);
    LaunchExtends(scripts, y.trace, y.log, l.log);
    LaunchExtends(scripts, a.trace, a.main, l.main);
    CommandsExtend(scripts, haslog, c, t, l);
    EndExtends(d);
    ExtendsMore(b.trace, d.trace, Ended(d).trace);
    ExtendsMore(a.trace, b.trace, Ended(d).trace);
    ExtendsMore(y.trace, a.trace, Ended(d).trace);
  }

  /** A turn moves what is wanted of the main service as its command and SIGTERM say. */
  lemma TurnWants(scripts: nat -> bool, haslog: bool, y: System, t: Input, l: Launches)
    requires !y.main.isLog
    ensures Turned(scripts, haslog, y, t, l).main.want ==
            if t.sigterm then Exit
            else if t.command.Some? then WantAfter(t.command.value, false, y.main.want) else y.main.want
  {
    hide TraceObeyed, TraceStarted;
  }

  /**
   A service that is wanted up is restarted: when its child exits in one turn, the next turn starts
   its finish script, if there is one and it was not that which exited, or else the service.
   */
  lemma DiesThenRestarts(scripts: nat -> bool, haslog: bool, y: System, t: Input, l: Launches, u: Input, m: Launches)
    requires !y.main.isLog && y.log.isLog && y.log.state != Finish
    requires y.main.pid != 0 && y.main.pid in t.exits && y.main.want == Up && t.command.None? && !t.sigterm
    requires var z := Turned(scripts, haslog, y, t, l);
             (Due(z.main) ==> StartOf(z.main, m.main)) && (haslog && Due(z.log) ==> StartOf(z.log, m.log))
    ensures var z := Turned(scripts, haslog, y, t, l);
            StartsSince(z.trace, Turned(scripts, haslog, z, u, m).trace, 0, y.main.state != Finish && t.hasFinish)
  {
    hide TraceObeyed, TraceStarted, StartsSince, StartOf;
    var z := Turned(scripts, haslog, y, t, l);
    assert z.main == View(0, if y.main.state != Finish && t.hasFinish then Finish else Down, Up, false);
    assert z.log.isLog && z.log.state != Finish;
    TurnStarts(scripts, haslog, z, u, m);
  }

  // ---- Nothing else is started ---------------------------------------------------------------

  predicate IsStart(e: Event) {
    e.Started? || e.FinishStarted?
  }

  /** All starts in `r` after `t` are among `es`. */
  ghost predicate StartsOnly(t: seq<Event>, r: seq<Event>, es: set<Event>) {
    Extends(t, r) && forall i :: |t| <= i < |r| && IsStart(r[i]) ==> r[i] in es
  }

  lemma StartsOnlyTransitive(t: seq<Event>, r: seq<Event>, u: seq<Event>, a: set<Event>, b: set<Event>)
    requires StartsOnly(t, r, a) && StartsOnly(r, u, b)
    ensures StartsOnly(t, u, a + b)
  {
    assert u[..|t|] == u[..|r|][..|t|];
    forall i | |t| <= i < |u| && IsStart(u[i]) ensures u[i] in a + b {
      if i < |r| { assert u[i] == u[..|r|][i] == r[i]; }
    }
  }

  lemma AddsStartsNothing(t: seq<Event>, r: seq<Event>)
    requires Adds(t, r)
    ensures StartsOnly(t, r, {})
  {
    forall i | |t| <= i < |r| ensures !IsStart(r[i]) {
      assert r[|t|..][i - |t|] == r[i];
    }
  }

  lemma LaunchStartsOnly(scripts: nat -> bool, t: seq<Event>, v: View, e: Event)
    ensures StartsOnly(t, Launching(scripts, t, v, e), {e})
  {
    hide Clearing;
    AddsStartsNothing(t, Clearing(scripts, t, v));
  }

  lemma ObeyStartsOnly(scripts: nat -> bool, t: seq<Event>, v: View, c: char, e: Event)
    ensures StartsOnly(t, TraceObeyed(scripts, t, v, c, e), if c == 'u' || c == 'o' then {e} else {})
  {
    hide Launching, Stopping, Sending, StartsOnly;
    var want := WantAfter(c, v.isLog, v.want);
    LaunchStartsOnly(scripts, t, v.(want := want), e);
    AddsStartsNothing(t, t);
    AddsStartsNothing(t, Stopping(scripts, t, v.pid, want, v.isLog));
    if SignalOf(c).Some? { AddsStartsNothing(t, Sending(scripts, t, v.pid, v.isLog, c, SignalOf(c).value)); }
    if c == 'u' || c == 'o' { MoreStarts(t, TraceObeyed(scripts, t, v, c, e), {e}); }
  }

  lemma MoreStarts(t: seq<Event>, r: seq<Event>, es: set<Event>)
    ensures StartsOnly(t, r, {}) ==> StartsOnly(t, r, es)
  {
  }

  /** A turn starts a service only when that is due, or at the command `u` or `o`. */
  lemma TurnStartsOnly(scripts: nat -> bool, haslog: bool, y: System, t: Input, l: Launches)
    ensures StartsOnly(y.trace, Turned(scripts, haslog, y, t, l).trace,
                       (if haslog && Due(y.log) then {l.log} else {}) + (if Due(y.main) then {l.main} else {})
                       + (if t.command in {Some('u'), Some('o')} then {l.byMain} else {})
                       + (if haslog && t.logCommand in {Some('u'), Some('o')} then {l.byLog} else {}))
  {
    hide Launching, TraceObeyed, ViewObeyed, StartsOnly;
    var a := LogStarted(scripts, haslog, y, l.log);
    var b := MainStarted(scripts, a, l.main);
    var c := Reaped(b, t.exits, t.hasFinish);
    var d := MainObeyed(scripts, c, t.command, l.byMain);
    var f := LogObeyed(scripts, d, if haslog then t.logCommand else None, l.byLog);
    var g := Commanded(scripts, haslog, c, t, l);
    LaunchStartsOnly(scripts, y.trace, y.log, l.log);
    LaunchStartsOnly(scripts, a.trace, a.main, l.main);
    AddsStartsNothing(y.trace, y.trace);
    AddsStartsNothing(a.trace, a.trace);
    AddsStartsNothing(c.trace, c.trace);
    AddsStartsNothing(d.trace, d.trace);
    AddsStartsNothing(f.trace, f.trace);
    if t.command.Some? { ObeyStartsOnly(scripts, c.trace, c.main, t.command.value, l.byMain); }
    if haslog && t.logCommand.Some? { ObeyStartsOnly(scripts, d.trace, d.log, t.logCommand.value, l.byLog); }
    if t.sigterm { ObeyStartsOnly(scripts, f.trace, f.main, 'x', l.byMain); }
    EndStartsNothing(g);
    var sl := if haslog && Due(y.log) then {l.log} else {};
    var sm := if Due(y.main) then {l.main} else {};
    var cm := if t.command in {Some('u'), Some('o')} then {l.byMain} else {};
    var cl := if haslog && t.logCommand in {Some('u'), Some('o')} then {l.byLog} else {};
    StartsOnlyTransitive(y.trace, a.trace, c.trace, sl, sm);
    StartsOnlyTransitive(y.trace, c.trace, d.trace, sl + sm, cm);
    StartsOnlyTransitive(y.trace, d.trace, f.trace, sl + sm + cm, cl);
    StartsOnlyTransitive(y.trace, f.trace, g.trace, sl + sm + cm + cl, {});
    StartsOnlyTransitive(y.trace, g.trace, Ended(g).trace, sl + sm + cm + cl + {}, {});
    assert sl + sm + cm + cl + {} + {} == sl + sm + cm + cl;
  }

  lemma EndStartsNothing(y: System)
    ensures StartsOnly(y.trace, Ended(y).trace, {})
  {
  }

  class Supervisor {
    const w: World
    const svd0: Service
    const svd1: Service
    const haslog: bool

    function Index(s: Service): nat { if s == svd0 then 0 else 1 }

    ghost predicate Separate()
    {
      && svd0 != svd1 && svd0.start != svd1.start
      && !svd0.isLog && svd1.isLog
    }

    /**
     What holds of a service at every command and loop boundary. `calm` is for runs without the
     `k` command.
     */
    ghost predicate ServiceInv(s: Service, calm: bool)
      reads s`pid, s`state, s`lastRun, s.start, w`children, w`clock
    {
      && s.start.Normal()
      && (s.state == Run ==> s.pid != 0)
      && (s.pid != 0 ==> s.pid in w.children)
      && (calm ==> (s.state == Down ==> s.pid == 0))
      && (calm && s.state != Down ==> s.lastRun == Some(s.start.Value()))
      && (s.lastRun.Some? ==> s.lastRun.value <= w.clock)
      && (calm && s.state == Down && s.lastRun.Some? ==> w.clock >= s.lastRun.value + T.SECOND)
    }

    ghost predicate Inv(calm: bool)
      reads w, svd0`pid, svd0`state, svd0`lastRun, svd0.start, svd1`pid, svd1`state, svd1`lastRun, svd1.start
    {
      && Separate()
      && ServiceInv(svd0, calm) && ServiceInv(svd1, calm)
      && (svd0.pid != 0 ==> svd0.pid != svd1.pid)
      && (!haslog ==> svd1.pid == 0) && svd1.state != Finish
      && TraceOk(calm, w.trace, svd0.lastRun, svd1.lastRun)
    }

    function ViewOf(s: Service): View
      reads s
    {
      View(s.pid, s.state, s.want, s.isLog)
    }

    function Now(): System
      reads w, svd0, svd1
    {
      System(w.trace, ViewOf(svd0), ViewOf(svd1))
    }

    /** `main` up to its loop; a `down` file makes a service start out unwanted. */
    constructor (haslog: bool, down: bool, logDown: bool, tick: nat -> nat, scripts: nat -> bool)
      ensures Inv(true) && w.trace == [] && this.haslog == haslog && w.tick == tick && w.scripts == scripts
      ensures svd0.pid == 0 && svd0.state == Down && svd0.want == if down then WantDown else Up
      ensures !svd0.ctrlTerm && !svd0.ctrlPause && !svd1.ctrlTerm && !svd1.ctrlPause
      ensures svd1.pid == 0 && svd1.state == Down && svd1.want == if logDown then WantDown else Up
      ensures fresh(w) && fresh(svd0) && fresh(svd1) && fresh(svd0.start) && fresh(svd1.start)
    {
      this.haslog := haslog;
      w := new World(tick, scripts);
      svd0 := new Service(false, if down then WantDown else Up);
      svd1 := new Service(true, if logDown then WantDown else Up);
    }

    /** `custom`: a control script is run, and takes over if it succeeds; never for the log service. */
    method Custom(s: Service, c: char, ghost calm: bool) returns (handled: bool)
      requires Inv(calm) && (s == svd0 || s == svd1)
      modifies w`trace
      ensures Inv(calm)
      ensures w.trace == Asking(w.scripts, old(w.trace), s.isLog, c)
      ensures handled == Handled(w.scripts, old(w.trace), s.isLog)
    {
      hide TraceOk;
      if s.isLog { return false; }
      handled := w.scripts(|w.trace|);
      TraceAppend(calm, w.trace, svd0.lastRun, svd1.lastRun, Scripted(c, handled));
      w.Record(Scripted(c, handled));
    }

    /** `kill` of the tracked child. */
    method SendTo(s: Service, sig: Sig, ghost calm: bool)
      requires Inv(calm) && (s == svd0 || s == svd1) && s.pid != 0
      modifies w`trace
      ensures Inv(calm)
      ensures w.trace == old(w.trace) + [Signalled(s.pid, sig, true)]
    {
      hide TraceOk;
      TraceAppend(calm, w.trace, svd0.lastRun, svd1.lastRun, Signalled(s.pid, sig, true));
      w.Signal(s.pid, sig);
    }

    /** `stopservice`. */
    method StopService(s: Service, ghost calm: bool)
      requires Inv(calm) && (s == svd0 || s == svd1) && s.pid != 0
      modifies w`trace, s`ctrlTerm
      ensures Inv(calm)
      ensures w.trace == Stopping(w.scripts, old(w.trace), s.pid, s.want, s.isLog)
      ensures s.ctrlTerm == (old(s.ctrlTerm) || !Handled(w.scripts, old(w.trace), s.isLog))
    {
      hide TraceOk, ServiceInv, Asking, Handled;
      var handled := Custom(s, 't', calm);
      if s.pid != 0 && !handled {
        SendTo(s, Term, calm);
        s.ctrlTerm := true;
      }
      if s.want == WantDown {
        SendTo(s, Cont, calm);
        handled := Custom(s, 'd', calm);
        return;
      }
      if s.want == Exit {
        SendTo(s, Cont, calm);
        handled := Custom(s, 'x', calm);
      }
    }

    /** Fork `./run`. */
    method LaunchRun(s: Service, ghost calm: bool) returns (e: Event)
      requires Inv(calm) && (s == svd0 || s == svd1) && (s == svd1 ==> haslog)
      requires s.state != Finish && (calm ==> s.pid == 0)
      modifies w, s`pid, s`state, s`lastRun, s.start
      ensures Inv(calm) && s.state == Run && s.lastRun == Some(s.start.Value())
      ensures s.start.Value() == old(w.clock) + w.tick(old(w.readings))
      ensures e == Started(Index(s), s.pid, old(s.pid), s.start.Value()) && w.trace == old(w.trace) + [e]
    {
      hide TraceOk, EventOk, T.Taia.Value;
      var p := w.Fork();
      w.Now(s.start);
      e := Started(Index(s), p, s.pid, w.clock);
      assert EventOk(calm, e, svd0.lastRun, svd1.lastRun) by { StartIsDue(s, e, calm); }
      TraceAppend(calm, w.trace, svd0.lastRun, svd1.lastRun, e);
      w.Record(e);
      s.lastRun := Some(w.clock);
      s.state := Run;
      s.pid := p;
    }

    lemma StartIsDue(s: Service, e: Event, calm: bool)
      requires Separate() && (s == svd0 || s == svd1)
      requires e.Started? && e.service == Index(s) && e.at == w.clock && (calm ==> e.replaced == 0)
      requires s.lastRun.Some? ==> w.clock >= s.lastRun.value
      requires calm && s.lastRun.Some? ==> w.clock >= s.lastRun.value + T.SECOND
      ensures EventOk(calm, e, svd0.lastRun, svd1.lastRun)
    {
    }

    /** Fork `./finish`. */
    method LaunchFinish(s: Service, ghost calm: bool) returns (e: Event)
      requires Inv(calm) && (s == svd0 || s == svd1) && (s == svd1 ==> haslog)
      requires s.state == Finish && (calm ==> s.pid == 0)
      modifies w, s`pid
      ensures Inv(calm) && s.pid != 0
      ensures e == FinishStarted(Index(s), s.pid, old(s.pid)) && w.trace == old(w.trace) + [e]
    {
      hide TraceOk, T.Taia.Value;
      var p := w.Fork();
      e := FinishStarted(Index(s), p, s.pid);
      TraceAppend(calm, w.trace, svd0.lastRun, svd1.lastRun, e);
      w.Record(e);
      s.pid := p;
    }

    /** `startservice`. */
    method StartService(s: Service, ghost calm: bool) returns (e: Event)
      requires Inv(calm) && (s == svd0 || s == svd1) && (s == svd1 ==> haslog)
      requires calm ==> s.pid == 0
      modifies w, s`pid, s`state, s`lastRun, s`ctrlTerm, s`ctrlPause, s.start
      ensures Inv(calm)
      ensures StartOf(old(ViewOf(s)), e) && s.pid == PidOf(e)
      ensures w.trace == Launching(w.scripts, old(w.trace), old(ViewOf(s)), e)
      ensures s.state == if old(s.state) == Finish then Finish else Run
      ensures old(s.state) != Finish ==> e.at == s.start.Value() == old(w.clock) + w.tick(old(w.readings))
      ensures !s.ctrlTerm && !s.ctrlPause
    {
      hide TraceOk, T.Taia.Value, Stopping, Asking;
      if s.state != Finish {
        var handled := Custom(s, 'u', calm);
      }
      if s.pid != 0 { StopService(s, calm); }
      if s.state == Finish {
        e := LaunchFinish(s, calm);
      } else {
        e := LaunchRun(s, calm);
      }
      s.ctrlTerm, s.ctrlPause := false, false;
    }

    /**
     `ctrl`: one command byte moves the state and what is wanted, and causes exactly these events.
     Without `k` the full invariant is kept.
     */
    method Ctrl(s: Service, c: char, ghost calm: bool) returns (e: Event)
      requires Inv(calm) && (s == svd0 || s == svd1) && (s == svd1 ==> haslog)
      requires calm ==> c != 'k'
      modifies w, s, s.start
      ensures Inv(calm)
      ensures ViewOf(s) == ViewObeyed(old(ViewOf(s)), c, e)
      ensures w.trace == TraceObeyed(w.scripts, old(w.trace), old(ViewOf(s)), c, e)
      ensures Starts(c, old(s.state)) ==>
                StartOf(old(ViewOf(s)), e) && e.at == s.start.Value() == old(w.clock) + w.tick(old(w.readings))
      ensures s.ctrlPause == (c == 'p' || (c != 'c' && !Starts(c, old(s.state)) && old(s.ctrlPause)))
    {
      hide Inv, T.Taia.Value, Stopping, Sending, Launching;
      e := Exited(0, 0);
      TwoServices(calm);
      match c
      case 'd' =>
        s.want := WantDown;
        StopIfRunning(s, calm);
      case 'u' =>
        s.want := Up;
        if s.state == Down { e := StartDown(s, calm); }
      case 'x' =>
        if !s.isLog {
          s.want := Exit;
          StopIfRunning(s, calm);
        }
      case 't' => StopIfRunning(s, calm);
      case 'k' => KillCommand(s, calm);
      case 'p' =>
        SignalIfRunning(s, 'p', Stop, calm);
        s.ctrlPause := true;
      case 'c' =>
        SignalIfRunning(s, 'c', Cont, calm);
        s.ctrlPause := false;
      case 'o' =>
        s.want := WantDown;
        if s.state == Down { e := StartDown(s, calm); }
      case 'a' => SignalCommand(s, 'a', Alrm, calm);
      case 'h' => SignalCommand(s, 'h', Hup, calm);
      case 'i' => SignalCommand(s, 'i', Int, calm);
      case 'q' => SignalCommand(s, 'q', Quit, calm);
      case '1' => SignalCommand(s, '1', Usr1, calm);
      case '2' => SignalCommand(s, '2', Usr2, calm);
      case _ =>
    }

    /** `startservice` of a service that is down. */
    method StartDown(s: Service, ghost calm: bool) returns (e: Event)
      requires Inv(calm) && (s == svd0 || s == svd1) && (s == svd1 ==> haslog) && s.state == Down
      modifies w, s`pid, s`state, s`lastRun, s`ctrlTerm, s`ctrlPause, s.start
      ensures Inv(calm) && s.state == Run && s.pid == PidOf(e) && StartOf(old(ViewOf(s)), e)
      ensures w.trace == Launching(w.scripts, old(w.trace), old(ViewOf(s)), e)
      ensures e.at == s.start.Value() == old(w.clock) + w.tick(old(w.readings))
      ensures !s.ctrlPause
    {
      hide TraceOk, T.Taia.Value, Launching;
      e := StartService(s, calm);
    }

    /** `stopservice` of a running service. */
    method StopIfRunning(s: Service, ghost calm: bool)
      requires Inv(calm) && (s == svd0 || s == svd1)
      modifies w`trace, s`ctrlTerm
      ensures Inv(calm)
      ensures w.trace == if s.state == Run then Stopping(w.scripts, old(w.trace), s.pid, s.want, s.isLog) else old(w.trace)
    {
      hide TraceOk, Stopping, T.Taia.Value;
      if s.state == Run { StopService(s, calm); }
    }

    /** A signal command: only for a running service, unless a control script handles it. */
    method SignalIfRunning(s: Service, c: char, sig: Sig, ghost calm: bool)
      requires Inv(calm) && (s == svd0 || s == svd1)
      modifies w`trace
      ensures Inv(calm)
      ensures w.trace == if s.state == Run then Sending(w.scripts, old(w.trace), s.pid, s.isLog, c, sig) else old(w.trace)
    {
      hide TraceOk, T.Taia.Value, Asking;
      if s.state == Run {
        var handled := Custom(s, c, calm);
        if !handled { SendTo(s, sig, calm); }
      }
    }

    /** A command that is nothing but a signal. */
    method SignalCommand(s: Service, c: char, sig: Sig, ghost calm: bool)
      requires Inv(calm) && (s == svd0 || s == svd1)
      requires SignalOf(c) == Some(sig) && c != 'k'
      modifies w`trace
      ensures Inv(calm)
      ensures forall e :: ViewOf(s) == ViewObeyed(old(ViewOf(s)), c, e)
      ensures forall e :: w.trace == TraceObeyed(w.scripts, old(w.trace), old(ViewOf(s)), c, e)
    {
      hide TraceOk, ServiceInv, T.Taia.Value, Sending;
      SignalIfRunning(s, c, sig, calm);
    }

    /** A service has gone down: hold back its restart until a second after its last start. */
    method WentDown(s: Service, ghost calm: bool)
      requires s.start.Normal()
      requires calm ==> s.lastRun == Some(s.start.Value())
      requires s.lastRun.Some? ==> s.lastRun.value <= w.clock
      modifies w`clock, w`readings, s`state, s.start
      ensures s.state == Down && s.start.Normal()
      ensures s.start.Value() == old(w.clock) + w.tick(old(w.readings)) && w.readings == old(w.readings) + 1
      ensures w.clock == s.start.Value() + if s.start.Value() < old(s.start.Value()) + T.SECOND then T.SECOND else 0
      ensures calm ==> w.clock >= s.lastRun.value + T.SECOND
    {
      s.state := Down;
      var deadline := new T.Taia(1);
      T.Add(deadline, s.start, deadline);
      w.Now(s.start);
      if T.Less(s.start, deadline) { w.Sleep(1); }
    }

    /** One turn of the reaping loop: some exited child is reaped, tracked or not. */
    method ReapOne(child: nat, finishExists: bool, ghost calm: bool)
      requires Inv(calm) && child in w.children && child != 0
      modifies w`children, w`clock, w`readings, svd0`pid, svd0`state, svd0`ctrlTerm, svd0.start,
               svd1`pid, svd1`state, svd1`ctrlTerm, svd1.start
      ensures Inv(calm) && w.children == old(w.children) - {child}
      ensures child == old(svd0.pid) ==> !svd0.ctrlTerm
      ensures haslog && child == old(svd1.pid) ==> !svd1.ctrlTerm
      ensures ViewOf(svd0) == ViewReaped(old(ViewOf(svd0)), {child}, finishExists)
      ensures ViewOf(svd1) == ViewReaped(old(ViewOf(svd1)), {child}, finishExists)
      ensures if child == old(svd0.pid)
              then svd0.pid == 0 && svd0.state == if old(svd0.state) != Finish && finishExists then Finish else Down
              else svd0.pid == old(svd0.pid) && svd0.state == old(svd0.state)
      ensures if haslog && child == old(svd1.pid)
              then svd1.pid == 0 && svd1.state == Down
              else svd1.pid == old(svd1.pid) && svd1.state == old(svd1.state)
    {
      hide TraceOk, T.Taia.Value;
      w.children := w.children - {child};
      if child == svd0.pid {
        svd0.pid := 0;
        svd0.ctrlTerm := false;
        if svd0.state != Finish && finishExists {
          svd0.state := Finish;
          return;
        }
        WentDown(svd0, calm);
      }
      if haslog && child == svd1.pid {
        svd1.pid := 0;
        svd1.ctrlTerm := false;
        WentDown(svd1, calm);
      }
    }

    /** The reaping loop: the children that have exited, in any order. */
    method Reap(exits: set<nat>, hasFinish: bool, ghost calm: bool)
      requires Inv(calm)
      modifies w`children, w`clock, w`readings, svd0`pid, svd0`state, svd0`ctrlTerm, svd0.start,
               svd1`pid, svd1`state, svd1`ctrlTerm, svd1.start
      ensures Inv(calm) && w.children == old(w.children) - (exits - {0})
      ensures Now() == Reaped(old(Now()), exits, hasFinish)
    {
      hide Inv, ViewReaped;
      ghost var reaped, v0, v1 := {}, ViewOf(svd0), ViewOf(svd1);
      NothingReaped(v0, hasFinish);
      NothingReaped(v1, hasFinish);
      PidsAreChildren(calm);
      while w.children * exits - {0} != {}
        invariant Inv(calm) && reaped <= exits - {0}
        invariant w.children == old(w.children) - reaped
        invariant ViewOf(svd0) == ViewReaped(v0, reaped, hasFinish)
        invariant ViewOf(svd1) == ViewReaped(v1, reaped, hasFinish)
        decreases w.children
      {
        var child :| child in w.children * exits - {0};
        ReapOne(child, hasFinish, calm);
        ReapedMore(v0, reaped, child, hasFinish);
        ReapedMore(v1, reaped, child, hasFinish);
        reaped := reaped + {child};
      }
      NoneLeft(old(w.children), reaped, exits);
      AllReaped(v0, old(w.children), reaped, exits, hasFinish);
      AllReaped(v1, old(w.children), reaped, exits, hasFinish);
    }

    lemma TwoServices(calm: bool)
      requires Inv(calm)
      ensures Separate()
    {
    }

    lemma PidsAreChildren(calm: bool)
      requires Inv(calm)
      ensures svd0.pid != 0 ==> svd0.pid in w.children
      ensures svd1.pid != 0 ==> svd1.pid in w.children
    {
    }

    /** Start what is wanted and not there: the head of the main loop. */
    method StartWanted(ghost calm: bool) returns (main: Event, log: Event)
      requires Inv(calm)
      modifies w, svd0, svd1, svd0.start, svd1.start
      ensures Inv(calm)
      ensures Now() == MainStarted(w.scripts, LogStarted(w.scripts, haslog, old(Now()), log), main)
      ensures haslog && Due(old(ViewOf(svd1))) ==> StartOf(old(ViewOf(svd1)), log)
      ensures Due(old(ViewOf(svd0))) ==> StartOf(old(ViewOf(svd0)), main)
    {
      hide TraceOk, ServiceInv, Launching, StartOf;
      main, log := Exited(0, 0), Exited(0, 0);
      if haslog && svd1.pid == 0 && svd1.want == Up { log := StartService(svd1, calm); }
      if svd0.pid == 0 && (svd0.want == Up || svd0.state == Finish) { main := StartService(svd0, calm); }
    }

    /** The commands of a turn and SIGTERM. */
    method ObeyCommands(t: Input, ghost main: Event, ghost log: Event, ghost calm: bool) returns (byMain: Event, byLog: Event)
      requires Inv(calm) && (calm ==> NoKill(t))
      modifies w, svd0, svd1, svd0.start, svd1.start
      ensures Inv(calm)
      ensures Now() == Commanded(w.scripts, haslog, old(Now()), t, Launches(main, log, byMain, byLog))
    {
      hide Inv, TraceObeyed, ViewObeyed;
      TwoServices(calm);
      byMain, byLog := Exited(0, 0), Exited(0, 0);
      if t.command.Some? { byMain := Ctrl(svd0, t.command.value, calm); }
      if haslog && t.logCommand.Some? { byLog := Ctrl(svd1, t.logCommand.value, calm); }
      if t.sigterm {
        ghost var y := Now();
        var byTerm := Ctrl(svd0, 'x', calm);
        ExitStartsNothing(w.scripts, y, byMain, byTerm);
      }
    }

    /** The exit check at the end of the main loop. */
    method ExitCheck(ghost calm: bool) returns (exited: bool)
      requires Inv(calm)
      modifies w`trace, svd1`want
      ensures Inv(calm)
      ensures exited <==> svd0.want == Exit && svd0.state == Down && svd1.pid == 0
      ensures Now() == Ended(old(Now()))
      ensures exited ==> w.trace != [] && w.trace[|w.trace| - 1] == Exited(svd0.pid, svd1.pid)
    {
      hide TraceOk;
      exited := false;
      if svd0.want == Exit && svd0.state == Down {
        if svd1.pid == 0 {
          TraceAppend(calm, w.trace, svd0.lastRun, svd1.lastRun, Exited(svd0.pid, svd1.pid));
          w.Record(Exited(svd0.pid, svd1.pid));
          return true;
        }
        svd1.want := Exit;
      }
    }

    /** One turn of the main loop. */
    method Turn(t: Input, ghost calm: bool) returns (exited: bool, l: Launches)
      requires Inv(calm) && (calm ==> NoKill(t))
      modifies w, svd0, svd1, svd0.start, svd1.start
      ensures Inv(calm)
      ensures Now() == Turned(w.scripts, haslog, old(Now()), t, l)
      ensures exited <==> svd0.want == Exit && svd0.state == Down && svd1.pid == 0
      ensures exited ==> w.trace != [] && w.trace[|w.trace| - 1] == Exited(svd0.pid, svd1.pid)
      ensures Extends(old(w.trace), w.trace)
      ensures old(svd0.pid) == 0 && (old(svd0.want) == Up || old(svd0.state) == Finish) ==>
                StartsSince(old(w.trace), w.trace, 0, old(svd0.state) == Finish)
      ensures haslog && old(svd1.pid) == 0 && old(svd1.want) == Up ==> StartsSince(old(w.trace), w.trace, 1, false)
      ensures t.sigterm ==> svd0.want == Exit
      ensures t.command.Some? && !t.sigterm ==> svd0.want == WantAfter(t.command.value, false, old(svd0.want))
    {
      hide TraceOk, ServiceInv, MainStarted, LogStarted, Reaped, Commanded, Ended, StartOf, Extends, StartsSince;
      ghost var y := Now();
      var main, log := StartWanted(calm);
      Reap(t.exits, t.hasFinish, calm);
      var byMain, byLog := ObeyCommands(t, main, log, calm);
      exited := ExitCheck(calm);
      l := Launches(main, log, byMain, byLog);
      TurnStarts(w.scripts, haslog, y, t, l);
      TurnWants(w.scripts, haslog, y, t, l);
    }

    /** The turns of a run, as far as they go; `calm` if the full invariant holds and there is no `k`. */
    method RunFrom(inputs: seq<Input>, ghost calm: bool) returns (exited: bool)
      requires Inv(calm) && (calm ==> forall i :: 0 <= i < |inputs| ==> NoKill(inputs[i]))
      modifies w, svd0, svd1, svd0.start, svd1.start
      ensures Inv(calm)
      ensures exited ==> w.trace != [] && w.trace[|w.trace| - 1] == Exited(svd0.pid, svd1.pid)
      ensures Extends(old(w.trace), w.trace)
      ensures inputs != [] && old(svd0.pid) == 0 && (old(svd0.want) == Up || old(svd0.state) == Finish) ==>
                StartsSince(old(w.trace), w.trace, 0, old(svd0.state) == Finish)
      ensures inputs != [] && haslog && old(svd1.pid) == 0 && old(svd1.want) == Up ==>
                StartsSince(old(w.trace), w.trace, 1, false)
    {
      hide TraceOk, ServiceInv, Turned, StartsSince, Extends;
      exited := false;
      ghost var trace, finish := w.trace, svd0.state == Finish;
      ghost var due := svd0.pid == 0 && (svd0.want == Up || svd0.state == Finish);
      ghost var logDue := haslog && svd1.pid == 0 && svd1.want == Up;
      ExtendsSelf(trace);
      for i := 0 to |inputs|
        invariant Inv(calm) && !exited && Extends(trace, w.trace) && (i == 0 ==> w.trace == trace)
        invariant i == 0 ==> Now() == old(Now())
        invariant i > 0 && due ==> StartsSince(trace, w.trace, 0, finish)
        invariant i > 0 && logDue ==> StartsSince(trace, w.trace, 1, false)
      {
        ghost var before := w.trace;
        var l;
        exited, l := Turn(inputs[i], calm);
        if i > 0 { ExtendsMore(trace, before, w.trace); }
        if exited { break; }
      }
    }

    /** No start replaces a tracked child, starts are a second apart, exit leaves no child; a down service has none. */
    ghost predicate Guarantees()
      reads w`trace, svd0`pid, svd0`state, svd1`pid, svd1`state
    {
      && OneChildEach(w.trace) && StartsSpaced(w.trace)
      && (svd0.state == Down ==> svd0.pid == 0) && (svd1.state == Down ==> svd1.pid == 0)
    }

    /**
     Any run, of any length, under any commands, child exits and clock. Every signal reaches a
     live child. Without `k`, no start replaces a tracked child, starts of a service are at least
     a second apart, and exit leaves no tracked child. What is wanted at its beginning is started in it.
     */
    method RunLoop(inputs: seq<Input>) returns (exited: bool)
      requires Inv(true)
      modifies w, svd0, svd1, svd0.start, svd1.start
      ensures SignalsReachChildren(w.trace)
      ensures exited ==> w.trace != [] && w.trace[|w.trace| - 1] == Exited(svd0.pid, svd1.pid)
      ensures (forall i :: 0 <= i < |inputs| ==> NoKill(inputs[i])) ==> Guarantees()
      ensures Extends(old(w.trace), w.trace)
      ensures inputs != [] && old(svd0.pid) == 0 && (old(svd0.want) == Up || old(svd0.state) == Finish) ==>
                StartsSince(old(w.trace), w.trace, 0, old(svd0.state) == Finish)
      ensures inputs != [] && haslog && old(svd1.pid) == 0 && old(svd1.want) == Up ==>
                StartsSince(old(w.trace), w.trace, 1, false)
    {
      hide ServiceInv, SignalsReachChildren, OneChildEach, StartsSpaced, StartsUpTo, HasLast, StartsSince, Extends;
      ghost var calm := forall i :: 0 <= i < |inputs| ==> NoKill(inputs[i]);
      Weaken(calm);
      exited := RunFrom(inputs, calm);
      DownHasNoChild(calm);
    }

    lemma Weaken(calm: bool)
      requires Inv(true)
      ensures Inv(calm)
    {
    }

    lemma DownHasNoChild(calm: bool)
      requires Inv(calm)
      ensures calm ==> (svd0.state == Down ==> svd0.pid == 0) && (svd1.state == Down ==> svd1.pid == 0)
    {
    }

    /** No child is tracked, and the service is down already or its last start is a second past. */
    ghost predicate Harmless(s: Service)
      reads s`pid, s`state, s`lastRun, w`clock
    {
      s.pid == 0 && (s.state == Down || (s.lastRun.Some? ==> w.clock >= s.lastRun.value + T.SECOND))
    }

    /** The `k` command, and what it leaves of the full invariant: it survives exactly when `k` was harmless. */
    method KillCommand(s: Service, ghost calm: bool)
      requires Inv(calm) && (s == svd0 || s == svd1)
      modifies w`trace, s`state
      ensures s.state == Down && s.lastRun == old(s.lastRun) && s.pid == old(s.pid)
      ensures Inv(false) && (calm ==> (Inv(true) <==> old(Harmless(s))))
      ensures w.trace == if old(s.state) == Run then Sending(w.scripts, old(w.trace), s.pid, s.isLog, 'k', Kill) else old(w.trace)
    {
      hide TraceOk, T.Taia.Value, Sending;
      SignalIfRunning(s, 'k', Kill, calm);
      s.state := Down;
      Weakened(calm);
    }

    lemma Weakened(calm: bool)
      requires Separate() && TraceOk(calm, w.trace, svd0.lastRun, svd1.lastRun)
      ensures TraceOk(false, w.trace, svd0.lastRun, svd1.lastRun)
    {
    }

    /** After a harmless `k` the guarantees hold for every continuation without another. */
    method KillThenRun(s: Service, inputs: seq<Input>) returns (exited: bool)
      requires Inv(true) && (s == svd0 || s == svd1) && (s == svd1 ==> haslog)
      modifies w, svd0, svd1, svd0.start, svd1.start
      ensures SignalsReachChildren(w.trace)
      ensures old(Harmless(s)) && (forall i :: 0 <= i < |inputs| ==> NoKill(inputs[i])) ==> Guarantees()
    {
      hide ServiceInv, SignalsReachChildren, OneChildEach, StartsSpaced, StartsUpTo, HasLast, Harmless;
      ghost var calm := old(Harmless(s)) && forall i :: 0 <= i < |inputs| ==> NoKill(inputs[i]);
      KillCommand(s, true);
      exited := RunFrom(inputs, calm);
      DownHasNoChild(calm);
    }

    /**
     `k`, then `u`: the new start replaces the child that was tracked, and comes a second after the
     last one only if the clock says so. Under a clock that has not moved the guarantees hold
     exactly when `k` was harmless, so no weaker condition covers every continuation.
     */
    method KillThenUp(s: Service)
      requires Inv(true) && (s == svd0 || s == svd1) && (s == svd1 ==> haslog)
      modifies w, s, s.start
      ensures Inv(false)
      ensures OneChildEach(w.trace) <==> old(s.pid) == 0
      ensures StartsSpaced(w.trace) <==>
                (old(s.lastRun).Some? ==> old(w.clock) + w.tick(old(w.readings)) >= old(s.lastRun).value + T.SECOND)
      ensures w.tick(old(w.readings)) == 0 ==> (OneChildEach(w.trace) && StartsSpaced(w.trace) <==> old(Harmless(s)))
    {
      hide TraceOk, OneChildEach, StartsSpaced, T.Taia.Value, Sending, Clearing;
      ghost var trace, last0, last1, was := w.trace, svd0.lastRun, svd1.lastRun, s.pid;
      KillCommand(s, true);
      ghost var killed, v := w.trace, ViewOf(s).(want := Up);
      var e := Ctrl(s, 'u', false);
      ghost var cleared := Clearing(w.scripts, killed, v);
      AddsTransitive(trace, killed, cleared);
      assert cleared == trace + cleared[|trace|..];
      StartDecides(trace, last0, last1, cleared[|trace|..], e);
    }
  }

  /**
   What reaches the supervisor in one turn: at most one command per service, SIGTERM, the children
   that have exited, and whether there is a finish script.
   */
  datatype Input = Input(command: Option<char>, logCommand: Option<char>, sigterm: bool, exits: set<nat>, hasFinish: bool)

  predicate NoKill(t: Input) {
    t.command != Some('k') && t.logCommand != Some('k')
  }
}
