/** The close protocol of a network connection (src/connection.cpp).

    A `State` holds the connection's fields and what is outstanding outside it: tasks queued with the
    dispatcher, the scheduler and the network service, and handlers of reads and writes begun. Every
    step holds the connection's lock, so a run is a sequence of steps. `refCount` counts the output
    messages that refer to the connection; the message of a write begun is one of them. */
module Connections {

  datatype ConnectionState = Open | RequestClose | Closing | Closed

  datatype IoError = Success | Aborted | Failed

  /** How the start of a read or write went: it is under way, or an exception was thrown, which is
      logged (and closes the connection, for a read) only the first time. */
  datatype Start = Begun | Thrown(logged: bool)

  datatype State = State(
    state: ConnectionState,
    pendingWrite: int,
    pendingRead: int,
    writeError: bool,
    readError: bool,
    socketOpen: bool,
    hasProtocol: bool,
    refCount: int,
    out: Outstanding)

  /** What was handed to others and will come back, and what they did. */
  datatype Outstanding = Outstanding(
    closeTasks: int,    // closeConnection, with the dispatcher
    releaseTasks: int,  // releaseConnection, with the scheduler
    stopTasks: int,     // onStop, with the service
    writeHandlers: int, // writes whose handler is still to come
    readHandlers: int,  // reads whose handler is still to come
    released: int,      // how often deleteConnection went through
    stopped: bool,      // onStop has deleted the socket
    shutDown: bool)     // the manager has closed the socket on its own

  datatype Event =
    | Accept(start: Start)
    | Allocate
    | Send(start: Start, forceClose: bool)
    | FreeMessage
    | Close
    | OnWrite(error: IoError)
    | OnWriteTimeout
    | OnReadTimeout
    | ParseHeader(error: IoError, badSize: bool, start: Start)
    | ParsePacket(error: IoError, makesProtocol: bool, closes: bool, start: Start)
    | CloseConnection
    | ReleaseConnection
    | OnStop
    | Shutdown

  /** Which steps can happen: a handler or a task runs only if it is outstanding, a message is sent or
      freed only if there is one, and made only by a protocol that knows the connection. */
  predicate Enabled(s: State, e: Event) {
    match e
    case Accept(_) => s.state == Open && s.out.readHandlers == 0
    case Allocate => s.hasProtocol
    case Send(_, _) => s.refCount > 0
    case FreeMessage => s.refCount > s.out.writeHandlers
    case Close => true
    case OnWrite(_) => s.out.writeHandlers > 0
    case OnWriteTimeout => !s.out.stopped
    case OnReadTimeout => !s.out.stopped
    case ParseHeader(_, _, _) => s.out.readHandlers > 0
    case ParsePacket(_, _, _, _) => s.out.readHandlers > 0
    case CloseConnection => s.out.closeTasks > 0
    case ReleaseConnection => s.out.releaseTasks > 0
    case OnStop => s.out.stopTasks > 0
    case Shutdown => !s.out.stopped
  }

  /** A new connection; a service that speaks first has given it its protocol. */
  function Fresh(hasProtocol: bool): State {
    State(Open, 0, 0, false, false, true, hasProtocol, 0, Outstanding(0, 0, 0, 0, 0, 0, false, false))
  }

  // what the private members do to the state

  function Asked(s: State): State {
    if s.state == Closed || s.state == RequestClose then s
    else s.(state := RequestClose, out := s.out.(closeTasks := s.out.closeTasks + 1))
  }

  function SocketShut(s: State): State {
    if s.socketOpen then s.(socketOpen := false, pendingRead := 0, pendingWrite := 0) else s
  }

  function Released(s: State): State {
    if s.refCount > 0 then s.(out := s.out.(releaseTasks := s.out.releaseTasks + 1))
    else s.(out := s.out.(released := s.out.released + 1, stopTasks := s.out.stopTasks + 1))
  }

  function ReadStarted(s: State, start: Start): State {
    var t := s.(pendingRead := s.pendingRead + 1);
    match start
    case Begun => t.(out := t.out.(readHandlers := t.out.readHandlers + 1))
    case Thrown(logged) => if logged then Asked(t) else t
  }

  function Heard(out: Outstanding): Outstanding {
    out.(readHandlers := out.readHandlers - 1)
  }

  function ReadFailed(s: State, readError: bool): State {
    Asked(s.(out := Heard(s.out), readError := readError))
  }

  function ReadDone(s: State): State {
    s.(out := Heard(s.out), pendingRead := s.pendingRead - 1)
  }

  function WriteFailed(s: State, writeError: bool): State {
    Asked(SocketShut(s.(out := s.out.(writeHandlers := s.out.writeHandlers - 1), writeError := writeError)))
  }

  function WriteDone(s: State): State {
    s.(out := s.out.(writeHandlers := s.out.writeHandlers - 1), pendingWrite := s.pendingWrite - 1)
  }

  function WriteStarted(s: State, start: Start): State {
    s.(pendingWrite := s.pendingWrite + 1,
       out := if start.Begun? then s.out.(writeHandlers := s.out.writeHandlers + 1) else s.out)
  }

  function Step(s: State, e: Event): State {
    match e
    case Accept(start) => ReadStarted(s, start)
    case Allocate => s.(refCount := s.refCount + 1)
    case Send(start, forceClose) =>
      if s.state != Open || s.writeError then s
      else if s.pendingWrite == 0 then WriteStarted(s, start)
      else if s.pendingWrite > 100 && forceClose then Asked(s)
      else s
    case FreeMessage => s.(refCount := s.refCount - 1)
    case Close => Asked(s)
    case OnWrite(error) =>
      var writeError := s.writeError || error != Success;
      if s.state != Open || writeError then WriteFailed(s, writeError) else WriteDone(s)
    case OnWriteTimeout => if s.pendingWrite > 0 || s.writeError then Asked(SocketShut(s)) else s
    case OnReadTimeout => if s.pendingRead > 0 || s.readError then Asked(SocketShut(s)) else s
    case ParseHeader(error, badSize, start) =>
      var readError := s.readError || error != Success || badSize;
      if s.state != Open || readError then ReadFailed(s, readError) else ReadStarted(ReadDone(s), start)
    case ParsePacket(error, makesProtocol, closes, start) =>
      var readError := s.readError || error != Success;
      if s.state != Open || readError then ReadFailed(s, readError)
      else if !s.hasProtocol && !makesProtocol then Asked(ReadDone(s))
      else
        var t := ReadDone(s).(hasProtocol := true);
        ReadStarted(if closes then Asked(t) else t, start)
    case CloseConnection =>
      var t := s.(out := s.out.(closeTasks := s.out.closeTasks - 1));
      if s.state != RequestClose then t
      else
        var u := t.(hasProtocol := false, state := Closing);
        if u.pendingWrite == 0 || u.writeError then Released(SocketShut(u)).(state := Closed) else u
    case ReleaseConnection => Released(s.(out := s.out.(releaseTasks := s.out.releaseTasks - 1)))
    case OnStop => s.(out := s.out.(stopTasks := s.out.stopTasks - 1, stopped := true), socketOpen := false)
    case Shutdown => s.(socketOpen := false, out := s.out.(shutDown := true))
  }

  predicate IsRun(s: State, events: seq<Event>)
    decreases |events|
  {
    events == [] || (Enabled(s, events[0]) && IsRun(Step(s, events[0]), events[1..]))
  }

  function After(s: State, events: seq<Event>): State
    decreases |events|
  {
    if events == [] then s else After(Step(s, events[0]), events[1..])
  }

  /** What every run keeps. */
  predicate Valid(s: State) {
    && 0 <= s.pendingWrite <= 1 && 0 <= s.out.writeHandlers <= 1 && 0 <= s.out.readHandlers <= 1 && 0 <= s.pendingRead
    && s.out.writeHandlers <= s.refCount
    // one task to close is queued iff closing was asked for; release happens on the way to Closed
    && s.out.closeTasks == (if s.state == RequestClose then 1 else 0)
    && s.out.releaseTasks >= 0 && s.out.stopTasks >= 0 && s.out.released >= 0
    && s.out.releaseTasks + s.out.released == (if s.state == Closed then 1 else 0)
    && s.out.stopTasks + (if s.out.stopped then 1 else 0) == s.out.released
    && (s.out.released == 1 ==> s.refCount == 0)
    // while open, the counters cover what is under way, and there was no error
    && (s.state == Open ==> s.out.writeHandlers <= s.pendingWrite && s.out.readHandlers <= s.pendingRead)
    && (s.state == Open ==> !s.writeError && !s.readError)
    && (s.state == Closed ==> !s.socketOpen)
    && (s.hasProtocol ==> s.state == Open || s.state == RequestClose)
    && (s.state == Closing ==> s.pendingWrite == 1 && !s.writeError)
    && (!s.socketOpen && !s.out.shutDown ==> s.pendingWrite == 0 && s.state != Open)
  }

  lemma AskedKeepsValid(s: State)
    requires Valid(s)
    ensures Valid(Asked(s))
  {
  }

  lemma ReadStartedKeepsValid(s: State, start: Start)
    requires Valid(s) && s.out.readHandlers == 0 && !s.readError
    ensures Valid(ReadStarted(s, start))
  {
    AskedKeepsValid(s.(pendingRead := s.pendingRead + 1));
  }

  lemma ReadFailedKeepsValid(s: State, readError: bool)
    requires Valid(s) && s.out.readHandlers > 0 && (s.state != Open || readError)
    ensures Valid(ReadFailed(s, readError))
  {
  }

  lemma ReadDoneKeepsValid(s: State)
    requires Valid(s) && s.out.readHandlers > 0 && s.state == Open
    ensures Valid(ReadDone(s)) && Valid(ReadDone(s).(hasProtocol := true))
  {
  }

  lemma ParseHeaderKeepsValid(s: State, e: Event)
    requires Valid(s) && Enabled(s, e) && e.ParseHeader?
    ensures Valid(Step(s, e))
  {
    var readError := s.readError || e.error != Success || e.badSize;
    if s.state != Open || readError {
      ReadFailedKeepsValid(s, readError);
    } else {
      ReadDoneKeepsValid(s);
      ReadStartedKeepsValid(ReadDone(s), e.start);
    }
  }

  lemma ParsePacketKeepsValid(s: State, e: Event)
    requires Valid(s) && Enabled(s, e) && e.ParsePacket?
    ensures Valid(Step(s, e))
  {
    var readError := s.readError || e.error != Success;
    if s.state != Open || readError {
      ReadFailedKeepsValid(s, readError);
    } else {
      ReadDoneKeepsValid(s);
      var t := ReadDone(s).(hasProtocol := true);
      AskedKeepsValid(ReadDone(s));
      AskedKeepsValid(t);
      ReadStartedKeepsValid(if e.closes then Asked(t) else t, e.start);
    }
  }

  lemma TaskKeepsValid(s: State, e: Event)
    requires Valid(s) && Enabled(s, e) && (e.CloseConnection? || e.ReleaseConnection? || e.OnStop?)
    ensures Valid(Step(s, e))
  {
  }

  lemma WriteKeepsValid(s: State, e: Event)
    requires Valid(s) && Enabled(s, e) && (e.Send? || e.OnWrite? || e.OnWriteTimeout? || e.OnReadTimeout?)
    ensures Valid(Step(s, e))
  {
  }

  lemma StepKeepsValid(s: State, e: Event)
    requires Valid(s) && Enabled(s, e)
    ensures Valid(Step(s, e))
  {
    match e
    case ParseHeader(_, _, _) => ParseHeaderKeepsValid(s, e);
    case ParsePacket(_, _, _, _) => ParsePacketKeepsValid(s, e);
    case CloseConnection => TaskKeepsValid(s, e);
    case ReleaseConnection => TaskKeepsValid(s, e);
    case OnStop => TaskKeepsValid(s, e);
    case Send(_, _) => WriteKeepsValid(s, e);
    case OnWrite(_) => WriteKeepsValid(s, e);
    case OnWriteTimeout => WriteKeepsValid(s, e);
    case OnReadTimeout => WriteKeepsValid(s, e);
    case Accept(start) => ReadStartedKeepsValid(s, start);
    case Close => AskedKeepsValid(s);
    case _ =>
  }

  /** The protocol's invariant, over every interleaving. */
  lemma {:induction false} RunKeepsValid(s: State, events: seq<Event>)
    requires Valid(s) && IsRun(s, events)
    ensures Valid(After(s, events))
    decreases |events|
  {
    if events != [] {
      StepKeepsValid(s, events[0]);
      RunKeepsValid(Step(s, events[0]), events[1..]);
    }
  }

  /** closeConnection is queued exactly while closing is asked for, so it never meets another state;
      at most one write is under way, and there is never more than one to wait for, so no connection
      is ever closed for being slow; release happens once at most. */
  predicate Orderly(s: State) {
    && (s.out.closeTasks == 1 <==> s.state == RequestClose) && (s.out.closeTasks == 0 <==> s.state != RequestClose)
    && (Enabled(s, Event.CloseConnection) ==> s.state == RequestClose)
    && 0 <= s.out.writeHandlers <= 1 && 0 <= s.pendingWrite <= 1 && 0 <= s.pendingRead
    && 0 <= s.out.released <= 1
  }

  lemma ValidIsOrderly(s: State)
    requires Valid(s)
    ensures Orderly(s)
  {
  }

  lemma CloseProtocol(hasProtocol: bool, events: seq<Event>)
    requires IsRun(Fresh(hasProtocol), events)
    ensures Orderly(After(Fresh(hasProtocol), events))
  {
    RunKeepsValid(Fresh(hasProtocol), events);
    ValidIsOrderly(After(Fresh(hasProtocol), events));
  }

  /** A closed connection stays closed, and is released at most once. */
  lemma {:induction false} ClosedIsForever(s: State, events: seq<Event>)
    requires Valid(s) && s.state == Closed && IsRun(s, events)
    ensures var t := After(s, events);
      t.state == Closed && s.out.released <= t.out.released <= 1 && (s.out.stopped ==> t.out.stopped)
    decreases |events|
  {
    if events != [] {
      StepKeepsValid(s, events[0]);
      ClosedIsForever(Step(s, events[0]), events[1..]);
    }
  }

  /** Once the socket is deleted, no handler of a write, no task that names the connection and no
      message is left, and none can come: whatever runs later is a call to close, which does nothing. */
  lemma {:induction false} NothingAfterStop(s: State, events: seq<Event>)
    requires Valid(s) && s.out.stopped && IsRun(s, events)
    ensures var t := After(s, events);
      && t.state == Closed && t.out.writeHandlers == t.out.closeTasks == t.out.releaseTasks == t.out.stopTasks ==
        t.refCount == 0
      && !t.hasProtocol
    decreases |events|
  {
    if events != [] {
      StepKeepsValid(s, events[0]);
      NothingAfterStop(Step(s, events[0]), events[1..]);
    }
  }

  /** The counter of writes says one is under way, but its handler has gone and the socket is shut, so
      that nothing resets the counter. */
  predicate Stuck(s: State) {
    s.state != Closed && !s.socketOpen && s.pendingWrite == 1 && s.out.writeHandlers == 0 && !s.writeError
  }

  predicate ClosesAfter(s: State, events: seq<Event>) {
    IsRun(s, events) && After(s, events).state == Closed
  }

  /** A way to the closed state. */
  function Way(s: State): seq<Event> {
    if s.state == Closed then []
    else if s.pendingWrite == 0 || s.writeError then
      if s.state == RequestClose then [Event.CloseConnection] else [Close, Event.CloseConnection]
    else [if s.socketOpen then OnWriteTimeout else OnWrite(Failed), Event.CloseConnection]
  }

  lemma {:induction false} StuckStays(s: State, events: seq<Event>)
    requires Valid(s) && Stuck(s) && IsRun(s, events)
    ensures Stuck(After(s, events))
    decreases |events|
  {
    if events != [] {
      StepKeepsValid(s, events[0]);
      StuckStays(Step(s, events[0]), events[1..]);
    }
  }

  lemma WayLeads(s: State)
    requires Valid(s) && !Stuck(s)
    ensures ClosesAfter(s, Way(s))
  {
    var way := Way(s);
    if |way| == 1 {
      assert way[1..] == [];
    } else if |way| == 2 {
      var t := Step(s, way[0]);
      StepKeepsValid(s, way[0]);
      assert t.state == RequestClose && (t.pendingWrite == 0 || t.writeError);
      assert way[1..] == [Event.CloseConnection] && way[1..][1..] == [];
      assert Step(t, Event.CloseConnection).state == Closed;
      assert Enabled(t, way[1..][0]) && IsRun(t, way[1..]);
      assert After(t, way[1..]) == Step(t, Event.CloseConnection);
    }
  }

  /** A connection can still get closed exactly when it is not stuck. */
  lemma CanCloseExact(s: State)
    requires Valid(s)
    ensures (exists events :: ClosesAfter(s, events)) <==> !Stuck(s)
  {
    if Stuck(s) {
      forall events ensures !ClosesAfter(s, events) {
        if IsRun(s, events) {
          StuckStays(s, events);
        }
      }
    } else {
      WayLeads(s);
    }
  }

  lemma {:induction false} RunOn(s: State, first: seq<Event>, more: seq<Event>)
    requires IsRun(s, first) && IsRun(After(s, first), more)
    ensures IsRun(s, first + more) && After(s, first + more) == After(After(s, first), more)
    decreases |first|
  {
    if first == [] {
      assert first + more == more;
    } else {
      assert (first + more)[0] == first[0] && (first + more)[1..] == first[1..] + more;
      RunOn(Step(s, first[0]), first[1..], more);
    }
  }

  lemma OneStep(s: State, e: Event)
    requires Enabled(s, e)
    ensures IsRun(s, [e]) && After(s, [e]) == Step(s, e)
  {
    assert [e][1..] == [];
  }

  /** What a closed connection still waits for: its last write, its messages, its release, its end. */
  ghost function Next(s: State): Event {
    if s.out.writeHandlers > 0 then OnWrite(Failed)
    else if s.refCount > 0 then FreeMessage
    else if s.out.releaseTasks > 0 then Event.ReleaseConnection
    else Event.OnStop
  }

  lemma {:induction false} ClosedEnds(s: State) returns (events: seq<Event>)
    requires Valid(s) && s.state == Closed
    ensures IsRun(s, events) && After(s, events).out.stopped
    decreases s.out.writeHandlers, s.refCount, s.out.releaseTasks, s.out.stopTasks
  {
    events := [];
    if !s.out.stopped {
      StepKeepsValid(s, Next(s));
      OneStep(s, Next(s));
      events := ClosedEnds(Step(s, Next(s)));
      RunOn(s, [Next(s)], events);
      events := [Next(s)] + events;
    }
  }

  ghost predicate StopsAfter(s: State, events: seq<Event>) {
    IsRun(s, events) && After(s, events).out.stopped
  }

  /** And then it can also be released and come to its end: its socket deleted, nothing left to wait for. */
  lemma CanEndExact(s: State)
    requires Valid(s)
    ensures (exists events :: StopsAfter(s, events)) <==> !Stuck(s)
  {
    if Stuck(s) {
      forall events ensures !StopsAfter(s, events) {
        if IsRun(s, events) {
          StuckStays(s, events);
          RunKeepsValid(s, events);
        }
      }
    } else {
      WayLeads(s);
      RunKeepsValid(s, Way(s));
      var rest := ClosedEnds(After(s, Way(s)));
      RunOn(s, Way(s), rest);
      assert StopsAfter(s, Way(s) + rest);
    }
  }

  /** No read or write fails to start. */
  predicate Smooth(e: Event) {
    match e
    case Accept(start) => start.Begun?
    case Send(start, _) => start.Begun?
    case ParseHeader(_, _, start) => start.Begun?
    case ParsePacket(_, _, _, start) => start.Begun?
    case _ => true
  }

  /** While it is open, a connection is being read from, once, and the counters are exact. */
  predicate Attended(s: State) {
    s.state == Open ==> s.out.readHandlers == s.pendingRead == 1 && s.out.writeHandlers == s.pendingWrite
  }

  lemma StepStaysAttended(s: State, e: Event)
    requires Valid(s) && Attended(s) && Enabled(s, e) && Smooth(e)
    ensures Attended(Step(s, e))
  {
  }

  /** From the moment a connection is accepted it is being read from until it is closed. */
  lemma {:induction false} StaysAttended(s: State, events: seq<Event>)
    requires Valid(s) && Attended(s) && IsRun(s, events) && forall e | e in events :: Smooth(e)
    ensures Attended(After(s, events))
    decreases |events|
  {
    if events != [] {
      StepKeepsValid(s, events[0]);
      StepStaysAttended(s, events[0]);
      StaysAttended(Step(s, events[0]), events[1..]);
    }
  }

  lemma AcceptedIsAttended(hasProtocol: bool)
    ensures var s := Step(Fresh(hasProtocol), Accept(Begun)); Valid(s) && s.state == Open && Attended(s)
  {
  }

  /** Without the manager's shutdown no connection gets stuck. */
  lemma NotStuck(s: State)
    requires Valid(s) && !s.out.shutDown
    ensures !Stuck(s)
  {
  }

  /** With it one can: any that waits for its last write, when the manager shuts the socket and the
      write's handler then comes without an error. */
  lemma ShutdownCanStick(s: State)
    requires Valid(s) && s.state == Closing && s.out.writeHandlers == 1
    ensures var events := [Shutdown, OnWrite(Success), Event.CloseConnection];
      IsRun(s, events) && Stuck(After(s, events))
  {
    var events := [Shutdown, OnWrite(Success), Event.CloseConnection];
    var shut := Step(s, Shutdown);
    var written := Step(shut, OnWrite(Success));
    assert written.state == RequestClose && written.out.closeTasks == 1 && written.pendingWrite == 1 &&
      !written.writeError;
    assert events[1..] == [OnWrite(Success), Event.CloseConnection] && events[1..][1..] == [Event.CloseConnection];
    assert IsRun(written, [Event.CloseConnection]) && Stuck(After(written, [Event.CloseConnection]));
  }

  // asking twice, with a note of an error between, is asking once

  lemma AskedTwice(s: State)
    ensures Asked(Asked(s).(readError := true)) == Asked(s.(readError := true))
  {
    if s.state == Closed || s.state == RequestClose {
      assert Asked(s) == s;
    } else {
      assert Asked(s).state == RequestClose;
    }
  }

  lemma ShutTwice(s: State)
    ensures Asked(SocketShut(Asked(s).(writeError := true))) == Asked(SocketShut(s.(writeError := true)))
  {
    if s.state == Closed || s.state == RequestClose {
      assert Asked(s) == s;
    } else if s.socketOpen {
      assert SocketShut(Asked(s)).state == RequestClose;
    } else {
      assert SocketShut(Asked(s)).state == RequestClose;
    }
  }

  class Connection {
    var connectionState: ConnectionState
    var pendingWrite: int
    var pendingRead: int
    var writeError: bool
    var readError: bool
    var socketOpen: bool
    var hasProtocol: bool
    var refCount: int
    var out: Outstanding

    ghost function Now(): State
      reads this
    {
      State(connectionState, pendingWrite, pendingRead, writeError, readError, socketOpen, hasProtocol, refCount, out)
    }

    constructor (hasProtocol: bool)
      ensures Now() == Fresh(hasProtocol)
    {
      connectionState, pendingWrite, pendingRead, writeError, readError := Open, 0, 0, false, false;
      socketOpen, this.hasProtocol, refCount := true, hasProtocol, 0;
      out := Outstanding(0, 0, 0, 0, 0, 0, false, false);
    }

    method Close()
      modifies this`connectionState, this`out
      ensures Now() == old(Step(Now(), Event.Close))
    {
      if connectionState == Closed || connectionState == RequestClose {
        return;
      }
      connectionState := RequestClose;
      out := out.(closeTasks := out.closeTasks + 1);
    }

    method CloseSocket()
      modifies this`socketOpen, this`pendingRead, this`pendingWrite
      ensures Now() == old(SocketShut(Now()))
    {
      if socketOpen {
        pendingRead, pendingWrite := 0, 0;
        socketOpen := false;
      }
    }

    /** The task queued by Close. */
    method CloseConnection()
      modifies this`connectionState, this`out, this`hasProtocol, this`socketOpen, this`pendingRead, this`pendingWrite
      ensures Now() == old(Step(Now(), Event.CloseConnection))
    {
      out := out.(closeTasks := out.closeTasks - 1);
      if connectionState != RequestClose {
        return;
      }
      hasProtocol := false;
      connectionState := Closing;
      if pendingWrite == 0 || writeError {
        ReleaseClosed();
        connectionState := Closed;
      }
    }

    method ReleaseClosed()
      modifies this`out, this`socketOpen, this`pendingRead, this`pendingWrite
      ensures Now() == old(Released(SocketShut(Now())))
    {
      CloseSocket();
      Release();
    }

    method Release()
      modifies this`out
      ensures Now() == old(Released(Now()))
    {
      if refCount > 0 {
        out := out.(releaseTasks := out.releaseTasks + 1);
      } else {
        DeleteConnection();
      }
    }

    method DeleteConnection()
      modifies this`out
      ensures Now() == old(Now().(out := out.(released := out.released + 1, stopTasks := out.stopTasks + 1)))
    {
      out := out.(released := out.released + 1);
      out := out.(stopTasks := out.stopTasks + 1);
    }

    /** releaseConnection, run again by the scheduler. */
    method ReleaseConnection()
      modifies this`out
      ensures Now() == old(Step(Now(), Event.ReleaseConnection))
    {
      out := out.(releaseTasks := out.releaseTasks - 1);
      Release();
    }

    method OnStop()
      modifies this`out, this`socketOpen
      ensures Now() == old(Step(Now(), Event.OnStop))
    {
      out := out.(stopTasks := out.stopTasks - 1);
      socketOpen := false;
      out := out.(stopped := true);
    }

    /** What accept, parseHeader and parsePacket end with: the next read. */
    method BeginRead(start: Start)
      modifies this`connectionState, this`out, this`pendingRead
      ensures Now() == old(ReadStarted(Now(), start))
    {
      pendingRead := pendingRead + 1;
      match start
      case Begun => out := out.(readHandlers := out.readHandlers + 1);
      case Thrown(logged) =>
        if logged {
          Close();
        }
    }

    /** How parseHeader and parsePacket begin. */
    method HeadOfRead(error: IoError, badSize: bool) returns (failed: bool)
      modifies this`connectionState, this`out, this`readError
      ensures failed == old(connectionState != Open || readError || error != Success || badSize)
      ensures failed ==> Now() == old(ReadFailed(Now(), readError || error != Success || badSize))
      ensures !failed ==> Now() == old(Now().(out := Heard(out)))
    {
      out := out.(readHandlers := out.readHandlers - 1);
      ghost var t := Now();
      ghost var wrong := error != Success || badSize;
      NoteReadError(error, error != Success || badSize);
      assert Asked(Now()) == Asked(t.(readError := t.readError || wrong));
      failed := connectionState != Open || readError;
      if failed {
        Close();
        assert Now() == Asked(t.(readError := t.readError || wrong));
      }
    }

    method NoteReadError(error: IoError, wrong: bool)
      modifies this`connectionState, this`out, this`readError
      ensures readError == (old(readError) || wrong) && (!wrong ==> Now() == old(Now()))
      ensures Asked(Now()) == old(Asked(Now().(readError := readError || wrong)))
      ensures old(connectionState) != Open ==> connectionState != Open
    {
      if wrong {
        HandleReadError(error);
      }
    }

    method ParseHeader(error: IoError, badSize: bool, start: Start)
      modifies this`connectionState, this`out, this`pendingRead, this`readError
      ensures Now() == old(Step(Now(), Event.ParseHeader(error, badSize, start)))
      ensures old(connectionState == Open && !readError) && error == Success && !badSize && start.Begun? ==>
        connectionState == Open && out.readHandlers == old(out.readHandlers) && pendingRead == old(pendingRead)
      ensures old(connectionState != Open || readError) || error != Success || badSize ==>
        out.readHandlers == old(out.readHandlers) - 1 && connectionState != Open && connectionState != Closing
    {
      var failed := HeadOfRead(error, badSize);
      if failed {
        return;
      }
      pendingRead := pendingRead - 1;
      BeginRead(start);
    }

    /** `closes` says that the protocol asked for closing while it handled the packet. */
    method ParsePacket(error: IoError, makesProtocol: bool, closes: bool, start: Start)
      modifies this`connectionState, this`out, this`pendingRead, this`readError, this`hasProtocol
      ensures Now() == old(Step(Now(), Event.ParsePacket(error, makesProtocol, closes, start)))
      ensures old(connectionState == Open && !readError) && error == Success ==>
        if old(hasProtocol) || makesProtocol then
          && hasProtocol && (start.Begun? ==> connectionState == if closes then RequestClose else Open)
          && (start.Begun? ==> out.readHandlers == old(out.readHandlers))
        else !hasProtocol && connectionState == RequestClose && out.readHandlers == old(out.readHandlers) - 1
    {
      var failed := HeadOfRead(error, false);
      if failed {
        return;
      }
      pendingRead := pendingRead - 1;
      assert Now() == old(ReadDone(Now()));
      if !hasProtocol {
        if !makesProtocol {
          Close();
          return;
        }
        hasProtocol := true;
      }
      assert Now() == old(ReadDone(Now()).(hasProtocol := true));
      if closes {
        Close();
      }
      BeginRead(start);
    }

    method HandleReadError(error: IoError)
      modifies this`connectionState, this`out, this`readError
      ensures Now() == old(if error == Aborted then Now() else Asked(Now())).(readError := true)
      ensures Asked(Now()) == old(Asked(Now().(readError := true)))
    {
      AskedTwice(Now());
      if error != Aborted {
        Close();
      }
      readError := true;
    }

    method HandleWriteError(error: IoError)
      modifies this`connectionState, this`out, this`writeError
      ensures Now() == old(if error == Aborted then Now() else Asked(Now())).(writeError := true)
      ensures Asked(SocketShut(Now())) == old(Asked(SocketShut(Now().(writeError := true))))
    {
      ShutTwice(Now());
      if error != Aborted {
        Close();
      }
      writeError := true;
    }

    /** The result is whether the message was taken: written, queued again, or dropped for slowness. */
    method SendMessage(start: Start, forceClose: bool) returns (taken: bool)
      modifies this`connectionState, this`out, this`pendingWrite
      ensures Now() == old(Step(Now(), Event.Send(start, forceClose)))
      ensures taken <==> old(connectionState == Open && !writeError)
      ensures taken && old(pendingWrite) == 0 ==> connectionState == Open && pendingWrite == 1
      ensures taken && old(pendingWrite) == 0 ==>
        out.writeHandlers == old(out.writeHandlers) + if start.Begun? then 1 else 0
      ensures taken && old(pendingWrite) > 100 ==> connectionState == if forceClose then RequestClose else Open
    {
      if connectionState != Open || writeError {
        return false;
      }
      if pendingWrite == 0 {
        InternalSend(start);
      } else if pendingWrite > 100 && forceClose {
        Close();
      }
      return true;
    }

    method InternalSend(start: Start)
      modifies this`pendingWrite, this`out
      ensures Now() == old(WriteStarted(Now(), start))
    {
      pendingWrite := pendingWrite + 1;
      if start.Begun? {
        out := out.(writeHandlers := out.writeHandlers + 1);
      }
    }

    method NoteWriteError(error: IoError)
      modifies this`connectionState, this`out, this`writeError
      ensures writeError == (old(writeError) || error != Success) && (error == Success ==> Now() == old(Now()))
      ensures Asked(SocketShut(Now())) == old(Asked(SocketShut(Now().(writeError := writeError || error != Success))))
      ensures old(connectionState) != Open ==> connectionState != Open
    {
      if error != Success {
        HandleWriteError(error);
      }
    }

    method TakeResult(error: IoError)
      modifies this`connectionState, this`out, this`writeError
      ensures writeError == (old(writeError) || error != Success) &&
        (old(connectionState) != Open ==> connectionState != Open)
      ensures Asked(SocketShut(Now())) == old(WriteFailed(Now(), writeError || error != Success))
      ensures error == Success ==> Now() == old(Now().(out := out.(writeHandlers := out.writeHandlers - 1)))
    {
      out := out.(writeHandlers := out.writeHandlers - 1);
      NoteWriteError(error);
    }

    method Abandon()
      modifies this`connectionState, this`out, this`socketOpen, this`pendingRead, this`pendingWrite
      ensures Now() == old(Asked(SocketShut(Now())))
    {
      CloseSocket();
      Close();
    }

    method OnWrite(error: IoError)
      modifies this`connectionState, this`out, this`socketOpen, this`pendingRead, this`pendingWrite, this`writeError
      ensures Now() == old(Step(Now(), Event.OnWrite(error)))
      ensures out.writeHandlers == old(out.writeHandlers) - 1
      ensures old(connectionState == Open && !writeError) && error == Success ==>
        connectionState == Open && pendingWrite == old(pendingWrite) - 1 && socketOpen == old(socketOpen)
      ensures old(connectionState != Open || writeError) || error != Success ==>
        !socketOpen && (connectionState == RequestClose || connectionState == Closed)
    {
      TakeResult(error);
      if connectionState != Open || writeError {
        Abandon();
        return;
      }
      assert error == Success;
      pendingWrite := pendingWrite - 1;
      assert Now() == old(WriteDone(Now()));
    }

    method OnReadTimeout()
      modifies this`connectionState, this`out, this`socketOpen, this`pendingRead, this`pendingWrite
      ensures Now() == old(Step(Now(), Event.OnReadTimeout))
      ensures old(pendingRead > 0 || readError) ==>
        !socketOpen && (connectionState == RequestClose || connectionState == Closed)
      ensures !old(pendingRead > 0 || readError) ==> unchanged(this)
    {
      if pendingRead > 0 || readError {
        Abandon();
      }
    }

    method OnWriteTimeout()
      modifies this`connectionState, this`out, this`socketOpen, this`pendingRead, this`pendingWrite
      ensures Now() == old(Step(Now(), Event.OnWriteTimeout))
      ensures old(pendingWrite > 0 || writeError) ==>
        !socketOpen && (connectionState == RequestClose || connectionState == Closed)
      ensures !old(pendingWrite > 0 || writeError) ==> unchanged(this)
    {
      if pendingWrite > 0 || writeError {
        Abandon();
      }
    }

    /** The manager's share: messages that come to refer to the connection or no longer do, and the
        socket shut behind the connection's back. */
    method Outside(e: Event)
      requires e.Allocate? || e.FreeMessage? || e.Shutdown?
      modifies this
      ensures Now() == old(Step(Now(), e))
    {
      match e
      case Allocate => refCount := refCount + 1;
      case FreeMessage => refCount := refCount - 1;
      case Shutdown =>
        socketOpen := false;
        out := out.(shutDown := true);
    }

    method Handle(e: Event)
      requires Enabled(Now(), e)
      modifies this
      ensures Now() == old(Step(Now(), e))
    {
      match e
      case Accept(start) => BeginRead(start);
      case Send(start, forceClose) => var _ := SendMessage(start, forceClose);
      case Close => Close();
      case OnWrite(error) => OnWrite(error);
      case OnWriteTimeout => OnWriteTimeout();
      case OnReadTimeout => OnReadTimeout();
      case ParseHeader(error, badSize, start) => ParseHeader(error, badSize, start);
      case ParsePacket(error, makesProtocol, closes, start) => ParsePacket(error, makesProtocol, closes, start);
      case CloseConnection => CloseConnection();
      case ReleaseConnection => ReleaseConnection();
      case OnStop => OnStop();
      case _ => Outside(e);
    }

    /** The connection goes through any run of steps as `After` says. */
    method Run(events: seq<Event>)
      requires IsRun(Now(), events)
      modifies this
      ensures Now() == old(After(Now(), events))
    {
      var k := 0;
      while k < |events|
        invariant 0 <= k <= |events| && IsRun(Now(), events[k..])
        invariant After(Now(), events[k..]) == old(After(Now(), events))
      {
        Handle(events[k]);
        assert events[k..][1..] == events[k + 1..];
        k := k + 1;
      }
    }
  }
}
