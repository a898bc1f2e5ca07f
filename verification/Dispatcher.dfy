/** The dispatcher's task queue (src/dispatcher.cpp) as steps of its threads.

    A step is what one thread does without letting go of the lock, or one action outside it. The
    producers are counted: `owed` of them have pushed to an empty list and still have to notify. The
    condition variable remembers nothing: a notification that finds nobody waiting is gone, and a
    waiting thread may also wake by itself. */
module Dispatchers {
  import opened Common

  datatype ThreadState = Running | Closing | Terminated

  /** `front` says where addTask puts it. */
  datatype Task = Task(id: nat, front: bool)

  /** Where the dispatcher thread is: at the test of its loop, past it, waiting, woken, with a task in
      hand, or at its end. */
  datatype Consumer = AtTest | Entering | Waiting | Woken | InHand(task: Task) | Finished

  /** The last four fields are history: tasks accepted, tasks taken off the list, and how they ended. */
  datatype State = State(
    threadState: ThreadState,
    taskList: seq<Task>,
    consumer: Consumer,
    owed: nat,
    accepted: seq<Task>,
    taken: seq<Task>,
    ran: seq<Task>,
    expired: seq<Task>)

  datatype Event =
    | AddTask(task: Task)
    | Notify
    | WakeUp                  // the waiting thread wakes by itself
    | Test
    | Take
    | Execute(expired: bool)
    | Stop
    | Shutdown

  predicate Enabled(s: State, e: Event) {
    match e
    case AddTask(_) => true
    case Notify => s.owed > 0
    case WakeUp => s.consumer == Waiting
    case Test => s.consumer == AtTest
    case Take => s.consumer == Entering || s.consumer == Woken
    case Execute(_) => s.consumer.InHand?
    case Stop => true
    case Shutdown => true
  }

  function Initial(): State {
    State(Running, [], AtTest, 0, [], [], [], [])
  }

  function Step(s: State, e: Event): State
    requires Enabled(s, e)
  {
    match e
    case AddTask(task) =>
      if s.threadState != Running then s
      else s.(taskList := if task.front then [task] + s.taskList else s.taskList + [task],
              owed := if s.taskList == [] then s.owed + 1 else s.owed,
              accepted := s.accepted + [task])
    case Notify => s.(owed := s.owed - 1, consumer := if s.consumer == Waiting then Woken else s.consumer)
    case WakeUp => s.(consumer := Woken)
    case Test => s.(consumer := if s.threadState == Terminated then Finished else Entering)
    case Take =>
      if s.taskList == [] then s.(consumer := if s.consumer == Entering then Waiting else AtTest)
      else if s.threadState == Terminated then s.(consumer := AtTest)
      else s.(consumer := InHand(s.taskList[0]), taskList := s.taskList[1..], taken := s.taken + [s.taskList[0]])
    case Execute(expired) =>
      var t := s.(consumer := AtTest);
      if expired then t.(expired := s.expired + [s.consumer.task]) else t.(ran := s.ran + [s.consumer.task])
    case Stop => s.(threadState := Closing)
    case Shutdown =>
      s.(threadState := Terminated, taskList := [], taken := s.taken + s.taskList, ran := s.ran + s.taskList)
  }

  predicate IsRun(s: State, events: seq<Event>)
    decreases |events|
  {
    events == [] || (Enabled(s, events[0]) && IsRun(Step(s, events[0]), events[1..]))
  }

  function After(s: State, events: seq<Event>): State
    requires IsRun(s, events)
    decreases |events|
  {
    if events == [] then s else After(Step(s, events[0]), events[1..])
  }

  // what becomes of a task

  function InHandOf(s: State): multiset<Task> {
    if s.consumer.InHand? then multiset{s.consumer.task} else multiset{}
  }

  /** The tasks that were put at the back, in order. */
  function Backs(tasks: seq<Task>): seq<Task> {
    if tasks == [] then []
    else if tasks[|tasks| - 1].front then Backs(tasks[..|tasks| - 1])
    else Backs(tasks[..|tasks| - 1]) + [tasks[|tasks| - 1]]
  }

  lemma {:induction false} BacksAppend(a: seq<Task>, b: seq<Task>)
    ensures Backs(a + b) == Backs(a) + Backs(b)
  {
    if b == [] {
      assert a + b == a;
    } else {
      BacksAppend(a, b[..|b| - 1]);
      assert (a + b)[..|a + b| - 1] == a + b[..|b| - 1];
    }
  }

  lemma BacksOne(task: Task)
    ensures Backs([task]) == if task.front then [] else [task]
  {
    assert [task][..0] == [];
  }

  /** What every run keeps. */
  predicate Valid(s: State) {
    && multiset(s.accepted) == multiset(s.taken) + multiset(s.taskList)
    && multiset(s.taken) == InHandOf(s) + multiset(s.ran) + multiset(s.expired)
    && Backs(s.taken + s.taskList) == Backs(s.accepted)
    && (s.consumer == Waiting && s.taskList != [] ==> s.owed > 0)
    && (s.threadState == Terminated ==> s.taskList == [])
  }

  lemma Pushed(taken: seq<Task>, list: seq<Task>, accepted: seq<Task>, task: Task)
    requires multiset(accepted) == multiset(taken) + multiset(list)
    ensures multiset(accepted + [task]) == multiset(taken) + multiset(list + [task])
    ensures multiset(accepted + [task]) == multiset(taken) + multiset([task] + list)
  {
  }

  lemma PushedFront(taken: seq<Task>, list: seq<Task>, task: Task)
    requires task.front
    ensures Backs(taken + ([task] + list)) == Backs(taken + list)
  {
    BacksOne(task);
    BacksAppend(taken, list);
    BacksAppend(taken, [task] + list);
    BacksAppend([task], list);
    assert [] + Backs(list) == Backs(list);
  }

  lemma PushedBack(taken: seq<Task>, list: seq<Task>, task: Task)
    requires !task.front
    ensures Backs(taken + (list + [task])) == Backs(taken + list) + [task]
  {
    BacksOne(task);
    BacksAppend(taken + list, [task]);
    assert taken + (list + [task]) == (taken + list) + [task];
  }

  lemma AcceptedBacks(accepted: seq<Task>, task: Task)
    ensures Backs(accepted + [task]) == Backs(accepted) + if task.front then [] else [task]
  {
    BacksOne(task);
    BacksAppend(accepted, [task]);
  }

  lemma AddTaskKeepsValid(s: State, task: Task)
    requires Valid(s)
    ensures Valid(Step(s, AddTask(task)))
  {
    Pushed(s.taken, s.taskList, s.accepted, task);
    AcceptedBacks(s.accepted, task);
    if task.front {
      PushedFront(s.taken, s.taskList, task);
    } else {
      PushedBack(s.taken, s.taskList, task);
    }
  }

  lemma Popped(taken: seq<Task>, list: seq<Task>)
    requires list != []
    ensures multiset(taken + [list[0]]) + multiset(list[1..]) == multiset(taken) + multiset(list)
    ensures multiset(taken + [list[0]]) == multiset(taken) + multiset{list[0]}
    ensures (taken + [list[0]]) + list[1..] == taken + list
  {
    assert list == [list[0]] + list[1..];
  }

  lemma TakeKeepsValid(s: State)
    requires Valid(s) && Enabled(s, Take)
    ensures Valid(Step(s, Take))
  {
    if s.taskList != [] {
      Popped(s.taken, s.taskList);
    }
  }

  lemma ExecuteKeepsValid(s: State, expired: bool)
    requires Valid(s) && Enabled(s, Execute(expired))
    ensures Valid(Step(s, Execute(expired)))
  {
  }

  lemma ShutdownKeepsValid(s: State)
    requires Valid(s)
    ensures Valid(Step(s, Shutdown))
  {
    var t := Step(s, Shutdown);
    assert t.taken + t.taskList == s.taken + s.taskList;
    MovedOn(s.taken, s.taskList, s.accepted);
    MovedOn(s.ran, s.taskList, s.ran + s.taskList);
    assert InHandOf(t) == InHandOf(s);
  }

  lemma MovedOn(taken: seq<Task>, list: seq<Task>, accepted: seq<Task>)
    ensures multiset(taken + list) == multiset(taken) + multiset(list)
    ensures multiset(accepted) == multiset(taken) + multiset(list) ==>
      multiset(accepted) == multiset(taken + list) + multiset([])
  {
  }

  lemma StepKeepsValid(s: State, e: Event)
    requires Valid(s) && Enabled(s, e)
    ensures Valid(Step(s, e))
  {
    match e
    case AddTask(task) => AddTaskKeepsValid(s, task);
    case Take => TakeKeepsValid(s);
    case Execute(expired) => ExecuteKeepsValid(s, expired);
    case Shutdown => ShutdownKeepsValid(s);
    case _ =>
  }

  lemma {:induction false} RunKeepsValid(s: State, events: seq<Event>)
    requires Valid(s) && IsRun(s, events)
    ensures Valid(After(s, events))
    decreases |events|
  {
    if events != [] {
      StepKeepsValid(s, events[0]);
      RunKeepsValid(Step(s, events[0]), events[1..]);
    }
  }

  /** Every task accepted is on the list, in hand, run or expired, as often as it was accepted; tasks
      put at the back are taken in the order they came; and a thread that waits although there is work
      will be notified. */
  lemma TasksAccountedFor(events: seq<Event>, task: Task)
    requires IsRun(Initial(), events)
    ensures var s := After(Initial(), events);
      && multiset(s.accepted)[task] ==
        multiset(s.taskList)[task] + InHandOf(s)[task] + multiset(s.ran)[task] + multiset(s.expired)[task]
      && Backs(s.taken) + Backs(s.taskList) == Backs(s.accepted)
      && (s.consumer == Waiting && s.taskList != [] ==> s.owed > 0)
  {
    var s := After(Initial(), events);
    BacksOfNothing();
    RunKeepsValid(Initial(), events);
    BacksAppend(s.taken, s.taskList);
  }

  lemma BacksOfNothing()
    ensures Valid(Initial())
  {
    var none: seq<Task> := [];
    assert none + none == none;
  }

  /** The list is worked off from its head: whatever the thread is doing, some notification or step of
      its own is possible that brings it closer to the head of the list. */
  function Next(s: State): Event {
    match s.consumer
    case InHand(_) => Execute(false)
    case AtTest => Test
    case Waiting => Notify
    case _ => Take
  }

  function Rank(s: State): nat {
    match s.consumer
    case InHand(_) => 4
    case AtTest => 3
    case Waiting => 2
    case _ => 1
  }

  lemma HeadIsReached(s: State)
    requires Valid(s) && s.threadState != Terminated && s.taskList != [] && s.consumer != Finished
    ensures Enabled(s, Next(s))
    ensures var t := Step(s, Next(s));
      if Rank(s) > 1 then
        Rank(t) < Rank(s) && t.taskList == s.taskList && t.threadState == s.threadState && t.consumer != Finished
      else t.consumer == InHand(s.taskList[0]) && t.taskList == s.taskList[1..]
  {
  }

  /** The task in hand and those on the list. */
  function Ahead(s: State): seq<Task> {
    (if s.consumer.InHand? then [s.consumer.task] else []) + s.taskList
  }

  /** Those of the tasks that are `dead`, or that are not. */
  function Sifted(tasks: seq<Task>, dead: Task -> bool, which: bool): seq<Task> {
    if tasks == [] then [] else (if dead(tasks[0]) == which then [tasks[0]] else []) + Sifted(tasks[1..], dead, which)
  }

  /** What will have been run, or has expired, once nothing is ahead. */
  function Due(s: State, dead: Task -> bool): (seq<Task>, seq<Task>) {
    (s.ran + Sifted(Ahead(s), dead, false), s.expired + Sifted(Ahead(s), dead, true))
  }

  lemma SiftedHead(task: Task, rest: seq<Task>, dead: Task -> bool, which: bool, done: seq<Task>)
    ensures done + Sifted([task] + rest, dead, which) ==
      (if dead(task) == which then done + [task] else done) + Sifted(rest, dead, which)
  {
    assert ([task] + rest)[1..] == rest;
    AssociateThree(done, [task], Sifted(rest, dead, which));
    assert [] + Sifted(rest, dead, which) == Sifted(rest, dead, which);
  }

  lemma TaskDone(s: State, dead: Task -> bool)
    requires s.consumer.InHand?
    ensures var t := Step(s, Execute(dead(s.consumer.task)));
      && t.threadState == s.threadState && t.consumer == AtTest && t.taskList == s.taskList
      && Due(t, dead) == Due(s, dead)
  {
    var task := s.consumer.task;
    var t := Step(s, Execute(dead(task)));
    assert Ahead(t) == s.taskList && Ahead(s) == [task] + s.taskList;
    SiftedHead(task, s.taskList, dead, false, s.ran);
    SiftedHead(task, s.taskList, dead, true, s.expired);
  }

  lemma TaskReached(s: State, dead: Task -> bool)
    requires Valid(s) && s.threadState != Terminated && s.consumer != Finished && !s.consumer.InHand? &&
      s.taskList != []
    ensures Enabled(s, Next(s))
    ensures var t := Step(s, Next(s));
      && t.threadState == s.threadState && t.consumer != Finished && Due(t, dead) == Due(s, dead)
      && (|t.taskList| < |s.taskList| || (t.taskList == s.taskList && Rank(t) < Rank(s)))
  {
    HeadIsReached(s);
    assert Ahead(s) == Ahead(Step(s, Next(s)));
    NextKeepsDone(s);
  }

  lemma NextKeepsDone(s: State)
    requires !s.consumer.InHand? && Enabled(s, Next(s))
    ensures var t := Step(s, Next(s)); t.ran == s.ran && t.expired == s.expired && t.threadState == s.threadState
  {
  }

  lemma DrainStep(s: State, dead: Task -> bool) returns (e: Event, t: State)
    requires Valid(s) && s.threadState != Terminated && s.consumer != Finished && Ahead(s) != []
    ensures Enabled(s, e) && t == Step(s, e)
    ensures Valid(t) && t.threadState != Terminated && t.consumer != Finished && Due(t, dead) == Due(s, dead)
    ensures |t.taskList| < |s.taskList| || (t.taskList == s.taskList && Rank(t) < Rank(s))
  {
    e := if s.consumer.InHand? then Execute(dead(s.consumer.task)) else Next(s);
    t := Step(s, e);
    if s.consumer.InHand? { TaskDone(s, dead); } else { TaskReached(s, dead); }
    StepKeepsValid(s, e);
  }

  /** Every task ahead is run, in the order of the list, unless it has expired; until then the thread needs
      nothing but steps of its own and the notifications owed. */
  lemma {:induction false} Drains(s: State, dead: Task -> bool) returns (events: seq<Event>)
    requires Valid(s) && s.threadState != Terminated && s.consumer != Finished
    ensures IsRun(s, events)
    ensures var t := After(s, events); t.taskList == [] && !t.consumer.InHand? && (t.ran, t.expired) == Due(s, dead)
    decreases |s.taskList|, Rank(s)
  {
    events := [];
    if Ahead(s) == [] {
      assert s.ran + [] == s.ran && s.expired + [] == s.expired;
      return;
    }
    var e, t := DrainStep(s, dead);
    var rest := Drains(t, dead);
    Unfold(s, e, rest);
    events := [e] + rest;
  }

  // after shutdown

  /** The waiting thread does not wake by itself, and nobody stops the dispatcher after its shutdown,
      which would undo the mark that the thread's loop tests. Everything else may happen. */
  predicate Quiet(events: seq<Event>) {
    forall e | e in events :: e != WakeUp && e != Stop
  }

  predicate ExitsAfter(s: State, events: seq<Event>) {
    Quiet(events) && IsRun(s, events) && After(s, events).consumer == Finished
  }

  /** The thread waits, or is about to, and nobody will notify it. */
  predicate Stranded(s: State) {
    s.owed == 0 && (s.consumer == Waiting || s.consumer == Entering)
  }

  lemma {:induction false} StrandedStays(s: State, events: seq<Event>)
    requires Valid(s) && s.threadState == Terminated && Stranded(s) && Quiet(events) && IsRun(s, events)
    ensures Stranded(After(s, events))
    decreases |events|
  {
    if events != [] {
      assert events[0] in events && forall e | e in events[1..] :: e in events;
      StepKeepsValid(s, events[0]);
      StrandedStays(Step(s, events[0]), events[1..]);
    }
  }

  function StepsToExit(s: State): nat {
    match s.consumer
    case Finished => 0
    case AtTest => 1
    case InHand(_) => 2
    case Woken => 2
    case Waiting => 3
    case Entering => 4
  }

  lemma Closer(s: State)
    requires Valid(s) && s.threadState == Terminated && !Stranded(s) && s.consumer != Finished
    ensures Enabled(s, Next(s)) && Next(s) != WakeUp && Next(s) != Stop
    ensures var t := Step(s, Next(s)); t.threadState == Terminated && !Stranded(t) && StepsToExit(t) < StepsToExit(s)
  {
  }

  lemma {:induction false} Exits(s: State) returns (events: seq<Event>)
    requires Valid(s) && s.threadState == Terminated && !Stranded(s)
    ensures ExitsAfter(s, events)
    decreases StepsToExit(s)
  {
    if s.consumer == Finished {
      return [];
    }
    Closer(s);
    StepKeepsValid(s, Next(s));
    var rest := Exits(Step(s, Next(s)));
    events := [Next(s)] + rest;
    assert events[1..] == rest;
  }

  /** After a shutdown, without a spurious wake-up and without a later stop, the thread can come to its
      end exactly when it is not stranded: shutdown itself notifies nobody. */
  lemma ExitExact(s: State)
    requires Valid(s) && s.threadState == Terminated
    ensures (exists events :: ExitsAfter(s, events)) <==> !Stranded(s)
  {
    if Stranded(s) {
      forall events ensures !ExitsAfter(s, events) {
        if Quiet(events) && IsRun(s, events) {
          StrandedStays(s, events);
        }
      }
    } else {
      var _ := Exits(s);
    }
  }

  /** One spurious wake-up, and nothing else from outside, ends a thread that is stranded. */
  lemma WakeUpEnds(s: State) returns (events: seq<Event>)
    requires Valid(s) && s.threadState == Terminated && Stranded(s)
    ensures events == if s.consumer == Waiting then [WakeUp, Take, Test] else [Take, WakeUp, Take, Test]
    ensures IsRun(s, events) && After(s, events).consumer == Finished
  {
    var waits := if s.consumer == Waiting then s else Step(s, Take);
    var woken := Step(waits, WakeUp);
    var atTest := Step(woken, Take);
    Unfold1(atTest, Test);
    Unfold(woken, Take, [Test]);
    Unfold(waits, WakeUp, [Take, Test]);
    events := [WakeUp, Take, Test];
    if s.consumer != Waiting {
      Unfold(s, Take, events);
      events := [Take, WakeUp, Take, Test];
    }
  }

  lemma Unfold(s: State, e: Event, rest: seq<Event>)
    requires Enabled(s, e) && IsRun(Step(s, e), rest)
    ensures IsRun(s, [e] + rest) && After(s, [e] + rest) == After(Step(s, e), rest)
  {
    assert ([e] + rest)[1..] == rest;
  }

  lemma Unfold1(s: State, e: Event)
    requires Enabled(s, e)
    ensures IsRun(s, [e]) && After(s, [e]) == Step(s, e)
  {
    Unfold(s, e, []);
  }

  /** A thread that waits for work when the dispatcher is shut down does not end, whatever follows, if
      it does not wake by itself and the dispatcher is not stopped later. */
  lemma ShutdownWhileIdle(s: State, events: seq<Event>)
    requires Valid(s) && s.consumer == Waiting && s.owed == 0
    requires Quiet(events) && IsRun(Step(s, Shutdown), events)
    ensures After(Step(s, Shutdown), events).consumer != Finished
  {
    ShutdownKeepsValid(s);
    StrandedStays(Step(s, Shutdown), events);
  }

  class Dispatcher {
    var threadState: ThreadState
    var taskList: seq<Task>
    var consumer: Consumer  // where the dispatcher thread is
    ghost var owed: nat
    ghost var accepted: seq<Task>
    ghost var taken: seq<Task>
    ghost var ran: seq<Task>
    ghost var expired: seq<Task>

    ghost function Now(): State
      reads this
    {
      State(threadState, taskList, consumer, owed, accepted, taken, ran, expired)
    }

    constructor ()
      ensures Now() == Initial()
    {
      threadState, taskList := Running, [];
      consumer, owed, accepted, taken, ran, expired := AtTest, 0, [], [], [], [];
    }

    /** addTask up to the unlocking; the result says whether the caller notifies next. */
    method AddTask(task: Task) returns (signal: bool)
      modifies this
      ensures Now() == old(Step(Now(), Event.AddTask(task)))
      ensures owed == old(owed) + if signal then 1 else 0
      ensures signal <==> old(threadState == Running && taskList == [])
      ensures old(threadState) == Running ==>
        && accepted == old(accepted) + [task]
        && taskList == if task.front then [task] + old(taskList) else old(taskList) + [task]
      ensures old(threadState) != Running ==> accepted == old(accepted) && taskList == old(taskList)
    {
      signal := false;
      if threadState == Running {
        signal := taskList == [];
        if task.front {
          taskList := [task] + taskList;
        } else {
          taskList := taskList + [task];
        }
        accepted := accepted + [task];
        owed := if signal then owed + 1 else owed;
      }
    }

    /** The dispatcher thread's step with the lock held: no task means that it waits or starts over. */
    method Take() returns (task: Option<Task>)
      requires consumer == Entering || consumer == Woken
      modifies this
      ensures Now() == old(Step(Now(), Event.Take))
      ensures task == if consumer.InHand? then Some(consumer.task) else None
      ensures old(taskList) != [] && threadState != Terminated ==>
        task == Some(old(taskList)[0]) && taskList == old(taskList)[1..]
      ensures old(taskList) == [] || threadState == Terminated ==> task == None && taskList == old(taskList)
    {
      task := None;
      if taskList == [] && consumer == Entering {
        consumer := Waiting;
        return;
      }
      consumer := AtTest;
      if taskList != [] && threadState != Terminated {
        task := Some(taskList[0]);
        taken := taken + [taskList[0]];
        consumer := InHand(taskList[0]);
        taskList := taskList[1..];
      }
    }

    method Stop()
      modifies this
      ensures Now() == old(Step(Now(), Event.Stop))
      ensures threadState == Closing && taskList == old(taskList)
    {
      threadState := Closing;
    }

    /** shutdown with its flush: what is left on the list is run from head to tail, expired or not. */
    method Shutdown()
      modifies this
      ensures Now() == old(Step(Now(), Event.Shutdown))
      ensures threadState == Terminated && taskList == [] && ran == old(ran + taskList)
    {
      threadState := Terminated;
      Flush();
    }

    method Flush()
      modifies this`taskList, this`taken, this`ran
      ensures taskList == [] && taken == old(taken + taskList) && ran == old(ran + taskList)
    {
      while taskList != []
        invariant taken + taskList == old(taken + taskList) && ran + taskList == old(ran + taskList)
        decreases |taskList|
      {
        var task := taskList[0];
        assert taskList == [task] + taskList[1..];
        taskList := taskList[1..];
        taken, ran := taken + [task], ran + [task];
      }
    }
  }
}
