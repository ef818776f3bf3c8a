/** Scheduling commands and routing notifications: commands are registered and sent one by one
    while notifications about processes arrive at any point in between. */
module WolfExecution {
  import opened Windows

  datatype Command = Command(keyword: string, optional: bool)

  datatype Event =
    | Started | Terminated | Canceled | AllTerminated | Running
    | JobTimeLimit | JobProcessLimit | JobMemoryLimit | JobEmpty
    | ProcessTimeLimit | ProcessAbnormalTermination | ProcessMemoryLimit | Done

  /** The process identity is pointer-sized; the maps keep its low 32 bits. */
  datatype Notification = Notification(event: Event, keyword: string, processId: nat)

  datatype Message = Execute(keyword: string) | Terminate(pid: nat)

  datatype Status = TaskInit | TaskRunning | TaskCancelled | TaskFailed | TaskDone

  datatype Task = Task(pid: nat, status: Status)

  // --------------------------------------------------------------- the steps

  /** What a task makes of a notification, and what it asks the command agent to do. */
  function Apply(task: Task, n: Notification): (Task, seq<Message>) {
    match n.event
    case Started => (Task(Low32(n.processId), TaskRunning), [])
    case Terminated => (task.(status := TaskDone), [])
    case Canceled => (task.(status := TaskCancelled), [])
    case ProcessTimeLimit => (task.(status := TaskFailed), [Terminate(Low32(n.processId))])
    case ProcessAbnormalTermination => (task.(status := TaskFailed), [])
    case ProcessMemoryLimit => (task.(status := TaskFailed), [Terminate(task.pid)])
    case AllTerminated => (task.(status := TaskFailed), [])
    case _ => (task, [])
  }

  /** The tasks by keyword, the keyword of the task each process was mapped to, and the messages sent. */
  datatype Core = Core(tasks: map<string, Task>, byPid: map<nat, string>, sent: seq<Message>)

  const EMPTY := Core(map[], map[], [])

  function RegisterTask(core: Core, command: Command): Core {
    if command.keyword in core.tasks then core
    else core.(tasks := core.tasks[command.keyword := Task(0, TaskInit)])
  }

  /** A later command with a known keyword is sent all the same. */
  function SendToAgent(core: Core, command: Command): Core {
    if command.optional then core else core.(sent := core.sent + [Execute(command.keyword)])
  }

  function MapProcess(core: Core, n: Notification): Core {
    if n.event.Started? && n.keyword in core.tasks then core.(byPid := core.byPid[Low32(n.processId) := n.keyword])
    else core
  }

  /** The task a notification goes to: that of its process, else that of its keyword. */
  function Target(core: Core, n: Notification): Option<string> {
    if Low32(n.processId) in core.byPid then Some(core.byPid[Low32(n.processId)])
    else if n.keyword in core.tasks then Some(n.keyword)
    else None
  }

  function Deliver(core: Core, n: Notification): Core {
    var target := Target(core, n);
    if target.None? || target.value !in core.tasks then core
    else
      var (task, actions) := Apply(core.tasks[target.value], n);
      core.(tasks := core.tasks[target.value := task], sent := core.sent + actions)
  }

  function Notify(core: Core, n: Notification): Core { Deliver(MapProcess(core, n), n) }

  // ---------------------------------------------------- interleaved executions

  /** One step of an execution; enqueuing a command takes two. */
  datatype Step = Register | Send | Receive(n: Notification)

  /** `next` commands are done; `registered` says that the one after them waits to be sent. */
  datatype State = State(core: Core, next: nat, registered: bool)

  predicate Enabled(commands: seq<Command>, st: State, step: Step) {
    match step
    case Register => st.next < |commands| && !st.registered
    case Send => st.next < |commands| && st.registered
    case Receive(_) => true
  }

  function After(commands: seq<Command>, st: State, step: Step): State
    requires Enabled(commands, st, step)
  {
    match step
    case Register => State(RegisterTask(st.core, commands[st.next]), st.next, true)
    case Send => State(SendToAgent(st.core, commands[st.next]), st.next + 1, false)
    case Receive(n) => st.(core := Notify(st.core, n))
  }

  /** The state an execution reaches, if each of its steps was possible. */
  function Reach(commands: seq<Command>, steps: seq<Step>): Option<State> {
    if steps == [] then Some(State(EMPTY, 0, false))
    else
      var before := Reach(commands, steps[..|steps| - 1]);
      var step := steps[|steps| - 1];
      if before.Some? && Enabled(commands, before.value, step) then Some(After(commands, before.value, step)) else None
  }

  // ------------------------------------------- what the history alone tells

  function Registered(steps: seq<Step>): nat {
    if steps == [] then 0
    else Registered(steps[..|steps| - 1]) + if steps[|steps| - 1].Register? then 1 else 0
  }

  /** A command with this keyword has been registered. */
  ghost predicate Known(commands: seq<Command>, steps: seq<Step>, keyword: string) {
    exists i :: 0 <= i < |commands| && i < Registered(steps) && commands[i].keyword == keyword
  }

  /** The keyword of the latest start of that process under a keyword then known. */
  ghost function LatestStart(commands: seq<Command>, steps: seq<Step>, pid: nat): Option<string> {
    if steps == [] then None
    else
      var before, step := steps[..|steps| - 1], steps[|steps| - 1];
      if step.Receive? && step.n.event.Started? && Low32(step.n.processId) == pid && Known(commands, before, step.n.keyword)
      then Some(step.n.keyword)
      else LatestStart(commands, before, pid)
  }

  /** Where the last notification of a history belongs. */
  ghost function Route(commands: seq<Command>, steps: seq<Step>, n: Notification): Option<string> {
    var start := LatestStart(commands, steps, Low32(n.processId));
    if start.Some? then start
    else if Known(commands, steps, n.keyword) then Some(n.keyword)
    else None
  }

  /** A task after the notifications of a history that belong to it, in order. */
  ghost function TaskAfter(commands: seq<Command>, steps: seq<Step>, keyword: string): Task {
    if steps == [] then Task(0, TaskInit)
    else
      var before, step := steps[..|steps| - 1], steps[|steps| - 1];
      if step.Receive? && Route(commands, steps, step.n) == Some(keyword)
      then Apply(TaskAfter(commands, before, keyword), step.n).0
      else TaskAfter(commands, before, keyword)
  }

  function Executes(sent: seq<Message>): seq<string> {
    if sent == [] then []
    else Executes(sent[..|sent| - 1]) + match sent[|sent| - 1] case Execute(k) => [k] case Terminate(_) => []
  }

  function Mandatory(commands: seq<Command>): seq<string> {
    if commands == [] then []
    else
      var last := commands[|commands| - 1];
      Mandatory(commands[..|commands| - 1]) + if last.optional then [] else [last.keyword]
  }

  // --------------------------------------------------------- the main results

  /** The state agrees with the history. */
  ghost predicate Agrees(commands: seq<Command>, steps: seq<Step>, st: State) {
    && st.next + (if st.registered then 1 else 0) == Registered(steps) <= |commands|
    && (forall k :: k in st.core.tasks <==> Known(commands, steps, k))
    && (forall p :: p in st.core.byPid <==> LatestStart(commands, steps, p).Some?)
    && (forall p :: p in st.core.byPid ==> LatestStart(commands, steps, p) == Some(st.core.byPid[p]))
    && (forall p :: p in st.core.byPid ==> st.core.byPid[p] in st.core.tasks)
  }

  lemma RegisteredAppend(steps: seq<Step>, step: Step)
    ensures Registered(steps + [step]) == Registered(steps) + if step.Register? then 1 else 0
  {
    assert (steps + [step])[..|steps|] == steps;
  }

  lemma KnownGrows(commands: seq<Command>, steps: seq<Step>, step: Step, k: string)
    requires Registered(steps) <= |commands| && (step.Register? ==> Registered(steps) < |commands|)
    ensures Known(commands, steps + [step], k) <==>
      Known(commands, steps, k) || (step.Register? && commands[Registered(steps)].keyword == k)
  {
    hide Registered;
    RegisteredAppend(steps, step);
    if step.Register? && commands[Registered(steps)].keyword == k {
      var i := Registered(steps);
      assert i < Registered(steps + [step]) && commands[i].keyword == k;
    }
    if Known(commands, steps, k) {
      var i :| 0 <= i < |commands| && i < Registered(steps) && commands[i].keyword == k;
      assert i < Registered(steps + [step]);
    }
  }

  lemma LatestStartAppend(commands: seq<Command>, steps: seq<Step>, step: Step, pid: nat)
    ensures LatestStart(commands, steps + [step], pid) ==
      if step.Receive? && step.n.event.Started? && Low32(step.n.processId) == pid && Known(commands, steps, step.n.keyword)
      then Some(step.n.keyword)
      else LatestStart(commands, steps, pid)
  {
    hide Known;
    assert (steps + [step])[..|steps|] == steps;
  }

  /** Enqueuing changes no process, and makes known the keyword it registers. */
  lemma EnqueueAgrees(commands: seq<Command>, steps: seq<Step>, st: State, step: Step)
    requires Agrees(commands, steps, st) && Enabled(commands, st, step) && !step.Receive?
    ensures Agrees(commands, steps + [step], After(commands, st, step))
  {
    hide Known, LatestStart, Registered;
    var all, after := steps + [step], After(commands, st, step);
    RegisteredAppend(steps, step);
    forall k ensures k in after.core.tasks <==> Known(commands, all, k) {
      KnownGrows(commands, steps, step, k);
    }
    forall p ensures LatestStart(commands, all, p) == LatestStart(commands, steps, p) {
      LatestStartAppend(commands, steps, step, p);
    }
  }

  lemma DeliverKeepsMaps(core: Core, n: Notification)
    ensures Deliver(core, n).byPid == core.byPid && Deliver(core, n).tasks.Keys == core.tasks.Keys
  {
    hide Apply;
  }

  lemma ReceiveAgrees(commands: seq<Command>, steps: seq<Step>, st: State, n: Notification)
    requires Agrees(commands, steps, st)
    ensures Agrees(commands, steps + [Receive(n)], st.(core := Notify(st.core, n)))
    ensures Target(MapProcess(st.core, n), n) == Route(commands, steps + [Receive(n)], n)
  {
    hide Known, LatestStart, Registered, Deliver;
    var all, mapped := steps + [Receive(n)], MapProcess(st.core, n);
    RegisteredAppend(steps, Receive(n));
    DeliverKeepsMaps(mapped, n);
    forall k ensures k in mapped.tasks <==> Known(commands, all, k) {
      KnownGrows(commands, steps, Receive(n), k);
    }
    assert forall k :: k in mapped.tasks <==> k in Notify(st.core, n).tasks.Keys;
    forall p
      ensures p in mapped.byPid <==> LatestStart(commands, all, p).Some?
      ensures p in mapped.byPid ==> LatestStart(commands, all, p) == Some(mapped.byPid[p]) && mapped.byPid[p] in mapped.tasks
    {
      LatestStartAppend(commands, steps, Receive(n), p);
    }
  }

  lemma StepAgrees(commands: seq<Command>, steps: seq<Step>, st: State, step: Step)
    requires Agrees(commands, steps, st) && Enabled(commands, st, step)
    ensures Agrees(commands, steps + [step], After(commands, st, step))
    ensures step.Receive? ==> Target(MapProcess(st.core, step.n), step.n) == Route(commands, steps + [step], step.n)
  {
    hide Agrees, Known, Route, Notify, RegisterTask, SendToAgent;
    match step {
      case Receive(n) => ReceiveAgrees(commands, steps, st, n);
      case _ => EnqueueAgrees(commands, steps, st, step);
    }
  }

  /** In every execution, under every interleaving, the two maps hold exactly what the history tells, and every
      task a process is mapped to is also mapped by its keyword. */
  lemma {:induction false} ReachAgrees(commands: seq<Command>, steps: seq<Step>)
    requires Reach(commands, steps).Some?
    ensures Agrees(commands, steps, Reach(commands, steps).value)
  {
    if steps != [] {
      var before, step := steps[..|steps| - 1], steps[|steps| - 1];
      ReachAgrees(commands, before);
      StepAgrees(commands, before, Reach(commands, before).value, step);
      assert steps == before + [step];
    }
  }

  /** Every notification goes to the task of the latest known start of its process, else to that of its keyword,
      else nowhere. */
  lemma {:induction false} NotificationRouted(commands: seq<Command>, steps: seq<Step>, n: Notification)
    requires Reach(commands, steps).Some?
    ensures Target(MapProcess(Reach(commands, steps).value.core, n), n) == Route(commands, steps + [Receive(n)], n)
  {
    ReachAgrees(commands, steps);
    StepAgrees(commands, steps, Reach(commands, steps).value, Receive(n));
  }

  /** Every task is what the notifications routed to it, and no others, have made of it. */
  lemma {:induction false} TaskSeesItsNotifications(commands: seq<Command>, steps: seq<Step>, keyword: string)
    requires Reach(commands, steps).Some? && keyword in Reach(commands, steps).value.core.tasks
    ensures Reach(commands, steps).value.core.tasks[keyword] == TaskAfter(commands, steps, keyword)
  {
    hide Known, Apply;
    var before, step := steps[..|steps| - 1], steps[|steps| - 1];
    var st := Reach(commands, before).value;
    ReachAgrees(commands, before);
    if keyword in st.core.tasks {
      TaskSeesItsNotifications(commands, before, keyword);
      if step.Receive? {
        NotificationRouted(commands, before, step.n);
        assert before + [Receive(step.n)] == steps;
      }
    } else {
      assert step.Register?;
      NeverRoutedBefore(commands, before, keyword);
    }
  }

  /** Nothing is routed to a keyword before it is known. */
  lemma {:induction false} NeverRoutedBefore(commands: seq<Command>, steps: seq<Step>, keyword: string)
    requires Reach(commands, steps).Some? && keyword !in Reach(commands, steps).value.core.tasks
    ensures TaskAfter(commands, steps, keyword) == Task(0, TaskInit)
  {
    hide Known, Apply;
    if steps != [] {
      var before, step := steps[..|steps| - 1], steps[|steps| - 1];
      ReachAgrees(commands, steps);
      NeverRoutedBefore(commands, before, keyword);
      if step.Receive? { assert Route(commands, steps, step.n) != Some(keyword); }
    }
  }

  lemma Associative<T>(a: seq<T>, b: seq<T>, c: seq<T>)
    ensures (a + b) + c == a + (b + c)
  {
  }

  lemma ExecutesAppend(sent: seq<Message>, last: Message)
    ensures Executes(sent + [last]) == Executes(sent) + if last.Execute? then [last.keyword] else []
  {
    assert (sent + [last])[..|sent|] == sent;
  }

  lemma {:induction false} ExecutesConcat(sent: seq<Message>, more: seq<Message>)
    ensures Executes(sent + more) == Executes(sent) + Executes(more)
  {
    hide Executes;
    if more == [] {
      assert sent + more == sent;
      ExecutesNothing();
    } else {
      var n := |more| - 1;
      var last := more[n];
      ExecutesConcat(sent, more[..n]);
      ExecutesAppend(sent + more[..n], last);
      ExecutesAppend(more[..n], last);
      assert sent + more == (sent + more[..n]) + [last];
      assert more == more[..n] + [last];
      Associative(Executes(sent), Executes(more[..n]), if last.Execute? then [last.keyword] else []);
    }
  }

  lemma ExecutesNothing()
    ensures Executes([]) == []
  {
  }

  lemma ActionsExecuteNothing(core: Core, n: Notification)
    ensures Executes(Deliver(core, n).sent) == Executes(core.sent)
    ensures core.tasks.Keys == Deliver(core, n).tasks.Keys
  {
    var target := Target(core, n);
    if target.Some? && target.value in core.tasks {
      var actions := Apply(core.tasks[target.value], n).1;
      ExecutesConcat(core.sent, actions);
      assert |actions| == 1 ==> actions[..0] == [];
    }
  }

  /** What has been sent is mandatory and registered, and so is the command that waits. */
  ghost predicate SentIsRegistered(commands: seq<Command>, st: State) {
    && st.next <= |commands| && Executes(st.core.sent) == Mandatory(commands[..st.next])
    && (forall k :: k in Executes(st.core.sent) ==> k in st.core.tasks)
    && (st.registered ==> st.next < |commands| && commands[st.next].keyword in st.core.tasks)
  }

  lemma SendKeepsRegistered(commands: seq<Command>, st: State)
    requires SentIsRegistered(commands, st) && Enabled(commands, st, Send)
    ensures SentIsRegistered(commands, After(commands, st, Send))
  {
    ExecutesConcat(st.core.sent, [Execute(commands[st.next].keyword)]);
    assert commands[..st.next + 1][..st.next] == commands[..st.next];
    assert Executes([Execute(commands[st.next].keyword)]) == [commands[st.next].keyword];
  }

  lemma StepKeepsRegistered(commands: seq<Command>, st: State, step: Step)
    requires SentIsRegistered(commands, st) && Enabled(commands, st, step)
    ensures SentIsRegistered(commands, After(commands, st, step))
  {
    match step {
      case Register =>
      case Send => SendKeepsRegistered(commands, st);
      case Receive(n) => ActionsExecuteNothing(MapProcess(st.core, n), n);
    }
  }

  /** The commands sent are the mandatory ones among those enqueued, in order and repeated keywords included, and
      every one of them was registered before. */
  lemma {:induction false} SentAfterRegistered(commands: seq<Command>, steps: seq<Step>)
    requires Reach(commands, steps).Some?
    ensures SentIsRegistered(commands, Reach(commands, steps).value)
  {
    hide SentIsRegistered, After;
    if steps != [] {
      var before := steps[..|steps| - 1];
      SentAfterRegistered(commands, before);
      StepKeepsRegistered(commands, Reach(commands, before).value, steps[|steps| - 1]);
    } else {
      NothingSentYet(commands);
    }
  }

  lemma NothingSentYet(commands: seq<Command>)
    ensures SentIsRegistered(commands, State(EMPTY, 0, false))
  {
  }

  predicate Occurs(commands: seq<Command>, keyword: string) {
    exists i :: 0 <= i < |commands| && commands[i].keyword == keyword
  }

  /** What would be sent if a later command with a known keyword were ignored, as is logged. */
  function FirstMandatory(commands: seq<Command>): seq<string> {
    if commands == [] then []
    else
      var before, last := commands[..|commands| - 1], commands[|commands| - 1];
      FirstMandatory(before) + if last.optional || Occurs(before, last.keyword) then [] else [last.keyword]
  }

  /** No mandatory command repeats the keyword of an earlier one. */
  predicate NoRepeats(commands: seq<Command>) {
    forall j :: 0 <= j < |commands| && !commands[j].optional ==> !Occurs(commands[..j], commands[j].keyword)
  }

  lemma NoRepeatsAppend(commands: seq<Command>, last: Command)
    ensures NoRepeats(commands + [last]) <==> NoRepeats(commands) && (last.optional || !Occurs(commands, last.keyword))
  {
    hide Occurs;
    var all := commands + [last];
    assert all[|commands|] == last && all[..|commands|] == commands;
    forall j | 0 <= j < |commands| ensures all[j] == commands[j] && all[..j] == commands[..j] {
    }
  }

  lemma {:induction false} MandatoryFirstIff(commands: seq<Command>)
    ensures |FirstMandatory(commands)| <= |Mandatory(commands)|
    ensures Mandatory(commands) == FirstMandatory(commands) <==> NoRepeats(commands)
  {
    hide Occurs, NoRepeats;
    if commands == [] {
      NoneRepeats();
    } else {
      var before, last := commands[..|commands| - 1], commands[|commands| - 1];
      MandatoryFirstIff(before);
      NoRepeatsAppend(before, last);
      assert commands == before + [last];
      var a, b := Mandatory(before), FirstMandatory(before);
      SameHeads(a, b, last.keyword);
      assert Mandatory(commands) == if last.optional then a else a + [last.keyword];
      assert FirstMandatory(commands) == if last.optional || Occurs(before, last.keyword) then b else b + [last.keyword];
    }
  }

  lemma SameHeads(a: seq<string>, b: seq<string>, last: string)
    ensures a + [last] == b + [last] <==> a == b
  {
    assert (a + [last])[..|a|] == a && (b + [last])[..|b|] == b;
    assert |a + [last]| == |a| + 1 && |b + [last]| == |b| + 1;
  }

  lemma NoneRepeats()
    ensures NoRepeats([])
  {
  }

  /** Later commands with a known keyword are as good as ignored exactly when no mandatory one was enqueued. */
  lemma {:induction false} RepeatsIgnoredIff(commands: seq<Command>, steps: seq<Step>)
    requires Reach(commands, steps).Some?
    ensures var st := Reach(commands, steps).value;
            && st.next <= |commands|
            && (Executes(st.core.sent) == FirstMandatory(commands[..st.next]) <==> NoRepeats(commands[..st.next]))
  {
    SentAfterRegistered(commands, steps);
    MandatoryFirstIff(commands[..Reach(commands, steps).value.next]);
  }

  /** Two mandatory commands with the same keyword are both sent. */
  lemma RepeatIsSent()
    ensures var twice := [Command("a", false), Command("a", false)];
            var end := Reach(twice, [Register, Send, Register, Send]);
            && end.Some? && Executes(end.value.core.sent) == ["a", "a"]
            && FirstMandatory(twice) == ["a"]
  {
    hide Reach, Executes, Mandatory, FirstMandatory, After, SentIsRegistered;
    var twice := [Command("a", false), Command("a", false)];
    assert [] + [Register] == [Register] && [Register] + [Send] == [Register, Send];
    assert [Register, Send] + [Register] == [Register, Send, Register];
    assert [Register, Send, Register] + [Send] == [Register, Send, Register, Send];
    MandatoryTwice();
    ReachNothing(twice);
    ReachNext(twice, [], Register);
    ReachNext(twice, [Register], Send);
    ReachNext(twice, [Register, Send], Register);
    ReachNext(twice, [Register, Send, Register], Send);
    SentAfterRegistered(twice, [Register, Send, Register, Send]);
    SentMandatory(twice, Reach(twice, [Register, Send, Register, Send]).value);
    assert twice[..2] == twice;
  }

  lemma MandatoryTwice()
    ensures var twice := [Command("a", false), Command("a", false)];
            Mandatory(twice) == ["a", "a"] && FirstMandatory(twice) == ["a"]
  {
    var first, twice := [Command("a", false)], [Command("a", false), Command("a", false)];
    assert twice[..1] == first && first[..0] == [];
    assert first[0].keyword == "a";
  }

  lemma ReachNothing(commands: seq<Command>)
    ensures Reach(commands, []) == Some(State(EMPTY, 0, false))
  {
  }

  lemma ReachNext(commands: seq<Command>, steps: seq<Step>, step: Step)
    requires Reach(commands, steps).Some? && Enabled(commands, Reach(commands, steps).value, step) && !step.Receive?
    ensures var st, after := Reach(commands, steps).value, Reach(commands, steps + [step]);
            && after.Some? && after.value.registered == step.Register?
            && after.value.next == st.next + if step.Send? then 1 else 0
  {
    assert (steps + [step])[..|steps|] == steps;
  }

  lemma SentMandatory(commands: seq<Command>, st: State)
    requires SentIsRegistered(commands, st)
    ensures st.next <= |commands| && Executes(st.core.sent) == Mandatory(commands[..st.next])
  {
  }

  /** So the start of a command that was sent always finds its task, whose process it becomes. */
  lemma {:induction false} StartFindsTask(commands: seq<Command>, steps: seq<Step>, n: Notification)
    requires Reach(commands, steps).Some? && n.event.Started?
    requires n.keyword in Executes(Reach(commands, steps).value.core.sent)
    ensures var core := Notify(Reach(commands, steps).value.core, n);
            && n.keyword in core.tasks && core.tasks[n.keyword] == Task(Low32(n.processId), TaskRunning)
            && Low32(n.processId) in core.byPid && core.byPid[Low32(n.processId)] == n.keyword
  {
    SentAfterRegistered(commands, steps);
  }

  // ------------------------------------- what becomes of tasks and processes

  /** The events that change the status of the task they are routed to. */
  predicate ChangesStatus(e: Event) {
    || e == Started || e == Terminated || e == Canceled || e == AllTerminated
    || e == ProcessTimeLimit || e == ProcessAbnormalTermination || e == ProcessMemoryLimit
  }

  /** The last of them routed to a keyword. */
  ghost function LastChange(commands: seq<Command>, steps: seq<Step>, keyword: string): Option<Event> {
    if steps == [] then None
    else
      var before, step := steps[..|steps| - 1], steps[|steps| - 1];
      if step.Receive? && ChangesStatus(step.n.event) && Route(commands, steps, step.n) == Some(keyword)
      then Some(step.n.event)
      else LastChange(commands, before, keyword)
  }

  /** The process of the last start routed to a keyword; 0 before any. */
  ghost function LastProcess(commands: seq<Command>, steps: seq<Step>, keyword: string): nat {
    if steps == [] then 0
    else
      var before, step := steps[..|steps| - 1], steps[|steps| - 1];
      if step.Receive? && step.n.event == Started && Route(commands, steps, step.n) == Some(keyword)
      then Low32(step.n.processId)
      else LastProcess(commands, before, keyword)
  }

  lemma {:induction false} TaskAfterIs(commands: seq<Command>, steps: seq<Step>, keyword: string)
    ensures var task, change := TaskAfter(commands, steps, keyword), LastChange(commands, steps, keyword);
            && task.pid == LastProcess(commands, steps, keyword)
            && (task.status == TaskInit <==> change == None)
            && (task.status == TaskRunning <==> change == Some(Started))
            && (task.status == TaskDone <==> change == Some(Terminated))
            && (task.status == TaskCancelled <==> change == Some(Canceled))
            && (task.status == TaskFailed <==> change in {Some(AllTerminated), Some(ProcessTimeLimit),
                                                          Some(ProcessAbnormalTermination), Some(ProcessMemoryLimit)})
  {
    hide Route;
    if steps != [] { TaskAfterIs(commands, steps[..|steps| - 1], keyword); }
  }

  /** In every execution, the status of a task is that of the last event routed to it that changes one, and its process
      is that of the last start routed to it. */
  lemma {:induction false} TaskStatusIs(commands: seq<Command>, steps: seq<Step>, keyword: string)
    requires Reach(commands, steps).Some? && keyword in Reach(commands, steps).value.core.tasks
    ensures var task, change := Reach(commands, steps).value.core.tasks[keyword], LastChange(commands, steps, keyword);
            && task.pid == LastProcess(commands, steps, keyword)
            && (task.status == TaskInit <==> change == None)
            && (task.status == TaskRunning <==> change == Some(Started))
            && (task.status == TaskDone <==> change == Some(Terminated))
            && (task.status == TaskCancelled <==> change == Some(Canceled))
            && (task.status == TaskFailed <==> change in {Some(AllTerminated), Some(ProcessTimeLimit),
                                                          Some(ProcessAbnormalTermination), Some(ProcessMemoryLimit)})
  {
    hide Reach, TaskAfter, LastChange, LastProcess;
    TaskSeesItsNotifications(commands, steps, keyword);
    TaskAfterIs(commands, steps, keyword);
  }

  /** The processes whose termination was requested, in order. */
  function Terminations(sent: seq<Message>): seq<nat> {
    if sent == [] then []
    else Terminations(sent[..|sent| - 1]) + match sent[|sent| - 1] case Terminate(pid) => [pid] case Execute(_) => []
  }

  /** The processes to terminate: those past their time limit, and the process of each task past its memory limit. */
  ghost function Overruns(commands: seq<Command>, steps: seq<Step>): seq<nat> {
    if steps == [] then []
    else
      var before, step := steps[..|steps| - 1], steps[|steps| - 1];
      Overruns(commands, before) +
      if !step.Receive? || Route(commands, steps, step.n) == None then []
      else if step.n.event == ProcessTimeLimit then [Low32(step.n.processId)]
      else if step.n.event == ProcessMemoryLimit then [LastProcess(commands, before, Route(commands, steps, step.n).value)]
      else []
  }

  lemma TerminationsAppend(sent: seq<Message>, last: Message)
    ensures Terminations(sent + [last]) == Terminations(sent) + if last.Terminate? then [last.pid] else []
  {
    assert (sent + [last])[..|sent|] == sent;
  }

  lemma {:induction false} TerminationsConcat(sent: seq<Message>, more: seq<Message>)
    ensures Terminations(sent + more) == Terminations(sent) + Terminations(more)
  {
    hide Terminations;
    if more == [] {
      assert sent + more == sent;
      TerminationsNothing();
    } else {
      var n := |more| - 1;
      var last := more[n];
      TerminationsConcat(sent, more[..n]);
      TerminationsAppend(sent + more[..n], last);
      TerminationsAppend(more[..n], last);
      assert sent + more == (sent + more[..n]) + [last];
      assert more == more[..n] + [last];
      Associative(Terminations(sent), Terminations(more[..n]), if last.Terminate? then [last.pid] else []);
    }
  }

  lemma TerminationsNothing()
    ensures Terminations([]) == []
  {
  }

  /** In every execution, exactly these terminations have been requested, in order. */
  lemma {:induction false} OverrunsAreTerminated(commands: seq<Command>, steps: seq<Step>)
    requires Reach(commands, steps).Some?
    ensures Terminations(Reach(commands, steps).value.core.sent) == Overruns(commands, steps)
  {
    hide Route, Terminations, After;
    if steps == [] {
      ReachNothing(commands);
      NoTerminations();
    } else {
      var before, step := steps[..|steps| - 1], steps[|steps| - 1];
      var st := Reach(commands, before).value;
      OverrunsAreTerminated(commands, before);
      assert steps == before + [step];
      match step {
        case Receive(n) => ReceiveTerminates(commands, before, n);
        case _ => EnqueueTerminatesNothing(commands, st, step);
      }
    }
  }

  lemma NoTerminations()
    ensures Terminations([]) == [] && forall pid: nat :: Terminations([Terminate(pid)]) == [pid]
  {
    assert forall pid: nat :: [Terminate(pid)][..0] == [];
  }

  lemma EnqueueTerminatesNothing(commands: seq<Command>, st: State, step: Step)
    requires Enabled(commands, st, step) && !step.Receive?
    ensures Terminations(After(commands, st, step).core.sent) == Terminations(st.core.sent)
  {
    if step.Send? {
      var last := Execute(commands[st.next].keyword);
      assert (st.core.sent + [last])[..|st.core.sent|] == st.core.sent;
    }
  }

  lemma ReceiveTerminates(commands: seq<Command>, steps: seq<Step>, n: Notification)
    requires Reach(commands, steps).Some?
    ensures var st, route := Reach(commands, steps).value, Route(commands, steps + [Receive(n)], n);
            Terminations(After(commands, st, Receive(n)).core.sent) == Terminations(st.core.sent) +
              if route == None then []
              else if n.event == ProcessTimeLimit then [Low32(n.processId)]
              else if n.event == ProcessMemoryLimit then [LastProcess(commands, steps, route.value)]
              else []
  {
    hide Route, Terminations, Reach, LastProcess, TaskAfter, Agrees;
    var st := Reach(commands, steps).value;
    var mapped := MapProcess(st.core, n);
    ReachAgrees(commands, steps);
    StepAgrees(commands, steps, st, Receive(n));
    NoTerminations();
    var target := Target(mapped, n);
    if target.Some? {
      TargetKnown(commands, steps, st, n);
      TaskSeesItsNotifications(commands, steps, target.value);
      TaskAfterIs(commands, steps, target.value);
      TerminationsConcat(st.core.sent, Apply(mapped.tasks[target.value], n).1);
    }
  }

  lemma TargetKnown(commands: seq<Command>, steps: seq<Step>, st: State, n: Notification)
    requires Agrees(commands, steps, st)
    ensures var target := Target(MapProcess(st.core, n), n); target.Some? ==> target.value in st.core.tasks
  {
    hide Known, LatestStart, Registered;
  }

  // -------------------------------------------------------------- the objects

  class WolfTask {
    const keyword: string
    var pid: nat
    var status: Status

    constructor (keyword: string)
      ensures this.keyword == keyword && pid == 0 && status == TaskInit
    {
      this.keyword, pid, status := keyword, 0, TaskInit;
    }

    ghost function Value(): Task
      reads this
    {
      Task(pid, status)
    }

    method ApplyNotification(n: Notification) returns (actions: seq<Message>)
      modifies this
      ensures (Value(), actions) == Apply(old(Value()), n)
    {
      actions := [];
      match n.event {
        case Started => pid, status := Low32(n.processId), TaskRunning;
        case Terminated => status := TaskDone;
        case Canceled => status := TaskCancelled;
        case ProcessTimeLimit =>
          actions := [Terminate(Low32(n.processId))];
          status := TaskFailed;
        case ProcessAbnormalTermination => status := TaskFailed;
        case ProcessMemoryLimit =>
          actions := [Terminate(pid)];
          status := TaskFailed;
        case AllTerminated => status := TaskFailed;
        case _ =>
      }
    }
  }

  class WolfExecution {
    const commands: seq<Command>
    var tasksByKeyword: map<string, WolfTask>
    var tasksByPID: map<nat, WolfTask>
    var cmdAgentBuffer: seq<Message>

    /** The two maps share their tasks. */
    ghost predicate Valid()
      reads this
    {
      && (forall k :: k in tasksByKeyword ==> tasksByKeyword[k].keyword == k)
      && forall p :: p in tasksByPID ==>
           tasksByPID[p].keyword in tasksByKeyword && tasksByKeyword[tasksByPID[p].keyword] == tasksByPID[p]
    }

    ghost function Value(): Core
      reads this, tasksByKeyword.Values
    {
      Core(map k | k in tasksByKeyword :: tasksByKeyword[k].Value(),
           map p | p in tasksByPID :: tasksByPID[p].keyword,
           cmdAgentBuffer)
    }

    constructor (commands: seq<Command>)
      ensures Valid() && Value() == EMPTY && this.commands == commands
    {
      this.commands := commands;
      tasksByKeyword, tasksByPID, cmdAgentBuffer := map[], map[], [];
    }

    method RegisterCommand(command: Command)
      requires Valid()
      modifies this`tasksByKeyword
      ensures Valid() && Value() == RegisterTask(old(Value()), command)
      ensures forall k :: k in old(tasksByKeyword) ==> k in tasksByKeyword && tasksByKeyword[k] == old(tasksByKeyword[k])
    {
      if command.keyword !in tasksByKeyword {
        var task := new WolfTask(command.keyword);
        tasksByKeyword := tasksByKeyword[command.keyword := task];
      }
    }

    method SendCommand(command: Command)
      requires Valid()
      modifies this`cmdAgentBuffer
      ensures Valid() && Value() == SendToAgent(old(Value()), command)
    {
      if !command.optional {
        cmdAgentBuffer := cmdAgentBuffer + [Execute(command.keyword)];
      }
    }

    /** Without notifications in between. */
    method EnqueueCommands()
      requires Valid()
      modifies this`tasksByKeyword, this`cmdAgentBuffer
      ensures Valid() && Value() == Enqueued(old(Value()), commands)
    {
      for i := 0 to |commands|
        invariant Valid() && Value() == Enqueued(old(Value()), commands[..i])
      {
        RegisterCommand(commands[i]);
        SendCommand(commands[i]);
        assert commands[..i + 1][..i] == commands[..i];
      }
      assert commands[..|commands|] == commands;
    }

    /** The callback for notifications; an empty one is ignored. */
    method OnNotification(item: Option<Notification>)
      requires Valid()
      modifies this`tasksByPID, this`cmdAgentBuffer, tasksByKeyword.Values
      ensures Valid() && Value() == if item.None? then old(Value()) else Notify(old(Value()), item.value)
    {
      if item.None? {
        return;
      }
      if item.value.event.Started? && item.value.keyword in tasksByKeyword {
        tasksByPID := tasksByPID[Low32(item.value.processId) := tasksByKeyword[item.value.keyword]];
      }
      assert Value() == MapProcess(old(Value()), item.value);
      NotifyTask(item.value);
    }

    method NotifyTask(n: Notification)
      requires Valid()
      modifies this`cmdAgentBuffer, tasksByKeyword.Values
      ensures Valid() && Value() == Deliver(old(Value()), n)
    {
      var task: WolfTask? := null;
      if Low32(n.processId) in tasksByPID {
        task := tasksByPID[Low32(n.processId)];
      }
      if task == null && n.keyword in tasksByKeyword {
        task := tasksByKeyword[n.keyword];
      }
      if task != null {
        assert tasksByKeyword[task.keyword] == task;
        assert Target(Value(), n) == Some(task.keyword);
        var actions := task.ApplyNotification(n);
        cmdAgentBuffer := cmdAgentBuffer + actions;
      }
    }
  }

  function Enqueued(core: Core, commands: seq<Command>): Core {
    if commands == [] then core
    else
      var last := commands[|commands| - 1];
      SendToAgent(RegisterTask(Enqueued(core, commands[..|commands| - 1]), last), last)
  }

  /** Registering and sending, command by command. */
  function Enqueuing(count: nat): seq<Step> {
    if count == 0 then [] else Enqueuing(count - 1) + [Register] + [Send]
  }

  lemma RegisterAndSend(commands: seq<Command>, steps: seq<Step>, core: Core, next: nat)
    requires Reach(commands, steps) == Some(State(core, next, false)) && next < |commands|
    ensures Reach(commands, steps + [Register] + [Send]) ==
      Some(State(SendToAgent(RegisterTask(core, commands[next]), commands[next]), next + 1, false))
  {
    hide RegisterTask, SendToAgent;
    var first := steps + [Register];
    assert first[..|steps|] == steps && (first + [Send])[..|first|] == first;
    assert Reach(commands, first) == Some(State(RegisterTask(core, commands[next]), next, true));
  }

  lemma EnqueuedNext(core: Core, commands: seq<Command>, last: Command)
    ensures Enqueued(core, commands + [last]) == SendToAgent(RegisterTask(Enqueued(core, commands), last), last)
    ensures Enqueued(core, []) == core
  {
    hide RegisterTask, SendToAgent;
    assert (commands + [last])[..|commands|] == commands;
  }

  /** Enqueuing without notifications in between is one of the executions. */
  lemma {:induction false} EnqueuedReaches(commands: seq<Command>, count: nat)
    requires count <= |commands|
    ensures Reach(commands, Enqueuing(count)) == Some(State(Enqueued(EMPTY, commands[..count]), count, false))
  {
    hide RegisterTask, SendToAgent, Reach, Enqueued;
    if count > 0 {
      EnqueuedReaches(commands, count - 1);
      assert commands[..count] == commands[..count - 1] + [commands[count - 1]];
      EnqueuedNext(EMPTY, commands[..count - 1], commands[count - 1]);
      RegisterAndSend(commands, Enqueuing(count - 1), Enqueued(EMPTY, commands[..count - 1]), count - 1);
    } else {
      assert commands[..0] == [];
      ReachNothing(commands);
      EnqueuedNext(EMPTY, [], Command("", true));
    }
  }
}
