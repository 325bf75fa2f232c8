/** Any number of ControllerPublishVolume and ControllerUnpublishVolume calls to one node, interleaved
    between the look at its attached disks and the attach or detach. Nothing holds the list in between. */
module AttachRace {
  import opened Wrappers
  import opened Compute
  import opened VolumeId
  import opened Attachments
  import opened ControllerMachine

  /** What a call that found its disk and its instance is after. */
  datatype Task = Attach(entry: AttachedDisk) | Detach(volume: string) {
    function Device(): string {
      if Attach? then entry.deviceName else volume
    }
  }

  /** Before the look, between look and act, answered, or gone down with the index -1 of a detach that
      finds no entry. */
  datatype Phase = Look | Act | Done(reply: Reply) | Panicked

  datatype Handler = Handler(task: Task, phase: Phase)

  datatype World = World(list: Attached, calls: seq<Handler>)

  ghost function StepCall(list: Attached, h: Handler): (Attached, Handler) {
    var device := h.task.Device();
    match h.phase
    case Look =>
      (match h.task
       case Attach(entry) =>
         if !Holds(list, device) then (list, h.(phase := Act))
         else if list[First(list, device)].mode == entry.mode then (list, h.(phase := Done(Published)))
         else (list, h.(phase := Done(Failed(AlreadyExists))))
       case Detach(_) => (list, h.(phase := if Holds(list, device) then Act else Done(Unpublished))))
    case Act =>
      (match h.task
       case Attach(entry) => (list + [entry], h.(phase := Done(Published)))
       case Detach(_) =>
         if Holds(list, device) then (SwapDelete(list, First(list, device)), h.(phase := Done(Unpublished)))
         else (list, h.(phase := Panicked)))
    case Done(_) => (list, h)
    case Panicked => (list, h)
  }

  ghost function Step(w: World, call: nat): World {
    if call >= |w.calls| then w
    else
      var (list, h) := StepCall(w.list, w.calls[call]);
      World(list, w.calls[call := h])
  }

  /** The world after an interleaving: the calls that take a step, in order. */
  ghost function After(w: World, steps: seq<nat>): (w': World)
    ensures |w'.calls| == |w.calls| && forall i :: 0 <= i < |w.calls| ==> w'.calls[i].task == w.calls[i].task
  {
    if steps == [] then w
    else Step(After(w, steps[..|steps| - 1]), steps[|steps| - 1])
  }

  ghost predicate Initial(w: World) {
    forall i :: 0 <= i < |w.calls| ==> w.calls[i].phase.Look?
  }

  predicate Is(h: Handler, name: string, phase: Phase) {
    h.phase == phase && h.task.Device() == name
  }

  predicate At(w: World, i: int, name: string, phase: Phase) {
    0 <= i < |w.calls| && Is(w.calls[i], name, phase)
  }

  /** Two calls for the device have both looked and neither has acted. */
  ghost predicate Overlap(w: World, name: string) {
    exists i, j :: i < j && At(w, i, name, Act) && At(w, j, name, Act)
  }

  /** At some point of the interleaving two calls for the device overlapped. */
  ghost predicate EverOverlap(w: World, steps: seq<nat>, name: string) {
    exists k :: 0 <= k <= |steps| && Overlap(After(w, steps[..k]), name)
  }

  lemma OverlapOfPrefix(w: World, steps: seq<nat>, name: string)
    requires steps != []
    ensures EverOverlap(w, steps, name) <==>
            EverOverlap(w, steps[..|steps| - 1], name) || Overlap(After(w, steps), name)
  {
    hide After, Overlap;
    var last := |steps| - 1;
    assert steps[..|steps|] == steps;
    assert forall k :: 0 <= k <= last ==> steps[..last][..k] == steps[..k];
  }

  // ---- When a run is serial ----

  /** A call about to act still finds what its look found. */
  ghost predicate Expected(list: Attached, h: Handler) {
    h.phase.Act? ==> (h.task.Attach? <==> !Holds(list, h.task.Device()))
  }

  ghost predicate StepExpected(w: World, call: nat) {
    call < |w.calls| ==> Expected(w.list, w.calls[call])
  }

  /** Every attach of the run finds its device unattached, and every detach finds it attached. */
  ghost predicate Undisturbed(w: World, steps: seq<nat>) {
    forall k :: 0 <= k < |steps| ==> StepExpected(After(w, steps[..k]), steps[k])
  }

  ghost predicate NoPanic(w: World) {
    forall i :: 0 <= i < |w.calls| ==> !w.calls[i].phase.Panicked?
  }

  ghost predicate Safe(w: World) {
    NoDup(w.list) && NoPanic(w)
  }

  ghost predicate SafeThroughout(w: World, steps: seq<nat>) {
    forall k :: 0 <= k <= |steps| ==> Safe(After(w, steps[..k]))
  }

  lemma SafeAtEnd(w: World, steps: seq<nat>)
    ensures SafeThroughout(w, steps) ==> Safe(After(w, steps))
  {
    assert steps[..|steps|] == steps;
  }

  lemma SafePrefix(w: World, steps: seq<nat>)
    requires steps != []
    ensures SafeThroughout(w, steps) <==> SafeThroughout(w, steps[..|steps| - 1]) && Safe(After(w, steps))
  {
    hide After, Safe;
    var last := |steps| - 1;
    assert steps[..|steps|] == steps;
    forall k | 0 <= k <= last ensures steps[..last][..k] == steps[..k] {
    }
  }

  lemma UndisturbedPrefix(w: World, steps: seq<nat>)
    requires steps != []
    ensures var last := |steps| - 1;
            Undisturbed(w, steps) <==>
              Undisturbed(w, steps[..last]) && StepExpected(After(w, steps[..last]), steps[last])
  {
    hide After, StepExpected;
    var last := |steps| - 1;
    assert forall k :: 0 <= k < last ==> steps[..last][..k] == steps[..k] && steps[..last][k] == steps[k];
  }

  lemma HoldsAfterAppend(l: Attached, d: AttachedDisk)
    ensures forall n :: Holds(l + [d], n) <==> Holds(l, n) || n == d.deviceName
  {
    forall n ensures Holds(l + [d], n) <==> Holds(l, n) || n == d.deviceName {
      assert (l + [d])[|l|] == d;
      if Holds(l, n) {
        assert (l + [d])[First(l, n)].deviceName == n;
      }
    }
  }

  /** One step from distinct names: they stay distinct and nobody panics exactly when the call finds
      what its look found. */
  lemma StepSafeExactly(w: World, call: nat)
    requires Safe(w)
    ensures Safe(Step(w, call)) <==> StepExpected(w, call)
  {
    hide AsMap;
    if call < |w.calls| && w.calls[call].phase.Act? {
      var h, w' := w.calls[call], Step(w, call);
      var device := h.task.Device();
      if h.task.Attach? && Holds(w.list, device) {
        var i := First(w.list, device);
        assert w'.list[i].deviceName == w'.list[|w.list|].deviceName;
      } else if h.task.Attach? {
        AppendIsInsert(w.list, h.task.entry);
      } else if Holds(w.list, device) {
        SwapDeleteEntries(w.list, First(w.list, device));
      } else {
        assert w'.calls[call].phase.Panicked?;
      }
    }
  }

  /** The exact condition, for publishes and unpublishes in any interleaving: names stay distinct and
      nobody panics, at every point of the run, exactly when it is undisturbed. */
  lemma {:induction false} SafeExactly(w: World, steps: seq<nat>)
    requires Initial(w) && NoDup(w.list)
    ensures Undisturbed(w, steps) <==> SafeThroughout(w, steps)
  {
    if steps != [] {
      hide Step, Safe, Undisturbed, StepExpected, SafeThroughout, Initial;
      var last := |steps| - 1;
      var front := steps[..last];
      SafeExactly(w, front);
      UndisturbedPrefix(w, steps);
      SafePrefix(w, steps);
      SafeAtEnd(w, front);
      if Safe(After(w, front)) {
        StepSafeExactly(After(w, front), steps[last]);
      }
    }
  }

  ghost predicate AllExpected(w: World) {
    forall i :: 0 <= i < |w.calls| ==> Expected(w.list, w.calls[i])
  }

  /** A step changes which devices are attached only for the device of its call. */
  lemma OthersKeepDevice(list: Attached, h: Handler, name: string)
    requires name != h.task.Device()
    ensures Holds(StepCall(list, h).0, name) <==> Holds(list, name)
  {
    var device, list' := h.task.Device(), StepCall(list, h).0;
    if h.phase.Act? && h.task.Attach? {
      HoldsAfterAppend(list, h.task.entry);
    } else if list' != list {
      var i, last := First(list, device), |list| - 1;
      if Holds(list, name) {
        var k := First(list, name);
        assert list'[if k == last then i else k].deviceName == name;
      }
      if Holds(list', name) {
        var k := First(list', name);
        assert list[if k == i then last else k].deviceName == name;
      }
    }
  }

  lemma StepStaysExpected(w: World, call: nat)
    requires AllExpected(w) && forall name :: !Overlap(w, name)
    ensures AllExpected(Step(w, call))
  {
    if call < |w.calls| {
      var h, w' := w.calls[call], Step(w, call);
      forall i | 0 <= i < |w.calls| ensures Expected(w'.list, w'.calls[i]) {
        var device := w.calls[i].task.Device();
        if i != call && w.calls[i].phase.Act? {
          if device != h.task.Device() {
            OthersKeepDevice(w.list, h, device);
          } else if h.phase.Act? {
            assert At(w, i, device, Act) && At(w, call, device, Act);
            assert Overlap(w, device);
          }
        }
      }
    }
  }

  /** Without any overlap every run is undisturbed. */
  lemma {:induction false} NoOverlapIsUndisturbed(w: World, steps: seq<nat>)
    requires Initial(w) && forall name :: !EverOverlap(w, steps, name)
    ensures Undisturbed(w, steps) && AllExpected(After(w, steps))
  {
    if steps != [] {
      hide Step, EverOverlap, AllExpected, Overlap;
      var front := steps[..|steps| - 1];
      forall name ensures !EverOverlap(w, front, name) && !Overlap(After(w, front), name) {
        OverlapOfPrefix(w, steps, name);
        NeverThenNot(w, front, name);
      }
      NoOverlapIsUndisturbed(w, front);
      StepStaysExpected(After(w, front), steps[|steps| - 1]);
      UndisturbedPrefix(w, steps);
      ExpectedForOne(After(w, front), steps[|steps| - 1]);
    }
  }

  lemma NeverThenNot(w: World, steps: seq<nat>, name: string)
    ensures Overlap(After(w, steps), name) ==> EverOverlap(w, steps, name)
  {
    assert steps[..|steps|] == steps;
  }

  lemma ExpectedForOne(w: World, call: nat)
    requires AllExpected(w)
    ensures StepExpected(w, call)
  {
  }

  // ---- The serial run it equals ----

  /** The calls answered in the run, in the order of their answers. */
  ghost function Order(w: World, steps: seq<nat>): (order: seq<nat>)
    ensures forall k :: 0 <= k < |order| ==> order[k] < |w.calls|
  {
    if steps == [] then []
    else
      var last := |steps| - 1;
      Order(w, steps[..last]) + if Answers(After(w, steps[..last]), steps[last]) then [steps[last]] else []
  }

  ghost predicate Answers(w: World, call: nat) {
    call < |w.calls| && !w.calls[call].phase.Done? && Step(w, call).calls[call].phase.Done?
  }

  /** `request` is a publish or unpublish of the node that comes as far as the look, with this task. */
  ghost predicate Carries(m: Machine, node: string, request: Call, task: Task) {
    match task
    case Attach(entry) =>
      && request.Publish? && request.node == node && ModeOf(request.readOnly) == entry.mode
      && Addressed(m, request.id, node, request.hasCapability) == Ok(entry.deviceName)
    case Detach(volume) =>
      request.Unpublish? && request.node == node && Addressed(m, request.id, node, true) == Ok(volume)
  }

  ghost predicate AllCarry(m: Machine, node: string, requests: seq<Call>, w: World) {
    |requests| == |w.calls| && forall i :: 0 <= i < |requests| ==> Carries(m, node, requests[i], w.calls[i].task)
  }

  function Pick(requests: seq<Call>, order: seq<nat>): seq<Call>
    requires forall k :: 0 <= k < |order| ==> order[k] < |requests|
  {
    seq(|order|, k requires 0 <= k < |order| => requests[order[k]])
  }

  /** The abstract machine with these attachments of the node. */
  function WithModes(m: Machine, node: string, modes: map<string, Mode>): Machine {
    m.(attached := m.attached[node := modes])
  }

  /** What a task does to the attachments of its node when nobody interferes. */
  function Alone(modes: map<string, Mode>, task: Task): (map<string, Mode>, Reply) {
    match task
    case Attach(entry) =>
      if entry.deviceName !in modes then (modes[entry.deviceName := entry.mode], Published)
      else (modes, if modes[entry.deviceName] == entry.mode then Published else Failed(AlreadyExists))
    case Detach(volume) => (modes - {volume}, Unpublished)
  }

  lemma AloneIsStep(zone: string, m: Machine, node: string, modes: map<string, Mode>, request: Call, task: Task)
    requires node in m.attached && Carries(m, node, request, task)
    ensures var (modes', reply) := Alone(modes, task);
            ControllerMachine.Step(zone, WithModes(m, node, modes), request) ==
              Outcome(WithModes(m, node, modes'), reply)
  {
    hide SplitZoneNameId;
  }

  lemma AnswerIsAlone(list: Attached, h: Handler)
    requires NoDup(list) && Expected(list, h) && !h.phase.Done? && StepCall(list, h).1.phase.Done?
    ensures var (list', h') := StepCall(list, h);
            Alone(AsMap(list), h.task) == (AsMap(list'), h'.phase.reply)
  {
    var device, modes := h.task.Device(), AsMap(list);
    RepresentsUnique(list, modes);
    assert Holds(list, device) ==> list[First(list, device)].deviceName == device;
    assert device in modes <==> Holds(list, device);
    hide AsMap;
    if h.phase.Act? && h.task.Attach? {
      AppendIsInsert(list, h.task.entry);
    } else if h.phase.Act? {
      SwapDeleteIsRemove(list, First(list, device));
    } else {
      assert device !in modes ==> modes - {device} == modes;
    }
  }

  /** Before an answer, a step that does not answer or panic leaves the list alone. */
  lemma QuietStep(w: World, call: nat)
    requires StepExpected(w, call) && !Answers(w, call)
    ensures Step(w, call).list == w.list
  {
  }

  ghost predicate Replied(w: World, order: seq<nat>, zone: string, m: Machine, serial: seq<Call>)
    requires AllWellFormed(serial) && |serial| == |order|
  {
    && (forall k :: 0 <= k < |order| ==>
          order[k] < |w.calls| && w.calls[order[k]].phase == Done(ReplyTo(zone, m, serial, k)))
    && (forall i :: 0 <= i < |w.calls| ==> (w.calls[i].phase.Done? <==> i in order))
    && (forall k, l :: 0 <= k < l < |order| ==> order[k] != order[l])
  }

  /** The calls of `order`, served one after the other by the abstract machine, leave the attachments
      of the list and get the replies of the calls answered so far. */
  ghost predicate Matches(zone: string, m: Machine, node: string, requests: seq<Call>, w: World, order: seq<nat>) {
    && (forall k :: 0 <= k < |order| ==> order[k] < |requests|)
    && var serial := Pick(requests, order);
       && AllWellFormed(serial)
       && ControllerMachine.After(zone, m, serial) == WithModes(m, node, AsMap(w.list))
       && Replied(w, order, zone, m, serial)
  }

  /** Linearizability. An undisturbed run from distinct names leaves the attachments, and gives every
      call the reply, of a serial run of the abstract machine: each answered call once, in the order of
      the answers. */
  lemma {:induction false} RunIsSerial(zone: string, m: Machine, node: string, requests: seq<Call>, w: World,
                                       steps: seq<nat>)
    requires Initial(w) && NoDup(w.list) && Undisturbed(w, steps)
    requires AllCarry(m, node, requests, w) && node in m.attached && m.attached[node] == AsMap(w.list)
    ensures NoDup(After(w, steps).list)
    ensures Matches(zone, m, node, requests, After(w, steps), Order(w, steps))
  {
    if steps == [] {
      assert m.attached[node := m.attached[node]] == m.attached;
    } else {
      hide Step, AsMap, Undisturbed, Initial, Matches, ControllerMachine.Step;
      var last := |steps| - 1;
      var front, call := steps[..last], steps[last];
      UndisturbedPrefix(w, steps);
      RunIsSerial(zone, m, node, requests, w, front);
      StepKeepsDistinct(After(w, front), call);
      if Answers(After(w, front), call) {
        AnsweringStepMatches(zone, m, node, requests, After(w, front), Order(w, front), call);
      } else {
        QuietStepMatches(zone, m, node, requests, After(w, front), Order(w, front), call);
      }
    }
  }

  lemma AnsweringStep(zone: string, m: Machine, node: string, requests: seq<Call>, w: World, call: nat)
    requires NoDup(w.list) && StepExpected(w, call) && AllCarry(m, node, requests, w) && node in m.attached
    requires Answers(w, call)
    ensures var w', before := Step(w, call), WithModes(m, node, AsMap(w.list));
            && WellFormed(requests[call])
            && ControllerMachine.Step(zone, before, requests[call]) ==
                 Outcome(WithModes(m, node, AsMap(w'.list)), w'.calls[call].phase.reply)
  {
    AnswerIsAlone(w.list, w.calls[call]);
    AloneIsStep(zone, m, node, AsMap(w.list), requests[call], w.calls[call].task);
  }

  lemma AnsweringStepMatches(zone: string, m: Machine, node: string, requests: seq<Call>, w: World, order: seq<nat>,
                             call: nat)
    requires NoDup(w.list) && StepExpected(w, call) && AllCarry(m, node, requests, w) && node in m.attached
    requires Matches(zone, m, node, requests, w, order) && Answers(w, call)
    ensures Matches(zone, m, node, requests, Step(w, call), order + [call])
  {
    hide NoDup, AsMap, StepExpected, Step, Replied, Carries, WithModes, WellFormed, AllWellFormed;
    hide ControllerMachine.Step, ControllerMachine.After, ReplyTo;
    var serial := Pick(requests, order);
    assert Pick(requests, order + [call]) == serial + [requests[call]];
    AnsweringStep(zone, m, node, requests, w, call);
    RunExtended(zone, m, serial, requests[call]);
    RepliedExtended(w, order, zone, m, serial, call, requests[call]);
  }

  lemma QuietStepMatches(zone: string, m: Machine, node: string, requests: seq<Call>, w: World, order: seq<nat>,
                         call: nat)
    requires StepExpected(w, call) && Matches(zone, m, node, requests, w, order) && !Answers(w, call)
    ensures Matches(zone, m, node, requests, Step(w, call), order + [])
  {
    QuietStep(w, call);
    hide AsMap, StepExpected, Step, Replied, AllWellFormed, ControllerMachine.After;
    assert order + [] == order;
    RepliedUnchanged(w, order, zone, m, Pick(requests, order), call);
  }

  lemma StepKeepsDistinct(w: World, call: nat)
    requires NoDup(w.list) && StepExpected(w, call)
    ensures NoDup(Step(w, call).list)
  {
    if call < |w.calls| && w.calls[call].phase.Act? {
      var h := w.calls[call];
      if h.task.Attach? {
        AppendIsInsert(w.list, h.task.entry);
      } else {
        SwapDeleteEntries(w.list, First(w.list, h.task.Device()));
      }
    }
  }

  lemma RunExtended(zone: string, m: Machine, serial: seq<Call>, c: Call)
    requires AllWellFormed(serial) && WellFormed(c)
    ensures var serial' := serial + [c];
            && AllWellFormed(serial')
            && ControllerMachine.After(zone, m, serial') ==
                 ControllerMachine.Step(zone, ControllerMachine.After(zone, m, serial), c).state
            && ReplyTo(zone, m, serial', |serial|) ==
                 ControllerMachine.Step(zone, ControllerMachine.After(zone, m, serial), c).reply
            && forall k :: 0 <= k < |serial| ==> ReplyTo(zone, m, serial', k) == ReplyTo(zone, m, serial, k)
  {
    hide ControllerMachine.Step, WellFormed;
    var serial' := serial + [c];
    assert serial'[..|serial|] == serial;
    assert forall k :: 0 <= k < |serial| ==> serial'[..k] == serial[..k] && serial'[k] == serial[k];
  }

  lemma RepliedExtended(w: World, order: seq<nat>, zone: string, m: Machine, serial: seq<Call>, call: nat, c: Call)
    requires AllWellFormed(serial) && WellFormed(c) && |serial| == |order| && Replied(w, order, zone, m, serial)
    requires AllWellFormed(serial + [c]) && Answers(w, call)
    requires Step(w, call).calls[call].phase == Done(ReplyTo(zone, m, serial + [c], |serial|))
    ensures Replied(Step(w, call), order + [call], zone, m, serial + [c])
  {
    RunExtended(zone, m, serial, c);
    hide ReplyTo, StepCall, AllWellFormed;
    var w' := Step(w, call);
    var order' := order + [call];
    assert forall i :: i in order' <==> i in order || i == call;
    assert call !in order;
  }

  lemma RepliedUnchanged(w: World, order: seq<nat>, zone: string, m: Machine, serial: seq<Call>, call: nat)
    requires AllWellFormed(serial) && |serial| == |order| && Replied(w, order, zone, m, serial) && !Answers(w, call)
    ensures Replied(Step(w, call), order, zone, m, serial)
  {
    hide ReplyTo, AllWellFormed;
    if call < |w.calls| && w.calls[call].phase.Done? {
      assert Step(w, call).calls[call] == w.calls[call];
    }
  }

  // ---- Progress ----

  function StepsLeft(p: Phase): nat {
    match p
    case Look => 2
    case Act => 1
    case Done(_) => 0
    case Panicked => 0
  }

  function Turns(steps: seq<nat>, call: nat): nat {
    if steps == [] then 0
    else Turns(steps[..|steps| - 1], call) + if steps[|steps| - 1] == call then 1 else 0
  }

  /** Every call has ended after at most two steps of its own, however the others are interleaved. */
  lemma {:induction false} TwoStepsSuffice(w: World, steps: seq<nat>, call: nat)
    requires call < |w.calls|
    ensures var phase := After(w, steps).calls[call].phase;
            && (StepsLeft(phase) == 0 || StepsLeft(phase) + Turns(steps, call) <= StepsLeft(w.calls[call].phase))
            && (Turns(steps, call) >= 2 ==> phase.Done? || phase.Panicked?)
  {
    if steps != [] {
      hide Holds, First, SwapDelete;
      TwoStepsSuffice(w, steps[..|steps| - 1], call);
    }
  }
}
