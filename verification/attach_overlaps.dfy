/** What overlapping publishes, and overlapping unpublishes, of one device do to a node. */
module AttachOverlaps {
  import opened Compute
  import opened Attachments
  import opened AttachRace

  const PUBLISHED := Done(ControllerMachine.Published)
  const UNPUBLISHED := Done(ControllerMachine.Unpublished)

  // ---- Counting ----

  /** How many entries carry a name. */
  function Count(l: Attached, name: string): nat {
    if l == [] then 0
    else Count(l[..|l| - 1], name) + if l[|l| - 1].deviceName == name then 1 else 0
  }

  /** How many calls for a device are in a phase. */
  function Tally(calls: seq<Handler>, name: string, phase: Phase): nat {
    if calls == [] then 0
    else Tally(calls[..|calls| - 1], name, phase) + if Is(calls[|calls| - 1], name, phase) then 1 else 0
  }

  lemma {:induction false} CountUpdate(l: Attached, i: nat, d: AttachedDisk, name: string)
    requires i < |l|
    ensures Count(l[i := d], name) ==
            Count(l, name) - (if l[i].deviceName == name then 1 else 0) + (if d.deviceName == name then 1 else 0)
  {
    var last := |l| - 1;
    if i < last {
      CountUpdate(l[..last], i, d, name);
      assert l[i := d][..last] == l[..last][i := d];
    } else {
      assert l[i := d][..last] == l[..last];
    }
  }

  lemma {:induction false} TallyUpdate(calls: seq<Handler>, i: nat, h: Handler, name: string, phase: Phase)
    requires i < |calls|
    ensures Tally(calls[i := h], name, phase) ==
            Tally(calls, name, phase)
            - (if Is(calls[i], name, phase) then 1 else 0) + (if Is(h, name, phase) then 1 else 0)
  {
    var last := |calls| - 1;
    if i < last {
      TallyUpdate(calls[..last], i, h, name, phase);
      assert calls[i := h][..last] == calls[..last][i := h];
    } else {
      assert calls[i := h][..last] == calls[..last];
    }
  }

  lemma {:induction false} CountIsHolds(l: Attached, name: string)
    ensures Count(l, name) > 0 <==> Holds(l, name)
  {
    if l != [] {
      var last := |l| - 1;
      CountIsHolds(l[..last], name);
      assert forall i :: 0 <= i < last ==> l[..last][i] == l[i];
      assert l[last].deviceName == name ==> Holds(l, name);
      if Holds(l[..last], name) {
        assert l[First(l[..last], name)].deviceName == name;
      }
    }
  }

  /** Distinct names are at most one entry for each. */
  lemma {:induction false} DistinctIsCount(l: Attached)
    ensures NoDup(l) <==> forall name :: Count(l, name) <= 1
  {
    if l != [] {
      var last := |l| - 1;
      var front, name := l[..last], l[last].deviceName;
      DistinctIsCount(front);
      CountIsHolds(front, name);
      DistinctOfLast(l);
      assert Count(l, name) == Count(front, name) + 1;
      forall other ensures Count(front, other) <= Count(l, other) {
      }
      if NoDup(l) {
        forall other ensures Count(l, other) <= 1 {
          assert Count(front, other) <= 1;
        }
      } else if !NoDup(front) {
        var other :| Count(front, other) > 1;
        assert Count(l, other) > 1;
      }
    }
  }

  lemma DistinctOfLast(l: Attached)
    requires l != []
    ensures var last := |l| - 1;
            NoDup(l) <==> NoDup(l[..last]) && !Holds(l[..last], l[last].deviceName)
  {
    var last := |l| - 1;
    assert forall i :: 0 <= i < last ==> l[..last][i] == l[i];
  }

  lemma {:induction false} TallyIsAt(calls: seq<Handler>, name: string, phase: Phase)
    ensures Tally(calls, name, phase) > 0 <==> exists i :: 0 <= i < |calls| && Is(calls[i], name, phase)
  {
    if calls != [] {
      var last := |calls| - 1;
      TallyIsAt(calls[..last], name, phase);
      assert forall i :: 0 <= i < last ==> calls[..last][i] == calls[i];
    }
  }

  /** An overlap is two calls between look and act. */
  lemma {:induction false} OverlapIsTally(w: World, name: string)
    ensures Overlap(w, name) <==> Tally(w.calls, name, Act) >= 2
    decreases |w.calls|
  {
    if w.calls != [] {
      var last := |w.calls| - 1;
      var front := World(w.list, w.calls[..last]);
      OverlapIsTally(front, name);
      TallyIsAt(front.calls, name, Act);
      assert forall i :: At(front, i, name, Act) <==> i < last && At(w, i, name, Act);
      if Overlap(front, name) {
        var i, j :| i < j && At(front, i, name, Act) && At(front, j, name, Act);
        assert At(w, i, name, Act) && At(w, j, name, Act);
      }
      if At(w, last, name, Act) && Tally(front.calls, name, Act) > 0 {
        var i :| 0 <= i < |front.calls| && Is(front.calls[i], name, Act);
        assert At(w, i, name, Act) && At(w, last, name, Act);
      }
    }
  }

  /** One detach takes away one entry of the device and no other: a device attached n times stays
      attached through n - 1 detaches. */
  lemma DetachTakesOne(l: Attached, name: string)
    requires Holds(l, name)
    ensures var l' := SwapDelete(l, First(l, name));
            && Count(l', name) == Count(l, name) - 1
            && (forall other :: other != name ==> Count(l', other) == Count(l, other))
            && (Holds(l', name) <==> Count(l, name) >= 2)
  {
    var i, last := First(l, name), |l| - 1;
    var l' := SwapDelete(l, i);
    forall other ensures Count(l', other) == Count(l, other) - if other == name then 1 else 0 {
      if i < last {
        assert l' == l[..last][i := l[last]];
        CountUpdate(l[..last], i, l[last], other);
      } else {
        assert l' == l[..last];
      }
    }
    CountIsHolds(l', name);
  }

  lemma StepEntries(list: Attached, h: Handler, name: string)
    ensures var held, more := Count(list, name) > 0, Count(StepCall(list, h).0, name) - Count(list, name);
            if h.task.Device() != name || !h.phase.Act? then more == 0
            else more == if h.task.Attach? then 1 else if held then -1 else 0
  {
    var list' := StepCall(list, h).0;
    CountIsHolds(list, name);
    if h.phase.Act? && h.task.Attach? {
      assert list'[..|list|] == list;
    } else if list' != list {
      hide Count, SwapDelete;
      DetachTakesOne(list, h.task.Device());
    }
  }

  /** How one step moves the entries of a device and its calls that are about to act or panicked. */
  lemma StepCounts(w: World, call: nat, name: string)
    requires call < |w.calls|
    ensures var h, w' := w.calls[call], Step(w, call);
            var held := Count(w.list, name) > 0;
            var more, acting, panics := Count(w'.list, name) - Count(w.list, name),
                                        Tally(w'.calls, name, Act) - Tally(w.calls, name, Act),
                                        Tally(w'.calls, name, Panicked) - Tally(w.calls, name, Panicked);
            if h.task.Device() != name || h.phase.Done? || h.phase.Panicked? then more == acting == panics == 0
            else if h.phase.Look? then more == panics == 0 && acting == if held <==> h.task.Detach? then 1 else 0
            else
              && acting == -1
              && more == (if h.task.Attach? then 1 else if held then -1 else 0)
              && panics == (if h.task.Detach? && !held then 1 else 0)
  {
    hide Count, Tally, SwapDelete, First;
    var h, w' := w.calls[call], Step(w, call);
    CountIsHolds(w.list, name);
    StepEntries(w.list, h, name);
    TallyUpdate(w.calls, call, w'.calls[call], name, Act);
    TallyUpdate(w.calls, call, w'.calls[call], name, Panicked);
  }

  // ---- Publishes alone, unpublishes alone ----

  ghost predicate Only(w: World, name: string, attaches: bool) {
    forall i :: 0 <= i < |w.calls| && w.calls[i].task.Device() == name ==> w.calls[i].task.Attach? == attaches
  }

  ghost predicate Finished(w: World, name: string) {
    forall i :: 0 <= i < |w.calls| && w.calls[i].task.Device() == name ==>
      w.calls[i].phase.Done? || w.calls[i].phase.Panicked?
  }

  /** A device is attached by publishes only: its entries and its calls about to attach come to two or
      more exactly when two of the calls have overlapped. */
  lemma {:induction false} EntriesExactly(w: World, steps: seq<nat>, name: string)
    requires Initial(w) && Only(w, name, true) && Count(w.list, name) <= 1
    ensures var w' := After(w, steps);
            Count(w'.list, name) + Tally(w'.calls, name, Act) >= 2 <==> EverOverlap(w, steps, name)
  {
    var w' := After(w, steps);
    OverlapIsTally(w', name);
    if steps == [] {
      TallyIsAt(w.calls, name, Act);
    } else {
      hide Step, Overlap, EverOverlap, Count, Tally;
      var front, call := steps[..|steps| - 1], steps[|steps| - 1];
      EntriesExactly(w, front, name);
      OverlapOfPrefix(w, steps, name);
      if call < |w.calls| {
        assert After(w, front).calls[call].task == w.calls[call].task;
        StepCounts(After(w, front), call, name);
      }
    }
  }

  /** A device is detached by unpublishes only: those that detached, are about to or panicked come to
      two or more exactly when two of the calls have overlapped, and none panics before the device is
      gone. */
  lemma {:induction false} DetachesExactly(w: World, steps: seq<nat>, name: string)
    requires Initial(w) && Only(w, name, false) && Count(w.list, name) <= 1
    ensures var w' := After(w, steps);
            var gone, acting, panics := Count(w.list, name) - Count(w'.list, name),
                                        Tally(w'.calls, name, Act), Tally(w'.calls, name, Panicked);
            && gone >= 0 && (acting + panics > 0 ==> Count(w.list, name) == 1)
            && (panics > 0 ==> Count(w'.list, name) == 0)
            && (gone + acting + panics >= 2 <==> EverOverlap(w, steps, name))
  {
    var w' := After(w, steps);
    OverlapIsTally(w', name);
    if steps == [] {
      TallyIsAt(w.calls, name, Act);
      TallyIsAt(w.calls, name, Panicked);
    } else {
      hide Step, Overlap, EverOverlap, Count, Tally;
      var front, call := steps[..|steps| - 1], steps[|steps| - 1];
      DetachesExactly(w, front, name);
      OverlapOfPrefix(w, steps, name);
      if call < |w.calls| {
        assert After(w, front).calls[call].task == w.calls[call].task;
        StepCounts(After(w, front), call, name);
      }
    }
  }

  /** Racing publishes of a device. Once they are answered it is attached more than once exactly when
      two of them ever stood between look and attach together, whatever happens to other devices. */
  lemma DuplicateExactly(w: World, steps: seq<nat>, name: string)
    requires Initial(w) && Only(w, name, true) && Count(w.list, name) <= 1 && Finished(After(w, steps), name)
    ensures Count(After(w, steps).list, name) >= 2 <==> EverOverlap(w, steps, name)
  {
    EntriesExactly(w, steps, name);
    TallyIsAt(After(w, steps).calls, name, Act);
  }

  /** Racing unpublishes of a device. Once they have ended one of them panicked exactly when two of
      them ever stood between look and detach together, whatever happens to other devices. */
  lemma PanicExactly(w: World, steps: seq<nat>, name: string)
    requires Initial(w) && Only(w, name, false) && Count(w.list, name) <= 1 && Finished(After(w, steps), name)
    ensures (exists i :: At(After(w, steps), i, name, Panicked)) <==> EverOverlap(w, steps, name)
  {
    var w' := After(w, steps);
    DetachesExactly(w, steps, name);
    TallyIsAt(w'.calls, name, Act);
    TallyIsAt(w'.calls, name, Panicked);
    assert forall i :: At(w', i, name, Panicked) <==> 0 <= i < |w'.calls| && Is(w'.calls[i], name, Panicked);
  }

  /** For all devices of a node at once, when every call is a publish. */
  lemma DistinctExactly(w: World, steps: seq<nat>)
    requires Initial(w) && NoDup(w.list)
    requires forall name :: Only(w, name, true) && Finished(After(w, steps), name)
    ensures NoDup(After(w, steps).list) <==> forall name :: !EverOverlap(w, steps, name)
  {
    DistinctIsCount(w.list);
    var l := After(w, steps).list;
    DistinctIsCount(l);
    hide EverOverlap, Count, NoDup;
    forall name ensures Count(l, name) <= 1 <==> !EverOverlap(w, steps, name) {
      DuplicateExactly(w, steps, name);
    }
    if NoDup(l) {
      assert forall name :: Count(l, name) <= 1;
    } else {
      var name :| Count(l, name) > 1;
      assert EverOverlap(w, steps, name);
    }
  }

  // ---- The overlaps happen ----

  /** Two publishes of an unattached device that take turns leave two entries, and both are answered
      OK, even in different modes. */
  lemma TakingTurnsDuplicates(list: Attached, d: AttachedDisk, d': AttachedDisk)
    requires !Holds(list, d.deviceName) && d'.deviceName == d.deviceName
    ensures var w := World(list, [Handler(Attach(d), Look), Handler(Attach(d'), Look)]);
            var w' := After(w, [0, 1, 0, 1]);
            w'.list == list + [d] + [d'] && w'.calls[0].phase == w'.calls[1].phase == PUBLISHED
  {
    var w := World(list, [Handler(Attach(d), Look), Handler(Attach(d'), Look)]);
    var s: seq<nat> := [0, 1, 0, 1];
    assert s[..3][..2] == s[..2] && s[..2][..1] == s[..1] && s[..1][..0] == [];
    assert After(w, s[..1]) == World(list, [Handler(Attach(d), Act), Handler(Attach(d'), Look)]);
    assert After(w, s[..2]) == World(list, [Handler(Attach(d), Act), Handler(Attach(d'), Act)]);
    assert After(w, s[..3]) == World(list + [d], [Handler(Attach(d), PUBLISHED), Handler(Attach(d'), Act)]);
  }

  /** Two unpublishes of an attached device that take turns bring the second one down. */
  lemma TakingTurnsPanics(d: AttachedDisk)
    ensures var w := World([d], [Handler(Detach(d.deviceName), Look), Handler(Detach(d.deviceName), Look)]);
            var w' := After(w, [0, 1, 0, 1]);
            w'.list == [] && w'.calls[0].phase == UNPUBLISHED && w'.calls[1].phase == Panicked
  {
    var task := Detach(d.deviceName);
    var w := World([d], [Handler(task, Look), Handler(task, Look)]);
    var s: seq<nat> := [0, 1, 0, 1];
    assert s[..3][..2] == s[..2] && s[..2][..1] == s[..1] && s[..1][..0] == [];
    assert Holds([d], d.deviceName) by { assert [d][0] == d; }
    assert After(w, s[..1]) == World([d], [Handler(task, Act), Handler(task, Look)]);
    assert After(w, s[..2]) == World([d], [Handler(task, Act), Handler(task, Act)]);
    assert After(w, s[..3]) == World([], [Handler(task, UNPUBLISHED), Handler(task, Act)]);
  }

  lemma AfterNext(w: World, steps: seq<nat>, k: nat)
    requires k < |steps|
    ensures After(w, steps[..k + 1]) == Step(After(w, steps[..k]), steps[k])
  {
    assert steps[..k + 1][..k] == steps[..k];
  }

  function Mixed(d: AttachedDisk, list: Attached, p: Phase, q: Phase, r: Phase): World {
    World(list, [Handler(Attach(d), p), Handler(Attach(d), q), Handler(Detach(d.deviceName), r)])
  }

  lemma MixedStep(d: AttachedDisk, list: Attached, p: Phase, q: Phase, r: Phase)
    ensures var (list', h) := StepCall(list, Handler(Attach(d), p));
            Step(Mixed(d, list, p, q, r), 0) == Mixed(d, list', h.phase, q, r)
    ensures var (list', h) := StepCall(list, Handler(Attach(d), q));
            Step(Mixed(d, list, p, q, r), 1) == Mixed(d, list', p, h.phase, r)
    ensures var (list', h) := StepCall(list, Handler(Detach(d.deviceName), r));
            Step(Mixed(d, list, p, q, r), 2) == Mixed(d, list', p, q, h.phase)
  {
  }

  lemma MixedSteps(d: AttachedDisk)
    ensures Step(Mixed(d, [], Look, Look, Look), 0) == Mixed(d, [], Act, Look, Look)
    ensures Step(Mixed(d, [], Act, Look, Look), 1) == Mixed(d, [], Act, Act, Look)
    ensures Step(Mixed(d, [], Act, Act, Look), 0) == Mixed(d, [d], PUBLISHED, Act, Look)
    ensures Step(Mixed(d, [d], PUBLISHED, Act, Look), 2) == Mixed(d, [d], PUBLISHED, Act, Act)
    ensures Step(Mixed(d, [d], PUBLISHED, Act, Act), 2) == Mixed(d, [], PUBLISHED, Act, UNPUBLISHED)
  {
    assert [d][0] == d && Holds([d], d.deviceName);
    assert SwapDelete([d], First([d], d.deviceName)) == [];
    MixedStep(d, [], Look, Look, Look);
    MixedStep(d, [], Act, Look, Look);
    MixedStep(d, [], Act, Act, Look);
    MixedStep(d, [d], PUBLISHED, Act, Look);
    MixedStep(d, [d], PUBLISHED, Act, Act);
    hide Mixed, Step;
  }

  lemma MixedRun(d: AttachedDisk)
    ensures var w := Mixed(d, [], Look, Look, Look);
            var s: seq<nat> := [0, 1, 0, 2, 2, 1];
            && After(w, s[..0]) == w && After(w, s[..1]) == Mixed(d, [], Act, Look, Look)
            && After(w, s[..2]) == Mixed(d, [], Act, Act, Look)
            && After(w, s[..3]) == Mixed(d, [d], PUBLISHED, Act, Look)
            && After(w, s[..4]) == Mixed(d, [d], PUBLISHED, Act, Act)
            && After(w, s[..5]) == Mixed(d, [], PUBLISHED, Act, UNPUBLISHED)
  {
    var w := Mixed(d, [], Look, Look, Look);
    var s: seq<nat> := [0, 1, 0, 2, 2, 1];
    assert After(w, s[..0]) == w;
    MixedSteps(d);
    hide After, Step, Mixed;
    AfterNext(w, s, 0);
    AfterNext(w, s, 1);
    AfterNext(w, s, 2);
    AfterNext(w, s, 3);
    AfterNext(w, s, 4);
  }

  /** Where publishes and unpublishes of a device mix, an overlap can pass unnoticed: here two publishes
      overlap, an unpublish between their attaches makes room for the second, and names stay distinct. */
  lemma OverlapCanPass(d: AttachedDisk)
    ensures var w, s := Mixed(d, [], Look, Look, Look), [0, 1, 0, 2, 2, 1];
            EverOverlap(w, s, d.deviceName) && Undisturbed(w, s)
  {
    MixedRun(d);
    hide After, Step;
    var w := Mixed(d, [], Look, Look, Look);
    var s: seq<nat> := [0, 1, 0, 2, 2, 1];
    assert Overlap(After(w, s[..2]), d.deviceName) by {
      assert At(After(w, s[..2]), 0, d.deviceName, Act) && At(After(w, s[..2]), 1, d.deviceName, Act);
    }
    assert Undisturbed(w, s) by {
      hide Overlap, EverOverlap;
      assert [d][0] == d && Holds([d], d.deviceName);
    }
  }
}
