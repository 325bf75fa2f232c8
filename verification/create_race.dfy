/** Any number of CreateVolume calls interleaved step by step on a cloud that rejects a duplicate
    insert atomically and sees no deletes. Validation is the real provider's. */
module CreateRace {
  import opened Wrappers
  import opened GoStrings
  import opened Capacity
  import opened Compute
  import opened DiskValidation

  /** A request after its parameters were read. Disks are told apart by zone and name. */
  datatype Request = Request(zone: string, name: string, range: Option<CapacityRange>, diskType: string)

  datatype Key = Key(zone: string, name: string)

  /** Where a handler stands: before its existence check, before its insert, waiting for the insert
      operation, before the check it repeats after `alreadyExists`, or finished. */
  datatype Phase = Check | Insert | Wait | Recheck | Answered(ok: bool, code: Code)

  /** `inserted` and `unchecked` are history: the cloud accepted this call's insert; this call's
      repeated check could not read the disk. */
  datatype Handler = Handler(req: Request, phase: Phase, inserted: bool, unchecked: bool)

  datatype World = World(cloud: map<Key, Disk>, calls: seq<Handler>)

  /** What the environment does to one step: a GET, insert or wait can fail, and a wait can report
      `alreadyExists`. */
  datatype Fault = NoFault | Error | LateAlreadyExists

  datatype Event = Event(call: nat, fault: Fault)

  function KeyOf(req: Request): Key {
    Key(req.zone, req.name)
  }

  function OwnDisk(project: string, req: Request): Disk {
    DiskFor(req.name, req.range, RealTypeURI(project, req.zone, req.diskType))
  }

  predicate Acceptable(disk: Disk, req: Request) {
    RealAccepts(disk, req.diskType, RequiredBytes(req.range), LimitBytes(req.range))
  }

  const OK := Answered(true, Internal)

  /** GetAndValidateExistingDisk: any GET error reads as "does not exist" and as no error. */
  datatype Validation = Absent | Accepted | Refused

  function Validate(cloud: map<Key, Disk>, req: Request, fault: Fault): Validation {
    if fault.Error? || KeyOf(req) !in cloud then Absent
    else if Acceptable(cloud[KeyOf(req)], req) then Accepted
    else Refused
  }

  function StepCall(project: string, cloud: map<Key, Disk>, h: Handler, fault: Fault): (map<Key, Disk>, Handler) {
    match h.phase
    case Check =>
      (match Validate(cloud, h.req, fault)
       case Absent => (cloud, h.(phase := Insert))
       case Accepted => (cloud, h.(phase := OK))
       case Refused => (cloud, h.(phase := Answered(false, AlreadyExists))))
    case Insert =>
      if fault.Error? then (cloud, h.(phase := Answered(false, Internal)))
      else if KeyOf(h.req) in cloud then (cloud, h.(phase := Recheck))
      else (cloud[KeyOf(h.req) := OwnDisk(project, h.req)], h.(phase := Wait, inserted := true))
    case Wait =>
      (match fault
       case NoFault => (cloud, h.(phase := OK))
       case Error => (cloud, h.(phase := Answered(false, Internal)))
       case LateAlreadyExists => (cloud, h.(phase := Recheck)))
    case Recheck =>
      (match Validate(cloud, h.req, fault)
       case Absent => (cloud, h.(phase := OK, unchecked := true))
       case Accepted => (cloud, h.(phase := OK))
       case Refused => (cloud, h.(phase := Answered(false, AlreadyExists))))
    case Answered(_, _) => (cloud, h)
  }

  function Step(project: string, w: World, e: Event): World {
    if e.call >= |w.calls| then w
    else
      var (cloud, h) := StepCall(project, w.cloud, w.calls[e.call], e.fault);
      World(cloud, w.calls[e.call := h])
  }

  /** The world after an interleaving. */
  ghost function After(project: string, w: World, events: seq<Event>): (w': World)
    ensures |w'.calls| == |w.calls|
  {
    if events == [] then w
    else Step(project, After(project, w, events[..|events| - 1]), events[|events| - 1])
  }

  /** Every call is about to start, on any cloud. */
  ghost predicate Initial(w: World) {
    forall i :: 0 <= i < |w.calls| ==>
      w.calls[i].phase == Check && !w.calls[i].inserted && !w.calls[i].unchecked
  }

  /** Nothing in the cloud changes or disappears. */
  lemma {:induction false} DisksNeverChange(project: string, w: World, events: seq<Event>)
    ensures forall k :: k in w.cloud ==>
            k in After(project, w, events).cloud && After(project, w, events).cloud[k] == w.cloud[k]
    ensures forall i :: 0 <= i < |w.calls| ==> After(project, w, events).calls[i].req == w.calls[i].req
  {
    if events != [] {
      DisksNeverChange(project, w, events[..|events| - 1]);
    }
  }

  /** One call's part of the invariant. */
  ghost predicate HandlerSound(project: string, start: map<Key, Disk>, cloud: map<Key, Disk>, h: Handler) {
    var key := KeyOf(h.req);
    && (h.inserted ==> key !in start && key in cloud && cloud[key] == OwnDisk(project, h.req))
    && (h.phase.Check? || h.phase.Insert? ==> !h.inserted)
    && (h.phase.Wait? ==> h.inserted)
    && (h.phase.Recheck? ==> key in cloud)
    && (h.unchecked ==> h.phase == OK)
    && (h.phase.Answered? && h.phase.ok ==>
          key in cloud && (h.inserted || h.unchecked || Acceptable(cloud[key], h.req)))
  }

  /** No two inserts won for one disk, and every new disk has the call that inserted it. */
  ghost predicate WinnersSound(start: map<Key, Disk>, w: World) {
    && (forall i, j :: 0 <= i < j < |w.calls| && w.calls[i].inserted && w.calls[j].inserted ==>
          KeyOf(w.calls[i].req) != KeyOf(w.calls[j].req))
    && (forall k :: k in w.cloud && k !in start ==> exists i :: Won(w, i, k))
  }

  predicate Won(w: World, i: int, k: Key) {
    0 <= i < |w.calls| && w.calls[i].inserted && KeyOf(w.calls[i].req) == k
  }

  ghost predicate Sound(project: string, start: map<Key, Disk>, w: World) {
    && (forall k :: k in start ==> k in w.cloud)
    && (forall i :: 0 <= i < |w.calls| ==> HandlerSound(project, start, w.cloud, w.calls[i]))
    && WinnersSound(start, w)
  }

  ghost predicate Extends(cloud: map<Key, Disk>, cloud': map<Key, Disk>) {
    forall k :: k in cloud ==> k in cloud' && cloud'[k] == cloud[k]
  }

  lemma OwnStepSound(project: string, start: map<Key, Disk>, cloud: map<Key, Disk>, h: Handler, fault: Fault)
    requires HandlerSound(project, start, cloud, h) && forall k :: k in start ==> k in cloud
    ensures var (cloud', h') := StepCall(project, cloud, h, fault);
            HandlerSound(project, start, cloud', h') && Extends(cloud, cloud') && h'.req == h.req
  {
  }

  lemma OthersStaySound(project: string, start: map<Key, Disk>, cloud: map<Key, Disk>, cloud': map<Key, Disk>,
                        h: Handler)
    requires HandlerSound(project, start, cloud, h) && Extends(cloud, cloud')
    ensures HandlerSound(project, start, cloud', h)
  {
  }

  lemma StepKeepsHandlers(project: string, start: map<Key, Disk>, w: World, e: Event)
    requires Sound(project, start, w)
    ensures var w' := Step(project, w, e);
            forall i :: 0 <= i < |w'.calls| ==> HandlerSound(project, start, w'.cloud, w'.calls[i])
  {
    hide HandlerSound, StepCall;
    if e.call < |w.calls| {
      var w' := Step(project, w, e);
      OwnStepSound(project, start, w.cloud, w.calls[e.call], e.fault);
      forall i | 0 <= i < |w.calls| && i != e.call ensures HandlerSound(project, start, w'.cloud, w'.calls[i]) {
        OthersStaySound(project, start, w.cloud, w'.cloud, w.calls[i]);
      }
    }
  }

  /** How one step moves the cloud and its own handler, as far as winning goes. */
  lemma StepWins(project: string, start: map<Key, Disk>, cloud: map<Key, Disk>, h: Handler, fault: Fault)
    requires HandlerSound(project, start, cloud, h) && forall k :: k in start ==> k in cloud
    ensures var (cloud', h') := StepCall(project, cloud, h, fault);
            && h'.req == h.req && (h.inserted ==> h'.inserted && cloud' == cloud)
            && (!h.inserted && h'.inserted ==> KeyOf(h.req) !in cloud && cloud'.Keys == cloud.Keys + {KeyOf(h.req)})
            && (!h'.inserted ==> cloud' == cloud)
  {
  }

  lemma StepKeepsWinners(project: string, start: map<Key, Disk>, w: World, e: Event)
    requires Sound(project, start, w)
    ensures WinnersSound(start, Step(project, w, e))
  {
    hide StepCall;
    var w' := Step(project, w, e);
    if e.call < |w.calls| {
      StepWins(project, start, w.cloud, w.calls[e.call], e.fault);
      forall k | k in w'.cloud && k !in start ensures exists i :: Won(w', i, k) {
        if k in w.cloud {
          var i :| Won(w, i, k);
          assert Won(w', i, k);
        } else {
          assert Won(w', e.call, k);
        }
      }
      forall i, j | 0 <= i < j < |w'.calls| && w'.calls[i].inserted && w'.calls[j].inserted
        ensures KeyOf(w'.calls[i].req) != KeyOf(w'.calls[j].req)
      {
        assert HandlerSound(project, start, w.cloud, w.calls[i]) && HandlerSound(project, start, w.cloud, w.calls[j]);
      }
    }
  }

  lemma {:induction false} StaysSound(project: string, w: World, events: seq<Event>)
    requires Initial(w)
    ensures Sound(project, w.cloud, After(project, w, events))
  {
    if events != [] {
      var front := events[..|events| - 1];
      StaysSound(project, w, front);
      StepKeepsHandlers(project, w.cloud, After(project, w, front), events[|events| - 1]);
      StepKeepsWinners(project, w.cloud, After(project, w, front), events[|events| - 1]);
    }
  }

  /** In every interleaving a disk that was absent at the start is there at the end exactly when one
      call's insert won; that call is unique and the disk is its own. */
  lemma ExactlyOneInsertWins(project: string, w: World, events: seq<Event>, key: Key)
    requires Initial(w) && key !in w.cloud
    ensures var w' := After(project, w, events);
            && (key in w'.cloud <==> exists i :: Won(w', i, key))
            && (forall i, j :: Won(w', i, key) && Won(w', j, key) ==> i == j)
            && (forall i :: Won(w', i, key) ==> w'.cloud[key] == OwnDisk(project, w'.calls[i].req))
  {
    StaysSound(project, w, events);
  }

  /** What the winner of an insert left in the cloud: a disk of its name, of the size its bounds come
      to, whose type URI names the project, its zone and its type. */
  lemma WinnersDisk(project: string, w: World, events: seq<Event>, winner: nat)
    requires Initial(w) && winner < |w.calls| && After(project, w, events).calls[winner].inserted
    ensures var w', req := After(project, w, events), w.calls[winner].req;
            && KeyOf(req) !in w.cloud && KeyOf(req) in w'.cloud
            && var disk := w'.cloud[KeyOf(req)];
               && disk.name == req.name && disk.description == "Disk created by GCE-PD CSI Driver" && disk.kind == ""
               && (exists reported :: Gets(Deciding(req.range), reported, disk.sizeGb))
               && (Free(project, '/') && Free(req.zone, '/') && Free(req.diskType, '/') ==>
                     Split(disk.diskType, '/') == ["projects", project, "zones", req.zone, "diskTypes", req.diskType])
  {
    var w', req := After(project, w, events), w.calls[winner].req;
    StaysSound(project, w, events);
    DisksNeverChange(project, w, events);
    assert HandlerSound(project, w.cloud, w'.cloud, w'.calls[winner]);
    hide After, Sound, HandlerSound, Split, RealTypeURI;
    GetsDeciding(req.range);
    if Free(project, '/') && Free(req.zone, '/') && Free(req.diskType, '/') {
      TypeURIReadsBack(project, req.zone, req.diskType);
    }
  }

  /** At event `k` the call took a step from this phase, and the environment did this to it. */
  ghost predicate HappensAt(project: string, w: World, events: seq<Event>, call: nat, phase: Phase, fault: Fault,
                            k: int)
    requires call < |w.calls|
  {
    0 <= k < |events| && events[k] == Event(call, fault) && After(project, w, events[..k]).calls[call].phase == phase
  }

  ghost predicate Happened(project: string, w: World, events: seq<Event>, call: nat, phase: Phase, fault: Fault)
    requires call < |w.calls|
  {
    exists k :: HappensAt(project, w, events, call, phase, fault, k)
  }

  /** The one way to be answered OK without having inserted the disk or having been validated
      against it: the GET of the repeated check failed. */
  ghost predicate RecheckReadFailed(project: string, w: World, events: seq<Event>, call: nat)
    requires call < |w.calls|
  {
    Happened(project, w, events, call, Recheck, Error)
  }

  ghost predicate InsertFailed(project: string, w: World, events: seq<Event>, call: nat)
    requires call < |w.calls|
  {
    Happened(project, w, events, call, Insert, Error)
  }

  ghost predicate WaitFailed(project: string, w: World, events: seq<Event>, call: nat)
    requires call < |w.calls|
  {
    Happened(project, w, events, call, Wait, Error)
  }

  /** The wait for the call's own insert reported that the disk already exists. */
  ghost predicate WaitSawDisk(project: string, w: World, events: seq<Event>, call: nat)
    requires call < |w.calls|
  {
    Happened(project, w, events, call, Wait, LateAlreadyExists)
  }

  lemma HappenedInPrefix(project: string, w: World, events: seq<Event>, call: nat, phase: Phase, fault: Fault)
    requires call < |w.calls| && events != []
    ensures var last := |events| - 1;
            Happened(project, w, events, call, phase, fault) <==>
              Happened(project, w, events[..last], call, phase, fault)
              || (events[last] == Event(call, fault) && After(project, w, events[..last]).calls[call].phase == phase)
  {
    hide After;
    var last := |events| - 1;
    forall k ensures HappensAt(project, w, events, call, phase, fault, k) <==>
        HappensAt(project, w, events[..last], call, phase, fault, k)
        || (k == last && HappensAt(project, w, events, call, phase, fault, last))
    {
      assert 0 <= k < last ==> events[..last][..k] == events[..k];
    }
    if HappensAt(project, w, events, call, phase, fault, last) {
      assert Happened(project, w, events, call, phase, fault);
    }
  }

  lemma UncheckedStep(project: string, w: World, e: Event, call: nat)
    requires call < |w.calls| && (w.calls[call].unchecked ==> w.calls[call].phase == OK)
    requires w.calls[call].phase.Recheck? ==> KeyOf(w.calls[call].req) in w.cloud
    ensures var h, h' := w.calls[call], Step(project, w, e).calls[call];
            && (h'.unchecked <==> h.unchecked || (e == Event(call, Error) && h.phase == Recheck))
            && (h'.unchecked ==> h'.phase == OK)
  {
  }

  /** A handler only ever repeats its check once the disk is there. */
  lemma RecheckFindsDisk(project: string, w: World, events: seq<Event>, call: nat)
    requires Initial(w) && call < |w.calls|
    ensures var w' := After(project, w, events);
            w'.calls[call].phase.Recheck? ==> KeyOf(w'.calls[call].req) in w'.cloud
  {
    StaysSound(project, w, events);
    assert HandlerSound(project, w.cloud, After(project, w, events).cloud, After(project, w, events).calls[call]);
  }

  lemma {:induction false} UncheckedExactly(project: string, w: World, events: seq<Event>, call: nat)
    requires Initial(w) && call < |w.calls|
    ensures var h := After(project, w, events).calls[call];
            && (h.unchecked <==> RecheckReadFailed(project, w, events, call))
            && (h.unchecked ==> h.phase == OK)
  {
    if events != [] {
      hide Step;
      var last := |events| - 1;
      var front := events[..last];
      UncheckedExactly(project, w, front, call);
      RecheckFindsDisk(project, w, front, call);
      UncheckedStep(project, After(project, w, front), events[last], call);
      HappenedInPrefix(project, w, events, call, Recheck, Error);
    }
  }

  /** Every call answered OK finds its disk in the cloud, and it either inserted that disk, or had its
      own request validated against it, or could not read it when it checked again. */
  lemma OkIsJustified(project: string, w: World, events: seq<Event>, call: nat)
    requires Initial(w) && call < |w.calls|
    requires After(project, w, events).calls[call].phase == OK
    ensures var w' := After(project, w, events);
            var key := KeyOf(w.calls[call].req);
            && key in w'.cloud
            && (w'.calls[call].inserted || Acceptable(w'.cloud[key], w.calls[call].req)
                || RecheckReadFailed(project, w, events, call))
  {
    StaysSound(project, w, events);
    DisksNeverChange(project, w, events);
    UncheckedExactly(project, w, events, call);
  }

  // ---- The answer ----

  /** What a call's phase says of what happened to it: F a failed insert or wait, U a failed repeated
      read, L a wait that reported alreadyExists. */
  ghost predicate PhaseFits(cloud: map<Key, Disk>, h: Handler, f: bool, u: bool, l: bool) {
    var key := KeyOf(h.req);
    match h.phase
    case Check => !h.inserted && !f && !u && !l
    case Insert => !h.inserted && !f && !u && !l
    case Wait => h.inserted && !f && !u && !l
    case Recheck => !f && !u && (h.inserted <==> l)
    case Answered(ok, code) =>
      if f then !ok && code == Internal
      else
        && key in cloud
        && h.phase == if u || (h.inserted && !l) || Acceptable(cloud[key], h.req)
                      then OK else Answered(false, AlreadyExists)
  }

  lemma OwnStepFits(project: string, start: map<Key, Disk>, cloud: map<Key, Disk>, h: Handler, fault: Fault,
                    f: bool, u: bool, l: bool)
    requires HandlerSound(project, start, cloud, h) && PhaseFits(cloud, h, f, u, l)
    ensures var (cloud', h') := StepCall(project, cloud, h, fault);
            PhaseFits(cloud', h', f || (fault.Error? && (h.phase.Insert? || h.phase.Wait?)),
                      u || (fault.Error? && h.phase.Recheck?), l || (fault.LateAlreadyExists? && h.phase.Wait?))
  {
  }

  lemma OtherStepFits(cloud: map<Key, Disk>, cloud': map<Key, Disk>, h: Handler, f: bool, u: bool, l: bool)
    requires PhaseFits(cloud, h, f, u, l) && Extends(cloud, cloud')
    ensures PhaseFits(cloud', h, f, u, l)
  {
  }

  lemma {:induction false} StaysFit(project: string, w: World, events: seq<Event>, call: nat)
    requires Initial(w) && call < |w.calls|
    ensures var w' := After(project, w, events);
            PhaseFits(w'.cloud, w'.calls[call],
                      InsertFailed(project, w, events, call) || WaitFailed(project, w, events, call),
                      RecheckReadFailed(project, w, events, call), WaitSawDisk(project, w, events, call))
  {
    if events != [] {
      hide Happened, PhaseFits, StepCall, HandlerSound, Initial, WinnersSound;
      var last := |events| - 1;
      var front, e := events[..last], events[last];
      var before := After(project, w, front);
      StaysFit(project, w, front, call);
      StaysSound(project, w, front);
      assert After(project, w, events) == Step(project, before, e);
      hide After;
      HappenedInPrefix(project, w, events, call, Insert, Error);
      HappenedInPrefix(project, w, events, call, Wait, Error);
      HappenedInPrefix(project, w, events, call, Recheck, Error);
      HappenedInPrefix(project, w, events, call, Wait, LateAlreadyExists);
      var f := InsertFailed(project, w, front, call) || WaitFailed(project, w, front, call);
      var u, l := RecheckReadFailed(project, w, front, call), WaitSawDisk(project, w, front, call);
      if e.call == call {
        OwnStepFits(project, w.cloud, before.cloud, before.calls[call], e.fault, f, u, l);
      } else if e.call < |w.calls| {
        OwnStepSound(project, w.cloud, before.cloud, before.calls[e.call], e.fault);
        OtherStepFits(before.cloud, Step(project, before, e).cloud, before.calls[call], f, u, l);
      }
    }
  }

  /** The answer, exactly, of every call in every interleaving under every fault. Internal when its
      insert or its wait failed. Otherwise the disk is there, and the answer is OK when the call
      inserted it and its wait did not report alreadyExists, or the disk is acceptable to the call, or
      the call could not read it when it checked again; and AlreadyExists in every other case. */
  lemma AnswersExactly(project: string, w: World, events: seq<Event>, call: nat)
    requires Initial(w) && call < |w.calls|
    requires After(project, w, events).calls[call].phase.Answered?
    ensures var w', req := After(project, w, events), w.calls[call].req;
            var h, key := w'.calls[call], KeyOf(req);
            if InsertFailed(project, w, events, call) || WaitFailed(project, w, events, call)
            then h.phase == Answered(false, Internal)
            else
              && key in w'.cloud
              && if || (h.inserted && !WaitSawDisk(project, w, events, call))
                    || Acceptable(w'.cloud[key], req) || RecheckReadFailed(project, w, events, call)
                 then h.phase == OK else h.phase == Answered(false, AlreadyExists)
  {
    hide Happened;
    StaysFit(project, w, events, call);
    DisksNeverChange(project, w, events);
  }

  /** When nothing goes wrong in a call's own steps, whatever happens to the others, it is answered OK
      exactly when it inserted the disk or the disk is acceptable to it, and else AlreadyExists. */
  lemma FaultlessAnswer(project: string, w: World, events: seq<Event>, call: nat)
    requires Initial(w) && call < |w.calls|
    requires After(project, w, events).calls[call].phase.Answered?
    requires forall k :: 0 <= k < |events| && events[k].call == call ==> events[k].fault.NoFault?
    ensures var w', req := After(project, w, events), w.calls[call].req;
            && KeyOf(req) in w'.cloud
            && w'.calls[call].phase == if w'.calls[call].inserted || Acceptable(w'.cloud[KeyOf(req)], req)
                                       then OK else Answered(false, AlreadyExists)
  {
    AnswersExactly(project, w, events, call);
    hide After;
  }

  /** A disk that is there at the start decides alone what a call whose first read does not fail gets. */
  lemma FirstCheckDecides(project: string, w: World, events: seq<Event>, call: nat, k: nat)
    requires Initial(w) && call < |w.calls| && KeyOf(w.calls[call].req) in w.cloud
    requires HappensAt(project, w, events, call, Check, NoFault, k)
    ensures After(project, w, events[..k + 1]).calls[call].phase ==
            if Acceptable(w.cloud[KeyOf(w.calls[call].req)], w.calls[call].req)
            then OK else Answered(false, AlreadyExists)
  {
    assert events[..k + 1][..k] == events[..k];
    DisksNeverChange(project, w, events[..k]);
  }

  // ---- Whether the disk fits ----

  /** The disk is within the bounds of the request, reading 0 as "no bound". */
  predicate Fits(disk: Disk, req: Request) {
    var bytes, required, limit := GbToBytes(disk.sizeGb), RequiredBytes(req.range), LimitBytes(req.range);
    (bytes >= required || required == 0) && (bytes <= limit || limit == 0)
  }

  /** When the disk of a call fits it, however the call ends and whatever fails: over a disk made in
      the race, exactly when the size provisioned for the request that won its insert is within the
      call's own bounds. A disk that was there at the start is still the same. */
  lemma DiskFitsExactly(project: string, w: World, events: seq<Event>, call: nat)
    requires Initial(w) && call < |w.calls|
    ensures var w', req := After(project, w, events), w.calls[call].req;
            var key := KeyOf(req);
            && (key in w.cloud ==> key in w'.cloud && w'.cloud[key] == w.cloud[key])
            && (key !in w.cloud && key in w'.cloud ==> exists winner :: Won(w', winner, key))
            && (forall winner :: Won(w', winner, key) ==>
                  key in w'.cloud && (Fits(w'.cloud[key], req) <==> Covers(w.calls[winner].req.range, req.range)))
  {
    var w', req := After(project, w, events), w.calls[call].req;
    var key := KeyOf(req);
    StaysSound(project, w, events);
    DisksNeverChange(project, w, events);
    forall winner | Won(w', winner, key)
      ensures key in w'.cloud && (Fits(w'.cloud[key], req) <==> Covers(w.calls[winner].req.range, req.range))
    {
      assert HandlerSound(project, w.cloud, w'.cloud, w'.calls[winner]);
      ProvisionedBounds(w.calls[winner].req.range);
      SizedDoesNotWrap(ProvisionedGb(w.calls[winner].req.range));
    }
  }

  /** What a caller knows who sees only its own call: one that was answered OK and inserted its disk
      has one that fits exactly when its capacity is repeatable; one answered OK without inserting has
      one that fits, unless the read of its repeated check failed. */
  lemma OkFitsExactly(project: string, w: World, events: seq<Event>, call: nat)
    requires Initial(w) && call < |w.calls|
    requires After(project, w, events).calls[call].phase == OK
    ensures var w' := After(project, w, events);
            var req, inserted := w.calls[call].req, w'.calls[call].inserted;
            && KeyOf(req) in w'.cloud
            && (inserted ==> (Fits(w'.cloud[KeyOf(req)], req) <==> CapacityRepeatable(req.range)))
            && (!RecheckReadFailed(project, w, events, call) ==>
                  (Fits(w'.cloud[KeyOf(req)], req) <==> (inserted ==> CapacityRepeatable(req.range))))
  {
    OkIsJustified(project, w, events, call);
    DisksNeverChange(project, w, events);
    DiskFitsExactly(project, w, events, call);
    CoversItself(w.calls[call].req.range);
    assert After(project, w, events).calls[call].inserted ==>
           Won(After(project, w, events), call, KeyOf(w.calls[call].req));
  }

  /** Three steps of a single call: it is answered OK over the disk it inserted itself, one byte
      smaller than what it requires. */
  lemma OwnDiskCanBeTooSmall(project: string)
    ensures var req := Request("z", "n", Some(CapacityRange(10_737_418_241, 0)), "pd-ssd");
            var w := World(map[], [Handler(req, Check, false, false)]);
            var w' := After(project, w, [Event(0, NoFault), Event(0, NoFault), Event(0, NoFault)]);
            && Initial(w) && w'.calls[0].phase == OK && w'.calls[0].inserted
            && KeyOf(req) in w'.cloud && !Fits(w'.cloud[KeyOf(req)], req)
  {
    var req := Request("z", "n", Some(CapacityRange(10_737_418_241, 0)), "pd-ssd");
    var w := World(map[], [Handler(req, Check, false, false)]);
    var e := [Event(0, NoFault), Event(0, NoFault), Event(0, NoFault)];
    assert e[..2][..1] == e[..1] && e[..1][..0] == [];
    assert After(project, w, e[..1]).calls == [w.calls[0].(phase := Insert)];
    assert After(project, w, e[..2]).calls == [w.calls[0].(phase := Wait, inserted := true)];
    OkFitsExactly(project, w, e, 0);
  }

  /** A call answered OK that did not insert asked for a type that is NOT the one its disk shows, on
      every cloud and whoever made the disk, unless its repeated read failed. */
  lemma SharingNeedsAnotherType(project: string, w: World, events: seq<Event>, call: nat)
    requires Initial(w) && call < |w.calls|
    requires After(project, w, events).calls[call].phase == OK && !After(project, w, events).calls[call].inserted
    requires !RecheckReadFailed(project, w, events, call)
    ensures var w', req := After(project, w, events), w.calls[call].req;
            && KeyOf(req) in w'.cloud && LastSegment(w'.cloud[KeyOf(req)].diskType) != req.diskType
            && (forall winner :: Won(w', winner, KeyOf(req)) && Free(w.calls[winner].req.diskType, '/') ==>
                  w.calls[winner].req.diskType != req.diskType)
  {
    var w', key := After(project, w, events), KeyOf(w.calls[call].req);
    OkIsJustified(project, w, events, call);
    StaysSound(project, w, events);
    DisksNeverChange(project, w, events);
    hide Split, RealTypeURI, After;
    forall winner | Won(w', winner, key) && Free(w.calls[winner].req.diskType, '/')
      ensures w.calls[winner].req.diskType != w.calls[call].req.diskType
    {
      var req := w.calls[winner].req;
      assert HandlerSound(project, w.cloud, w'.cloud, w'.calls[winner]);
      RealTypeShows(project, req.zone, req.diskType);
    }
  }

  /** Calls racing with one and the same request, of an ordinary type and for a disk absent at the
      start, never share the disk: unless a repeated check could not read it, only the call that
      inserted it is answered OK. */
  lemma IdenticalCallsDoNotShare(project: string, w: World, events: seq<Event>, call: nat)
    requires Initial(w) && call < |w.calls| && Free(w.calls[call].req.diskType, '/')
    requires forall i :: 0 <= i < |w.calls| ==> w.calls[i].req == w.calls[call].req
    requires KeyOf(w.calls[call].req) !in w.cloud
    requires After(project, w, events).calls[call].phase == OK
    requires !RecheckReadFailed(project, w, events, call)
    ensures After(project, w, events).calls[call].inserted
    ensures forall i :: 0 <= i < |w.calls| && After(project, w, events).calls[i].inserted ==> i == call
  {
    var w', key := After(project, w, events), KeyOf(w.calls[call].req);
    OkIsJustified(project, w, events, call);
    ExactlyOneInsertWins(project, w, events, key);
    DisksNeverChange(project, w, events);
    var winner :| Won(w', winner, key);
    if !w'.calls[call].inserted {
      SharingNeedsAnotherType(project, w, events, call);
    }
    forall j | 0 <= j < |w.calls| && w'.calls[j].inserted ensures j == call {
      assert Won(w', j, key) && Won(w', call, key);
    }
  }

  /** Two calls ask for one name, the second for sixteen times the capacity of the first. If the read
      of its repeated check fails, it is answered OK all the same. */
  lemma UncheckedOkExists(project: string)
    ensures var small := Request("z", "n", Some(CapacityRange(10_737_418_240, 0)), "pd-ssd");
            var large := small.(range := Some(CapacityRange(171_798_691_840, 0)));
            var w := World(map[], [Handler(small, Check, false, false), Handler(large, Check, false, false)]);
            var events := [Event(0, NoFault), Event(1, NoFault), Event(0, NoFault), Event(1, NoFault), Event(1, Error)];
            var w' := After(project, w, events);
            && Initial(w) && w'.calls[1].phase == OK && !w'.calls[1].inserted
            && KeyOf(large) in w'.cloud && !Acceptable(w'.cloud[KeyOf(large)], large)
  {
    var small := Request("z", "n", Some(CapacityRange(10_737_418_240, 0)), "pd-ssd");
    var large := small.(range := Some(CapacityRange(171_798_691_840, 0)));
    var w := World(map[], [Handler(small, Check, false, false), Handler(large, Check, false, false)]);
    var e := [Event(0, NoFault), Event(1, NoFault), Event(0, NoFault), Event(1, NoFault), Event(1, Error)];
    assert e[..4][..3] == e[..3] && e[..3][..2] == e[..2] && e[..2][..1] == e[..1] && e[..1][..0] == [];
    assert After(project, w, e[..1]).calls == [w.calls[0].(phase := Insert), w.calls[1]];
    assert After(project, w, e[..2]).calls == [w.calls[0].(phase := Insert), w.calls[1].(phase := Insert)];
    assert After(project, w, e[..3]).calls[0].phase == Wait && After(project, w, e[..3]).calls[1].phase == Insert;
    assert After(project, w, e[..4]).calls[1].phase == Recheck;
  }

  // ---- Progress ----

  function StepsLeft(p: Phase): nat {
    match p
    case Check => 4
    case Insert => 3
    case Wait => 2
    case Recheck => 1
    case Answered(_, _) => 0
  }

  function Turns(events: seq<Event>, call: nat): nat {
    if events == [] then 0
    else Turns(events[..|events| - 1], call) + if events[|events| - 1].call == call then 1 else 0
  }

  lemma StepMakesProgress(project: string, w: World, e: Event, call: nat)
    requires call < |w.calls|
    ensures var before, after := w.calls[call].phase, Step(project, w, e).calls[call].phase;
            StepsLeft(after) <=
              if e.call == call && StepsLeft(before) > 0 then StepsLeft(before) - 1 else StepsLeft(before)
  {
  }

  /** A call is answered after at most four steps of its own, however the others are interleaved and
      whatever fails. */
  lemma {:induction false} FourStepsSuffice(project: string, w: World, events: seq<Event>, call: nat)
    requires call < |w.calls|
    ensures var left := StepsLeft(After(project, w, events).calls[call].phase);
            left == 0 || left + Turns(events, call) <= StepsLeft(w.calls[call].phase)
    ensures Turns(events, call) >= 4 ==> After(project, w, events).calls[call].phase.Answered?
  {
    if events != [] {
      hide Step;
      var front := events[..|events| - 1];
      FourStepsSuffice(project, w, front, call);
      StepMakesProgress(project, After(project, w, front), events[|events| - 1], call);
    }
  }
}
