/** What every serial run of the controller RPCs keeps. */
module ControllerRuns {
  import opened Wrappers
  import opened GoStrings
  import opened Capacity
  import opened Compute
  import opened DiskValidation
  import opened VolumeId
  import opened Parameters
  import opened ControllerMachine

  // ---- Disks ----

  /** Every disk is stored under its own name, with a size whose bytes fit in 64 bits. */
  ghost predicate DisksSound(m: Machine) {
    forall k :: k in m.disks ==> m.disks[k].name == k && Sized(m.disks[k].sizeGb)
  }

  /** In every run the later compatibility checks multiply without wrapping around. */
  lemma {:induction false} DisksStaySound(zone: string, m: Machine, calls: seq<Call>)
    requires AllWellFormed(calls) && DisksSound(m)
    ensures var m' := After(zone, m, calls);
            DisksSound(m') && forall k :: k in m'.disks ==>
              GbToBytes(m'.disks[k].sizeGb) as int == m'.disks[k].sizeGb as int * GIB
  {
    if calls != [] {
      var before := calls[..|calls| - 1];
      var c := calls[|calls| - 1];
      DisksStaySound(zone, m, before);
      if c.Create? {
        ProvisionedBounds(c.request.capacityRange);
      }
    }
    forall k | k in After(zone, m, calls).disks
      ensures GbToBytes(After(zone, m, calls).disks[k].sizeGb) as int ==
              After(zone, m, calls).disks[k].sizeGb as int * GIB
    {
      SizedDoesNotWrap(After(zone, m, calls).disks[k].sizeGb);
    }
  }

  predicate Deletes(c: Call, name: string) {
    c.Delete? && match SplitZoneNameId(c.id) case Some(p) => p.name == name case None => false
  }

  /** A disk, once stored, stays as it is until a delete names it. */
  lemma {:induction false} DiskSurvives(zone: string, m: Machine, calls: seq<Call>, name: string)
    requires AllWellFormed(calls) && name in m.disks
    requires forall i :: 0 <= i < |calls| ==> !Deletes(calls[i], name)
    ensures name in After(zone, m, calls).disks && After(zone, m, calls).disks[name] == m.disks[name]
  {
    if calls != [] {
      DiskSurvives(zone, m, calls[..|calls| - 1], name);
    }
  }

  // ---- One call ----

  /** The stored size in bytes is within the bounds given, 0 being none. */
  predicate Within(disk: Disk, range: Option<CapacityRange>) {
    match range
    case None => true
    case Some(r) =>
      var bytes := disk.sizeGb as int * 1_073_741_824;
      && (r.requiredBytes == 0 || r.requiredBytes as int <= bytes)
      && (r.limitBytes == 0 || bytes <= r.limitBytes as int)
  }

  /** What a create gets on the in-memory cloud. A name, a capability and known parameters are needed.
      An unknown name gets a disk of the size its bounds come to, and that is reported; a known one is
      accepted exactly when the disk is within the bounds and does NOT show the type asked for. */
  lemma CreateExactly(zone: string, m: Machine, req: CreateRequest, order: seq<string>)
    requires Enumerates(order, req.parameters) && DisksSound(m)
    ensures var o, range := CreateStep(zone, m, req, order), req.capacityRange;
            var s := Resolve(req.parameters, order, zone);
            if req.name == "" || req.capabilities == 0 || s.Err? then o == Outcome(m, Failed(InvalidArgument))
            else if req.name in m.disks &&
              !(Within(m.disks[req.name], range) && LastSegment(m.disks[req.name].diskType) != s.value.diskType)
            then o == Outcome(m, Failed(AlreadyExists))
            else
              && o.reply.Created? && o.reply.id == s.value.zone + "/" + req.name
              && (exists gb :: Gets(Deciding(range), o.reply.capacityBytes, gb))
              && if req.name in m.disks then o.state == m
                 else exists gb ::
                   && Gets(Deciding(range), o.reply.capacityBytes, gb)
                   && o.state == m.(disks := m.disks[req.name :=
                        Disk(req.name, gb, "Disk created by GCE-PD CSI Driver", "", "")])
  {
    var range := req.capacityRange;
    GetsDeciding(range);
    ResolveMeans(req.parameters, order, zone);
    if req.name in m.disks {
      SizedDoesNotWrap(m.disks[req.name].sizeGb);
    }
  }

  /** What a call needs to come as far as the attachments: an identifier of a stored disk, and a node. */
  predicate Reaches(m: Machine, id: string, node: string, volume: string) {
    SplitZoneNameId(id).Some? && SplitZoneNameId(id).value.name == volume && volume in m.disks && node in m.attached
  }

  /** Between the two states nothing differs but whether, and how, this volume is attached to this node. */
  ghost predicate OnlyAttachment(m: Machine, m': Machine, node: string, volume: string) {
    && m'.disks == m.disks && m'.attached.Keys == m.attached.Keys
    && forall n, v, mode :: n != node || v != volume ==> (Attached(m', n, v, mode) <==> Attached(m, n, v, mode))
  }

  /** What a publish does: attaches an unattached volume, read-only exactly when asked; is OK again in
      the mode the volume is attached in, and refused in the other. */
  lemma PublishExactly(m: Machine, id: string, node: string, hasCapability: bool, readOnly: bool)
    ensures var o := PublishStep(m, id, node, hasCapability, readOnly);
            var mode := if readOnly then READ_ONLY else READ_WRITE;
            if id == "" || node == "" || !hasCapability then o == Outcome(m, Failed(InvalidArgument))
            else if forall volume :: !Reaches(m, id, node, volume) then o == Outcome(m, Failed(Unknown))
            else exists volume ::
              && Reaches(m, id, node, volume)
              && if volume !in m.attached[node]
                 then
                   && o.reply == Published && Attached(o.state, node, volume, mode)
                   && OnlyAttachment(m, o.state, node, volume)
                 else o == Outcome(m, if m.attached[node][volume] == mode then Published else Failed(AlreadyExists))
  {
    if SplitZoneNameId(id).Some? {
      var volume := SplitZoneNameId(id).value.name;
      assert Reaches(m, id, node, volume) <==> volume in m.disks && node in m.attached;
    }
  }

  /** What an unpublish does: it answers OK whether or not the volume is attached, and afterwards it is not. */
  lemma UnpublishExactly(m: Machine, id: string, node: string)
    ensures var o := UnpublishStep(m, id, node);
            if id == "" || node == "" then o == Outcome(m, Failed(InvalidArgument))
            else if forall volume :: !Reaches(m, id, node, volume) then o == Outcome(m, Failed(Unknown))
            else exists volume ::
              && Reaches(m, id, node, volume) && o.reply == Unpublished
              && (forall mode :: !Attached(o.state, node, volume, mode)) && OnlyAttachment(m, o.state, node, volume)
  {
    if SplitZoneNameId(id).Some? {
      var volume := SplitZoneNameId(id).value.name;
      assert Reaches(m, id, node, volume) <==> volume in m.disks && node in m.attached;
    }
  }

  /** A delete is refused only without an identifier; one that parses takes away the disk it names, if
      stored, and nothing else. */
  lemma DeleteExactly(m: Machine, id: string)
    ensures var o := DeleteStep(m, id);
            && o.reply == (if id == "" then Failed(InvalidArgument) else Deleted)
            && o.state.attached == m.attached
            && forall name :: name in o.state.disks <==>
                 name in m.disks && !(SplitZoneNameId(id).Some? && SplitZoneNameId(id).value.name == name)
    ensures var disks := DeleteStep(m, id).state.disks;
            forall name :: name in disks ==> disks[name] == m.disks[name]
  {
    assert SplitZoneNameId("").None?;
  }

  // ---- Retrying a create ----

  /** The state after a create that found no disk, followed by any serial run. */
  ghost function Later(zone: string, m: Machine, req: CreateRequest, order: seq<string>, between: seq<Call>): Machine
    requires Enumerates(order, req.parameters) && AllWellFormed(between)
  {
    After(zone, CreateStep(zone, m, req, order).state, between)
  }

  /** A create that stored a fresh disk is followed by any run that does not delete that disk, and
      then by any well-formed create of the same name. That one is answered OK, with the capacity it
      asks for itself, exactly when its parameters are known, the disk made for the first request is
      within its bounds, and it names a disk type, whichever; it never changes anything. */
  lemma LaterCreateExactly(zone: string, m: Machine, made: CreateRequest, o1: seq<string>, between: seq<Call>,
                           asked: CreateRequest, o2: seq<string>)
    requires Enumerates(o1, made.parameters) && Enumerates(o2, asked.parameters) && AllWellFormed(between)
    requires made.name !in m.disks && CreateStep(zone, m, made, o1).reply.Created?
    requires asked.name == made.name
    requires forall i :: 0 <= i < |between| ==> !Deletes(between[i], made.name)
    ensures var later := Later(zone, m, made, o1, between);
            CreateStep(zone, later, asked, o2) == Outcome(later,
              if asked.capabilities == 0 || !AllKnown(asked.parameters) then Failed(InvalidArgument)
              else
                var s := Resolve(asked.parameters, o2, zone).value;
                if Covers(made.capacityRange, asked.capacityRange) && s.diskType != ""
                then Created(RequestedBytes(asked.capacityRange), CombineVolumeId(s.zone, asked.name))
                else Failed(AlreadyExists))
  {
    DiskSurvives(zone, CreateStep(zone, m, made, o1).state, between, made.name);
    if asked.capabilities != 0 && AllKnown(asked.parameters) {
      var s1, s2 := Resolve(made.parameters, o1, zone).value, Resolve(asked.parameters, o2, zone).value;
      FakeAcceptsExactly(made.name, made.capacityRange, s1.zone, s1.diskType, asked.capacityRange, s2.diskType);
    }
  }

  /** The retry theorem. A create that stored a fresh disk is repeated after any run that does not
      delete that disk: the same reply comes back exactly when the capacity is repeatable, a disk
      type is named, and the parameters are again read as the same zone. Otherwise either the zone
      read differs or the retry fails. A retry never changes anything. */
  lemma RetryExactly(zone: string, m: Machine, req: CreateRequest, o1: seq<string>, between: seq<Call>, o2: seq<string>)
    requires Enumerates(o1, req.parameters) && Enumerates(o2, req.parameters) && AllWellFormed(between)
    requires req.name !in m.disks && CreateStep(zone, m, req, o1).reply.Created?
    requires forall i :: 0 <= i < |between| ==> !Deletes(between[i], req.name)
    ensures var first := CreateStep(zone, m, req, o1);
            var later := Later(zone, m, req, o1, between);
            var retry := CreateStep(zone, later, req, o2);
            var s1, s2 := Resolve(req.parameters, o1, zone).value, Resolve(req.parameters, o2, zone).value;
            var repeatable := CapacityRepeatable(req.capacityRange) && s2.diskType != "";
            && (retry.reply == first.reply <==> repeatable && s1.zone == s2.zone)
            && (retry.reply == Failed(AlreadyExists) <==> !repeatable)
            && retry.state == later
  {
    LaterCreateExactly(zone, m, req, o1, between, req, o2);
    CoversItself(req.capacityRange);
    var s1, s2 := Resolve(req.parameters, o1, zone).value, Resolve(req.parameters, o2, zone).value;
    SameNameSameZone(s1.zone, s2.zone, req.name);
  }

  /** When the iteration order of its parameters is irrelevant, a request can be retried, in whatever
      orders, exactly when its capacity is repeatable and it does not name the empty type. */
  lemma RetryOfUnambiguousRequest(zone: string, m: Machine, req: CreateRequest, o1: seq<string>, between: seq<Call>,
                                  o2: seq<string>)
    requires Enumerates(o1, req.parameters) && Enumerates(o2, req.parameters) && AllWellFormed(between)
    requires OrderIrrelevant(req.parameters, zone)
    requires req.name !in m.disks && CreateStep(zone, m, req, o1).reply.Created?
    requires forall i :: 0 <= i < |between| ==> !Deletes(between[i], req.name)
    ensures var retry := CreateStep(zone, Later(zone, m, req, o1, between), req, o2);
            retry.reply == CreateStep(zone, m, req, o1).reply <==>
              CapacityRepeatable(req.capacityRange) && Resolve(req.parameters, o1, zone).value.diskType != ""
  {
    RetryExactly(zone, m, req, o1, between, o2);
    assert Resolve(req.parameters, o1, zone) == Resolve(req.parameters, o2, zone);
  }

  /** The request the project's own README gives as its example, with required and limit both
      5000000000 bytes, cannot be retried: the 5 GiB disk it was given is over its own limit. */
  lemma DocumentedRequestCannotBeRetried(zone: string)
    ensures var range := CapacityRange(5_000_000_000, 5_000_000_000);
            var params := map["type" := "pd-standard", "zone" := "us-central1-b"];
            var req := CreateRequest("csi-test", Some(range), 1, params);
            var order := ["type", "zone"];
            && Enumerates(order, params)
            && var first := CreateStep(zone, Machine(map[], map[]), req, order);
               && first.reply == Created(5_000_000_000, "us-central1-b/csi-test")
               && CreateStep(zone, first.state, req, order).reply == Failed(AlreadyExists)
  {
    var range := CapacityRange(5_000_000_000, 5_000_000_000);
    var params := map["type" := "pd-standard", "zone" := "us-central1-b"];
    var order := ["type", "zone"];
    var req := CreateRequest("csi-test", Some(range), 1, params);
    FoldKeys();
    assert order[0] == "type" && order[1] == "zone";
    assert AllKnown(params);
    assert order[..1] == ["type"] && order[..0] == [] && order[..1][..0] == [];
    assert LastValue(params, order, "zone", zone) == "us-central1-b";
    assert CombineVolumeId("us-central1-b", "csi-test") == "us-central1-b/csi-test";
    var m := Machine(map[], map[]);
    assert CreateStep(zone, m, req, order).reply.Created?;
    RetryExactly(zone, m, req, order, [], order);
    assert !CapacityRepeatable(req.capacityRange);
  }

  lemma FoldKeys()
    ensures ToLower("type") == "type" && ToLower("zone") == "zone"
    ensures Folds("type", "type") && Folds("zone", "zone") && !Folds("type", "zone") && !Folds("zone", "type")
  {
  }

  // ---- Deleting what was created ----

  /** Deleting by the identifier a fresh create returned always answers OK. It undoes the create
      when neither part of the identifier holds a slash, and otherwise does nothing at all, leaving
      the disk behind. Repeating the delete changes nothing either way. */
  lemma CreateThenDelete(zone: string, m: Machine, req: CreateRequest, order: seq<string>)
    requires Enumerates(order, req.parameters)
    requires req.name !in m.disks && CreateStep(zone, m, req, order).reply.Created?
    ensures var first := CreateStep(zone, m, req, order);
            var used := Resolve(req.parameters, order, zone).value.zone;
            var gone := DeleteStep(first.state, first.reply.id);
            && gone.reply == Deleted
            && gone.state == (if Free(used, '/') && Free(req.name, '/') then m else first.state)
            && DeleteStep(gone.state, first.reply.id) == gone
            && m != first.state
  {
    var first := CreateStep(zone, m, req, order);
    CombineThenSplit(Resolve(req.parameters, order, zone).value.zone, req.name);
    assert first.state.disks - {req.name} == m.disks;
  }

  // ---- Attachments ----

  /** The one kind of call that can end an attachment: an unpublish that names the node and the
      volume while the volume's disk exists. */
  predicate Detaches(m: Machine, c: Call, node: string, volume: string) {
    && c.Unpublish? && c.node == node && volume in m.disks
    && match SplitZoneNameId(c.id) case Some(p) => p.name == volume case None => false
  }

  ghost predicate NeverDetached(zone: string, m: Machine, calls: seq<Call>, node: string, volume: string)
    requires AllWellFormed(calls)
  {
    forall i :: 0 <= i < |calls| ==> !Detaches(After(zone, m, calls[..i]), calls[i], node, volume)
  }

  predicate Attached(m: Machine, node: string, volume: string, mode: Mode) {
    node in m.attached && volume in m.attached[node] && m.attached[node][volume] == mode
  }

  lemma PrefixOfRun(zone: string, m: Machine, calls: seq<Call>, node: string, volume: string)
    requires AllWellFormed(calls) && calls != [] && NeverDetached(zone, m, calls, node, volume)
    ensures NeverDetached(zone, m, calls[..|calls| - 1], node, volume)
  {
    var front := calls[..|calls| - 1];
    forall i | 0 <= i < |front|
      ensures !Detaches(After(zone, m, front[..i]), front[i], node, volume)
    {
      assert front[..i] == calls[..i];
    }
  }

  lemma StepKeepsMode(zone: string, m: Machine, c: Call, node: string, volume: string, mode: Mode)
    requires WellFormed(c) && Attached(m, node, volume, mode) && !Detaches(m, c, node, volume)
    ensures Attached(Step(zone, m, c).state, node, volume, mode)
  {
  }

  /** From the publish that attaches a volume to the unpublish that detaches it, nothing changes the
      recorded mode: not publishes in the other mode, not deletes, not re-creates. */
  lemma {:induction false} ModeStable(zone: string, m: Machine, calls: seq<Call>, node: string, volume: string,
                                      mode: Mode)
    requires AllWellFormed(calls) && Attached(m, node, volume, mode)
    requires NeverDetached(zone, m, calls, node, volume)
    ensures Attached(After(zone, m, calls), node, volume, mode)
  {
    if calls != [] {
      hide Step;
      var last := |calls| - 1;
      PrefixOfRun(zone, m, calls, node, volume);
      ModeStable(zone, m, calls[..last], node, volume, mode);
      StepKeepsMode(zone, After(zone, m, calls[..last]), calls[last], node, volume, mode);
    }
  }

  /** The mode a publish asked for is the mode that lasts: attached by a publish, the volume is attached
      read-only exactly when that publish asked for it, after every run that does not detach it. */
  lemma PublishedModeLasts(zone: string, m: Machine, id: string, node: string, readOnly: bool, volume: string,
                           calls: seq<Call>)
    requires Reaches(m, id, node, volume) && node != "" && volume !in m.attached[node] && AllWellFormed(calls)
    requires NeverDetached(zone, PublishStep(m, id, node, true, readOnly).state, calls, node, volume)
    ensures var o := PublishStep(m, id, node, true, readOnly);
            && o.reply == Published
            && Attached(After(zone, o.state, calls), node, volume, if readOnly then READ_ONLY else READ_WRITE)
  {
    PublishExactly(m, id, node, true, readOnly);
    ModeStable(zone, PublishStep(m, id, node, true, readOnly).state, calls, node, volume,
               if readOnly then READ_ONLY else READ_WRITE);
  }

  /** A detaching call does detach, so the condition of ModeStable cannot be weakened. */
  lemma DetachEnds(m: Machine, c: Call, node: string, volume: string)
    requires Detaches(m, c, node, volume) && node in m.attached && node != ""
    ensures var o := UnpublishStep(m, c.id, node);
            o.reply == Unpublished && node in o.state.attached && volume !in o.state.attached[node]
  {
  }

  predicate Asks(c: Call, node: string, volume: string, mode: Mode) {
    && c.Publish? && c.node == node && ModeOf(c.readOnly) == mode
    && match SplitZoneNameId(c.id) case Some(p) => p.name == volume case None => false
  }

  /** Every attachment a run ends with was there at the start or was asked for, in that very mode, by
      a publish of the run that was answered OK. */
  lemma {:induction false} AttachmentHasPublish(zone: string, m: Machine, calls: seq<Call>, node: string,
                                                volume: string, mode: Mode)
    requires AllWellFormed(calls) && Attached(After(zone, m, calls), node, volume, mode)
    ensures Attached(m, node, volume, mode)
            || exists i :: 0 <= i < |calls| && Asks(calls[i], node, volume, mode)
                 && ReplyTo(zone, m, calls, i) == Published
  {
    if calls != [] {
      var last := |calls| - 1;
      var front := calls[..last];
      if Attached(After(zone, m, front), node, volume, mode) {
        AttachmentHasPublish(zone, m, front, node, volume, mode);
        forall i | 0 <= i < last ensures ReplyTo(zone, m, front, i) == ReplyTo(zone, m, calls, i) {
          assert front[..i] == calls[..i];
        }
        if !Attached(m, node, volume, mode) {
          var i :| 0 <= i < last && Asks(front[i], node, volume, mode) && ReplyTo(zone, m, front, i) == Published;
          assert Asks(calls[i], node, volume, mode);
        }
      } else {
        assert Asks(calls[last], node, volume, mode) && ReplyTo(zone, m, calls, last) == Published;
      }
    }
  }

  /** Repeating a publish after any run that neither detaches the volume nor leaves it without a disk
      is answered OK in the recorded mode, refused in the other, and changes nothing. */
  lemma RepublishAfterRun(zone: string, m: Machine, calls: seq<Call>, id: string, node: string, mode: Mode,
                          readOnly: bool)
    requires AllWellFormed(calls) && node != "" && SplitZoneNameId(id).Some?
    requires var volume := SplitZoneNameId(id).value.name;
             && Attached(m, node, volume, mode) && NeverDetached(zone, m, calls, node, volume)
             && volume in After(zone, m, calls).disks
    ensures PublishStep(After(zone, m, calls), id, node, true, readOnly)
            == Outcome(After(zone, m, calls), if ModeOf(readOnly) == mode then Published else Failed(AlreadyExists))
  {
    ModeStable(zone, m, calls, node, SplitZoneNameId(id).value.name, mode);
    assert id != "";
  }

  /** After any run that does not detach an attached volume, an unpublish of it detaches it exactly when
      its disk is there, and otherwise fails and changes nothing. */
  lemma UnpublishAfterRun(zone: string, m: Machine, calls: seq<Call>, id: string, node: string, mode: Mode)
    requires AllWellFormed(calls) && node != "" && SplitZoneNameId(id).Some?
    requires var volume := SplitZoneNameId(id).value.name;
             Attached(m, node, volume, mode) && NeverDetached(zone, m, calls, node, volume)
    ensures var volume, m' := SplitZoneNameId(id).value.name, After(zone, m, calls);
            && Attached(m', node, volume, mode)
            && UnpublishStep(m', id, node) ==
                 if volume in m'.disks
                 then Outcome(m'.(attached := m'.attached[node := m'.attached[node] - {volume}]), Unpublished)
                 else Outcome(m', Failed(Unknown))
  {
    ModeStable(zone, m, calls, node, SplitZoneNameId(id).value.name, mode);
    assert id != "";
  }

  predicate Creates(c: Call, name: string) {
    c.Create? && c.request.name == name
  }

  /** A volume deleted while attached cannot be detached: until it is created again every unpublish
      of it fails, and the attachment outlives the run. */
  lemma {:induction false} DeletedWhileAttached(zone: string, m: Machine, calls: seq<Call>, node: string,
                                                volume: string, mode: Mode)
    requires AllWellFormed(calls) && Attached(m, node, volume, mode) && volume !in m.disks
    requires forall i :: 0 <= i < |calls| ==> !Creates(calls[i], volume)
    ensures Attached(After(zone, m, calls), node, volume, mode) && volume !in After(zone, m, calls).disks
    ensures forall id :: (match SplitZoneNameId(id) case Some(p) => p.name == volume case None => false)
              ==> UnpublishStep(After(zone, m, calls), id, node).reply.Failed?
  {
    if calls != [] {
      DeletedWhileAttached(zone, m, calls[..|calls| - 1], node, volume, mode);
    }
  }

  // ---- Errors ----

  /** The calls of a run that were not refused, in order. */
  ghost function Accepted(zone: string, m: Machine, calls: seq<Call>): (r: seq<Call>)
    requires AllWellFormed(calls)
    ensures AllWellFormed(r)
  {
    if calls == [] then []
    else
      var last := |calls| - 1;
      Accepted(zone, m, calls[..last]) + if ReplyTo(zone, m, calls, last).Failed? then [] else [calls[last]]
  }

  /** Refused calls leave no trace: dropping every one of them from a run ends in the same state. */
  lemma {:induction false} RefusedCallsLeaveNoTrace(zone: string, m: Machine, calls: seq<Call>)
    requires AllWellFormed(calls)
    ensures After(zone, m, Accepted(zone, m, calls)) == After(zone, m, calls)
  {
    if calls != [] {
      var last := |calls| - 1;
      var front := calls[..last];
      RefusedCallsLeaveNoTrace(zone, m, front);
      if ReplyTo(zone, m, calls, last).Failed? {
        assert Accepted(zone, m, calls) == Accepted(zone, m, front);
      } else {
        var kept := Accepted(zone, m, calls);
        assert kept[..|kept| - 1] == Accepted(zone, m, front);
      }
    }
  }
}
