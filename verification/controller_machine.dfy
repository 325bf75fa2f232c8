/** The abstract controller: what the four controller RPCs mean, with every instance's attachments a
    finite map from volume to mode. The heap implementation is proved to refine it. */
module ControllerMachine {
  import opened Wrappers
  import opened Capacity
  import opened Compute
  import opened DiskValidation
  import opened VolumeId
  import opened Parameters

  datatype CreateRequest = CreateRequest(
    name: string,
    capacityRange: Option<CapacityRange>,
    capabilities: nat,
    parameters: map<string, string>)

  /** One RPC as it arrives. `order` is the order Go's runtime visits the parameter map in. */
  datatype Call =
    | Create(request: CreateRequest, order: seq<string>)
    | Delete(id: string)
    | Publish(id: string, node: string, hasCapability: bool, readOnly: bool)
    | Unpublish(id: string, node: string)

  datatype Reply =
    | Created(capacityBytes: int64, id: string)
    | Deleted
    | Published
    | Unpublished
    | Failed(code: Code)

  datatype Machine = Machine(disks: map<string, Disk>, attached: map<string, map<string, Mode>>)

  datatype Outcome = Outcome(state: Machine, reply: Reply)

  ghost predicate WellFormed(c: Call) {
    c.Create? ==> Enumerates(c.order, c.request.parameters)
  }

  function ModeOf(readOnly: bool): Mode {
    if readOnly then READ_ONLY else READ_WRITE
  }

  ghost function CreateStep(zone: string, m: Machine, req: CreateRequest, order: seq<string>): Outcome
    requires Enumerates(order, req.parameters)
  {
    if req.name == "" || req.capabilities == 0 then Outcome(m, Failed(InvalidArgument))
    else
      match Resolve(req.parameters, order, zone)
      case Err(code) => Outcome(m, Failed(code))
      case Ok(s) =>
        var range := req.capacityRange;
        var created := Created(RequestedBytes(range), CombineVolumeId(s.zone, req.name));
        if req.name !in m.disks then
          Outcome(m.(disks := m.disks[req.name := DiskFor(req.name, range, FakeTypeURI(s.zone, s.diskType))]), created)
        else if FakeAccepts(m.disks[req.name], s.diskType, RequiredBytes(range), LimitBytes(range)) then
          Outcome(m, created)
        else
          Outcome(m, Failed(AlreadyExists))
  }

  function DeleteStep(m: Machine, id: string): Outcome {
    if id == "" then Outcome(m, Failed(InvalidArgument))
    else
      match SplitZoneNameId(id)
      case None => Outcome(m, Deleted)
      case Some(p) => Outcome(m.(disks := m.disks - {p.name}), Deleted)
  }

  /** The volume an attach or detach call addresses, or the code it fails with before it looks at
      any attachment. */
  function Addressed(m: Machine, id: string, node: string, hasCapability: bool): Result<string> {
    if id == "" || node == "" || !hasCapability then Err(InvalidArgument)
    else
      match SplitZoneNameId(id)
      case None => Err(Unknown)
      case Some(p) => if p.name in m.disks && node in m.attached then Ok(p.name) else Err(Unknown)
  }

  function PublishStep(m: Machine, id: string, node: string, hasCapability: bool, readOnly: bool): Outcome {
    match Addressed(m, id, node, hasCapability)
    case Err(code) => Outcome(m, Failed(code))
    case Ok(volume) =>
      var modes := m.attached[node];
      if volume !in modes then
        Outcome(m.(attached := m.attached[node := modes[volume := ModeOf(readOnly)]]), Published)
      else if modes[volume] == ModeOf(readOnly) then Outcome(m, Published)
      else Outcome(m, Failed(AlreadyExists))
  }

  function UnpublishStep(m: Machine, id: string, node: string): Outcome {
    match Addressed(m, id, node, true)
    case Err(code) => Outcome(m, Failed(code))
    case Ok(volume) => Outcome(m.(attached := m.attached[node := m.attached[node] - {volume}]), Unpublished)
  }

  ghost function Step(zone: string, m: Machine, c: Call): Outcome
    requires WellFormed(c)
  {
    match c
    case Create(req, order) => CreateStep(zone, m, req, order)
    case Delete(id) => DeleteStep(m, id)
    case Publish(id, node, hasCapability, readOnly) => PublishStep(m, id, node, hasCapability, readOnly)
    case Unpublish(id, node) => UnpublishStep(m, id, node)
  }

  ghost predicate AllWellFormed(calls: seq<Call>) {
    forall i :: 0 <= i < |calls| ==> WellFormed(calls[i])
  }

  /** The state after a serial run. */
  ghost function After(zone: string, m: Machine, calls: seq<Call>): Machine
    requires AllWellFormed(calls)
  {
    if calls == [] then m
    else Step(zone, After(zone, m, calls[..|calls| - 1]), calls[|calls| - 1]).state
  }

  /** The reply call `i` of a serial run gets. */
  ghost function ReplyTo(zone: string, m: Machine, calls: seq<Call>, i: nat): Reply
    requires AllWellFormed(calls) && i < |calls|
  {
    Step(zone, After(zone, m, calls[..i]), calls[i]).reply
  }
}
