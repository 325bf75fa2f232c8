# Verified model of the GCE persistent disk CSI driver

This project models three connected parts of the driver and proves properties of them over all
inputs, all serial runs and, for creating, publishing and unpublishing, all interleavings.

**Controller on the in-memory cloud.** `FakeCloud.FakeCloudProvider` keeps a map of disks and, per
instance object, a slice of attached disks that attach appends to and detach swap-deletes from.
`ControllerServer.GCEControllerServer` holds the four RPC handlers. `ControllerMachine` is what they
are meant to be: a map of disks, and per node a finite map from volume to mode. `Serve` proves that
every serial run of the handlers is a run of that machine, reply by reply; `ControllerRuns` then proves
what every run keeps. `CreateRace` interleaves any number of `CreateVolume` calls step by step, with
failing reads, inserts and waits, under the real provider's validation. `AttachRace` interleaves any
number of `ControllerPublishVolume` and `ControllerUnpublishVolume` calls to one node between their look
and their attach or detach, and `AttachOverlaps` says what overlapping ones do.

**Sizes, parameters and identifiers.** `Capacity` is 64-bit arithmetic with Go's wrap-around and
truncation; `DiskValidation` is the "is the existing disk compatible" test of both providers;
`Parameters` is the loop over a Go map, whose iteration order is an argument; `VolumeId` prints and
parses `{zone}/{name}` over a model of `strings.Split`; `DevicePaths` lists the links a volume's disk
may have, over a model of `path.Join` (`GoPath`).

**Node.** `Host` is the operating system as the driver sees it: a mount table, directories, by-id
links, what each disk holds, and the record of every command. A `World` gives the outcome of the n-th
command of a run. Unless a result says "with nothing failing" (the worlds of `Calm`) or that at most one
command fails, it holds for every world, that is, for every sequence of command outcomes.
`OperatingSystem`, `GceMounter` and `NodeServer` are the objects and handlers; `NodeSpec` says what they
do as functions of state and world. `NodeAnswers` says what their answers mean and exactly when each is
given, `NodeRecord` that every command was asked for, `NodeRuns` that data is safe, and `NodeMounts` when
mounts stack and what undoes them.

Assumed of the commands: lsblk tells the truth when it answers; `mount -t` succeeds only on a matching
filesystem and a device mount that fails adds no layer (a bind mount that fails may); a successful mkfs
makes exactly the named filesystem and a failed one may leave anything behind; fsck does not change
which filesystem a disk holds; unmounting takes the topmost layer of the path.

## What turned out false

- Idempotent creation. `RetryExactly` gives the exact condition under which repeating a create returns
  the same response on the in-memory cloud; the example request of the project's README fails it
  (`DocumentedRequestCannotBeRetried`). The type test named `typeMatch` compares with `!=`, so the real
  provider turns away every identical retry of an ordinary type (`RealAcceptsOwnDisk`). Where identical
  calls of an ordinary type race for a disk absent at the start, only the one that inserted is answered
  OK, unless a repeated read failed (`IdenticalCallsDoNotShare`); and with the same exception any call
  answered OK without inserting asked for a type its disk does not show (`SharingNeedsAnotherType`).
- A disk type is not honoured on the in-memory cloud: the disk of one create serves any later one of
  its name that names some type (`FakeAcceptsExactly`, `LaterCreateExactly`).
- A create answered OK can rest on a disk that does not fit it. A disk made in the race fits a call
  exactly when the size provisioned for the winning request is within that call's bounds, whatever
  failed (`DiskFitsExactly`). So a call that inserted can get a disk that does not fit
  (`OwnDiskCanBeTooSmall`), and one that did not can only when its repeated check could not read the
  disk (`OkFitsExactly`, `UncheckedOkExists`).
- The reported capacity can exceed the disk by almost one GiB (`ReportedCapacityHonoured`).
- Deleting by a returned identifier does nothing when zone or name holds a slash (`CreateThenDelete`).
- A volume deleted while attached cannot be detached until it is created again
  (`DeletedWhileAttached`): an unpublish of an attached volume succeeds exactly when its disk is there
  (`UnpublishAfterRun`).
- Racing calls to one node. Attached names stay distinct and no detach panics, at every point of a run,
  exactly when every attach still finds its device unattached and every detach finds it attached
  (`SafeExactly`); such a run equals a serial one (`RunIsSerial`), and every run in which no two calls
  for one device stand between look and act together is one (`NoOverlapIsUndisturbed`). Where only
  publishes of a volume race, it ends attached twice exactly when two of them overlapped
  (`DuplicateExactly`, `TakingTurnsDuplicates`); where only unpublishes do, one panics on index -1
  exactly when two of them overlapped (`PanicExactly`, `TakingTurnsPanics`). Where both race, an overlap
  can pass (`OverlapCanPass`).
- With nothing failing, a second Stage in a row fails unless the parent of the staging path already
  showed the staged disk, and then it stacks a second mount (`StageTwiceExactly`); where paths do not
  nest and only disks are mounted, it fails in every world (`StageStaysTidy`). A second Unstage or
  Unpublish fails unless another layer lies below (`SecondUnmountExactly`).
- With nothing failing, n Publishes in a row from an existing directory onto a target not seen as
  mounted stack n mounts exactly when the directory shows the device of the target's parent, as an
  unstaged one does; otherwise only the first mounts (`PublishRepeatedly`, `PublishUnstagedStacks`).
- The recovery from a failed bind mount does not see a layer left behind that shows the device of the
  target's parent, and leaves it mounted (`FailedPublishUndone`).
- Candidate links of different volumes can coincide: for names the joining cleans
  (`CleanedNamesCollide`), which no parsed identifier carries, and otherwise exactly when name and
  partition suffix read the same written together (`CandidatesDisjoint`, `PartitionsCollide`).

The comments and test of the source still describe a three-part volume identifier
`{project}/{zone}/{name}`; the model follows the code, which uses `{zone}/{name}`.

## Model

| member | source | states |
|---|---|---|
| `GoStrings.SplitConcat` | pkg/utils/utils.go:34-39 | splitting distributes over a separator: the pieces of `a/b` are those of `a` followed by those of `b` |
| `GoStrings.JoinSplit` | pkg/utils/utils.go:34-44 | joining the pieces of a split gives the string back, and no piece holds the separator |
| `GoStrings.SplitJoin` | pkg/utils/utils.go:34-44 | splitting a join of separator-free pieces gives exactly those pieces |
| `VolumeId.CombineThenSplit` | pkg/utils/utils.go:34-44 | a printed identifier parses exactly when neither part holds a slash, and then into those parts |
| `VolumeId.SplitThenCombine` | pkg/utils/utils.go:34-44 | whatever parses recombines to itself; whatever does not was printed from no slash-free parts |
| `VolumeId.CombineInjective` | pkg/utils/utils.go:42-44 | distinct slash-free volumes never share an identifier |
| `VolumeId.SameNameSameZone` | pkg/utils/utils.go:42-44 | for one name the identifier determines the zone, slashes or not |
| `Capacity.GetRequestCapacity` | pkg/gce-csi-driver/controller.go:52-69 | the reassigning code computes the larger of the default and the required bytes, or failing those the limit |
| `Capacity.RequiredDecides` | pkg/gce-csi-driver/controller.go:61-67 | a positive required size decides alone: it is reported from 5 * 10^9 bytes on, and the disk is the largest whole number of GiB in it from 5 GiB on, those being the minima |
| `Capacity.LimitDecides` | pkg/gce-csi-driver/controller.go:61-67 | without one the limit decides in the same way, so that the disk is the largest the limit allows from 5 GiB on |
| `Capacity.NoRange` | pkg/gce-csi-driver/controller.go:55-58 | without a range the minima are given |
| `Capacity.GetsDeciding` | pkg/gce-csi-driver/controller.go:52-69 | the three cases together, for every range |
| `Capacity.ArithmeticOfGo` | pkg/utils/utils.go:24-32 | one GiB beyond that range the product is negative, and division truncates below zero |
| `Capacity.SizedDoesNotWrap` | pkg/utils/utils.go:29-32 | for sizes up to 2^33 - 1 GiB the wrapping product is the true byte count |
| `Capacity.ProvisionedBounds` | pkg/gce-csi-driver/controller.go:136-139 | the provisioned size never wraps, is at least 5 GiB, is short of the reported capacity by less than 1 GiB and exceeds it only by the 5 GiB minimum |
| `Capacity.ReportedCapacityHonoured` | pkg/gce-csi-driver/controller.go:114-139 | the disk holds what the response reports exactly when that is at most 5 GiB or a whole number of GiB |
| `DiskValidation.FakeAcceptsExactly` | pkg/gce-cloud-provider/fake-gce.go:64-95 | the fake accepts the disk built for one request when asked by another of the same name exactly when its size is within the other's bounds and the other names a type; which type does not matter |
| `DiskValidation.CoversItself` | pkg/gce-cloud-provider/fake-gce.go:72-73 | the disk built for a request is within that request's own bounds exactly when required is at most 5 GiB or whole GiB and the limit is 0 or not below the provisioned bytes |
| `DiskValidation.OwnCapacity` | pkg/gce-cloud-provider/fake-gce.go:72-73 | the same in 64-bit arithmetic: the capacity test, with wrapping sizes and 0 for "no bound", passes on the own disk exactly when the capacity is repeatable |
| `DiskValidation.LastSegmentOfURI` | pkg/gce-cloud-provider/gce-compute.go:96-98 | the last segment of a type URI is the type exactly when the type holds no slash |
| `DiskValidation.TypeURIReadsBack` | pkg/gce-cloud-provider/gce-compute.go:96-98 | a type URI splits back into project, zone and type, in their places |
| `DiskValidation.RealTypeShows` | pkg/gce-cloud-provider/gce-compute.go:96-98 | what validation sees of a type URI is the last segment of the type, which is the type itself exactly when it holds no slash |
| `DiskValidation.RealAcceptsExactly` | pkg/gce-cloud-provider/gce-compute.go:86-108 | the real provider accepts the disk built for one request when asked by another exactly when the other gives both bounds, the size is within them, and the other asks for a type that is NOT the last segment of the disk's |
| `DiskValidation.RealAcceptsOwnDisk` | pkg/gce-cloud-provider/gce-compute.go:86-108 | the real provider accepts a request's own disk exactly when both bounds are non-zero, the capacity is repeatable and the type holds a slash |
| `Parameters.ApplyParameters` | pkg/gce-csi-driver/controller.go:93-112 | for the iteration order given, the loop rejects exactly when some key is unknown, and otherwise the last key folding to "type" and to "zone" wins |
| `Parameters.ResolveMeans` | pkg/gce-csi-driver/controller.go:90-112 | a request is refused exactly when some key is neither one of the two secret keys nor "type" or "zone" in any case; otherwise the last key visited that reads so decides each, and pd-standard and the cloud's zone stand when none does |
| `Parameters.LastValueFound` | pkg/gce-csi-driver/controller.go:103-108 | the setting is the value of a key that folds to the word, or the default when there is none |
| `GoStrings.FoldsCapitals` | pkg/gce-csi-driver/controller.go:103 | folding turns each capital letter into its small one and changes nothing else |
| `Parameters.OrderEndingIn` | pkg/gce-csi-driver/controller.go:98 | every key can be the last one the runtime visits |
| `Parameters.OrderIrrelevantExactly` | pkg/gce-csi-driver/controller.go:93-112 | the outcome is the same for every iteration order exactly when the request is rejected or keys folding together carry equal values |
| `Attachments.RepresentsUnique` | pkg/gce-csi-driver/controller.go:352-374 | with distinct names a list of attached disks binds every entry in exactly one map |
| `Attachments.AppendIsInsert` | pkg/gce-cloud-provider/fake-gce.go:107-114 | appending an unattached device keeps names distinct and adds exactly its binding |
| `Attachments.SwapDeleteIsRemove` | pkg/gce-cloud-provider/fake-gce.go:121-130 | swap-delete keeps names distinct, removes exactly that binding, and exactly that entry from the multiset |
| `Attachments.SwapDeletePlaces` | pkg/gce-cloud-provider/fake-gce.go:128-129 | every entry stays where it was, except that the last one fills the gap |
| `Attachments.AppendThenDetach` | pkg/gce-cloud-provider/fake-gce.go:107-131 | detaching what was just appended restores the list in its original order |
| `FakeCloud.FakeCloudProvider.InsertInstance` | pkg/gce-cloud-provider/fake-gce.go:160-163 | registering a new object with nothing attached keeps the heap invariant and adds a node with no attachments |
| `FakeCloud.FakeCloudProvider.GetAndValidateExistingDisk` | pkg/gce-cloud-provider/fake-gce.go:64-95 | absent or nil disks do not exist; others are accepted or refused with AlreadyExists by capacity and type |
| `FakeCloud.FakeCloudProvider.InsertDisk` | pkg/gce-cloud-provider/fake-gce.go:97-100 | binds the disk to its own name, keeps the invariant, touches no attachment |
| `FakeCloud.FakeCloudProvider.DeleteDisk` | pkg/gce-cloud-provider/fake-gce.go:102-105 | unbinds the name, keeps the invariant, touches no attachment even of that disk |
| `FakeCloud.FakeCloudProvider.AttachDisk` | pkg/gce-cloud-provider/fake-gce.go:107-114 | appends to that instance's slice only; for an unattached device this adds one binding to the abstract map |
| `FakeCloud.FakeCloudProvider.DetachDisk` | pkg/gce-cloud-provider/fake-gce.go:116-131 | given that the device is attached, the search never yields -1, swap-deletes its first entry, and removes one binding of the abstract map |
| `FakeCloud.FakeCloudProvider.OneListChanged` | pkg/gce-cloud-provider/fake-gce.go:112-129 | writing through one instance object changes that node's list and map and no other |
| `ControllerServer.DiskIsAttached` | pkg/gce-csi-driver/controller.go:352-360 | the scan answers exactly whether the list holds the disk's name |
| `ControllerServer.DiskIsAttachedAndCompatible` | pkg/gce-csi-driver/controller.go:362-374 | the scan answers what the abstract map says: bound or not, and bound to the other mode |
| `ControllerServer.GCEControllerServer.CreateVolume` | pkg/gce-csi-driver/controller.go:71-183 | refines the abstract create step and keeps the heap invariant; a refused create leaves the disk map alone |
| `ControllerServer.GCEControllerServer.DeleteVolume` | pkg/gce-csi-driver/controller.go:185-221 | refines the abstract delete step and keeps the heap invariant |
| `ControllerServer.GCEControllerServer.ControllerPublishVolume` | pkg/gce-csi-driver/controller.go:223-301 | refines the abstract publish step; the node's list gains one entry at its end exactly when the volume was unattached, and no other list changes |
| `ControllerServer.GCEControllerServer.ControllerUnpublishVolume` | pkg/gce-csi-driver/controller.go:303-349 | refines the abstract unpublish step; the detach it calls always finds the device, its first entry is swap-deleted, and no other list changes |
| `ControllerServer.PublishAddsEntry` | pkg/gce-csi-driver/controller.go:262-288 | the entry an attaching publish adds carries the disk's name, kind and type, no source, and is READ_ONLY exactly when asked |
| `ControllerServer.GCEControllerServer.PublishThenUnpublish` | pkg/gce-csi-driver/controller.go:223-349 | an attaching publish followed directly by its unpublish restores every list in its original order |
| `ControllerServer.GCEControllerServer.Handle` | pkg/gce-csi-driver/controller.go:71-349 | one RPC refines one abstract step, and one that answers an error changes neither disks nor lists |
| `ControllerServer.GCEControllerServer.Serve` | pkg/gce-csi-driver/controller.go:71-349 | every serial run refines the abstract machine, state and replies, and keeps the heap invariant |
| `ControllerServer.ServeFresh` | pkg/gce-csi-driver/controller.go:71-349 | from a new cloud with distinct, empty instances registered up front, every serial run answers as the abstract machine does from the empty state |
| `ControllerRuns.DisksStaySound` | pkg/gce-csi-driver/controller.go:136-147 | in every run each disk is stored under its name and later size products never overflow |
| `ControllerRuns.DiskSurvives` | pkg/gce-csi-driver/controller.go:124-147 | a stored disk stays unchanged through every run without a delete of its name |
| `ControllerRuns.CreateExactly` | pkg/gce-csi-driver/controller.go:71-147 | the outcome of every create: refused without name, capability or known parameters; over an existing disk accepted exactly when it is within the bounds and does not show the type asked for; otherwise a disk of its name, of the size its bounds come to and reported, is stored and nothing else changes |
| `ControllerRuns.LaterCreateExactly` | pkg/gce-csi-driver/controller.go:71-183 | after a fresh create and any run without a delete of it, any later create of the name is OK exactly when its parameters are known, the stored disk is within its bounds and it names a type; the exact code otherwise; it changes nothing |
| `ControllerRuns.RetryExactly` | pkg/gce-csi-driver/controller.go:52-147 | after a fresh create and any run without a delete of it, the retry returns the same response exactly when the capacity is repeatable, a type is named and the zone is read the same; otherwise AlreadyExists or another zone; it changes nothing |
| `ControllerRuns.RetryOfUnambiguousRequest` | pkg/gce-csi-driver/controller.go:52-147 | when the parameters' order is irrelevant, a retry in any order returns the same response exactly when the capacity is repeatable and a type is named |
| `ControllerRuns.DocumentedRequestCannotBeRetried` | README.md:7 | the documented example request creates its disk and is refused with AlreadyExists when repeated |
| `ControllerRuns.CreateThenDelete` | pkg/gce-csi-driver/controller.go:114-221 | deleting by the returned identifier always answers OK, undoes the create exactly when zone and name hold no slash and otherwise does nothing; a second delete is a no-op |
| `ControllerRuns.PublishExactly` | pkg/gce-csi-driver/controller.go:223-301 | the outcome of every publish: an unattached volume is attached, READ_ONLY exactly when asked, and no other attachment changes; an attached one is OK in its mode and AlreadyExists in the other; each error code exactly where it is given |
| `ControllerRuns.UnpublishExactly` | pkg/gce-csi-driver/controller.go:303-349 | the outcome of every unpublish: OK whether or not the volume is attached, which it is not afterwards, and no other attachment changes; each error code exactly where it is given |
| `ControllerRuns.DeleteExactly` | pkg/gce-csi-driver/controller.go:185-221 | the outcome of every delete: refused only without an identifier; the disk it names goes and nothing else |
| `ControllerRuns.ModeStable` | pkg/gce-csi-driver/controller.go:262-291 | the recorded mode survives every run up to an unpublish that detaches, whatever is published, deleted or re-created |
| `ControllerRuns.PublishedModeLasts` | pkg/gce-csi-driver/controller.go:262-291 | a volume attached by a publish is attached READ_ONLY exactly when that publish asked for it, after every run that does not detach it |
| `ControllerRuns.DetachEnds` | pkg/gce-csi-driver/controller.go:321-348 | the calls ModeStable excludes do end the attachment |
| `ControllerRuns.AttachmentHasPublish` | pkg/gce-csi-driver/controller.go:262-300 | every attachment a run ends with was there before or was asked for in that mode by a publish of the run answered OK |
| `ControllerRuns.RepublishAfterRun` | pkg/gce-csi-driver/controller.go:267-275 | repeating a publish later in a run is OK in the recorded mode, AlreadyExists in the other, and changes nothing |
| `ControllerRuns.UnpublishAfterRun` | pkg/gce-csi-driver/controller.go:321-348 | after any run that does not detach an attached volume, an unpublish of it detaches it exactly when its disk is there, and otherwise fails and changes nothing |
| `ControllerRuns.DeletedWhileAttached` | pkg/gce-csi-driver/controller.go:321-336 | a volume deleted while attached stays attached, and every unpublish of it fails, until it is created again |
| `ControllerRuns.RefusedCallsLeaveNoTrace` | pkg/gce-csi-driver/controller.go:71-349 | dropping every refused call from a run leaves its final state the same |
| `CreateRace.DisksNeverChange` | pkg/gce-csi-driver/controller.go:123-183 | in every interleaving a stored disk never changes and never disappears |
| `CreateRace.StaysSound` | pkg/gce-csi-driver/controller.go:123-183 | the protocol invariant: one winning insert per disk, every new disk its winner's own, every OK justified |
| `CreateRace.ExactlyOneInsertWins` | pkg/gce-csi-driver/controller.go:147-162 | a disk absent at the start is there at the end exactly when one insert won; the winner is unique and the disk is its own |
| `CreateRace.WinnersDisk` | pkg/gce-csi-driver/controller.go:136-147 | the disk a winning insert leaves has its request's name, the size its bounds come to, and a type URI that splits into project, its zone and its type |
| `CreateRace.UncheckedExactly` | pkg/gce-csi-driver/controller.go:149-180 | a handler finishes without a check exactly when the GET of its repeated check failed |
| `CreateRace.OkIsJustified` | pkg/gce-csi-driver/controller.go:123-183 | a call answered OK inserted the disk, or had its own request validated against it, or could not read it when it checked again |
| `CreateRace.AnswersExactly` | pkg/gce-csi-driver/controller.go:123-183 | the answer of every call in every interleaving under every fault: Internal exactly when its insert or wait failed; otherwise OK exactly when it inserted and its wait did not report alreadyExists, or the disk is acceptable to it, or its repeated read failed; otherwise AlreadyExists |
| `CreateRace.FaultlessAnswer` | pkg/gce-csi-driver/controller.go:123-183 | a call whose own steps meet no fault is OK exactly when it inserted or the disk is acceptable to it, and AlreadyExists otherwise, whatever happens to the others |
| `CreateRace.FirstCheckDecides` | pkg/gce-csi-driver/controller.go:123-134 | a disk there at the start decides at the first check: OK exactly when it is acceptable |
| `CreateRace.UncheckedOkExists` | pkg/gce-cloud-provider/gce-compute.go:77-110 | an interleaving in which a call is answered OK over a disk too small for it |
| `CreateRace.DiskFitsExactly` | pkg/gce-csi-driver/controller.go:123-183 | for every call of every interleaving, whatever failed: a disk made in the race is within the call's bounds exactly when the size provisioned for the request that won the insert is; a disk there at the start is unchanged |
| `CreateRace.OkFitsExactly` | pkg/gce-csi-driver/controller.go:123-183 | from a call's own view: answered OK and inserted, its disk fits exactly when its capacity is repeatable; answered OK without inserting, its disk fits unless its repeated read failed (`DiskFitsExactly` says when it fits then) |
| `CreateRace.OwnDiskCanBeTooSmall` | pkg/gce-csi-driver/controller.go:136-139 | an interleaving in which a call is answered OK over the disk it inserted itself, which is too small for it |
| `CreateRace.SharingNeedsAnotherType` | pkg/gce-cloud-provider/gce-compute.go:86-108 | unless a repeated read failed, a call answered OK that did not insert asked for a type its disk does not show, whoever made the disk; over a disk made in the race under a slash-free type, for a type other than the winner's |
| `CreateRace.IdenticalCallsDoNotShare` | pkg/gce-cloud-provider/gce-compute.go:86-108 | of identical calls of a slash-free type racing for a disk absent at the start only the one that inserted is answered OK, unless a repeated read failed |
| `CreateRace.FourStepsSuffice` | pkg/gce-csi-driver/controller.go:123-183 | every call is answered after at most four steps of its own, however interleaved and whatever fails |
| `AttachRace.SafeExactly` | pkg/gce-cloud-provider/fake-gce.go:107-131 | publishes and unpublishes in any interleaving: names stay distinct and no detach panics at every point exactly when every attach finds its device unattached and every detach finds it attached |
| `AttachRace.NoOverlapIsUndisturbed` | pkg/gce-csi-driver/controller.go:267-348 | that is so whenever no two calls for one device ever stand between look and act together |
| `AttachRace.RunIsSerial` | pkg/gce-csi-driver/controller.go:267-348 | such a run is linearizable: attachments and every reply are those of a serial run of the abstract machine, each answered call once, in the order of the answers |
| `AttachRace.TwoStepsSuffice` | pkg/gce-csi-driver/controller.go:267-348 | every call has ended after at most two steps of its own, however interleaved |
| `AttachOverlaps.EntriesExactly` | pkg/gce-csi-driver/controller.go:267-348 | where only publishes touch a device: its entries and the calls about to attach it come to two or more exactly when two of the calls have overlapped |
| `AttachOverlaps.DetachesExactly` | pkg/gce-csi-driver/controller.go:267-348 | where only unpublishes touch a device: calls that detached, are about to or panicked come to two or more exactly when two of them have overlapped, and none panics while the device is attached |
| `AttachOverlaps.DuplicateExactly` | pkg/gce-csi-driver/controller.go:267-300 | once the publishes of a device are answered it is attached more than once exactly when two of them overlapped, whatever happens to other devices |
| `AttachOverlaps.PanicExactly` | pkg/gce-cloud-provider/fake-gce.go:107-131 | once the unpublishes of a device have ended one of them panicked exactly when two of them overlapped |
| `AttachOverlaps.DistinctExactly` | pkg/gce-csi-driver/controller.go:267-300 | for all devices of a node: after publishes only, every device is attached at most once exactly when none was overlapped |
| `AttachOverlaps.TakingTurnsDuplicates` | pkg/gce-csi-driver/controller.go:267-300 | two publishes that take turns leave two entries and are both answered OK, whatever their modes |
| `AttachOverlaps.TakingTurnsPanics` | pkg/gce-cloud-provider/fake-gce.go:107-131 | two unpublishes that take turns end in the panic of the second |
| `AttachOverlaps.OverlapCanPass` | pkg/gce-csi-driver/controller.go:267-348 | two publishes overlap and an unpublish between their attaches keeps the run undisturbed |
| `AttachOverlaps.DistinctIsCount` | pkg/gce-cloud-provider/fake-gce.go:107-131 | names are distinct exactly when each has at most one entry |
| `AttachOverlaps.DetachTakesOne` | pkg/gce-cloud-provider/fake-gce.go:116-131 | a detach takes one entry of its device and of no other; the device stays attached exactly when it had two entries or more |
| `DiskFormat.UnformattedOutputs` | pkg/mount-manager/mount-utils.go:51-67 | an lsblk output reads as unformatted exactly when it is empty or one newline |
| `DiskFormat.ReadsBlankExactly` | pkg/mount-manager/mount-utils.go:51-67 | the print of any device reads as unformatted exactly when it holds no filesystem and has no dependents |
| `DiskFormat.ReadsName` | pkg/mount-manager/mount-utils.go:51-67 | a filesystem name is read back as printed; dependents without one read as probable partitions |
| `MountArgs.MakeMountArgs` | pkg/mount-manager/mount-utils.go:71-87 | the successive appends build the argument list of mount |
| `MountArgs.ReadsBack` | pkg/mount-manager/mount-utils.go:71-87 | mount reads type, every option, source and target back from that list, when no option holds a comma and no operand looks like a flag |
| `MountArgs.CommaSplitsOption` | pkg/mount-manager/mount-utils.go:78-80 | an option that holds a comma is read as two |
| `GoPath.PathJoinKeepsExactly` | pkg/mount-manager/mounter.go:192-197 | joining a name to a clean directory is concatenation exactly when no element of the name is empty, `.` or `..` |
| `GoPath.PathJoinClimbs` | pkg/mount-manager/mounter.go:192-197 | a name that climbs out of its first element is joined as the rest of it |
| `DevicePaths.GetDiskByIdPaths` | pkg/mount-manager/mounter.go:192-205 | for every name, slashes or not, the in-place rewriting loop yields both joined links, with the partition suffix when there is a partition |
| `DevicePaths.ByIdPathKeepsExactly` | pkg/mount-manager/mounter.go:192-197 | a candidate is directory, prefix and name as they stand exactly when nothing after a slash of the name is empty, `.` or `..` |
| `DevicePaths.ParsedNamesArePlain` | pkg/gce-csi-driver/node.go:143-149 | every name split off a volume identifier is of that kind |
| `DevicePaths.PlainLinks` | pkg/mount-manager/mounter.go:27-30 | the two candidates of such a name, literally and in order |
| `DevicePaths.PartitionLinks` | pkg/mount-manager/mounter.go:199-202 | with a partition both end in "-part" and the partition |
| `DevicePaths.CandidatesDisjoint` | pkg/mount-manager/mounter.go:192-205 | the candidate lists of two such names, with whatever partitions, are disjoint exactly when name and partition suffix written together differ |
| `DevicePaths.SamePartitionDisjoint` | pkg/mount-manager/mounter.go:192-205 | for one partition: exactly when the names differ |
| `DevicePaths.CleanedNamesCollide` | pkg/mount-manager/mounter.go:192-197 | without that, they need not be: every name shares its first candidate with another name |
| `DevicePaths.PartitionsCollide` | pkg/mount-manager/mounter.go:199-202 | a name ending like a partition suffix has all the candidates of another volume's partition |
| `Host.TopIsLast` | pkg/mount-manager/mounter.go:79-94 | the layer seen at a path is the last one mounted there |
| `Host.DeviceAtIsLongestPrefix` | pkg/mount-manager/mounter.go:79-94 | the device of a path is that of the topmost layer on its longest mounted prefix, or of the root filesystem |
| `Host.CheckExactly` | pkg/mount-manager/mounter.go:73-94 | "is a mount point" implies a mount at that exact path; a real mount is missed exactly when its device is the parent's |
| `GceMounter.GCEMounter.IsLikelyNotMountPoint` | pkg/mount-manager/mounter.go:79-94 | the code answers as the check law says and records it |
| `GceMounter.GCEMounter.VerifyDevicePath` | pkg/mount-manager/mounter.go:221-229 | the early-exit loop refines the recursive scan, stat by stat |
| `GceMounter.GCEMounter.GetDiskFormat` | pkg/mount-manager/mount-utils.go:39-68 | fails exactly when lsblk does, and otherwise parses its output |
| `GceMounter.GCEMounter.FormatAndMount` | pkg/mount-manager/mounter.go:126-189 | the decision tree runs exactly the specified commands in order, for every outcome of each |
| `NodeServer.GCENodeServer.NodeStageVolume` | pkg/gce-csi-driver/node.go:132-218 | refines the staging specification, state, record and reply, in every world |
| `NodeServer.GCENodeServer.NodePublishVolume` | pkg/gce-csi-driver/node.go:35-108 | refines the publishing specification with its failure recovery, in every world |
| `NodeServer.GCENodeServer.NodeUnpublishVolume` | pkg/gce-csi-driver/node.go:110-130 | refines the unmounting specification in every world |
| `NodeServer.GCENodeServer.NodeUnstageVolume` | pkg/gce-csi-driver/node.go:220-237 | refines the unmounting specification in every world |
| `NodeServer.GCENodeServer.Serve` | pkg/gce-csi-driver/node.go:35-237 | every serial run of the handlers is a run of the specification, state and replies, in every world |
| `NodeRecord.EveryCommandWasAsked` | pkg/gce-csi-driver/node.go:35-237 | over every run and world every command on record was run by a call that asked for it: each bind mount goes from a Publish's staging path to its target and carries "ro" exactly when it asked for read-only; each device mount and mkfs has the filesystem, flags, target and candidate link of its Stage; unmounts, removals and directories only on paths of the call |
| `NodeRuns.MkfsIsSafe` | pkg/mount-manager/mounter.go:158-176 | mkfs on a blank disk keeps every safety claim |
| `NodeRuns.FormatAndMountIsSafe` | pkg/mount-manager/mounter.go:126-189 | FormatAndMount keeps every safety claim and changes no disk that holds something, in every world |
| `NodeRuns.RecoverIsSafe` | pkg/gce-csi-driver/node.go:79-104 | the failure recovery removes the target only when the command directly before was a check of it that found no mount and no error |
| `NodeRuns.StepIsSafe` | pkg/gce-csi-driver/node.go:35-237 | every RPC keeps every safety claim, in every world |
| `NodeRuns.RunsAreSafe` | pkg/mount-manager/mounter.go:126-189 | over every run and world: mkfs never runs on a disk holding a filesystem or partitions and succeeds at most once per disk, no disk holding something changes, and a directory is removed only directly after a check of it that found no mount and no error |
| `NodeAnswers.FormatAndMountMeans` | pkg/mount-manager/mounter.go:126-189 | a nil result: the last command was a successful mount with the options given, the disk holds the requested filesystem and tops the target; an error leaves the mount table as it was |
| `NodeAnswers.VerifyMeans` | pkg/mount-manager/mounter.go:221-229 | without stat errors the scan returns the first existing candidate, or "" exactly when none exists |
| `NodeAnswers.VolumesResolveApart` | pkg/gce-csi-driver/node.go:143-161 | identifiers of two different volume names never resolve to one by-id link, at whatever times |
| `NodeAnswers.StageMeans` | pkg/gce-csi-driver/node.go:132-218 | Stage OK: the first existing link was mounted with the requested filesystem and flags and tops the staging path; any other answer leaves the mount table alone |
| `NodeAnswers.VerifyInEveryWorld` | pkg/mount-manager/mounter.go:221-229 | in every world the scan stats the candidates up to the first that exists and finds that one, unless one of these stats fails |
| `NodeAnswers.FormatAndMountInEveryWorld` | pkg/mount-manager/mounter.go:126-189 | in every world: succeeds exactly when fsck does not exit with 4 and the first mount succeeds, or lsblk, mkfs and a second mount do on a blank disk, which then holds the filesystem asked for or ext4; after an fsck exit of 4 nothing else is run |
| `NodeAnswers.FormatAndMountExactly` | pkg/mount-manager/mounter.go:126-189 | when at most fsck fails, a disk is mounted exactly when fsck did not exit with 4 and the disk is blank or already holds the requested filesystem |
| `NodeAnswers.StageInEveryWorld` | pkg/gce-csi-driver/node.go:132-218 | the reply of Stage, OK or with which code, in every world |
| `NodeAnswers.StageExactly` | pkg/gce-csi-driver/node.go:132-218 | when at most its fsck fails, Stage is OK exactly for a well-formed request without block access, with an existing candidate link, at a path not seen as mounted, when fsck does not exit with 4 and the disk of the first existing link is blank or holds the requested filesystem |
| `NodeAnswers.AsksExactly` | pkg/gce-csi-driver/node.go:183-199 | the filesystem asked for is the one named or ext4, the flags those given or none |
| `NodeAnswers.PublishMeans` | pkg/gce-csi-driver/node.go:57-107 | no error only if the bind mount succeeded, as last command and read-only when asked, or the target already was a mount point |
| `NodeAnswers.PublishInEveryWorld` | pkg/gce-csi-driver/node.go:35-108 | the reply of Publish, OK or with which code, in every world |
| `NodeAnswers.UnmountInEveryWorld` | pkg/gce-csi-driver/node.go:110-237 | in every world Unpublish and Unstage are OK exactly when umount succeeds and something is mounted at the path, whose last mount then goes; otherwise nothing changes |
| `NodeMounts.CheckIsRight` | pkg/mount-manager/mounter.go:79-94 | on non-nested paths mounted with disks the mount-point check is right whenever it can be made |
| `NodeMounts.SeenExactly` | pkg/mount-manager/mounter.go:79-94 | on such a host a path is seen as mounted exactly when a layer is mounted there |
| `NodeMounts.StageStaysTidy` | pkg/gce-csi-driver/node.go:172-217 | on paths that do not nest, mounted with disks at most once each: Stage keeps them so in every world, and on a staged path always fails and mounts nothing |
| `NodeMounts.PublishStaysTidy` | pkg/gce-csi-driver/node.go:57-104 | Publish from a staged path adds a layer only to a target without one, even through a leaking failed bind mount |
| `NodeMounts.NeverTwoLayers` | pkg/gce-csi-driver/node.go:57-210 | in every run that publishes only from staged paths, on paths that do not nest, no path ever carries two layers |
| `NodeAnswers.PublishExactly` | pkg/gce-csi-driver/node.go:57-107 | when nothing fails, Publish from an existing directory mounts exactly when the target is not seen as mounted, whatever is mounted there, and otherwise changes nothing |
| `NodeMounts.PublishRepeatedly` | pkg/gce-csi-driver/node.go:57-107 | on any host and with nothing failing, n publishes in a row from an existing directory add no layer to a target seen as mounted; otherwise n layers when the directory shows the device of the target's parent, and one when it does not |
| `NodeMounts.PublishRepeatedlyTidy` | pkg/gce-csi-driver/node.go:57-107 | on paths that do not nest, mounted with disks at most once each, and with nothing failing: n publishes leave n layers when the target was free and the directory unstaged, and otherwise one |
| `NodeMounts.StageTwiceExactly` | pkg/gce-csi-driver/node.go:132-218 | on any host and with nothing failing, after a Stage answered OK the same Stage is answered OK again exactly when the parent of the staging path already showed the disk it mounted |
| `NodeMounts.PublishUnstagedStacks` | pkg/gce-csi-driver/node.go:57-78 | a host on which any number of publishes leaves that number of layers |
| `NodeMounts.FailedPublishUndone` | pkg/gce-csi-driver/node.go:79-104 | when only the bind mount of a Publish fails: a layer it left behind is taken away again, unless it shows the device of the target's parent, and the target directory goes unless something is mounted there or below it lie directories |
| `NodeMounts.UnmountUndoes` | pkg/gce-csi-driver/node.go:110-237 | Unstage right after Stage, and Unpublish right after Publish, restore the mount table in its original order |
| `NodeMounts.SecondUnmountExactly` | pkg/gce-csi-driver/node.go:122-130 | after an OK Unpublish or Unstage a second one is OK exactly when another layer was mounted below and its unmount succeeds, and otherwise fails with Internal |

## Left out

- server.go, identity.go, cmd/main.go, gRPC wiring, logging and error texts: plumbing; error codes are kept.
- The real provider's network client, OAuth and metadata look-up: represented by the in-memory cloud, and in `CreateRace` by a cloud that rejects duplicate inserts atomically and sees no deletes.
- WaitForOp's polling and timeouts: one step of `CreateRace` that may succeed, fail, or report alreadyExists.
- The branches of CreateVolume that handle a failed insert or wait: the in-memory cloud never takes them; they are the later phases of `CreateRace`.
- Failures of attach, detach and their waits: the in-memory cloud has none.
- Interleavings of publish and unpublish with create and delete: `AttachRace` starts from calls that found their disk and instance. After a first panic the process is gone; the run goes on only to say which calls would have panicked.
- udevadm, globbing and symlink evaluation, and fsck's repairs: foreign effects.
- What `fsck`, `mkfs` and `mount` do beyond the laws stated above, and the contents of a mounted filesystem.
- The root directory as a path argument, and paths through symlinks.
- MountArgs.MakeMountArgs: the node model records a mount's source, target, type and options as values, so the argument list is tied to the source but not to the mount laws.
- Parameter keys beyond ASCII: `ToLower` folds ASCII only; no other character folds to a letter of "type" or "zone".
- A nil instance pointer registered with the in-memory cloud, on which the handlers would panic.
- ValidateVolumeCapabilities, capability registration and ParseEndpoint: stateless look-ups that touch no disk, attachment or mount.
- matchDiskMode and FakeMounter: no driver code calls the first, and the second answers constants.
- test/remote and test/e2e: tooling around external processes.
