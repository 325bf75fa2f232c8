/** The list of disks attached to one instance: appended to on attach, swap-deleted on detach, and
    meant to behave as a finite map from device name to mode. */
module Attachments {
  import opened Compute

  type Attached = seq<AttachedDisk>

  ghost predicate NoDup(l: Attached) {
    forall i, j :: 0 <= i < j < |l| ==> l[i].deviceName != l[j].deviceName
  }

  ghost predicate Holds(l: Attached, name: string) {
    exists i :: 0 <= i < |l| && l[i].deviceName == name
  }

  /** The position a scan from the front stops at. */
  ghost function First(l: Attached, name: string): (i: nat)
    requires Holds(l, name)
    ensures i < |l| && l[i].deviceName == name
    ensures forall k :: 0 <= k < i ==> l[k].deviceName != name
  {
    Scan(l, name, 0)
  }

  ghost function Scan(l: Attached, name: string, from: nat): (i: nat)
    requires exists k :: from <= k < |l| && l[k].deviceName == name
    ensures from <= i < |l| && l[i].deviceName == name
    ensures forall k :: from <= k < i ==> l[k].deviceName != name
    decreases |l| - from
  {
    if l[from].deviceName == name then from else Scan(l, name, from + 1)
  }

  /** The finite map the list stands for. */
  ghost function AsMap(l: Attached): map<string, Mode> {
    map n | n in (set i | 0 <= i < |l| :: l[i].deviceName) && Holds(l, n) :: l[First(l, n)].mode
  }

  /** Overwrites entry `i` with the last one and drops the last. */
  function SwapDelete(l: Attached, i: nat): Attached
    requires i < |l|
  {
    l[i := l[|l| - 1]][..|l| - 1]
  }

  /** `m` binds every entry of the list, and nothing else. */
  ghost predicate Represents(l: Attached, m: map<string, Mode>) {
    && (forall i :: 0 <= i < |l| ==> l[i].deviceName in m && m[l[i].deviceName] == l[i].mode)
    && (forall n :: n in m ==> Holds(l, n))
  }

  /** The list stands for one map only. */
  lemma RepresentsUnique(l: Attached, m: map<string, Mode>)
    requires NoDup(l)
    ensures Represents(l, m) <==> m == AsMap(l)
  {
  }

  /** Attaching an unattached name adds exactly that binding and keeps names distinct. */
  lemma AppendIsInsert(l: Attached, d: AttachedDisk)
    requires NoDup(l) && !Holds(l, d.deviceName)
    ensures NoDup(l + [d])
    ensures AsMap(l + [d]) == AsMap(l)[d.deviceName := d.mode]
  {
    var l', m := l + [d], AsMap(l)[d.deviceName := d.mode];
    assert forall k :: 0 <= k < |l| ==> l[k].deviceName != d.deviceName;
    assert NoDup(l');
    RepresentsUnique(l, AsMap(l));
    assert Represents(l', m) by {
      forall i | 0 <= i < |l'| ensures l'[i].deviceName in m && m[l'[i].deviceName] == l'[i].mode {
        assert i < |l| ==> l'[i] == l[i];
      }
      forall n | n in m ensures Holds(l', n) {
        var k := if n == d.deviceName then |l| else First(l, n);
        assert l'[k].deviceName == n;
      }
    }
    RepresentsUnique(l', m);
  }

  lemma SwapDeleteEntries(l: Attached, i: nat)
    requires NoDup(l) && i < |l|
    ensures NoDup(SwapDelete(l, i))
    ensures forall n :: Holds(SwapDelete(l, i), n) <==> Holds(l, n) && n != l[i].deviceName
  {
    var l', last := SwapDelete(l, i), |l| - 1;
    forall n ensures Holds(l', n) <==> Holds(l, n) && n != l[i].deviceName {
      if Holds(l', n) {
        var k := First(l', n);
        assert l[if k == i then last else k].deviceName == n;
      }
      if Holds(l, n) && n != l[i].deviceName {
        var k := First(l, n);
        assert l'[if k == last then i else k].deviceName == n;
      }
    }
  }

  /** Detaching removes exactly one entry and exactly its binding, whatever moves into the gap. */
  lemma SwapDeleteIsRemove(l: Attached, i: nat)
    requires NoDup(l) && i < |l|
    ensures NoDup(SwapDelete(l, i))
    ensures AsMap(SwapDelete(l, i)) == AsMap(l) - {l[i].deviceName}
    ensures multiset(SwapDelete(l, i)) == multiset(l) - multiset{l[i]}
  {
    var l', m := SwapDelete(l, i), AsMap(l) - {l[i].deviceName};
    SwapDeleteEntries(l, i);
    SwapDeleteMultiset(l, i);
    RepresentsUnique(l, AsMap(l));
    forall k | 0 <= k < |l'| ensures l'[k].deviceName in m && m[l'[k].deviceName] == l'[k].mode {
      assert l'[k] == l[if k == i then |l| - 1 else k];
    }
    RepresentsUnique(l', m);
  }

  /** Where everything ends up: the last entry in the gap, every other one where it was. */
  lemma SwapDeletePlaces(l: Attached, i: nat)
    requires i < |l|
    ensures |SwapDelete(l, i)| == |l| - 1
    ensures forall k :: 0 <= k < |l| - 1 ==> SwapDelete(l, i)[k] == l[if k == i then |l| - 1 else k]
  {
  }

  lemma SwapDeleteMultiset(l: Attached, i: nat)
    requires i < |l|
    ensures multiset(SwapDelete(l, i)) == multiset(l) - multiset{l[i]}
  {
    var last := l[|l| - 1];
    assert l == l[..|l| - 1] + [last];
    if i < |l| - 1 {
      assert SwapDelete(l, i) == l[..|l| - 1][i := last];
    } else {
      assert SwapDelete(l, i) == l[..|l| - 1];
    }
  }

  /** Detaching what was just appended gives the list back in its original order. */
  lemma AppendThenDetach(l: Attached, d: AttachedDisk)
    requires !Holds(l, d.deviceName)
    ensures Holds(l + [d], d.deviceName)
    ensures SwapDelete(l + [d], First(l + [d], d.deviceName)) == l
  {
  }
}
