/** Volume identifiers, printed as `{zone}/{name}` and parsed back. */
module VolumeId {
  import opened Wrappers
  import opened GoStrings

  datatype Parts = Parts(zone: string, name: string)

  function CombineVolumeId(zone: string, name: string): string {
    zone + "/" + name
  }

  function SplitZoneNameId(id: string): Option<Parts> {
    var splitId := Split(id, '/');
    if |splitId| != 2 then None else Some(Parts(splitId[0], splitId[1]))
  }

  /** The parser accepts a printed identifier exactly when neither part holds a slash, and then
      returns those very parts. */
  lemma CombineThenSplit(zone: string, name: string)
    ensures SplitZoneNameId(CombineVolumeId(zone, name)) ==
            if Free(zone, '/') && Free(name, '/') then Some(Parts(zone, name)) else None
  {
    SplitConcat(zone, name, '/');
    SplitSingle(zone, '/');
    SplitSingle(name, '/');
  }

  /** Whatever parses was printed from the parts the parser returns, and those parts hold no slash. */
  lemma SplitThenCombine(id: string)
    ensures match SplitZoneNameId(id)
            case Some(p) => CombineVolumeId(p.zone, p.name) == id && Free(p.zone, '/') && Free(p.name, '/')
            case None => forall z, n :: Free(z, '/') && Free(n, '/') ==> CombineVolumeId(z, n) != id
  {
    JoinSplit(id, '/');
    var parts := Split(id, '/');
    if |parts| == 2 {
      assert Join(parts[1..], '/') == parts[1];
    } else {
      forall z, n | Free(z, '/') && Free(n, '/')
        ensures CombineVolumeId(z, n) != id
      {
        CombineThenSplit(z, n);
      }
    }
  }

  /** Two volumes whose parts hold no slash never share an identifier. */
  lemma CombineInjective(z1: string, n1: string, z2: string, n2: string)
    requires Free(z1, '/') && Free(n1, '/') && Free(z2, '/') && Free(n2, '/')
    requires CombineVolumeId(z1, n1) == CombineVolumeId(z2, n2)
    ensures z1 == z2 && n1 == n2
  {
    CombineThenSplit(z1, n1);
    CombineThenSplit(z2, n2);
  }

  /** For one name, the identifier determines the zone, slashes or not. */
  lemma SameNameSameZone(z1: string, z2: string, name: string)
    ensures CombineVolumeId(z1, name) == CombineVolumeId(z2, name) <==> z1 == z2
  {
    var a, b := CombineVolumeId(z1, name), CombineVolumeId(z2, name);
    if a == b {
      assert |z1| == |z2|;
      assert z1 == a[..|z1|] && z2 == b[..|z2|];
    }
  }
}
