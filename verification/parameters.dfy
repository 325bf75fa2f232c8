/** CreateVolume's parameter loop. Go visits a map in an unspecified order; `order` is the order one
    call happens to see. */
module Parameters {
  import opened Wrappers
  import opened GoStrings

  const SECRET_NAME := "csiProvisionerSecretName"
  const SECRET_NAMESPACE := "csiProvisionerSecretNamespace"
  const DISK_TYPE_DEFAULT := "pd-standard"

  datatype Settings = Settings(diskType: string, zone: string)

  predicate IsSecret(k: string) {
    k == SECRET_NAME || k == SECRET_NAMESPACE
  }

  /** The keys that carry a setting: those that fold to `word`, secrets aside. */
  predicate Folds(k: string, word: string) {
    !IsSecret(k) && ToLower(k) == word
  }

  predicate Known(k: string) {
    IsSecret(k) || ToLower(k) == "type" || ToLower(k) == "zone"
  }

  ghost predicate AllKnown(params: map<string, string>) {
    forall k :: k in params ==> Known(k)
  }

  ghost predicate Enumerates(order: seq<string>, params: map<string, string>) {
    && (forall k :: k in order <==> k in params)
    && (forall i, j :: 0 <= i < j < |order| ==> order[i] != order[j])
  }

  /** The value of the last key in `order` that folds to `word`. */
  ghost function LastValue(params: map<string, string>, order: seq<string>, word: string, otherwise: string): string
    requires forall k :: k in order ==> k in params
  {
    if order == [] then otherwise
    else
      var last := order[|order| - 1];
      if Folds(last, word) then params[last]
      else LastValue(params, order[..|order| - 1], word, otherwise)
  }

  /** What the loop answers: one unknown key anywhere rejects the request; otherwise the last key
      seen wins, for type and for zone. */
  ghost function Resolve(params: map<string, string>, order: seq<string>, zone: string): Result<Settings>
    requires Enumerates(order, params)
  {
    if AllKnown(params)
    then Ok(Settings(LastValue(params, order, "type", DISK_TYPE_DEFAULT), LastValue(params, order, "zone", zone)))
    else Err(InvalidArgument)
  }

  method ApplyParameters(params: map<string, string>, order: seq<string>, zone: string) returns (r: Result<Settings>)
    requires Enumerates(order, params)
    ensures r == Resolve(params, order, zone)
  {
    var diskType := DISK_TYPE_DEFAULT;
    var configuredZone := zone;
    for i := 0 to |order|
      invariant forall k :: k in order[..i] ==> Known(k)
      invariant diskType == LastValue(params, order[..i], "type", DISK_TYPE_DEFAULT)
      invariant configuredZone == LastValue(params, order[..i], "zone", zone)
    {
      var k := order[i];
      assert order[..i + 1][..i] == order[..i];
      if IsSecret(k) {
        continue;
      }
      var folded := ToLower(k);
      if folded == "type" {
        diskType := params[k];
      } else if folded == "zone" {
        configuredZone := params[k];
      } else {
        assert k in params && !Known(k);
        return Err(InvalidArgument);
      }
    }
    assert order[..|order|] == order;
    r := Ok(Settings(diskType, configuredZone));
  }

  /** All the keys that fold to `word` carry one value. */
  ghost predicate Agree(params: map<string, string>, word: string) {
    forall j, k :: j in params && k in params && Folds(j, word) && Folds(k, word) ==> params[j] == params[k]
  }

  lemma {:induction false} LastValueFound(params: map<string, string>, order: seq<string>, word: string,
                                          otherwise: string)
    requires forall k :: k in order ==> k in params
    ensures var v := LastValue(params, order, word, otherwise);
            (exists k :: k in order && Folds(k, word) && params[k] == v)
            || (v == otherwise && forall k :: k in order ==> !Folds(k, word))
  {
    if order != [] {
      var front := order[..|order| - 1];
      LastValueFound(params, front, word, otherwise);
      assert order == front + [order[|order| - 1]];
    }
  }

  /** Key `i` is the last one visited that reads `word` in lower case. */
  ghost predicate LastAt(order: seq<string>, word: string, i: int) {
    0 <= i < |order| && ToLower(order[i]) == word && forall j :: i < j < |order| ==> ToLower(order[j]) != word
  }

  /** `v` is the value of the last key visited that reads `word` in lower case, or the default when
      no key does. */
  ghost predicate LastSet(params: map<string, string>, order: seq<string>, word: string, otherwise: string, v: string) {
    || (exists i :: LastAt(order, word, i) && order[i] in params && params[order[i]] == v)
    || (v == otherwise && forall i :: 0 <= i < |order| ==> ToLower(order[i]) != word)
  }

  lemma FoldsByCase(k: string, word: string)
    requires |word| == 4
    ensures Folds(k, word) <==> ToLower(k) == word
  {
    assert |k| == |ToLower(k)|;
  }

  lemma LastSetOfFront(params: map<string, string>, order: seq<string>, word: string, otherwise: string, v: string)
    requires order != [] && ToLower(order[|order| - 1]) != word
    requires LastSet(params, order[..|order| - 1], word, otherwise, v)
    ensures LastSet(params, order, word, otherwise, v)
  {
    hide ToLower;
    var last := |order| - 1;
    var front := order[..last];
    if i :| LastAt(front, word, i) && front[i] in params && params[front[i]] == v {
      assert LastAt(order, word, i);
    } else {
      assert forall i :: 0 <= i < last ==> front[i] == order[i];
    }
  }

  lemma {:induction false} LastValueIsLastSet(params: map<string, string>, order: seq<string>, word: string,
                                              otherwise: string)
    requires (forall k :: k in order ==> k in params) && |word| == 4
    ensures LastSet(params, order, word, otherwise, LastValue(params, order, word, otherwise))
  {
    if order != [] {
      hide ToLower, Folds;
      var last := |order| - 1;
      FoldsByCase(order[last], word);
      if Folds(order[last], word) {
        assert LastAt(order, word, last);
      } else {
        hide LastSet;
        LastValueIsLastSet(params, order[..last], word, otherwise);
        LastSetOfFront(params, order, word, otherwise, LastValue(params, order[..last], word, otherwise));
      }
    }
  }

  /** What the parameters come to: the request is refused exactly when some key is neither one of the
      two secrets nor "type" nor "zone" in whatever case; otherwise, of each of these words, the last
      key visited decides, and the disk is of type pd-standard and in the cloud's zone when none does. */
  lemma ResolveMeans(params: map<string, string>, order: seq<string>, zone: string)
    requires Enumerates(order, params)
    ensures var r := Resolve(params, order, zone);
            && (r == Err(InvalidArgument) <==> exists k ::
                  && k in params && k != "csiProvisionerSecretName" && k != "csiProvisionerSecretNamespace"
                  && ToLower(k) != "type" && ToLower(k) != "zone")
            && (r != Err(InvalidArgument) ==>
                  && r.Ok? && LastSet(params, order, "type", "pd-standard", r.value.diskType)
                  && LastSet(params, order, "zone", zone, r.value.zone))
  {
    if AllKnown(params) {
      LastValueIsLastSet(params, order, "type", "pd-standard");
      LastValueIsLastSet(params, order, "zone", zone);
    } else {
      var k :| k in params && !Known(k);
      assert ToLower(k) != "type";
    }
  }

  lemma AgreementFixesValue(params: map<string, string>, o1: seq<string>, o2: seq<string>, word: string,
                            otherwise: string)
    requires Enumerates(o1, params) && Enumerates(o2, params)
    requires Agree(params, word)
    ensures LastValue(params, o1, word, otherwise) == LastValue(params, o2, word, otherwise)
  {
    LastValueFound(params, o1, word, otherwise);
    LastValueFound(params, o2, word, otherwise);
  }

  /** Some order visits `last` after every other key. */
  lemma {:induction false} OrderEndingIn(params: map<string, string>, last: string) returns (order: seq<string>)
    requires last in params
    ensures Enumerates(order, params) && order != [] && order[|order| - 1] == last
    decreases |params|
  {
    var rest := params - {last};
    assert params.Keys == rest.Keys + {last};
    var front := [];
    if rest.Keys != {} {
      var k :| k in rest;
      front := OrderEndingIn(rest, k);
    }
    order := front + [last];
  }

  /** The order decides nothing: for every two orders the loop answers alike. */
  ghost predicate OrderIrrelevant(params: map<string, string>, zone: string) {
    forall o1, o2 :: Enumerates(o1, params) && Enumerates(o2, params) ==>
      Resolve(params, o1, zone) == Resolve(params, o2, zone)
  }

  lemma DisagreementShows(params: map<string, string>, word: string, zone: string)
    requires AllKnown(params) && !Agree(params, word)
    requires word == "type" || word == "zone"
    ensures !OrderIrrelevant(params, zone)
  {
    var j, k :| j in params && k in params && Folds(j, word) && Folds(k, word) && params[j] != params[k];
    var oj := OrderEndingIn(params, j);
    var ok := OrderEndingIn(params, k);
    assert Resolve(params, oj, zone) != Resolve(params, ok, zone);
  }

  /** The loop's answer is the same for every iteration order exactly when it rejects the request or
      keys that fold together carry equal values. */
  lemma OrderIrrelevantExactly(params: map<string, string>, zone: string)
    ensures OrderIrrelevant(params, zone) <==> !AllKnown(params) || (Agree(params, "type") && Agree(params, "zone"))
  {
    if AllKnown(params) {
      if Agree(params, "type") && Agree(params, "zone") {
        forall o1, o2 | Enumerates(o1, params) && Enumerates(o2, params)
          ensures Resolve(params, o1, zone) == Resolve(params, o2, zone)
        {
          AgreementFixesValue(params, o1, o2, "type", DISK_TYPE_DEFAULT);
          AgreementFixesValue(params, o1, o2, "zone", zone);
        }
      } else if !Agree(params, "type") {
        DisagreementShows(params, "type", zone);
      } else {
        DisagreementShows(params, "zone", zone);
      }
    }
  }
}
