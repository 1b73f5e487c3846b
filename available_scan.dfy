/** The test suite's helper `_get_first_available_backend`: the name of the
    backend that the first resolvable entry of a priority list resolves to. */
module AvailableScan {
  import opened Resolution

  /** Entry i is the first entry of `names` whose resolution succeeds. */
  ghost predicate IsFirstResolvable(t: Tables, names: seq<string>, i: int)
  {
    && 0 <= i < |names|
    && Resolve(t, names[i]).Found?
    && forall j :: 0 <= j < i ==> Resolve(t, names[j]).NotFound?
  }

  /** Left-to-right first-success scan; a failing lookup falls through to the
      next entry, and running off the end gives None. */
  function FirstAvailable(t: Tables, names: seq<string>): Option<string>
    decreases |names|
  {
    if names == [] then None
    else match Resolve(t, names[0])
      case Found(b) => Some(b.name)
      case NotFound(_) => FirstAvailable(t, names[1..])
  }

  /** The scan returns None exactly when no entry resolves, and otherwise
      the name of the backend resolved for the first entry that does. */
  lemma {:induction false} FirstAvailableIsFirstResolvable(t: Tables, names: seq<string>)
    ensures FirstAvailable(t, names).None? <==> forall j :: 0 <= j < |names| ==> Resolve(t, names[j]).NotFound?
    ensures FirstAvailable(t, names).Some? ==>
      exists i :: IsFirstResolvable(t, names, i) && FirstAvailable(t, names).value == Resolve(t, names[i]).backend.name
    decreases |names|
  {
    if names != [] && Resolve(t, names[0]).NotFound? {
      FirstAvailableIsFirstResolvable(t, names[1..]);
      assert forall j :: 1 <= j < |names| ==> names[j] == names[1..][j - 1];
      if FirstAvailable(t, names[1..]).Some? {
        var i :| IsFirstResolvable(t, names[1..], i) && FirstAvailable(t, names[1..]).value == Resolve(t, names[1..][i]).backend.name;
        assert IsFirstResolvable(t, names, i + 1);
      }
    } else if names != [] {
      assert IsFirstResolvable(t, names, 0);
    }
  }

  /** When every entry is a candidate canonical name, the name returned is the
      first resolvable entry itself, so it is a member of the list. */
  lemma FirstAvailableIsListed(t: Tables, names: seq<string>)
    requires WellFormed(t)
    requires forall j :: 0 <= j < |names| ==> IsCandidate(t, names[j])
    ensures FirstAvailable(t, names).Some? ==>
      exists i :: IsFirstResolvable(t, names, i) && FirstAvailable(t, names).value == names[i]
  {
    FirstAvailableIsFirstResolvable(t, names);
    if FirstAvailable(t, names).Some? {
      var i :| IsFirstResolvable(t, names, i) && FirstAvailable(t, names).value == Resolve(t, names[i]).backend.name;
      assert IsCandidate(t, names[i]);
    }
  }

  /** The helper as the test writes it: a loop that returns on the first
      successful lookup and swallows the failures. */
  method GetFirstAvailableBackend(t: Tables, names: seq<string>) returns (r: Option<string>)
    ensures r == FirstAvailable(t, names)
  {
    var k := 0;
    while k < |names|
      invariant 0 <= k <= |names|
      invariant FirstAvailable(t, names) == FirstAvailable(t, names[k..])
    {
      assert names[k..][1..] == names[k + 1..];
      var res := Resolve(t, names[k]);
      if res.Found? {
        return Some(res.backend.name);
      }
      k := k + 1;
    }
    return None;
  }
}
