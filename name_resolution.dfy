/** The resolution contract that the backend-name-resolution tests assert,
    stated for every well-formed set of tables. */
module NameResolution {
  import opened Resolution
  import opened AvailableScan

  /** A registered canonical name resolves to its own backend when that
      backend is available, and to the ordinary lookup failure otherwise. */
  lemma ExactName(t: Tables, n: string)
    requires WellFormed(t) && n in t.registry
    ensures t.registry[n].available ==> Resolve(t, n) == Found(t.registry[n])
    ensures !t.registry[n].available ==> Resolve(t, n) == NotFound(n)
  {
  }

  /** The name of a resolved backend resolves back to that same backend; the
      group test relies on this when it passes `name()` to `get_backend`. */
  lemma ResolvedNameRoundTrip(t: Tables, n: string)
    requires WellFormed(t)
    ensures Resolve(t, n).Found? ==> Resolve(t, Resolve(t, n).backend.name) == Resolve(t, n)
  {
    if Resolve(t, n).Found? {
      var b := Resolve(t, n).backend;
      var c :| c in t.registry && t.registry[c] == b;
      assert b.name == c;
    }
  }

  /** A candidate name resolves only through the registry. */
  lemma CandidateResolution(t: Tables, n: string)
    requires WellFormed(t) && IsCandidate(t, n)
    ensures Resolve(t, n) == FromOption(Lookup(t.registry, n), n)
  {
  }

  /** Deprecated names: the old name resolves exactly when the new name does,
      to the identical backend; a new name that is not installed makes the old
      name fail with the ordinary lookup error, not an internal one. */
  lemma DeprecatedEquivalence(t: Tables, oldName: string)
    requires WellFormed(t) && oldName in t.deprecated
    ensures Resolve(t, t.deprecated[oldName]).Found? <==> Resolve(t, oldName).Found?
    ensures Resolve(t, t.deprecated[oldName]).Found? ==> Resolve(t, oldName) == Resolve(t, t.deprecated[oldName])
    ensures Resolve(t, t.deprecated[oldName]).NotFound? ==> Resolve(t, oldName) == NotFound(oldName)
  {
    CandidateResolution(t, t.deprecated[oldName]);
  }

  /** Display aliases: when the canonical name resolves, the display name
      resolves to the same backend and that backend's name is the canonical
      name; otherwise the display name fails with the lookup error. */
  lemma AliasEquivalence(t: Tables, display: string)
    requires WellFormed(t) && display in t.aliases
    ensures Resolve(t, t.aliases[display]).Found? ==>
      Resolve(t, display) == Resolve(t, t.aliases[display]) &&
      Resolve(t, display).backend.name == t.aliases[display]
    ensures Resolve(t, t.aliases[display]).NotFound? ==> Resolve(t, display) == NotFound(display)
  {
    CandidateResolution(t, t.aliases[display]);
  }

  /** On a list of candidate names the resolver's group scan and the test's
      first-available scan pick the same entry. */
  lemma {:induction false} ScansAgree(t: Tables, names: seq<string>)
    requires WellFormed(t)
    requires forall j :: 0 <= j < |names| ==> IsCandidate(t, names[j])
    ensures FirstAvailable(t, names).None? <==> FirstRegistered(t.registry, names).None?
    ensures FirstAvailable(t, names).Some? ==>
      Resolve(t, FirstAvailable(t, names).value) == Found(FirstRegistered(t.registry, names).value)
    decreases |names|
  {
    if names != [] {
      CandidateResolution(t, names[0]);
      if Lookup(t.registry, names[0]).None? {
        assert forall j :: 0 <= j < |names[1..]| ==> names[1..][j] == names[j + 1];
        ScansAgree(t, names[1..]);
      }
    }
  }

  /** Aggregate groups: when some entry of the priority list resolves, the
      group name resolves to the backend of the first entry that does; when
      none does, the group name fails with the lookup error. */
  lemma GroupFallback(t: Tables, group: string)
    requires WellFormed(t) && group in t.groups
    ensures FirstAvailable(t, t.groups[group]).Some? ==>
      Resolve(t, group).Found? && Resolve(t, group) == Resolve(t, FirstAvailable(t, t.groups[group]).value)
    ensures FirstAvailable(t, t.groups[group]).None? ==> Resolve(t, group) == NotFound(group)
  {
    ScansAgree(t, t.groups[group]);
  }

  /** A name that is in no table fails with the lookup error. */
  lemma UnknownName(t: Tables, n: string)
    requires n !in t.registry && n !in t.aliases && n !in t.deprecated && n !in t.groups
    ensures Resolve(t, n) == NotFound(n)
  {
  }
}
