/** The name-resolution layer of the backend providers: a requested name
    (canonical, display alias, deprecated or aggregate group name) is mapped
    to one backend handle, or to the single error kind NotFound. */
module Resolution {

  datatype Option<+T> = None | Some(value: T)

  /** An opaque backend handle: its canonical name and whether it can
      currently be used (the optional C++ simulator may be missing). */
  datatype Backend = Backend(name: string, available: bool)

  /** The outcome of a resolution; NotFound carries the requested name. */
  datatype Resolved = Found(backend: Backend) | NotFound(requested: string)

  /** The provider's tables, populated once before any resolution. */
  datatype Tables = Tables(
    registry: map<string, Backend>,        // canonical name -> backend
    deprecated: map<string, string>,       // old name -> canonical name
    aliases: map<string, string>,          // display name -> canonical name
    groups: map<string, seq<string>>)      // group name -> priority list

  /** A name that is not a key of the alias, deprecated or group table:
      the kind of name the tables point to. */
  ghost predicate IsCandidate(t: Tables, n: string)
  {
    n !in t.aliases && n !in t.deprecated && n !in t.groups
  }

  /** The shape the providers' tables have: the registry is keyed by the
      backends' own names, no name is a key of two tables, and every value
      of the alias, deprecated and group tables is a candidate name (which
      need not be registered). */
  ghost predicate WellFormed(t: Tables)
  {
    && (forall n :: n in t.registry ==> t.registry[n].name == n && IsCandidate(t, n))
    && (forall n :: n in t.aliases ==> n !in t.deprecated && n !in t.groups)
    && (forall n :: n in t.deprecated ==> n !in t.groups)
    && (forall n :: n in t.aliases ==> IsCandidate(t, t.aliases[n]))
    && (forall n :: n in t.deprecated ==> IsCandidate(t, t.deprecated[n]))
    && (forall g, i :: g in t.groups && 0 <= i < |t.groups[g]| ==> IsCandidate(t, t.groups[g][i]))
  }

  /** Fetching a backend by its exact canonical name. A backend that is
      registered but not available cannot be fetched. */
  function Lookup(reg: map<string, Backend>, name: string): Option<Backend>
  {
    if name in reg && reg[name].available then Some(reg[name]) else None
  }

  /** The group scan: the backend of the first candidate that can be fetched. */
  function FirstRegistered(reg: map<string, Backend>, candidates: seq<string>): (r: Option<Backend>)
    ensures r.Some? ==> r.value.available
    ensures r.Some? ==> exists i :: 0 <= i < |candidates| && candidates[i] in reg && reg[candidates[i]] == r.value
    ensures r.None? ==> forall i :: 0 <= i < |candidates| ==> Lookup(reg, candidates[i]).None?
    decreases |candidates|
  {
    if candidates == [] then None
    else if Lookup(reg, candidates[0]).Some? then Lookup(reg, candidates[0])
    else
      var rest := FirstRegistered(reg, candidates[1..]);
      assert forall i :: 1 <= i < |candidates| ==> candidates[i] == candidates[1..][i - 1];
      rest
  }

  function FromOption(o: Option<Backend>, name: string): Resolved
  {
    match o
    case Some(b) => Found(b)
    case None => NotFound(name)
  }

  /** `get_backend(name)`: exact name, then alias, then deprecated name, then
      group. Its result is never an unavailable or unregistered backend, and
      a failure reports the name the caller asked for. */
  function Resolve(t: Tables, name: string): (r: Resolved)
    ensures r.Found? ==> r.backend.available && r.backend in t.registry.Values
    ensures r.NotFound? ==> r.requested == name
  {
    if name in t.registry then FromOption(Lookup(t.registry, name), name)
    else if name in t.aliases then FromOption(Lookup(t.registry, t.aliases[name]), name)
    else if name in t.deprecated then FromOption(Lookup(t.registry, t.deprecated[name]), name)
    else if name in t.groups then FromOption(FirstRegistered(t.registry, t.groups[name]), name)
    else NotFound(name)
  }
}
