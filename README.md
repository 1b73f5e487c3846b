# Backend name resolution

A model of the name-resolution layer of the qiskit backend providers (`Aer`,
`IBMQ`), as its behaviour is pinned down by
`test/python/test_backend_name_resolution.py`. A user-supplied backend
identifier is mapped to one backend handle:

- a canonical name resolves to its own backend;
- a deprecated name or an account display alias resolves to the same handle
  as the canonical name it stands for;
- an aggregate group name resolves to the first entry of its priority list
  that can be resolved;
- every other name fails with the single error kind `NotFound`, which stands
  for both the `KeyError` and the `LookupError` the tests catch.

The provider code itself is not part of this model, so the resolver is
modelled abstractly, as pure functions over plain data:

- `resolution.dfy` (module `Resolution`): the tables (`Tables`: a registry
  of `Backend(name, available)` keyed by canonical name, a deprecated-name
  map, an alias map and a group map), the well-formedness predicate of those
  tables, and `Resolve`, the model of `get_backend`.
- `available_scan.dfy` (module `AvailableScan`): the test's helper
  `_get_first_available_backend`, as a recursive specification function
  `FirstAvailable` and as the loop the test writes, `GetFirstAvailableBackend`,
  proved equal to it.
- `name_resolution.dfy` (module `NameResolution`): every assertion of
  `TestBackendNameResolution` as a lemma over all well-formed tables.
- `local_backends.dfy` (module `LocalBackends`): local simulator tables with
  the names used in `TestBackendNames`, and its two cases plus the failing
  lookup as lemmas, for both values of "the C++ simulator is installed".

Decisions the model makes:

- A backend that is registered but not available cannot be fetched, even
  by its exact name: resolving it gives `NotFound`. Honouring an exact name
  whatever the availability would be the other reading, and the tests rule
  it out: `test_aggregate` compares a group with
  `get_backend` of the first entry that `get_backend` accepts, and
  lines 31-32 skip the C++ simulator when it is not installed. Under the
  exact-name rule the group assertion would fail for a group whose first
  entry is registered but unavailable. The model follows the tests.
- `Resolve` checks the tables in the order exact name, alias, deprecated
  name, group. Every lemma assumes `WellFormed`. Under it no name is a key of
  two tables, and every table value is a candidate name, one that is not an
  alias, deprecated or group key. So no proved property depends on that order.
- `NotFound` carries the name the caller asked for, also when the failure
  comes from an alias or deprecated target.
- The example tables hold only the names the test uses. The Python simulator
  is added as `local_qasm_simulator_py`. That name is illustrative, and the
  alias map there is empty, as it is before an account is set up.

## Model

| member | source | states |
|---|---|---|
| `Resolution.Resolve` | test/python/test_backend_name_resolution.py:35-39 | a successful resolution returns a registered backend that is available; a failure is `NotFound` of the requested name |
| `Resolution.FirstRegistered` | test/python/test_backend_name_resolution.py:63-73 | the group scan returns an available registered backend listed among the candidates, and returns none only when no candidate can be fetched |
| `AvailableScan.FirstAvailableIsFirstResolvable` | test/python/test_backend_name_resolution.py:102-110 | the helper returns `None` exactly when no entry resolves (an empty list included), and otherwise the name of the backend resolved for the first entry that resolves, every earlier entry failing |
| `AvailableScan.FirstAvailableIsListed` | test/python/test_backend_name_resolution.py:102-110 | on a list of candidate names the name returned is the first resolvable entry itself, so it is a member of the list |
| `AvailableScan.GetFirstAvailableBackend` | test/python/test_backend_name_resolution.py:102-110 | the loop with early return and swallowed failures computes exactly the left-to-right first-success scan |
| `NameResolution.ExactName` | test/python/test_backend_name_resolution.py:35-39 | a registered name resolves to its own backend when available and to the lookup failure when not |
| `NameResolution.ResolvedNameRoundTrip` | test/python/test_backend_name_resolution.py:70-73 | resolving the name of a resolved backend gives the same backend back |
| `NameResolution.CandidateResolution` | test/python/test_backend_name_resolution.py:35-39 | a candidate name resolves only through the registry |
| `NameResolution.DeprecatedEquivalence` | test/python/test_backend_name_resolution.py:30-41 | an old name resolves if and only if its new name does, to the identical backend; a new name that is not installed makes the old name fail with the ordinary `NotFound` |
| `NameResolution.AliasEquivalence` | test/python/test_backend_name_resolution.py:50-61 | when the canonical name resolves, the display name resolves to the same backend and that backend's name is the canonical name; otherwise the display name fails with `NotFound` |
| `NameResolution.ScansAgree` | test/python/test_backend_name_resolution.py:66-73 | on candidate names the resolver's group scan and the test's first-available scan pick the same backend |
| `NameResolution.GroupFallback` | test/python/test_backend_name_resolution.py:66-73 | a group resolves to the backend of the first entry of its priority list that resolves; with no such entry it fails with `NotFound` |
| `NameResolution.UnknownName` | test/python/test_backend_name_resolution.py:75-77 | a name in no table fails with `NotFound` of that name |
| `LocalBackends.LocalTablesWellFormed` | test/python/test_backend_name_resolution.py:85-99 | the local simulator tables are well formed whether or not the C++ simulator is installed |
| `LocalBackends.LocalGroups` | test/python/test_backend_name_resolution.py:85-92 | `local_qasm_simulator` resolves to the C++ simulator when it is available and to the Python simulator otherwise |
| `LocalBackends.LocalDeprecated` | test/python/test_backend_name_resolution.py:94-99 | `local_qiskit_simulator` resolves to the C++ simulator when it is available, and fails with `NotFound` when it is not |
| `LocalBackends.BadName` | test/python/test_backend_name_resolution.py:75-77 | `bad_name` fails with `NotFound` |

## Left out

- IBMQ account setup and the remote fetch of display names (`IBMQ.use_account`, `@requires_qe_access`): network and authentication. The alias map is an input.
- Detecting whether the native C++ simulator is installed (`is_cpp_simulator_available`, `@requires_cpp_simulator`): it depends on the environment and becomes the backend's `available` flag.
- The simulator classes `QasmSimulatorPy` and `QasmSimulatorCpp`: backends are opaque name-plus-flag records, and the `isinstance` checks become comparisons with the expected backend.
- Test-harness machinery (`subTest`, `QiskitTestCase`, `assertRaises`) and the warning a provider logs for a deprecated name.
- The order among exact name, alias, deprecated name and group when one name is in several tables: the tests never exercise it, so every lemma assumes well-formed tables and none states a precedence.
- `Aer.backends(oldname)[0]` at line 41: the list-returning provider call is treated as the same `Resolve` as `get_backend`.
- Idempotence of resolution: `Resolve` is a function of the tables and the name, so two calls on the same tables agree by construction.
- The provider's own table contents: the provider code is not part of this model, so the lemmas hold for every well-formed set of tables. `LocalBackends` is one example instance.
- AvailableScan.FirstAvailableIsListed: the helper returns the name of the resolved backend, not the list entry. The two agree only for candidate names, so membership is stated for lists of candidate names.
