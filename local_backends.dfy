/** The local simulator tables the `TestBackendNames` cases run against: one
    qasm simulator group whose priority list puts the C++ simulator ahead of
    the Python one, and one deprecated name for the C++ simulator. Whether
    the C++ simulator is installed is the parameter `cppAvailable`. */
module LocalBackends {
  import opened Resolution
  import opened NameResolution

  const QasmGroup := "local_qasm_simulator"
  const QasmCpp := "local_qasm_simulator_cpp"
  const QasmPy := "local_qasm_simulator_py"
  const DeprecatedQiskit := "local_qiskit_simulator"

  function LocalTables(cppAvailable: bool): Tables
  {
    Tables(
      map[QasmCpp := Backend(QasmCpp, cppAvailable), QasmPy := Backend(QasmPy, true)],
      map[DeprecatedQiskit := QasmCpp],
      map[],
      map[QasmGroup := [QasmCpp, QasmPy]])
  }

  lemma LocalTablesWellFormed(cppAvailable: bool)
    ensures WellFormed(LocalTables(cppAvailable))
  {
  }

  /** The qasm simulator group resolves to the C++ simulator when it is
      installed and to the Python simulator otherwise. */
  lemma LocalGroups(cppAvailable: bool)
    ensures Resolve(LocalTables(cppAvailable), QasmGroup) ==
      Found(if cppAvailable then Backend(QasmCpp, true) else Backend(QasmPy, true))
  {
    var t := LocalTables(cppAvailable);
    var candidates := t.groups[QasmGroup];
    assert candidates[1..] == [QasmPy];
    assert FirstRegistered(t.registry, [QasmPy]) == Some(Backend(QasmPy, true));
    assert FirstRegistered(t.registry, candidates) ==
      Some(if cppAvailable then Backend(QasmCpp, true) else Backend(QasmPy, true));
  }

  /** The deprecated name resolves to the C++ simulator when it is installed;
      otherwise it fails with the lookup error. */
  lemma LocalDeprecated(cppAvailable: bool)
    ensures cppAvailable ==> Resolve(LocalTables(cppAvailable), DeprecatedQiskit) == Found(Backend(QasmCpp, true))
    ensures !cppAvailable ==> Resolve(LocalTables(cppAvailable), DeprecatedQiskit) == NotFound(DeprecatedQiskit)
  {
    LocalTablesWellFormed(cppAvailable);
    DeprecatedEquivalence(LocalTables(cppAvailable), DeprecatedQiskit);
  }

  /** A name in no table fails with the lookup error. */
  lemma BadName(cppAvailable: bool)
    ensures Resolve(LocalTables(cppAvailable), "bad_name") == NotFound("bad_name")
  {
  }
}
