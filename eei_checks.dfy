/** A model of the WASM-import compatibility check that runs before a smart-contract
    project is built: every imported environment-interface (EEI) function is looked up
    in a per-network registry of activation flags; the project is compatible with a
    network only when every import is known to be active there, and the check raises
    NotSupportedProjectFeature unless the project options skip or ignore it.
 */
module EeiChecks {

  /** What the registry answers for one function name: the source's `True`, `False`
      and `None`. */
  datatype Activation = Active | Inactive | Unknown

  /** The registry of one network after its flags were synchronised: a fixed answer
      per function name. */
  type Registry = string -> Activation

  /** A value a project option can hold, as read from the project's configuration.
      `NoneValue` is also what a missing option reads as. */
  datatype OptionValue = NoneValue | BoolValue(b: bool) | IntValue(i: int) | StrValue(s: string)

  /** The project's option lookup. */
  type ProjectOptions = string -> OptionValue

  /** The contents of the `.imports.json` file next to the project's WASM output:
      either a JSON list of imported function names, or `Unreadable` for everything
      else (the WASM file cannot be located, the file cannot be read or parsed, or
      its content is not a list of strings), which the source lets propagate as an
      exception. */
  datatype ImportsFile = Parsed(names: seq<string>) | Unreadable

  /** How one call of the whole check ends. `Skipped`, `Ignored` and `Compatible`
      return normally; `ImportsUnreadable` and `NotSupported` raise. `Ignored` and
      `NotSupported` carry the two per-network verdicts that were computed. */
  datatype CheckOutcome =
    | Skipped
    | ImportsUnreadable
    | Ignored(onMainnet: bool, onDevnet: bool)
    | Compatible
    | NotSupported(onMainnet: bool, onDevnet: bool)
  {
    predicate Raises() {
      ImportsUnreadable? || NotSupported?
    }
  }

  const SkipOption: string := "eei-checks-skip"
  const IgnoreOption: string := "eei-checks-ignore"

  /** Python's `value is True`: only the boolean `True` itself, never a merely
      truthy value. */
  predicate IsExactlyTrue(v: OptionValue) {
    v == BoolValue(true)
  }

  predicate ShouldSkipChecks(options: ProjectOptions) {
    IsExactlyTrue(options(SkipOption))
  }

  predicate ShouldIgnoreChecks(options: ProjectOptions) {
    IsExactlyTrue(options(IgnoreOption))
  }

  /** The imports, in their original order, for which the registry answers `status`. */
  function Matching(imports: seq<string>, registry: Registry, status: Activation): (r: seq<string>)
    ensures |r| <= |imports|
    ensures forall x :: x in r ==> x in imports && registry(x) == status
  {
    if imports == [] then []
    else if registry(imports[0]) == status then [imports[0]] + Matching(imports[1..], registry, status)
    else Matching(imports[1..], registry, status)
  }

  /** The verdict of one network: no import is reported inactive and none unknown. */
  predicate ImportsCompatible(imports: seq<string>, registry: Registry) {
    |Matching(imports, registry, Inactive) + Matching(imports, registry, Unknown)| == 0
  }

  /** Selecting distributes over concatenation: the selected imports of a longer
      list are those of its prefix followed by those of the rest, so order is kept. */
  lemma {:induction false} MatchingAppend(a: seq<string>, b: seq<string>, registry: Registry, status: Activation)
    ensures Matching(a + b, registry, status) == Matching(a, registry, status) + Matching(b, registry, status)
  {
    if a == [] {
      assert a + b == b;
    } else {
      assert (a + b)[0] == a[0];
      assert (a + b)[1..] == a[1..] + b;
      MatchingAppend(a[1..], b, registry, status);
    }
  }

  /** A name is selected exactly when it is imported and the registry answers `status`. */
  lemma {:induction false} MatchingMembership(imports: seq<string>, registry: Registry, status: Activation, x: string)
    ensures x in Matching(imports, registry, status) <==> x in imports && registry(x) == status
  {
    if imports != [] {
      MatchingMembership(imports[1..], registry, status, x);
      assert x in imports <==> x == imports[0] || x in imports[1..];
    }
  }

  /** Every import lands in exactly one of the three answers: the two lists built by
      the check are disjoint by position, and together with the active imports they
      account for every import. */
  lemma {:induction false} MatchingPartition(imports: seq<string>, registry: Registry)
    ensures |Matching(imports, registry, Active)| + |Matching(imports, registry, Inactive)|
            + |Matching(imports, registry, Unknown)| == |imports|
  {
    if imports != [] {
      MatchingPartition(imports[1..], registry);
    }
  }

  /** Selecting `Active` keeps every import exactly when nothing is selected for
      the other two answers. */
  lemma {:induction false} AllActiveIffNothingElse(imports: seq<string>, registry: Registry)
    ensures Matching(imports, registry, Active) == imports
            <==> Matching(imports, registry, Inactive) == [] && Matching(imports, registry, Unknown) == []
  {
    MatchingPartition(imports, registry);
    if imports != [] {
      AllActiveIffNothingElse(imports[1..], registry);
      if registry(imports[0]) == Active {
        assert Matching(imports, registry, Active) == [imports[0]] + Matching(imports[1..], registry, Active);
      }
    }
  }

  /** A network is compatible exactly when the registry reports every import active. */
  lemma {:induction false} CompatibleIffAllActive(imports: seq<string>, registry: Registry)
    ensures ImportsCompatible(imports, registry)
            <==> forall i :: 0 <= i < |imports| ==> registry(imports[i]) == Active
  {
    if forall i :: 0 <= i < |imports| ==> registry(imports[i]) == Active {
      var rejected := Matching(imports, registry, Inactive) + Matching(imports, registry, Unknown);
      if rejected != [] {
        assert rejected[0] in rejected;
        var k :| 0 <= k < |imports| && imports[k] == rejected[0];
        assert false;
      }
    } else {
      var k :| 0 <= k < |imports| && registry(imports[k]) != Active;
      var status := registry(imports[k]);
      MatchingMembership(imports, registry, status, imports[k]);
      assert imports[k] in Matching(imports, registry, status);
    }
  }

  /** An empty import list is compatible with every network. */
  lemma EmptyImportsCompatible(registry: Registry)
    ensures ImportsCompatible([], registry)
  {
  }

  /** The per-network check: one pass over the imports collects, in order, the ones
      the registry reports inactive and the ones it cannot tell about; the network is
      fully compatible when both lists are empty. The two lists are what the source
      logs as an error and as a warning. */
  method CheckImportsCompatibility(imports: seq<string>, registry: Registry)
    returns (notActive: seq<string>, notActiveMaybe: seq<string>, fullyCompatible: bool)
    ensures notActive == Matching(imports, registry, Inactive)
    ensures notActiveMaybe == Matching(imports, registry, Unknown)
    ensures fullyCompatible == ImportsCompatible(imports, registry)
    ensures fullyCompatible <==> forall i :: 0 <= i < |imports| ==> registry(imports[i]) == Active
    ensures |notActive| + |notActiveMaybe| <= |imports|
  {
    notActive := [];
    notActiveMaybe := [];
    for i := 0 to |imports|
      invariant notActive == Matching(imports[..i], registry, Inactive)
      invariant notActiveMaybe == Matching(imports[..i], registry, Unknown)
    {
      var functionName := imports[i];
      assert imports[..i + 1] == imports[..i] + [functionName];
      MatchingAppend(imports[..i], [functionName], registry, Inactive);
      MatchingAppend(imports[..i], [functionName], registry, Unknown);
      var isActive := registry(functionName);
      if isActive == Inactive {
        notActive := notActive + [functionName];
      } else if isActive == Unknown {
        notActiveMaybe := notActiveMaybe + [functionName];
      }
    }
    assert imports[..|imports|] == imports;
    fullyCompatible := |notActive + notActiveMaybe| == 0;
    CompatibleIffAllActive(imports, registry);
    MatchingPartition(imports, registry);
  }

  /** The whole check: skip at once when asked to, otherwise read the imports and
      judge both networks, then return when asked to ignore the verdicts, and raise
      when either network is incompatible. */
  function CheckCompatibility(options: ProjectOptions, importsFile: ImportsFile,
                              mainnet: Registry, devnet: Registry): (r: CheckOutcome)
    ensures r.Skipped? <==> ShouldSkipChecks(options)
    ensures r.ImportsUnreadable? <==> !ShouldSkipChecks(options) && importsFile.Unreadable?
    ensures r.Ignored? <==> !ShouldSkipChecks(options) && importsFile.Parsed? && ShouldIgnoreChecks(options)
    ensures (r.Ignored? || r.NotSupported?) ==>
              r.onMainnet == ImportsCompatible(importsFile.names, mainnet)
              && r.onDevnet == ImportsCompatible(importsFile.names, devnet)
    ensures r.NotSupported? ==> !(r.onMainnet && r.onDevnet)
    ensures r.Compatible? ==> ImportsCompatible(importsFile.names, mainnet)
                              && ImportsCompatible(importsFile.names, devnet)
  {
    if ShouldSkipChecks(options) then Skipped
    else match importsFile
      case Unreadable => ImportsUnreadable
      case Parsed(imports) =>
        var compatibleWithMainnet := ImportsCompatible(imports, mainnet);
        var compatibleWithDevnet := ImportsCompatible(imports, devnet);
        if ShouldIgnoreChecks(options) then Ignored(compatibleWithMainnet, compatibleWithDevnet)
        else if !compatibleWithMainnet || !compatibleWithDevnet then NotSupported(compatibleWithMainnet, compatibleWithDevnet)
        else Compatible
  }

  /** With the skip option exactly `True`, neither the imports nor either registry
      has any influence on the outcome, and nothing is raised. */
  lemma SkipNeverConsultsInputs(options: ProjectOptions, file1: ImportsFile, file2: ImportsFile,
                                mainnet1: Registry, mainnet2: Registry, devnet1: Registry, devnet2: Registry)
    requires options(SkipOption) == BoolValue(true)
    ensures CheckCompatibility(options, file1, mainnet1, devnet1)
            == CheckCompatibility(options, file2, mainnet2, devnet2) == Skipped
    ensures !CheckCompatibility(options, file1, mainnet1, devnet1).Raises()
  {
  }

  /** With skip unset and ignore exactly `True`, both networks are still judged on
      the parsed imports and the check returns without raising. */
  lemma IgnoreEvaluatesBothAndReturns(options: ProjectOptions, imports: seq<string>,
                                      mainnet: Registry, devnet: Registry)
    requires !IsExactlyTrue(options(SkipOption)) && options(IgnoreOption) == BoolValue(true)
    ensures CheckCompatibility(options, Parsed(imports), mainnet, devnet)
            == Ignored(ImportsCompatible(imports, mainnet), ImportsCompatible(imports, devnet))
    ensures !CheckCompatibility(options, Parsed(imports), mainnet, devnet).Raises()
  {
  }

  /** With neither option exactly `True`, NotSupportedProjectFeature is raised exactly
      when some import is not reported active on mainnet or on devnet. */
  lemma {:induction false} RaisesIffSomeImportNotActive(options: ProjectOptions, imports: seq<string>,
                                                         mainnet: Registry, devnet: Registry)
    requires !IsExactlyTrue(options(SkipOption)) && !IsExactlyTrue(options(IgnoreOption))
    ensures CheckCompatibility(options, Parsed(imports), mainnet, devnet).NotSupported?
            <==> exists i :: 0 <= i < |imports| && (mainnet(imports[i]) != Active || devnet(imports[i]) != Active)
    ensures !CheckCompatibility(options, Parsed(imports), mainnet, devnet).NotSupported?
            ==> CheckCompatibility(options, Parsed(imports), mainnet, devnet) == Compatible
  {
    CompatibleIffAllActive(imports, mainnet);
    CompatibleIffAllActive(imports, devnet);
  }

  /** The skip option counts as set only when it holds exactly `True`: any other
      value, missing, `False`, or a truthy integer or string, does not skip and gives
      the same outcome as no value at all. */
  lemma SkipOnlyWhenExactlyTrue(options: ProjectOptions, importsFile: ImportsFile,
                                mainnet: Registry, devnet: Registry)
    ensures ShouldSkipChecks(options) <==> options(SkipOption) == BoolValue(true)
    ensures options(SkipOption) != BoolValue(true) ==>
              CheckCompatibility(options, importsFile, mainnet, devnet)
              == CheckCompatibility((k: string) => if k == SkipOption then NoneValue else options(k),
                                    importsFile, mainnet, devnet)
  {
  }

  /** The ignore option counts as set only when it holds exactly `True`: any other
      value, missing, `False`, or a truthy integer or string, does not ignore and gives
      the same outcome as no value at all. */
  lemma IgnoreOnlyWhenExactlyTrue(options: ProjectOptions, importsFile: ImportsFile,
                                  mainnet: Registry, devnet: Registry)
    ensures ShouldIgnoreChecks(options) <==> options(IgnoreOption) == BoolValue(true)
    ensures options(IgnoreOption) != BoolValue(true) ==>
              CheckCompatibility(options, importsFile, mainnet, devnet)
              == CheckCompatibility((k: string) => if k == IgnoreOption then NoneValue else options(k),
                                    importsFile, mainnet, devnet)
  {
  }

  /** A readable imports file of no imports never raises, whatever the options. */
  lemma EmptyImportsNeverRaise(options: ProjectOptions, mainnet: Registry, devnet: Registry)
    ensures !CheckCompatibility(options, Parsed([]), mainnet, devnet).Raises()
  {
  }
}
