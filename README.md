# EEI import compatibility check

This project models the check that erdpy runs on a smart-contract project before building it. The project's WASM output imports environment-interface (EEI) functions by name. For each of two networks, mainnet and devnet, a registry of activation flags says whether each function is active (`True`), not active (`False`) or unknown (`None`).

- The per-network check walks the imports once, in order. It collects the inactive names in a list `not_active` and the unknown names in a list `not_active_maybe`. The network counts as fully compatible only when both lists are empty.
- The project-level check returns at once when the option `eei-checks-skip` is exactly `True`. Otherwise it reads the imports file and judges both networks. If `eei-checks-ignore` is exactly `True`, it then returns. Otherwise it raises `NotSupportedProjectFeature` when either network is incompatible.

Everything is in one module, `EeiChecks` (`eei_checks.dfy`):

- A registry is a total function from a name to `Activation` (`Active | Inactive | Unknown`).
- Project options are a lookup from a key to `OptionValue`. Only `BoolValue(true)` is Python's `True`. Integers and strings stand for truthy values that are not `True`.
- The imports file is `Parsed(names)` or `Unreadable`. This shows that a skipped check never reads the file.
- `Matching` is the reference definition of both lists. It is an ordered filter of the imports by registry answer.
- `CheckImportsCompatibility` is the loop of the source. It returns the two lists, which the source builds in order to log them, together with the verdict. It is proved equal to `Matching`.
- `CheckCompatibility` is the skip/ignore/raise decision. It returns a `CheckOutcome` that records how the call ends and which per-network verdicts were computed.

## Model

| member | source | states |
|---|---|---|
| EeiChecks.CheckImportsCompatibility | erdpy/projects/eei_checks.py:45-65 | the two lists are exactly the inactive and the unknown imports in import order; the verdict holds iff every import is reported active; the two lists together are no longer than the imports |
| EeiChecks.Matching | erdpy/projects/eei_checks.py:52-57 | each collected name is an import for which the registry gives the requested answer; the list is no longer than the imports |
| EeiChecks.MatchingAppend | erdpy/projects/eei_checks.py:52-57 | collecting over a concatenation gives the prefix's names followed by the rest's names, so import order is kept |
| EeiChecks.MatchingMembership | erdpy/projects/eei_checks.py:52-57 | a name is in a list iff it is imported and the registry gives that list's answer for it (both directions) |
| EeiChecks.MatchingPartition | erdpy/projects/eei_checks.py:52-57 | every import position lands in exactly one of active, `not_active`, `not_active_maybe`; the three lengths sum to the number of imports |
| EeiChecks.AllActiveIffNothingElse | erdpy/projects/eei_checks.py:52-64 | all imports are active iff both `not_active` and `not_active_maybe` are empty |
| EeiChecks.CompatibleIffAllActive | erdpy/projects/eei_checks.py:52-65 | `ImportsCompatible`, line 64's `fully_compatible` (the two lists together are empty), holds iff the registry reports every import active (both directions) |
| EeiChecks.EmptyImportsCompatible | erdpy/projects/eei_checks.py:49-65 | an empty import list is compatible with every registry |
| EeiChecks.CheckCompatibility | erdpy/projects/eei_checks.py:17-34 | the outcome is a skip iff skip is exactly `True`; otherwise a read error raises; otherwise the outcome is ignored iff ignore is exactly `True`; an ignored or raised outcome carries both per-network verdicts; a raise means some network failed, and a normal end past the ignore test means both passed |
| EeiChecks.SkipNeverConsultsInputs | erdpy/projects/eei_checks.py:17-19 | with skip exactly `True`, the outcome is the same for any imports file and any registries, and nothing is raised |
| EeiChecks.IgnoreEvaluatesBothAndReturns | erdpy/projects/eei_checks.py:27-31 | with skip unset and ignore exactly `True`, both networks are judged on the imports and the call returns without raising |
| EeiChecks.RaisesIffSomeImportNotActive | erdpy/projects/eei_checks.py:27-34 | with neither option exactly `True`, `NotSupportedProjectFeature` is raised iff some import is not reported active on mainnet or on devnet; otherwise the call returns normally |
| EeiChecks.SkipOnlyWhenExactlyTrue | erdpy/projects/eei_checks.py:37-38 | `ShouldSkipChecks` (`_should_skip_checks`) holds iff the skip option is exactly `True`; any other value (missing, `False`, a truthy integer or string) gives the same outcome as an unset option |
| EeiChecks.IgnoreOnlyWhenExactlyTrue | erdpy/projects/eei_checks.py:41-42 | `ShouldIgnoreChecks` (`_should_ignore_checks`) holds iff the ignore option is exactly `True`; any other value (missing, `False`, a truthy integer or string) gives the same outcome as an unset option |
| EeiChecks.EmptyImportsNeverRaise | erdpy/projects/eei_checks.py:17-34 | a readable imports file with no imports never raises, whatever the options |

## Left out

- `EEIRegistry.sync_flags` fetches the enable-epoch flags over the network. Each registry is taken as already synchronised, so a failed fetch, and the exception it raises, is not modelled.
- `EEIRegistry.is_function_active` and `ActivationKnowledge` (`erdpy/projects/eei_registry.py`, `erdpy/projects/eei_activation.py`) are not part of this model. The per-network answer is an abstract total function from name to a three-valued answer. The proxy and enable-epochs URL constants are therefore not used.
- `IProject.get_option` and `IProject.get_file_wasm` (`erdpy/projects/interfaces.py`) are not part of this model. Options are an abstract lookup. A missing option reads as `NoneValue`.
- `utils.read_json_file` and `project.get_file_wasm()` are file I/O. The model assumes the imports file holds a JSON list of strings (`Parsed`). Every other case is represented by `Unreadable`, which raises before any network is judged: a failure of `project.get_file_wasm()`, a read or parse error, and any other JSON content. In the source such other content is not rejected at read time. The loop then iterates whatever was parsed: an object by its keys, a string by its characters. A `null` value raises a TypeError only inside the loop, after mainnet's `sync_flags`. None of these behaviours is modelled.
- Logging of the two lists (`logger.error`, `logger.warn`, `logger.info`) is output only. The lists are returned by `CheckImportsCompatibility` in place of being logged.
- The transaction dispatcher (`enqueue`, `dispatch`, `dispatch-continuously`, `clean`) lives in `erdpy.facade`; `cli.py` only forwards to it, and it is not modelled here.
- `cli.py` parser construction and subcommand wiring: argument-parsing plumbing.
- `multiversx_sdk_cli/localnet/step_clean.py`: it reads a config file and removes a folder, which is filesystem I/O only.
