# package_imports, modelled in Dafny

`package_imports(globals)` is a reflection helper. It walks a Python
namespace (a `name -> object` dictionary) in iteration order. It yields one
`(package_name, version)` pair for each module and for each other object
with a `__module__` attribute. That includes functions, classes and
instances defined in `__main__`, which give `("__main__", …)`. It handles
two kinds of object:

- **A module object** (`import numpy as np`). It is reported under its
  `__name__`, or under the binding's key when it has no `__name__`. The
  version is its `__version__`, else its `version` attribute, else `None`.
- **Any other object with a `__module__` attribute** (`from requests.models
  import Response`). It is reported under that full dotted path. The
  version is the `__version__` of the loaded module named by the path's
  first segment, looked up in `sys.modules`. It is `None` when that module
  is not loaded or has no `__version__`.

Every other object is skipped.

The model has four modules:

- `Optional` (`optional.dfy`): `Option`, for attributes that may be absent.
- `PyStrings` (`py_strings.dfy`): Python's `str.split(sep)` and
  `sep.join(parts)` for a non-empty list of pieces and a one-character separator. It also defines
  `TopLevel`, which is `origin.split('.')[0]`.
- `Scanner` (`package_imports.dfy`): the scanner itself.
  - Values are the datatype `Value = Module(PyModule) | Other(moduleAttr)`.
  - The namespace is a `seq<Binding>` in iteration order.
  - `sys.modules` becomes an explicit `Registry = map<string, PyModule>`.
  - The generator has two forms. `PackageImports` is a recursive function
    over the bindings. `Scan` is a loop that appends each record it would
    yield. `Scan` is proved to produce exactly `PackageImports`.
- `Scenarios` (`scenarios.dfy`): the scanner on small concrete namespaces.

Two behaviours of the code are easy to misread, and the model follows the code in both:

- A member object is reported under its full `__module__` path, because
  line 50 yields `obj.__module__`. The top-level segment is used only as the
  registry key.
- The output is not de-duplicated. Two bindings of the same module that has a
  `__name__` give two equal records (`Scanner.ModulesOnly`).

## Model

| member | source | states |
|---|---|---|
| PyStrings.Split | text-to-sql/utils/helper.py:44 | `split('.')` always gives at least one piece. No piece contains the separator. The first piece is a prefix of the input that ends at the first separator or at the end. |
| PyStrings.JoinSplit | text-to-sql/utils/helper.py:44 | Joining the pieces of a split with the separator restores the original string, so splitting loses no characters. |
| PyStrings.SplitJoin | text-to-sql/utils/helper.py:44 | Splitting the join of separator-free pieces restores exactly those pieces. This is the other half of the round trip. |
| PyStrings.TopLevel | text-to-sql/utils/helper.py:44 | The top-level package name is a prefix of the module path, contains no dot, and ends where the path ends or right before a dot. |
| PyStrings.TopLevelUnique | text-to-sql/utils/helper.py:44 | Any dot-free prefix that ends at a dot or at the end of the path equals the top-level name. So the name is exactly the text before the first dot. |
| PyStrings.TopLevelOfDotFree | text-to-sql/utils/helper.py:44 | A path without a dot is its own top-level package. |
| PyStrings.TopLevelOfDotted | text-to-sql/utils/helper.py:44 | For a dot-free `pkg`, the top-level package of `pkg + "." + rest` is `pkg`, whatever `rest` holds. |
| Scanner.ModuleVersion | text-to-sql/utils/helper.py:30-35 | A module's version is `__version__` whenever it exists, even if `version` also exists. Otherwise it is `version`. It is absent exactly when both attributes are absent. |
| Scanner.MemberVersion | text-to-sql/utils/helper.py:44-49 | A member's version is present exactly when the registry holds its top-level package and that module has `__version__`. When present, it is that `__version__`. |
| Scanner.Emit | text-to-sql/utils/helper.py:29-50 | A binding yields a record exactly when it holds a module or an object with `__module__`. A module is named by `__name__`, else by the key. A member is named by its full `__module__` path and carries the member version. |
| Scanner.PackageImports | text-to-sql/utils/helper.py:28-50 | The scan gives at most one record per binding, so an empty namespace gives none. |
| Scanner.PackageImportsAppend | text-to-sql/utils/helper.py:28 | Scanning two namespaces joined end to end gives the first one's records, in order, then the second one's. |
| Scanner.PackageImportsSingle | text-to-sql/utils/helper.py:28-50 | A one-binding namespace yields that binding's record, or nothing. |
| Scanner.RecordsAreInOrder | text-to-sql/utils/helper.py:28-50 | In any namespace, binding `i` contributes its own record, or nothing. That contribution sits between the records of the bindings before it and those after it. |
| Scanner.SkippedBindingIsInvisible | text-to-sql/utils/helper.py:41-43 | Removing a binding that is neither a module nor has `__module__` leaves the output unchanged. |
| Scanner.FullLengthIffAllEmit | text-to-sql/utils/helper.py:28-50 | The output has exactly one record per binding if and only if every bound value is a module or has `__module__`. |
| Scanner.RecordMembership | text-to-sql/utils/helper.py:28-50 | A record is in the output if and only if some binding yields it. |
| Scanner.ModulesOnly | text-to-sql/utils/helper.py:29-40 | A namespace of modules only yields one record per binding, at the same position. Each record is `(__name__ or key, __version__ or version or None)`. |
| Scanner.DunderVersionShadowsVersion | text-to-sql/utils/helper.py:30-33 | When a bound module has `__version__`, changing its `version` attribute leaves the whole scan output unchanged. |
| Scanner.MemberVersionReadsOnlyTopLevel | text-to-sql/utils/helper.py:44-49 | Two registries that agree on whether the top-level package is loaded, and on its `__version__`, give the same member version. |
| Scanner.MemberVersionIgnoresOtherAttributes | text-to-sql/utils/helper.py:47 | Changing the registered top-level module's `version` or `__name__` never changes a member's version. |
| Scanner.Scan | text-to-sql/utils/helper.py:28-50 | The loop visits bindings in iteration order and appends each record as it would be yielded. Its output equals `PackageImports`. |
| Scenarios.NumpyAlias | text-to-sql/utils/helper.py:29-40 | `np` bound to a module named `numpy` with `__version__` `1.26.0` yields exactly `[("numpy", "1.26.0")]`. |
| Scenarios.RequestsMember | text-to-sql/utils/helper.py:41-50 | An object from `requests.models`, with `requests` loaded at `2.31.0`, yields exactly `[("requests.models", "2.31.0")]`. |
| Scenarios.AlphaBetaGamma | text-to-sql/utils/helper.py:44-50 | An object from `alpha.beta.gamma` is looked up under `alpha`. It yields `("alpha.beta.gamma", "1.2.3")` from `alpha`'s `__version__`, not from its `version`. |
| Scenarios.UnloadedPackage | text-to-sql/utils/helper.py:45-49 | With an empty registry, a member object yields its path with no version. |
| Scenarios.AnonymousModuleAndPlainValue | text-to-sql/utils/helper.py:34-43 | A module with no `__name__` and no version attribute yields `(key, None)`. A following object without `__module__` yields nothing. |

## Left out

- Python's runtime type tests (`isinstance(obj, types.ModuleType)` and `types.ModuleType.__base__`, which is `object`): they become the split between the `Module` and `Other` constructors, so every non-module value reaches the `__module__` test.
- The process-wide `sys.modules`: it is an explicit read-only `Registry` parameter, fixed for the whole scan. The source reads `sys.modules` afresh at line 45 for each member, and the generator pauses at each `yield`. So imports the consumer does between yields, or concurrent changes by other threads, can change the versions of later records. The model does not express this.
- Attribute reads that raise an exception other than `AttributeError`: in the source such an exception propagates out of the generator. `hasattr` at lines 30, 32, 36 and 43 and `getattr(..., None)` at line 47 catch only `AttributeError`. The same holds for `obj.__module__` at lines 44 and 50 and for the `__class__` lookup behind `isinstance` at line 29 (for a non-module value). An example is a package whose module-level `__getattr__('__version__')` raises `PackageNotFoundError` when the package is not installed: line 30 then raises instead of falling back to `version`. `PyModule` and `Value` can only say "present" or "absent", so `Emit` and `PackageImports` are total and this error path is not modelled.
- Registry entries that map to `None`: a `map<string, PyModule>` cannot hold them. Such an entry is falsy at line 46, so it behaves like a missing entry, which the model does cover.
- The truthiness test on the looked-up module (line 46): it is modelled as "present in the registry". Plain module objects are truthy. A falsy registry value is not modelled: a `ModuleType` subclass with `__bool__` or `__len__`, or a non-module object placed in `sys.modules`. For such a value, line 46 reports no version even though the key is present.
- Generator laziness and stopping early: the output is a finite sequence.
- Changes to the namespace during the scan: the model scans a fixed `seq<Binding>`. The source iterates the live `globals.items()` and pauses at each `yield`. If the dictionary gains or loses a key while the generator is consumed, Python raises `RuntimeError` at line 28 when the generator resumes. A module-level `for name, version in package_imports(globals()):` triggers this, because its loop variables are new globals. The model assumes the namespace does not change size during the scan and does not model that error.
- Attribute values that are not strings (a version that is a tuple or an object): every attribute is an `Option<string>`. `None` in the model means the attribute is absent. So an attribute that is present with the value `None` cannot be written, and it behaves differently in the source. `__version__ = None` stops the fallback to `version` (lines 30-31), and the record's version is `None`. `__name__ = None` is yielded in place of the key (lines 36-37).
- Objects whose `__module__` is `None` or not a string: `.split` would raise at line 44. `Other.moduleAttr` is an `Option<string>`, so this case cannot be written.
- Duplicate keys in the namespace: the model allows them, although a Python dict cannot have them. No property depends on unique keys.
