# Form-field build verifications, modelled in Dafny

This project models the verification engine of the form-field webpack plugin
(`verifications.js`): the fail-fast checks that must pass before a form-field
project is bundled.

- **Package versions.** The manifest's `react` and `react-dom` dependency
  versions must equal the two supported versions exactly. The react check comes
  first.
- **Configuration schema.** The project configuration must have no schema
  violations. The first violation is reported.
- **Mandatory modules.** Every component that the project's target requires on
  a platform must be present in that platform's component inventory. The check
  announces each present component and stops at the first absent one.
- **Default exports.** Every module of the inventory must be readable and
  parseable, and must contain a default-export declaration. The check stops at
  the first module that fails.
- **Check groups.** The one-time checks run versions, then schema, then
  mandatory modules. The runtime checks are the default-export check alone.

JavaScript objects walked with `Object.entries` are modelled as ordered
(key, value) sequences (`Entries`). Keeping the order is what lets the model
say which failure a nested loop reports first. An `Object.entries` walk over
two nested levels is `Flatten`. The index of the first item a fail-fast loop
rejects is `FirstFailing`. A check ends in a `CheckResult`:

- `Pass`: it returns normally;
- `Fail(e)`: it throws a `VerificationError` `e`, which has one case per error
  kind. Each case carries the fields the source builds that error with, except
  the missing-mandatory-module error: the source gives it one rendered `msg`
  string, and the model keeps the platform and component that `msg` is rendered
  from (`Msg` renders it);
- `Crash(p)`: it raises a JavaScript TypeError because the inventory has no
  entry at all for the mandatory platform `p`.

Loops that update local state are methods with `while` loops. Each is proved
equal to a specification function (`MandatoryOutcome`, `Announced`,
`DefaultExportOutcome`, `SchemaOutcome`). Lemmas prove what the source promises
about those functions: both directions of each pass condition, which failure is
reported, and that nothing after the first failure is examined.

The outside collaborators are parameters:

- the manifest's `dependencies` are a `map<string, string>`;
- the supported versions are a `SupportedVersions` value;
- the schema validator is a function from the configuration to its violation
  messages;
- the mandatory-module table and the component inventory are inputs;
- the file reader is a function from module path to `Option<string>`;
- parsing plus the tree walk is a function from source text to `ParseResult`.

Two behaviours of the code are easy to misread:

- Only the first schema violation is reported, because the error thrown for
  it leaves the `forEach` over the violations at once. That is what
  `ValidateC3ConfigSchema` states.
- One or more default-export declarations suffice. The code only sets a flag
  whenever the tree walk visits one, so it does not ask for exactly one.

## Model

| member | source | states |
|---|---|---|
| `Entries.Lookup` | packages/custom-form-field-scripts/src/form-field-webpack-plugin/verifications.js:146 | `obj[key]` is defined exactly when the key is one of the object's keys, and its value is the one paired with that key |
| `FailFast.FirstFailing` | packages/custom-form-field-scripts/src/form-field-webpack-plugin/verifications.js:144-156 | a fail-fast loop stops at an index where every earlier item passed and the item there (if any) fails |
| `FailFast.IgnoresRest` | packages/custom-form-field-scripts/src/form-field-webpack-plugin/verifications.js:57-100 | after the first failing item, replacing all later items does not move the first failure |
| `Verifications.VerifyPackageVersions` | packages/custom-form-field-scripts/src/form-field-webpack-plugin/verifications.js:117-138 | passes exactly when `deps['react']` and `deps['react-dom']` are declared and equal the supported versions; when react matches and react-dom does not, raises the react-dom error with the supplied and supported react-dom versions; never crashes |
| `Verifications.ReactMismatchTakesPrecedence` | packages/custom-form-field-scripts/src/form-field-webpack-plugin/verifications.js:126-131 | a react mismatch raises the react error with the supported and supplied versions, whatever react-dom is |
| `Verifications.ReactDomMismatchOnlyAfterReactMatches` | packages/custom-form-field-scripts/src/form-field-webpack-plugin/verifications.js:132-137 | the react-dom error occurs only when react matches, and carries the supplied and supported react-dom versions |
| `Verifications.ValidateC3ConfigSchema` | packages/custom-form-field-scripts/src/form-field-webpack-plugin/verifications.js:103-115 | passes exactly when the validator reports no violation; otherwise exactly one schema-invalid error, built from the first violation |
| `Verifications.IsAllMandatoryModulesPresent` | packages/custom-form-field-scripts/src/form-field-webpack-plugin/verifications.js:140-157 | the nested loops give the outcome of probing the (platform, component) pairs in order, and log as present exactly the pairs before the first absent one |
| `Verifications.MandatoryPassIff` | packages/custom-form-field-scripts/src/form-field-webpack-plugin/verifications.js:144-156 | the mandatory check passes exactly when every required component of every platform is a key of `inventory[platform]` |
| `Verifications.MandatoryFailureNamesFirstMissing` | packages/custom-form-field-scripts/src/form-field-webpack-plugin/verifications.js:145-154 | a missing-module error names the pair visited right after the announced ones: its platform exists, its component does not, and every announced pair is present |
| `Verifications.MandatoryIgnoresLaterPairs` | packages/custom-form-field-scripts/src/form-field-webpack-plugin/verifications.js:150-154 | the first absent pair decides the outcome: the pairs after it can be anything |
| `Verifications.MandatoryMissingLabelExample` | packages/custom-form-field-scripts/src/form-field-webpack-plugin/verifications.js:144-154 | web requiring Input and Label, with only Input present, raises the error for `web/Label`, whose message is `Mandatory module 'web/Label' is not present!`, after announcing `web/Input` |
| `Verifications.CheckModule` | packages/custom-form-field-scripts/src/form-field-webpack-plugin/verifications.js:59-98 | one module passes exactly when it is readable, parses, and has a default export; otherwise the error of its first failing step |
| `Verifications.DefaultExportCheckAllModules` | packages/custom-form-field-scripts/src/form-field-webpack-plugin/verifications.js:54-101 | the nested loops return the error of the first module, in iteration order, that fails; they pass if none fails; they never crash |
| `Verifications.DefaultExportPassIff` | packages/custom-form-field-scripts/src/form-field-webpack-plugin/verifications.js:57-100 | the default-export check passes exactly when every module of every platform is readable, parses and has a default export |
| `Verifications.DefaultExportFailureClassified` | packages/custom-form-field-scripts/src/form-field-webpack-plugin/verifications.js:63-98 | a failure is reported for a module that has only sound modules before it: module-not-present (path) if unreadable, unparseable (component, path, error) if parsing fails, default-export-missing (component, path) otherwise |
| `Verifications.DefaultExportIgnoresLaterModules` | packages/custom-form-field-scripts/src/form-field-webpack-plugin/verifications.js:57-100 | the first unsound module decides the outcome: the modules after it can be anything |
| `Verifications.PerformOnetimeChecks` | packages/custom-form-field-scripts/src/form-field-webpack-plugin/verifications.js:32-42 | runs versions, then schema, then mandatory modules, stopping at the first check that does not pass; the pairs logged as present are those the mandatory check announces when it runs, and none when an earlier check stops the group |
| `Verifications.OnetimePassIff` | packages/custom-form-field-scripts/src/form-field-webpack-plugin/verifications.js:39-41 | the one-time checks pass exactly when both versions match, the validator reports nothing, and every mandatory component is present |
| `Verifications.OnetimeFirstFailureWins` | packages/custom-form-field-scripts/src/form-field-webpack-plugin/verifications.js:39-41 | a version failure is the group's outcome whatever follows; with versions passing, the first schema violation is; with both passing, the mandatory check decides |
| `Verifications.PerformRuntimeChecks` | packages/custom-form-field-scripts/src/form-field-webpack-plugin/verifications.js:44-46 | the runtime checks are the default-export check, and pass exactly when every module is sound |

## Left out

- `performPreBuildtimeChecks` is not modelled: its only action is to call `getFormFieldProjectConfig`, which is not part of this model.
- The helpers `getComponentsFromFormFieldProject`, `getMandatoryModules`, `getProjectTargetFromFormFieldProject`, `getFormFieldProjectConfig` and `getAppPackageJson` are not part of this model. Their results are inputs. Each of the two checks that use the inventory takes its own copy, because the inventory is re-scanned on every call.
- The supported version constants come from a package that is not part of this model, so they are a parameter.
- Ajv's schema compilation and its `errorsText` formatting are left out. The validator is a function that returns the formatted violation messages. Ajv reports `valid === false` exactly when its error list is non-empty, and the model relies on that.
- Babel parsing and traversal are left out. They are one function returning whether an `ExportDefaultDeclaration` was visited, or the error that parsing or traversal threw.
- `fs.readFileSync`, `path.join` and the project root are left out. The reader is a function from a module path to its text, or `None` when reading throws.
- Console logging is left out. The only exception is the list of pairs announced as present by the mandatory check, which the one-time checks return as well.
- `MandatoryModuleMissing` carries the platform and component rather than the rendered `msg` string the source passes to the error; `Msg` gives that string.
- `async`/`await` is modelled as plain sequencing. Each check is awaited before the next one starts.
- A manifest without a `dependencies` object is not modelled: it would make the version check throw a TypeError. `deps` is always a map.
- JavaScript's `in` also sees inherited properties, such as a component named `constructor`. The model looks only at the object's own keys.
- `Object.entries` lists integer-like keys first, in ascending order. The model takes the order of the entries as given.
- The development loop (HTTP/WebSocket server, file watchers, rebuilds) and the scaffolding constants are not part of this model.
