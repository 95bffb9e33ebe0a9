/**
 * The checks that gate the build of a form-field project: the React package versions,
 * the project configuration's schema, the presence of the mandatory components, and a
 * default export in every component module. Each check either returns normally or stops
 * at the first problem it meets and reports it.
 *
 * What the checks read from outside is passed in: the manifest's `dependencies`, the
 * supported versions, the schema validator's violations, the mandatory-module table,
 * the component inventory, a file reader and a parser.
 */
module Verifications {
  import opened Wrappers
  import opened Entries
  import opened FailFast
  import opened Errors

  type Platform = string
  type Component = string
  type ModulePath = string

  /** Per platform, the components required for the project's target, in enumeration order. */
  type MandatoryTable = Entries<seq<Component>>

  /** Per platform, the components present in the project and the path of each one's module. */
  type Inventory = Entries<Entries<ModulePath>>

  /** The two version strings the framework is built against. */
  datatype SupportedVersions = SupportedVersions(react: string, reactDom: string)

  /**
   * What parsing a module and walking its syntax tree gives: whether the walk met at
   * least one `ExportDefaultDeclaration`, or the error the parser or the walk threw.
   */
  datatype ParseResult = Parsed(hasDefaultExport: bool) | ParseFailure(err: string)

  // ---------------------------------------------------------------------------
  // Package versions

  /** `deps[name]`, `None` when the manifest does not declare the package. */
  function DependencyVersion(deps: map<string, string>, name: string): Option<string> {
    if name in deps then Some(deps[name]) else None
  }

  /** The react check comes first; react-dom is compared only once react matches. */
  function VerifyPackageVersions(deps: map<string, string>, supported: SupportedVersions): (r: CheckResult)
    ensures r.Pass? <==>
      "react" in deps && deps["react"] == supported.react &&
      "react-dom" in deps && deps["react-dom"] == supported.reactDom
    ensures ("react" in deps && deps["react"] == supported.react &&
             DependencyVersion(deps, "react-dom") != Some(supported.reactDom)) ==>
      r == Fail(ReactDomVersionMismatch(DependencyVersion(deps, "react-dom"), supported.reactDom))
    ensures !r.Crash?
  {
    var reactVersionUsed := DependencyVersion(deps, "react");
    var reactDomVersionUsed := DependencyVersion(deps, "react-dom");
    if reactVersionUsed != Some(supported.react) then
      Fail(ReactVersionMismatch(supported.react, reactVersionUsed))
    else if reactDomVersionUsed != Some(supported.reactDom) then
      Fail(ReactDomVersionMismatch(reactDomVersionUsed, supported.reactDom))
    else
      Pass
  }

  /** A react mismatch is what gets reported, with both versions, whatever react-dom is. */
  lemma ReactMismatchTakesPrecedence(deps: map<string, string>, supported: SupportedVersions)
    requires !("react" in deps && deps["react"] == supported.react)
    ensures VerifyPackageVersions(deps, supported)
         == Fail(ReactVersionMismatch(supported.react, DependencyVersion(deps, "react")))
  {
  }

  /** A react-dom mismatch is only ever reported when react matches. */
  lemma ReactDomMismatchOnlyAfterReactMatches(deps: map<string, string>, supported: SupportedVersions)
    requires VerifyPackageVersions(deps, supported).Fail?
    requires VerifyPackageVersions(deps, supported).error.ReactDomVersionMismatch?
    ensures "react" in deps && deps["react"] == supported.react
    ensures VerifyPackageVersions(deps, supported).error
         == ReactDomVersionMismatch(DependencyVersion(deps, "react-dom"), supported.reactDom)
    ensures DependencyVersion(deps, "react-dom") != Some(supported.reactDom)
  {
  }

  // ---------------------------------------------------------------------------
  // Configuration schema

  /** The outcome of the schema check for the violations the validator reports. */
  function SchemaOutcome(violations: seq<string>): CheckResult {
    if violations == [] then Pass else Fail(ConfigSchemaInvalid(violations[0]))
  }

  /**
   * Validates the project configuration. The error thrown for a violation leaves the
   * `forEach` over the violations at once, so only the first violation is reported.
   */
  method ValidateC3ConfigSchema<Config>(config: Config, validate: Config -> seq<string>)
    returns (r: CheckResult)
    ensures r.Pass? <==> validate(config) == []
    ensures r.Fail? ==> r.error == ConfigSchemaInvalid(validate(config)[0])
    ensures !r.Crash?
    ensures r == SchemaOutcome(validate(config))
  {
    var errors := validate(config);
    var valid := errors == [];
    r := Pass;
    if !valid {
      var i := 0;
      while i < |errors| && r.Pass?
        invariant 0 <= i <= |errors|
        invariant r == if i == 0 then Pass else Fail(ConfigSchemaInvalid(errors[0]))
      {
        r := Fail(ConfigSchemaInvalid(errors[i]));
        i := i + 1;
      }
    }
  }

  // ---------------------------------------------------------------------------
  // Mandatory modules

  /** `component in inventory[platform]`, given that `inventory[platform]` is defined. */
  predicate PairPresent(inventory: Inventory, pair: (Platform, Component)) {
    var modules := Lookup(inventory, pair.0);
    modules.Some? && HasKey(modules.value, pair.1)
  }

  function PresentIn(inventory: Inventory): ((Platform, Component)) -> bool {
    pair => PairPresent(inventory, pair)
  }

  /** Reference definition: every required component is listed under its platform. */
  predicate AllMandatoryPresent(mandatory: MandatoryTable, inventory: Inventory) {
    forall i, j :: 0 <= i < |mandatory| && 0 <= j < |mandatory[i].1| ==>
      PairPresent(inventory, (mandatory[i].0, mandatory[i].1[j]))
  }

  /**
   * The outcome of probing the (platform, component) pairs in order: the first pair
   * that is not present stops the check, with a TypeError when its platform has no
   * entry in the inventory and with a missing-module error otherwise.
   */
  function PairsOutcome(pairs: seq<(Platform, Component)>, inventory: Inventory): CheckResult {
    var k := FirstFailing(pairs, PresentIn(inventory));
    if k == |pairs| then Pass
    else if Lookup(inventory, pairs[k].0).None? then Crash(pairs[k].0)
    else Fail(MandatoryModuleMissing(pairs[k].0, pairs[k].1))
  }

  function MandatoryOutcome(mandatory: MandatoryTable, inventory: Inventory): CheckResult {
    PairsOutcome(Flatten(mandatory), inventory)
  }

  /** The pairs announced as present: all pairs before the first one that is not. */
  function Announced(mandatory: MandatoryTable, inventory: Inventory): seq<(Platform, Component)> {
    var pairs := Flatten(mandatory);
    pairs[..FirstFailing(pairs, PresentIn(inventory))]
  }

  /**
   * One step of the walk over the mandatory pairs, with the first `n` pairs found present:
   * a present `n`-th pair moves the first absent one further on; an absent one decides the
   * outcome, and the pairs announced are exactly the `n` before it.
   */
  lemma PairStep(mandatory: MandatoryTable, inventory: Inventory, n: nat)
    requires n < |Flatten(mandatory)| && n <= FirstFailing(Flatten(mandatory), PresentIn(inventory))
    ensures PairPresent(inventory, Flatten(mandatory)[n]) ==>
      n + 1 <= FirstFailing(Flatten(mandatory), PresentIn(inventory)) &&
      Flatten(mandatory)[..n + 1] == Flatten(mandatory)[..n] + [Flatten(mandatory)[n]]
    ensures !PairPresent(inventory, Flatten(mandatory)[n]) ==>
      var (platform, component) := Flatten(mandatory)[n];
      Announced(mandatory, inventory) == Flatten(mandatory)[..n] &&
      MandatoryOutcome(mandatory, inventory) ==
        if Lookup(inventory, platform).None? then Crash(platform)
        else Fail(MandatoryModuleMissing(platform, component))
  {

  }

  /**
   * Walks the mandatory table platform by platform and component by component,
   * announcing each present component and stopping at the first absent one.
   * `announced` is the sequence of pairs logged as present.
   */
  method IsAllMandatoryModulesPresent(mandatory: MandatoryTable, inventory: Inventory)
    returns (r: CheckResult, announced: seq<(Platform, Component)>)
    ensures r == MandatoryOutcome(mandatory, inventory)
    ensures announced == Announced(mandatory, inventory)
  {
    ghost var pairs := Flatten(mandatory);
    ghost var n := 0;  // pairs visited so far
    announced := [];
    var i := 0;
    while i < |mandatory|
      invariant 0 <= i <= |mandatory|
      invariant n == Offset(mandatory, i) <= FirstFailing(pairs, PresentIn(inventory))
      invariant announced == pairs[..n]
    {
      var (platform, components) := mandatory[i];
      OffsetStep(mandatory, i);
      var j := 0;
      while j < |components|
        invariant 0 <= j <= |components|
        invariant n == Offset(mandatory, i) + j <= FirstFailing(pairs, PresentIn(inventory))
        invariant announced == pairs[..n]
      {
        var component := components[j];
        FlattenAt(mandatory, i, j);
        PairStep(mandatory, inventory, n);
        var platformModules := Lookup(inventory, platform);
        if platformModules.Some? && HasKey(platformModules.value, component) {
          announced := announced + [(platform, component)];
          n := n + 1;
        } else {
          if platformModules.None? {
            r := Crash(platform);
          } else {
            r := Fail(MandatoryModuleMissing(platform, component));
          }
          return;
        }
        j := j + 1;
      }
      i := i + 1;
    }
    OffsetEnd(mandatory);
    FirstFailingIs(pairs, PresentIn(inventory), n);
    r := Pass;
  }

  /** The check passes exactly when every required component is in the inventory. */
  lemma MandatoryPassIff(mandatory: MandatoryTable, inventory: Inventory)
    ensures MandatoryOutcome(mandatory, inventory).Pass? <==> AllMandatoryPresent(mandatory, inventory)
  {
    var present := PresentIn(inventory);
    FlattenAll(mandatory, present);
    assert forall pair :: present(pair) == PairPresent(inventory, pair);
  }

  /**
   * A failure names the pair visited right after the announced ones: its platform is in
   * the inventory, its component is not, and every announced pair is present.
   */
  lemma MandatoryFailureNamesFirstMissing(mandatory: MandatoryTable, inventory: Inventory)
    requires MandatoryOutcome(mandatory, inventory).Fail?
    ensures var e := MandatoryOutcome(mandatory, inventory).error;
      var pairs, announced := Flatten(mandatory), Announced(mandatory, inventory);
      e.MandatoryModuleMissing? &&
      |announced| < |pairs| && pairs[..|announced|] == announced &&
      pairs[|announced|] == (e.platform, e.component) &&
      Lookup(inventory, e.platform).Some? &&
      !HasKey(Lookup(inventory, e.platform).value, e.component) &&
      forall j :: 0 <= j < |announced| ==> PairPresent(inventory, announced[j])
  {

  }

  /**
   * No pair after the first one that is not present is examined: whatever follows it,
   * the outcome stays the same.
   */
  lemma MandatoryIgnoresLaterPairs(pairs: seq<(Platform, Component)>, inventory: Inventory, k: nat,
                                   rest: seq<(Platform, Component)>)
    requires k < |pairs|
    requires forall j :: 0 <= j < k ==> PairPresent(inventory, pairs[j])
    requires !PairPresent(inventory, pairs[k])
    ensures !PairsOutcome(pairs, inventory).Pass?
    ensures PairsOutcome(pairs[..k + 1] + rest, inventory) == PairsOutcome(pairs, inventory)
  {
    var present := PresentIn(inventory);
    forall j | 0 <= j < k ensures present(pairs[j]) {
      assert PairPresent(inventory, pairs[j]);
    }
    assert !present(pairs[k]);
    IgnoresRest(pairs, present, k, rest);
    assert (pairs[..k + 1] + rest)[k] == pairs[k];
  }

  /** The case of a web platform requiring Input and Label where only Input exists. */
  lemma MandatoryMissingLabelExample()
    ensures var mandatory: MandatoryTable := [("web", ["Input", "Label"])];
      var inventory: Inventory := [("web", [("Input", "src/web/Input.js")])];
      MandatoryOutcome(mandatory, inventory) == Fail(MandatoryModuleMissing("web", "Label")) &&
      MandatoryOutcome(mandatory, inventory).error.Msg() == "Mandatory module 'web/Label' is not present!" &&
      Announced(mandatory, inventory) == [("web", "Input")]
  {
    var mandatory: MandatoryTable := [("web", ["Input", "Label"])];
    var inventory: Inventory := [("web", [("Input", "src/web/Input.js")])];
    var pairs := Flatten(mandatory);
    assert mandatory[1..] == [];
    assert pairs == [("web", "Input"), ("web", "Label")];
    assert Lookup(inventory, "web") == Some([("Input", "src/web/Input.js")]);
    assert inventory[0].1[0].0 == "Input";
    assert PairPresent(inventory, pairs[0]);
    assert !PairPresent(inventory, pairs[1]);
    FirstFailingIs(pairs, PresentIn(inventory), 1);
  }

  // ---------------------------------------------------------------------------
  // Default exports

  /**
   * What checking one module finds: nothing, or the error for the first of its three
   * steps that fails (reading the file, parsing it, finding a default export).
   */
  function ModuleVerdict(component: Component, modulePath: ModulePath,
                         read: ModulePath -> Option<string>,
                         parse: string -> ParseResult): Option<VerificationError>
  {
    match read(modulePath)
    case None => Some(ModuleNotPresent(modulePath))
    case Some(code) =>
      match parse(code)
      case ParseFailure(err) => Some(ModuleUnparseable(component, modulePath, err))
      case Parsed(hasDefaultExport) =>
        if hasDefaultExport then None else Some(DefaultExportNotFound(component, modulePath))
  }

  /** Reference definition of a sound module: readable, parseable, with a default export. */
  predicate ModuleSound(modulePath: ModulePath, read: ModulePath -> Option<string>,
                        parse: string -> ParseResult)
  {
    read(modulePath).Some? &&
    parse(read(modulePath).value).Parsed? &&
    parse(read(modulePath).value).hasDefaultExport
  }

  /** An inventory entry whose module the check lets through. */
  predicate EntryPasses(m: (Platform, (Component, ModulePath)), read: ModulePath -> Option<string>,
                        parse: string -> ParseResult)
  {
    ModuleVerdict(m.1.0, m.1.1, read, parse).None?
  }

  function SoundUnder(read: ModulePath -> Option<string>, parse: string -> ParseResult)
    : ((Platform, (Component, ModulePath))) -> bool
  {
    m => EntryPasses(m, read, parse)
  }

  predicate AllModulesSound(inventory: Inventory, read: ModulePath -> Option<string>,
                            parse: string -> ParseResult)
  {
    forall i, j :: 0 <= i < |inventory| && 0 <= j < |inventory[i].1| ==>
      ModuleSound(inventory[i].1[j].1, read, parse)
  }

  function ModulesOutcome(modules: seq<(Platform, (Component, ModulePath))>,
                          read: ModulePath -> Option<string>, parse: string -> ParseResult): CheckResult
  {
    var k := FirstFailing(modules, SoundUnder(read, parse));
    if k == |modules| then Pass
    else Fail(ModuleVerdict(modules[k].1.0, modules[k].1.1, read, parse).value)
  }

  function DefaultExportOutcome(inventory: Inventory, read: ModulePath -> Option<string>,
                                parse: string -> ParseResult): CheckResult
  {
    ModulesOutcome(Flatten(inventory), read, parse)
  }

  /**
   * Checks one module: reads its file, parses it and walks the tree for a default
   * export, giving the error the first failing step throws.
   */
  method CheckModule(component: Component, modulePath: ModulePath,
                     read: ModulePath -> Option<string>, parse: string -> ParseResult)
    returns (verdict: Option<VerificationError>)
    ensures verdict.None? <==> ModuleSound(modulePath, read, parse)
    ensures verdict == ModuleVerdict(component, modulePath, read, parse)
  {
    var hasDefaultExport := false;
    var code := "";
    var file := read(modulePath);
    if file.None? {
      return Some(ModuleNotPresent(modulePath));
    }
    code := file.value;
    var tree := parse(code);
    if tree.ParseFailure? {
      return Some(ModuleUnparseable(component, modulePath, tree.err));
    }
    hasDefaultExport := tree.hasDefaultExport;
    if !hasDefaultExport {
      return Some(DefaultExportNotFound(component, modulePath));
    }
    return None;
  }

  /**
   * One step of the walk over the modules: with every module before the `n`-th one let
   * through, a passing `n`-th module moves the first failure further on, and a failing
   * one is the first failure and decides the outcome.
   */
  lemma ModuleStep(modules: seq<(Platform, (Component, ModulePath))>,
                   read: ModulePath -> Option<string>, parse: string -> ParseResult, n: nat)
    requires n < |modules| && n <= FirstFailing(modules, SoundUnder(read, parse))
    ensures EntryPasses(modules[n], read, parse) ==> n + 1 <= FirstFailing(modules, SoundUnder(read, parse))
    ensures !EntryPasses(modules[n], read, parse) ==>
      ModulesOutcome(modules, read, parse) == Fail(ModuleVerdict(modules[n].1.0, modules[n].1.1, read, parse).value)
  {

  }

  /**
   * Reads, parses and inspects every module of the inventory, platform by platform,
   * stopping at the first module that fails.
   */
  method DefaultExportCheckAllModules(inventory: Inventory, read: ModulePath -> Option<string>,
                                      parse: string -> ParseResult)
    returns (r: CheckResult)
    ensures r == DefaultExportOutcome(inventory, read, parse)
    ensures !r.Crash?
  {
    ghost var modules := Flatten(inventory);
    ghost var n := 0;  // modules checked so far
    var i := 0;
    while i < |inventory|
      invariant 0 <= i <= |inventory|
      invariant n == Offset(inventory, i) <= FirstFailing(modules, SoundUnder(read, parse))
    {
      var (platform, components) := inventory[i];
      OffsetStep(inventory, i);
      var j := 0;
      while j < |components|
        invariant 0 <= j <= |components|
        invariant n == Offset(inventory, i) + j <= FirstFailing(modules, SoundUnder(read, parse))
      {
        var (component, modulePath) := components[j];
        FlattenAt(inventory, i, j);
        assert modules[n] == (platform, (component, modulePath));
        var verdict := CheckModule(component, modulePath, read, parse);
        ModuleStep(modules, read, parse, n);
        if verdict.Some? {
          r := Fail(verdict.value);
          return;
        }
        n := n + 1;
        j := j + 1;
      }
      i := i + 1;
    }
    OffsetEnd(inventory);
    r := Pass;
  }

  /** The check passes exactly when every module on every platform is sound. */
  lemma DefaultExportPassIff(inventory: Inventory, read: ModulePath -> Option<string>,
                             parse: string -> ParseResult)
    ensures DefaultExportOutcome(inventory, read, parse).Pass? <==> AllModulesSound(inventory, read, parse)
  {
    var sound := SoundUnder(read, parse);
    FlattenAll(inventory, sound);
    assert forall m :: sound(m) <==> ModuleSound(m.1.1, read, parse);
  }

  /**
   * A failure reports the first unsound module in iteration order, every module before
   * it being sound, and the kind of error tells which step failed for it.
   */
  lemma DefaultExportFailureClassified(inventory: Inventory, read: ModulePath -> Option<string>,
                                       parse: string -> ParseResult)
    requires DefaultExportOutcome(inventory, read, parse).Fail?
    ensures exists k :: 0 <= k < |Flatten(inventory)| && FailsFirstWith(
                          Flatten(inventory), k, DefaultExportOutcome(inventory, read, parse).error, read, parse)
  {
    var modules := Flatten(inventory);
    var e := DefaultExportOutcome(inventory, read, parse).error;
    var k := FirstFailing(modules, SoundUnder(read, parse));
    assert !SoundUnder(read, parse)(modules[k]);
    forall j | 0 <= j < k ensures ModuleSound(modules[j].1.1, read, parse) {
      assert SoundUnder(read, parse)(modules[j]);
    }
    assert FailsFirstWith(modules, k, e, read, parse);
  }

  /**
   * The `k`-th module is the first unsound one and `e` is the error its failing step
   * throws: an unreadable file, a parse failure, or no default export.
   */
  ghost predicate FailsFirstWith(modules: seq<(Platform, (Component, ModulePath))>, k: nat,
                                 e: VerificationError,
                                 read: ModulePath -> Option<string>, parse: string -> ParseResult)
    requires k < |modules|
  {
    (forall j :: 0 <= j < k ==> ModuleSound(modules[j].1.1, read, parse)) &&
    var (component, modulePath) := modules[k].1;
    match read(modulePath)
    case None => e == ModuleNotPresent(modulePath)
    case Some(code) =>
      match parse(code)
      case ParseFailure(err) => e == ModuleUnparseable(component, modulePath, err)
      case Parsed(hasDefaultExport) => !hasDefaultExport && e == DefaultExportNotFound(component, modulePath)
  }

  /** No module after the first unsound one is examined. */
  lemma DefaultExportIgnoresLaterModules(modules: seq<(Platform, (Component, ModulePath))>,
                                         read: ModulePath -> Option<string>, parse: string -> ParseResult,
                                         k: nat, rest: seq<(Platform, (Component, ModulePath))>)
    requires k < |modules|
    requires forall j :: 0 <= j < k ==> ModuleSound(modules[j].1.1, read, parse)
    requires !ModuleSound(modules[k].1.1, read, parse)
    ensures !ModulesOutcome(modules, read, parse).Pass?
    ensures ModulesOutcome(modules[..k + 1] + rest, read, parse) == ModulesOutcome(modules, read, parse)
  {
    var sound := SoundUnder(read, parse);
    forall j | 0 <= j < k ensures sound(modules[j]) {
      assert ModuleSound(modules[j].1.1, read, parse);
    }
    assert !sound(modules[k]);
    IgnoresRest(modules, sound, k, rest);
    assert (modules[..k + 1] + rest)[k] == modules[k];
  }

  // ---------------------------------------------------------------------------
  // Check groups

  /** Versions, then schema, then mandatory modules: the first failure stops the group. */
  function OnetimeOutcome(deps: map<string, string>, supported: SupportedVersions,
                          violations: seq<string>, mandatory: MandatoryTable,
                          inventory: Inventory): CheckResult
  {
    VerifyPackageVersions(deps, supported)
      .Then(SchemaOutcome(violations))
      .Then(MandatoryOutcome(mandatory, inventory))
  }

  /**
   * Runs the one-time checks in order. `announced` is what the mandatory check logs as
   * present; nothing is announced when an earlier check stops the group.
   */
  method PerformOnetimeChecks<Config>(deps: map<string, string>, supported: SupportedVersions,
                                      config: Config, validate: Config -> seq<string>,
                                      mandatory: MandatoryTable, inventory: Inventory)
    returns (r: CheckResult, announced: seq<(Platform, Component)>)
    ensures r == OnetimeOutcome(deps, supported, validate(config), mandatory, inventory)
    ensures VerifyPackageVersions(deps, supported).Pass? && validate(config) == [] ==>
      announced == Announced(mandatory, inventory)
    ensures !(VerifyPackageVersions(deps, supported).Pass? && validate(config) == []) ==> announced == []
  {
    announced := [];
    r := VerifyPackageVersions(deps, supported);
    if !r.Pass? {
      return;
    }
    r := ValidateC3ConfigSchema(config, validate);
    if !r.Pass? {
      return;
    }
    r, announced := IsAllMandatoryModulesPresent(mandatory, inventory);
  }

  /** The one-time checks pass exactly when all three of their checks would. */
  lemma OnetimePassIff(deps: map<string, string>, supported: SupportedVersions,
                       violations: seq<string>, mandatory: MandatoryTable, inventory: Inventory)
    ensures OnetimeOutcome(deps, supported, violations, mandatory, inventory).Pass? <==>
      "react" in deps && deps["react"] == supported.react &&
      "react-dom" in deps && deps["react-dom"] == supported.reactDom &&
      violations == [] &&
      AllMandatoryPresent(mandatory, inventory)
  {
    MandatoryPassIff(mandatory, inventory);
  }

  /** An earlier check's failure is the group's outcome, whatever the later checks would say. */
  lemma OnetimeFirstFailureWins(deps: map<string, string>, supported: SupportedVersions,
                                violations: seq<string>, mandatory: MandatoryTable, inventory: Inventory)
    ensures var versions := VerifyPackageVersions(deps, supported);
      !versions.Pass? ==> OnetimeOutcome(deps, supported, violations, mandatory, inventory) == versions
    ensures VerifyPackageVersions(deps, supported).Pass? && violations != [] ==>
      OnetimeOutcome(deps, supported, violations, mandatory, inventory) == Fail(ConfigSchemaInvalid(violations[0]))
    ensures VerifyPackageVersions(deps, supported).Pass? && violations == [] ==>
      OnetimeOutcome(deps, supported, violations, mandatory, inventory) == MandatoryOutcome(mandatory, inventory)
  {
  }

  /** The per-build checks are the default-export check and nothing else. */
  method PerformRuntimeChecks(inventory: Inventory, read: ModulePath -> Option<string>,
                              parse: string -> ParseResult)
    returns (r: CheckResult)
    ensures r == DefaultExportOutcome(inventory, read, parse)
    ensures r.Pass? <==> AllModulesSound(inventory, read, parse)
  {
    r := DefaultExportCheckAllModules(inventory, read, parse);
    DefaultExportPassIff(inventory, read, parse);
  }
}
