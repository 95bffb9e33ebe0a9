/**
 * What the checks report. Each kind of error of the form-field build carries the
 * fields it is constructed with, except that a missing mandatory module keeps the
 * platform and component its message is rendered from; the error classes themselves
 * (errors.js) are not part of this model, only the kinds and their fields are.
 */
module Errors {
  import opened Wrappers

  datatype VerificationError =
    | ConfigSchemaInvalid(errorMessage: string)
    | MandatoryModuleMissing(platform: string, component: string)
    | ReactVersionMismatch(supportedReactVersion: string, suppliedReactVersion: Option<string>)
    | ReactDomVersionMismatch(suppliedReactDomVersion: Option<string>, supportedReactDomVersion: string)
    | ModuleNotPresent(modulePath: string)
    | ModuleUnparseable(component: string, modulePath: string, err: string)
    | DefaultExportNotFound(component: string, modulePath: string)
  {
    /** The `msg` a missing mandatory module is reported with. */
    function Msg(): string
      requires MandatoryModuleMissing?
    {
      "Mandatory module '" + platform + "/" + component + "' is not present!"
    }
  }

  /**
   * How a check ends: it returns normally, it throws one of the errors above, or it
   * crashes with a JavaScript TypeError because a platform the mandatory table names
   * has no entry at all in the component inventory.
   */
  datatype CheckResult = Pass | Fail(error: VerificationError) | Crash(missingPlatform: string)
  {
    /** `await this; await next`: the next check runs only if this one returned normally. */
    function Then(next: CheckResult): CheckResult {
      if Pass? then next else this
    }
  }
}
