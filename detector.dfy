/** The kernel record the detector hands to the analyzer (detector.py `KernelInfo`). */
module Detector {

  /**
   * One installed kernel image package. The version and package name are never reassigned by
   * the core and are `const`; the running and latest flags are fields the caller and the analyzer
   * set on the object itself.
   */
  class KernelInfo {
    const version: string
    const packageName: string
    var isRunning: bool
    var isLatest: bool

    constructor (version: string, packageName: string, isRunning: bool, isLatest: bool)
      ensures this.version == version && this.packageName == packageName
      ensures this.isRunning == isRunning && this.isLatest == isLatest
    {
      this.version := version;
      this.packageName := packageName;
      this.isRunning := isRunning;
      this.isLatest := isLatest;
    }
  }
}
