/** The user-facing errors the package engine raises (each is a `U.userError`, or a host failure). */
module Errors {
  import opened Wrappers

  datatype Error =
    | MissingDependencies(pkg: string)          // "Missing dependencies in config of: <id>"
    | MissingFiles(pkg: string)                 // "Missing files in config of: <id>"
    | InvalidName(given: Option<string>)        // "Invalid package name: <name>"
    | TargetTooOld(name: string, required: string, running: string)
    | VersionNotSpecified(spec: string)          // "version not specified for <spec>"
    | NotInstalled(pkg: string)                 // "Package not installed: <id>"
    | MissingConfig(pkg: string)                // "package <id> is missing pxt.json"
    | VersionMismatch(pkg: string)              // "Version spec mismatch on <id>"
    | DownloadFailed(pkg: string, version: string)  // the host's download rejected
    | NotPublic                                 // 'Only packages with "public":true can be published'
    | ReferencedFileMissing(file: string)       // "referenced file missing: <file>"
    | NotInFiles(file: string)                  // "please add '<file>' to \"files\" in pxt.json"
}
