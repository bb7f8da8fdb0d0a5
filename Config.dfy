/**
 * The plugin's configuration as the two core files read it: the wrapper
 * extension and its ordered list of per-target options. Everything here
 * is an input; nothing in the core changes it.
 */
module Config {

  datatype Option<T> = None | Some(value: T)

  /**
   * One declared build target: its platform triple, the executable that
   * builds it (nullable in the plugin), its environment and the mapping
   * from an action name to the argument list, which the core only applies.
   */
  datatype TargetOptions = TargetOptions(
    target: string,
    command: Option<string>,
    env: map<string, string>,
    subcommand: string -> seq<string>)

  /**
   * The wrapper extension. `cargoInstallTargets` and `crate` are Gradle
   * properties that may be unset; `targets` is in declaration order.
   */
  datatype WrapperExtension = WrapperExtension(
    cargoInstallTargets: Option<bool>,
    rustupCommand: string,
    crate: Option<string>,
    env: map<string, string>,
    targets: seq<TargetOptions>)

  /** `cargoInstallTargets.getOrElse(false)`. */
  predicate InstallEnabled(ext: WrapperExtension) {
    match ext.cargoInstallTargets
    case None => false
    case Some(b) => b
  }
}
