/**
 * The diagnostics the flag engine writes into its message strings and
 * error table. Each printf format of the source becomes one constructor
 * that keeps the format's arguments; the "ERROR: " prefix and the
 * trailing newline are implied by the constructor, except where the source
 * varies them (noted on the constructor). A value argument is kept as the
 * value, printed as Show gives it; a type argument as the kind, printed as
 * TypeName gives it.
 */
module Messages {
  import opened Wrappers
  import opened Values

  datatype Message =
      /** "illegal value '<text>' specified for <type> flag '<flag>'" */
    | IllegalValue(text: string, kind: Kind, flag: string)
      /** "failed validation of new value '<candidate>' for flag '<flag>'" */
    | FailedValidation(candidate: Value, flag: string)
      /** "<flag> set to <value>", with a newline except in the set-if-default path */
    | SetTo(flag: string, value: Value, newline: bool)
      /** "unknown command line flag '<key>'" */
    | UnknownFlag(key: string)
      /** "boolean value (<key>) specified for <type> command line flag" */
    | BoolValueForNonBool(key: string, kind: Kind)
      /** "flag '<token>' is missing its argument", with "; flag description: <help>" when present */
    | MissingArgument(token: string, description: Option<string>)
      /** "--<flag> must be set on the commandline", with " (default value fails validation)" when asked */
    | MustBeSet(flag: string, defaultFails: bool)
      /** "flag '<name>' was defined more than once (in files '<first>' and '<second>')" */
    | DefinedTwice(name: string, first: string, second: string)
      /** "something wrong with flag '<name>' in file '<file>' ... linked both statically and dynamically" */
    | LinkedTwice(name: string, file: string)

}
