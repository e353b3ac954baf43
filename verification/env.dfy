/** What the converter takes from outside the model: the package name, and the
    three collaborators it calls but does not implement. */
module Environment {
  import opened Results

  datatype Env = Env(
    /** The package directory's name, used for the generated file names. */
    package: string,
    /** Shell-style word splitting (Python `shlex.split`); `None` where it
        raises, as for an unbalanced quote. */
    tokenize: string -> Option<seq<string>>,
    /** Expansion of a macro expression by `rpmspec -P`; `None` where the
        external tool fails. */
    resolveMacro: string -> Option<string>,
    /** Python `repr` of a comment string. */
    quote: string -> string)
}
