/**
 * The errors the section parser reports (parser/errors.go and the error
 * values parser/parser.go returns), as one sum type standing for Go's
 * `error` interface.
 */
module ParserErrors {

  /** The version a lookup asked for and did not find. */
  datatype VersionNotFoundErr = VersionNotFoundErr(Version: string) {

    /**
     * errors.Is support: a target is "the same error" exactly when it is a
     * VersionNotFoundErr for an equal version string.
     */
    predicate Is(target: ParseError) {
      match target
      case NotFound(t) => t.Version == Version
      case _ => false
    }

    /** The error text. */
    function Error(): (msg: string)
      ensures |msg| == |Version| + 18
      ensures msg[..8] == "version " && msg[|msg| - 10..] == " not found"
      ensures msg[8..|msg| - 10] == Version
    {
      "version " + Version + " not found"
    }
  }

  /**
   * Every error value the parser can return: the not-found error, a compile
   * error of a user-supplied format (its message), the error for a group
   * name the pattern lacks, a failed read of the document, and
   * SliceOutOfRange, which stands for the run-time panic of slicing the
   * document at a range outside it (Go panics there instead of returning).
   */
  datatype ParseError =
    | NotFound(err: VersionNotFoundErr)
    | CompileError(msg: string)
    | SubexpNotFound(name: string)
    | ReadError(msg: string)
    | SliceOutOfRange

  /** Is holds exactly for the not-found error that carries the same version. */
  lemma IsIsVersionEquality(e: VersionNotFoundErr, target: ParseError)
    ensures e.Is(target) <==> target == NotFound(e)
  {
  }

  /** Is rejects every other kind of error. */
  lemma IsFalseForOtherErrors(e: VersionNotFoundErr, target: ParseError)
    requires !target.NotFound?
    ensures !e.Is(target)
  {
  }

  lemma IsReflexive(e: VersionNotFoundErr)
    ensures e.Is(NotFound(e))
  {
  }

  lemma IsSymmetric(e1: VersionNotFoundErr, e2: VersionNotFoundErr)
    ensures e1.Is(NotFound(e2)) <==> e2.Is(NotFound(e1))
  {
  }

  /** The message names the version: two errors with the same text are the same error. */
  lemma ErrorInjective(e1: VersionNotFoundErr, e2: VersionNotFoundErr)
    requires e1.Error() == e2.Error()
    ensures e1 == e2 && e1.Is(NotFound(e2))
  {
    var m := e1.Error();
    assert e1.Version == m[8..|m| - 10] == e2.Version;
  }
}
