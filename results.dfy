/**
 * The outcomes of a biometric prompt, as the note screen distinguishes them,
 * and the status line the screen shows for the latest one
 * (MainActivity.kt, lines 140-156).
 */
module BiometricResults {
  import opened Wrappers

  /**
   * One outcome of a biometric prompt. The four named variants are the ones
   * the note screen tests for; `Other` stands for every further variant of
   * the prompt manager's result type, which the screen only reaches through
   * its `else` branch.
   */
  datatype BiometricResult =
    | AuthenticationSuccess
    | AuthenticationFailed
    | AuthenticationError(error: string)
    | AuthenticationNotSet
    | Other(variant: string)

  const ERROR_PREFIX := "Authentication error: "
  const FAILED_TEXT := "Authentication failed"

  /** A result the status line reports: an error or a rejected attempt. */
  predicate IsReported(r: Option<BiometricResult>) {
    r.Some? && (r.value.AuthenticationError? || r.value.AuthenticationFailed?)
  }

  /**
   * The status text shown under the controls for the latest result, or None
   * when the screen shows nothing (no result yet, success, no credential
   * enrolled, or any other variant).
   */
  function StatusText(r: Option<BiometricResult>): (t: Option<string>)
    ensures t.Some? <==> IsReported(r)
    ensures r == Some(AuthenticationFailed) ==> t == Some(FAILED_TEXT)
    ensures t.Some? && r.value.AuthenticationError? ==>
      |ERROR_PREFIX| <= |t.value| &&
      t.value[..|ERROR_PREFIX|] == ERROR_PREFIX &&
      t.value[|ERROR_PREFIX|..] == r.value.error
  {
    match r
    case Some(AuthenticationError(e)) => Some(ERROR_PREFIX + e)
    case Some(AuthenticationFailed) => Some(FAILED_TEXT)
    case _ => None
  }

  /**
   * The status line identifies the result it reports: two results that show
   * the same text are the same result. In particular no error message can
   * make an error read as a plain failure.
   */
  lemma StatusTextIdentifiesResult(a: Option<BiometricResult>, b: Option<BiometricResult>)
    requires StatusText(a).Some? && StatusText(a) == StatusText(b)
    ensures a == b
  {
  }
}
