/**
 * The decision to open the system's credential-enrollment screen when the
 * device has no credential enrolled (MainActivity.kt, lines 62-74).
 */
module Enrollment {
  import opened Wrappers
  import opened BiometricResults

  /** Authenticator bits of androidx.biometric.BiometricManager.Authenticators. */
  const BIOMETRIC_STRONG: bv32 := 0x000F
  const DEVICE_CREDENTIAL: bv32 := 0x8000

  /** The first platform version (Android 11) with a biometric-enrollment settings action. */
  const ENROLL_MIN_SDK := 30

  /**
   * The authenticator mask to offer in an enrollment request for the latest
   * result on a device running `sdkInt`, or None when no enrollment screen is
   * launched.
   */
  function EnrollmentRequest(result: Option<BiometricResult>, sdkInt: int): (mask: Option<bv32>)
    ensures mask.Some? <==> result == Some(AuthenticationNotSet) && sdkInt >= ENROLL_MIN_SDK
    // the request admits strong biometrics and the device credential, and nothing else
    ensures mask.Some? ==>
      mask.value & BIOMETRIC_STRONG == BIOMETRIC_STRONG &&
      mask.value & DEVICE_CREDENTIAL == DEVICE_CREDENTIAL &&
      mask.value & !(BIOMETRIC_STRONG | DEVICE_CREDENTIAL) == 0
  {
    if result == Some(AuthenticationNotSet) && sdkInt >= ENROLL_MIN_SDK then
      Some(BIOMETRIC_STRONG | DEVICE_CREDENTIAL)
    else
      None
  }
}
