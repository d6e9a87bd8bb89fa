/**
 * The consent gates that start the analysis loop: the startCaptureIntent callback of the current MainActivity
 * (app/src/main/java/com/example/MainActivity.kt) and onActivityResult of the older one (app/MainActivity.kt).
 * A gate answers with the calls it makes.
 */
module Consent {
  import opened Wrappers
  import AnalysisLoop

  /** `Activity.RESULT_OK`. */
  const RESULT_OK := -1
  /** The request code the older MainActivity launches the capture-consent screen with. */
  const REQUEST_CAPTURE := 1001

  /** The consent result's data Intent, opaque here. */
  datatype Intent = Intent(token: int)

  /** A call a gate makes. */
  datatype Action =
    | StartProjection(resultCode: int, data: Intent)  // captureManager.startProjection(resultCode, data)
    | StartAnalysisLoop(intervalMillis: int)          // startAnalysisLoop(), with its default interval

  /**
   * The startCaptureIntent callback: for RESULT_OK with data the projection is started with that result and then
   * the loop, at the default interval; any other result does nothing.
   */
  function OnCaptureResult(resultCode: int, data: Option<Intent>): (actions: seq<Action>)
    ensures actions != [] <==> resultCode == RESULT_OK && data.Some?
    ensures actions != [] ==>
              actions == [StartProjection(RESULT_OK, data.value), StartAnalysisLoop(AnalysisLoop.DEFAULT_INTERVAL_MILLIS)]
  {
    if resultCode == RESULT_OK && data.Some?
    then [StartProjection(resultCode, data.value), StartAnalysisLoop(AnalysisLoop.DEFAULT_INTERVAL_MILLIS)]
    else []
  }

  /** The older onActivityResult: the same, but only for the REQUEST_CAPTURE request. */
  function OnActivityResult(requestCode: int, resultCode: int, data: Option<Intent>): (actions: seq<Action>)
    ensures actions != [] <==> requestCode == REQUEST_CAPTURE && resultCode == RESULT_OK && data.Some?
    ensures forall i | 0 <= i < |actions| && actions[i].StartAnalysisLoop? :: i > 0 && actions[i - 1].StartProjection?
  {
    if requestCode == REQUEST_CAPTURE && resultCode == RESULT_OK && data.Some?
    then [StartProjection(resultCode, data.value), StartAnalysisLoop(AnalysisLoop.DEFAULT_INTERVAL_MILLIS)]
    else []
  }

  /** The two gates agree on the capture request; the older ignores every other request. */
  lemma GatesAgree(requestCode: int, resultCode: int, data: Option<Intent>)
    ensures OnActivityResult(requestCode, resultCode, data)
         == if requestCode == REQUEST_CAPTURE then OnCaptureResult(resultCode, data) else []
  {
  }
}
