/**
 * Resolutions recorded for steps and tasks, the exceptions they may carry,
 * and the exceptions the recorder itself raises.
 */
module Resolutions {
  import opened Wrappers

  /**
   * An exception attached to a failure resolution. Only its identity matters
   * to the recorder: two causes are the same exactly when their identities are.
   */
  datatype Cause = Cause(identity: nat)

  /** The resolution of a step: TRStepSucceeded or TRStepFailed. */
  datatype StepResolution =
    | StepSucceeded(message: string)
    | StepFailed(message: string, exception: Option<Cause>)

  /** The resolution of a task returning values of type T: TRTaskSucceeded or TRTaskFailed. */
  datatype TaskResolution<T> =
    | TaskSucceeded(message: string, result: T)
    | TaskFailed(message: string, exception: Option<Cause>)

  /** The exceptions raised by the recorder and by the task record. */
  datatype Error =
    | IllegalArgument(message: string)
    | IllegalState(message: string)
}
