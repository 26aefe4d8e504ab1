/**
 * The mutable step of the older recording interface (TRStep): a name that
 * never changes and a resolution that each setter overwrites completely.
 */
module Steps {
  import opened Wrappers
  import opened Resolutions

  class MutableStep {
    /** The name given at construction. */
    const name: string
    /** The latest resolution; Succeeded("") until a setter is called. */
    var resolution: StepResolution

    constructor (name: string)
      ensures this.name == name && resolution == StepSucceeded("")
    {
      this.name := name;
      resolution := StepSucceeded("");
    }

    /** setSucceeded: the resolution becomes a success with the message, empty or not. */
    method SetSucceeded(message: string)
      modifies this`resolution
      ensures resolution == StepSucceeded(message)
    {
      resolution := StepSucceeded(message);
    }

    /** setFailed: the resolution becomes a failure with the message and the exception, if any. */
    method SetFailed(message: string, exception: Option<Cause>)
      modifies this`resolution
      ensures resolution == StepFailed(message, exception)
    {
      resolution := StepFailed(message, exception);
    }

    /** resolution(): the latest resolution, leaving the step as it was. */
    method Resolution() returns (r: StepResolution)
      ensures r == resolution
    {
      r := resolution;
    }

    /** name(): the name given at construction. */
    method Name() returns (n: string)
      ensures n == name
    {
      n := name;
    }
  }
}
