/**
 * What the two scripts observe of the external programs they run
 * (`rpm`, `yumdownloader`) and the exceptions that can escape them.
 */
module Shell {

  /**
   * The observable result of `subprocess.run(..., check=True)`: the captured
   * standard output, or the `CalledProcessError` raised for a non-zero exit.
   */
  datatype Query = Completed(stdout: string) | Failed

  /** The Python exceptions that the modelled code raises or lets through. */
  datatype Fault =
    | CalledProcessError  // an external command exited non-zero and nobody caught it
    | IndexError          // `line.split('-')[2]` on a line with fewer than two '-'
    | AttributeError      // `None.splitlines()` on missing downloaded metadata
}
