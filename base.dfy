/** Vocabulary shared by every module of the model: browser window handles,
    optional values, and the exceptions the automation script raises or meets. */
module Base {

  /** An opaque window identifier issued by the browser. */
  type Handle = string

  datatype Option<+T> = None | Some(value: T)

  /** The kinds of exception that travel through the script. */
  datatype Error =
    | NameUsedTwice       // RuntimeError 'Window name used twice'
    | WindowDidNotAppear  // RuntimeError 'New window did not appear'
    | KeyError            // a window name that is not in the registry
    | IndexError          // a backup ordinal past the end of the backup list
    | AttributeError      // a method called on the `False` that `find` returns, or on a `Select`
    | ElementNotFound     // RuntimeError "Can't find element specified by ..."
    | DriverError         // an exception raised by the browser driver
    | RestoreFailed       // RuntimeError 'Restore Failed ("Completed Successfully" not found)'

  /** A value, or the exception raised instead of returning it. */
  datatype Result<+T> = Ok(value: T) | Err(error: Error)

  /** A call that returns nothing: it returned normally, or raised. */
  datatype Outcome = Pass | Fail(error: Error)
}
