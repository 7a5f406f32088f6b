/** Option and Result, and the engine's failure taxonomy.

    Every condition the engine raises is a StamperError carrying a message; the
    model keeps only which condition it was. `HostError` stands for the failures
    the browser raises on the engine's behalf (a TypeError on an undefined child,
    a SyntaxError from an unquoted attribute selector): the engine logs those
    with console.error instead of console.warn. */
module Results {

  datatype Option<+T> = None | Some(value: T)

  datatype Failure =
    | MissingIdentifier           // no `stamper` attribute on the root
    | MissingElement(directive: string)  // no s-temp / s-cast / s-crate for the identifier
    | InvalidTemplate             // s-temp on an element that is not a <template>
    | TooManyTemplateChildren     // template content has more than one element child
    | MissingAttribute            // an s-sequence marker with an empty pattern
    | MissingCode                 // hook synthesis given empty code
    | ForbiddenPattern            // hook code matching the denylist
    | InvalidElement              // delete click on something that is not a button
    | TemplateNotFound            // addItemWithSlot before a template was resolved
    | CastNotFound                // addItemWithSlot before a trigger was resolved
    | HostError                   // TypeError or SyntaxError raised by the DOM

  /** The catch sites log StamperError as a warning and anything else as an error. */
  predicate IsEngineError(f: Failure) {
    !f.HostError?
  }

  datatype Result<+T> = Ok(value: T) | Err(failure: Failure) {
    predicate IsFailure() {
      Err?
    }

    function PropagateFailure<U>(): Result<U>
      requires Err?
    {
      Err(failure)
    }

    function Extract(): T
      requires Ok?
    {
      value
    }
  }
}
