/** Error kinds raised by the stack, the queue, the scheduler and the expression
    engine, and the Option/Result wrappers that carry them. */
module Errors {

  /** The exceptions the back end raises, one constructor per message. */
  datatype Error =
    | StackOverflow       // "Stack overflow"
    | StackUnderflow      // "Stack underflow"
    | QueueOverflow       // "Queue overflow"
    | QueueUnderflow      // "Queue underflow"
    | DequeOnly           // "This operation is only available for Deque"
    | DequeOverflow       // "Deque overflow"
    | DequeUnderflow      // "Deque underflow"
    | NoProcesses         // "No processes to schedule"
    | UnknownOperator(op: string)  // ValueError("Unknown operator: ...")
    | DivisionNotModelled // true division yields a float, outside this model

  datatype Option<+T> = None | Some(value: T)

  datatype Result<+T> = Ok(value: T) | Err(error: Error)
}
