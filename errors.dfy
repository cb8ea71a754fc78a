/** Status values shared by the models: TensorFlow's `Status`, `StatusOr<T>`
    and `absl::optional`, reduced to what the modelled code inspects. */
module Errors {

  datatype Option<T> = None | Some(value: T)

  /** The error codes the modelled code produces or propagates.
      `CheckFailed` stands for a failed `CHECK`, which aborts the process. */
  datatype Code = InvalidArgument | Unknown | CheckFailed | Other(name: string)

  datatype Status = Ok | Error(code: Code, message: string)
  {
    predicate IsOk() { Ok? }
  }

  /** A value, or the non-OK status that replaced it. */
  datatype StatusOr<T> = Value(value: T) | Failure(code: Code, message: string)
  {
    function StatusOf(): (s: Status)
      ensures s.IsOk() <==> Value?
    {
      if Value? then Ok else Error(code, message)
    }
  }
}
