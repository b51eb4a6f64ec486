/** Optional arguments and the exceptions the modelled Python code raises, as values. */
module Common {

  datatype Option<T> = None | Some(value: T)

  datatype Error =
    | ValueError(message: string)   // raised explicitly, or by a reduction over an empty array
    | ZeroDivisionError             // Python float division by zero

  datatype Result<T> = Ok(value: T) | Err(error: Error)

  function Max0(n: int): nat { if n < 0 then 0 else n }
}
