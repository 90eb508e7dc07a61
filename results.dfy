/** Option and Result, the two failure-carrying types the server code returns
    (`Option<String>` from the request handler, `Result<HttpRequest, &str>`
    from the request parser). */
module Results {

  datatype Option<+T> = None | Some(value: T)

  datatype Result<+R, +E> = Success(value: R) | Failure(error: E)
}
