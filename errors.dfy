/** The outcome of resolving and fetching a blob URL, and the ways it can fail. */
module Errors {

  /** The failures the downloader can end with, each fatal to the run. */
  datatype Error =
    | MalformedUrl                       // the input is not a GitHub blob URL
    | TransportError                     // the request or reading its body failed below HTTP
    | RequestFailed(status: int)         // the server answered with a status outside 2xx
    | DecodeError                        // the body of a 2xx answer is not JSON

  datatype Option<+T> = None | Some(value: T)

  /** Either a value or the error that stopped the computation; never both, never a partial value. */
  datatype Result<+T> = Ok(value: T) | Err(error: Error)
}
