/** `Content.get_content` of main.py, over an abstract HTTP exchange: the network
    call itself is not modelled, only what the function makes of its outcome. */
module Content {
  import opened Wrappers

  /** What `requests.get(url)` produced: an exception (DNS, connection, timeout, ...)
      or a response with a status code and a body. */
  datatype Response = TransportError | Http(status: int, text: string)

  const HTTP_OK: int := 200

  /** `Content.get_content`: the body of a 200 response; no content on a transport
      exception and on every other status. */
  function GetContent(resp: Response): (content: Option<string>)
    ensures content.Some? <==> resp.Http? && resp.status == HTTP_OK
    ensures content.Some? ==> content.value == resp.text
  {
    match resp
    case TransportError => None
    case Http(status, text) => if status != HTTP_OK then None else Some(text)
  }
}
