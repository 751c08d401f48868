/** The request-side values exchanged between the connection handler and
    the endpoints (framework.request.Request and Header, the value an
    endpoint method returns). */
module Wire {

  /** One `Header.add(name, value)` call. How Header stores repeated names
      is not part of this model, so the header is the sequence of calls. */
  datatype HeaderLine = HeaderLine(name: string, value: string)

  /** `new Request(method, route, header, parameters)`; the verb is the name
      of the Method enum constant, the location the raw route token. */
  datatype Request = Request(
    verb: string,
    location: string,
    headers: seq<HeaderLine>,
    parameters: map<string, string>)

  /** What `Method.invoke` hands back: a Response (with its rendered text),
      `null` (also the value of a void method), or any other object. */
  datatype Returned = Response(rendered: string) | Null | OtherObject
}
