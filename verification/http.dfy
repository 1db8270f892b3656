/**
 The parts of the Fetch API the service worker sees: requests, responses and
 the outcome of a network fetch, with the network itself as a parameter.
 */
module Http {

  datatype Option<+T> = None | Some(value: T)

  /** A response's `type`, as the Fetch standard names them. */
  datatype ResponseType = Basic | Cors | Default | Error | Opaque | OpaqueRedirect

  datatype Response = Response(status: int, kind: ResponseType, body: string)

  /** A request as the worker inspects it: its method (`verb`) and its absolute URL. */
  datatype Request = Request(verb: string, url: string)

  /**
   What `fetch(url)` settles to: a rejection (offline, DNS failure, ...),
   a fulfilment with no response object, or a response.
   */
  datatype NetOutcome = Rejected | ResolvedEmpty | Resolved(response: Response)

  /** The network, as the outcome it would give for each URL. */
  type Network = string -> NetOutcome

  /** A root-relative path (`/index.html`) resolved against the worker's origin. */
  function Resolve(origin: string, path: string): string {
    origin + path
  }
}
