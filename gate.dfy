/**
 * What the two `/bootstrap` handlers have in common: the settings they
 * read at startup, the outcomes of the outside calls a request meets, the
 * reply, and the done marker that makes the page a one-time affair.
 */
module Gate {
  import opened Wrappers

  /** The bootstrap token ("" when none is set), the app name and the WireGuard port for the rewrite. */
  datatype Settings = Settings(token: string, app: string, port: string)

  /**
   * One request: its `token` query value ("" when absent) and what the
   * outside calls do while it is served: the config file's contents (None
   * when it cannot be read), whether QR encoding and the marker write succeed.
   */
  datatype Request = Request(token: string, config: Option<string>, qrOk: bool, writeOk: bool)

  /** An HTTP error reply, or the page showing the config and, when `hasQr`, its QR code. */
  datatype Reply =
    | Error(status: int, message: string)
    | Page(config: string, hasQr: bool)

  /** The effects a request has on the outside world, in order. */
  datatype Effect = ReadConfig | WriteMarker | RenderPage

  /** A handled request: its reply, the effects it had, and whether the marker exists afterwards. */
  datatype Handled = Handled(reply: Reply, effects: seq<Effect>, marker: bool)

  /**
   * Requests served one after another, each seeing the marker as the
   * previous one left it.
   */
  function Serve(handle: (bool, Request) -> Handled, marker: bool, reqs: seq<Request>): (hs: seq<Handled>)
    ensures |hs| == |reqs|
    decreases |reqs|
  {
    if reqs == [] then []
    else
      var h := handle(marker, reqs[0]);
      [h] + Serve(handle, h.marker, reqs[1..])
  }

  /** How many of the handled requests got the page. */
  function PageCount(hs: seq<Handled>): (n: nat)
    ensures n <= |hs|
    ensures n == 0 <==> forall i :: 0 <= i < |hs| ==> !hs[i].reply.Page?
    decreases |hs|
  {
    if hs == [] then 0
    else (if hs[0].reply.Page? then 1 else 0) + PageCount(hs[1..])
  }

  /** `effects` has `a` strictly before `b`. */
  predicate Before(effects: seq<Effect>, a: Effect, b: Effect) {
    exists i, j :: 0 <= i < j < |effects| && effects[i] == a && effects[j] == b
  }
}
