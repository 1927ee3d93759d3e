/**
 * The stand-alone `bootstrap-http` command: its settings from the
 * environment, and its `/bootstrap` handler, which tells a missing token
 * (401) from a wrong one (403) and refuses to serve the page unless the QR
 * code was made and the done marker written.
 */
module CmdGate {
  import opened Wrappers
  import opened Gate
  import opened Endpoint

  /** `os.Getenv`: the variable's value, or "" when it is not set. */
  function Lookup(env: map<string, string>, key: string): string {
    if key in env then env[key] else ""
  }

  /** `getenv`: the variable's value when it is non-empty, the default otherwise. */
  function Getenv(env: map<string, string>, key: string, def: string): (v: string)
    ensures Lookup(env, key) != "" ==> v == env[key]
    ensures Lookup(env, key) == "" ==> v == def
    ensures v == "" ==> def == ""
  {
    var value := Lookup(env, key);
    if value != "" then value else def
  }

  /** What `main` reads from the environment. */
  datatype Startup = Startup(listenPort: string, peerName: string, settings: Settings)

  const DefaultPeerName: string := "peer1"

  function ReadStartup(env: map<string, string>): Startup {
    Startup(
      Getenv(env, "BOOTSTRAP_PORT", "8080"),
      Getenv(env, "BOOTSTRAP_PEER_NAME", DefaultPeerName),
      Settings(
        Lookup(env, "BOOTSTRAP_TOKEN"),
        Lookup(env, "FLY_APP_NAME"),
        Getenv(env, "BOOTSTRAP_ENDPOINT_PORT", Getenv(env, "SERVERPORT", "51820"))))
  }

  /**
   * The endpoint port is never empty: the override, else SERVERPORT, else
   * 51820. So the rewrite to `<app>.fly.dev:<port>` happens exactly when
   * FLY_APP_NAME is set.
   */
  lemma EndpointPortChosen(env: map<string, string>)
    ensures ReadStartup(env).settings.port != ""
    ensures Lookup(env, "BOOTSTRAP_ENDPOINT_PORT") != "" ==>
      ReadStartup(env).settings.port == env["BOOTSTRAP_ENDPOINT_PORT"]
    ensures Lookup(env, "BOOTSTRAP_ENDPOINT_PORT") == "" && Lookup(env, "SERVERPORT") != "" ==>
      ReadStartup(env).settings.port == env["SERVERPORT"]
    ensures Lookup(env, "BOOTSTRAP_ENDPOINT_PORT") == "" && Lookup(env, "SERVERPORT") == "" ==>
      ReadStartup(env).settings.port == "51820"
    ensures ReadStartup(env).listenPort != "" && ReadStartup(env).peerName != ""
  {
  }

  /** The handler, given the settings, whether the done marker exists, and the request. */
  function Bootstrap(s: Settings, marker: bool, req: Request): Handled {
    if marker then Handled(Error(410, "bootstrap already completed"), [], true)
    else if s.token != "" && req.token == "" then Handled(Error(401, "missing token"), [], false)
    else if s.token != "" && req.token != s.token then Handled(Error(403, "invalid token"), [], false)
    else
      match req.config
      case None => Handled(Error(503, "config not ready"), [ReadConfig], false)
      case Some(text) =>
        if !req.qrOk then Handled(Error(500, "failed to generate qr"), [ReadConfig], false)
        else if !req.writeOk then Handled(Error(500, "failed to finalize bootstrap"), [ReadConfig, WriteMarker], false)
        else Handled(Page(Rewritten(text, s.app, s.port), true), [ReadConfig, WriteMarker, RenderPage], true)
  }

  function Handler(s: Settings): (bool, Request) -> Handled {
    (marker, req) => Bootstrap(s, marker, req)
  }

  /** With the marker present every request gets 410, before any token check or read. */
  lemma GoneFirst(s: Settings, req: Request)
    ensures Bootstrap(s, true, req).reply == Error(410, "bootstrap already completed")
    ensures Bootstrap(s, true, req).effects == []
  {
  }

  /**
   * With a token configured, a missing token gets 401 and a wrong one 403,
   * neither reading the config; without a token configured neither status
   * ever occurs.
   */
  lemma TokenChecks(s: Settings, req: Request)
    ensures Bootstrap(s, false, req).reply == Error(401, "missing token") <==> s.token != "" && req.token == ""
    ensures Bootstrap(s, false, req).reply == Error(403, "invalid token") <==>
      s.token != "" && req.token != "" && req.token != s.token
    ensures Bootstrap(s, false, req).reply.Error? && Bootstrap(s, false, req).reply.status in {401, 403} ==>
      Bootstrap(s, false, req).effects == [] && s.token != ""
  {
  }

  /** The request got through the marker and token checks. */
  predicate Admitted(s: Settings, req: Request) {
    s.token == "" || req.token == s.token
  }

  /** An unreadable config gets 503; the marker is neither written nor present. */
  lemma ConfigNotReady(s: Settings, req: Request)
    requires Admitted(s, req) && req.config.None?
    ensures Bootstrap(s, false, req).reply == Error(503, "config not ready")
    ensures WriteMarker !in Bootstrap(s, false, req).effects && !Bootstrap(s, false, req).marker
  {
  }

  /** A QR failure gets 500 and the marker is not written. */
  lemma QrFailure(s: Settings, req: Request)
    requires Admitted(s, req) && req.config.Some? && !req.qrOk
    ensures Bootstrap(s, false, req).reply == Error(500, "failed to generate qr")
    ensures WriteMarker !in Bootstrap(s, false, req).effects && !Bootstrap(s, false, req).marker
  {
  }

  /** A failed marker write gets 500 and no page. */
  lemma WriteFailure(s: Settings, req: Request)
    requires Admitted(s, req) && req.config.Some? && req.qrOk && !req.writeOk
    ensures Bootstrap(s, false, req).reply == Error(500, "failed to finalize bootstrap")
    ensures RenderPage !in Bootstrap(s, false, req).effects
  {
  }

  /**
   * The page is served exactly when the marker was absent, the request was
   * admitted and every outside call succeeded; it shows the rewritten config
   * and comes only after the marker was written.
   */
  lemma PageOnlyAfterMarker(s: Settings, marker: bool, req: Request)
    ensures Bootstrap(s, marker, req).reply.Page? <==>
      !marker && Admitted(s, req) && req.config.Some? && req.qrOk && req.writeOk
    ensures Bootstrap(s, marker, req).reply.Page? ==>
      && Bootstrap(s, marker, req).reply == Page(Rewritten(req.config.value, s.app, s.port), true)
      && Before(Bootstrap(s, marker, req).effects, WriteMarker, RenderPage)
    ensures Bootstrap(s, marker, req).marker <==> marker || Bootstrap(s, marker, req).reply.Page?
  {
    var h := Bootstrap(s, marker, req);
    if h.reply.Page? {
      assert h.effects[1] == WriteMarker && h.effects[2] == RenderPage;
    }
  }

  /** Once the marker is present every request gets 410. */
  lemma {:induction false} AllGoneAfterDone(s: Settings, reqs: seq<Request>)
    ensures forall i :: 0 <= i < |reqs| ==>
      Serve(Handler(s), true, reqs)[i].reply == Error(410, "bootstrap already completed")
    decreases |reqs|
  {
    if reqs != [] {
      assert Handler(s)(true, reqs[0]) == Bootstrap(s, true, reqs[0]);
      AllGoneAfterDone(s, reqs[1..]);
    }
  }

  /** Whatever the requests and however the outside calls go, the page is served at most once. */
  lemma {:induction false} AtMostOnce(s: Settings, marker: bool, reqs: seq<Request>)
    ensures PageCount(Serve(Handler(s), marker, reqs)) <= 1
    ensures marker ==> PageCount(Serve(Handler(s), marker, reqs)) == 0
    decreases |reqs|
  {
    if reqs != [] {
      var h := Bootstrap(s, marker, reqs[0]);
      assert Handler(s)(marker, reqs[0]) == h;
      if h.reply.Page? {
        AtMostOnce(s, true, reqs[1..]);
      } else {
        AtMostOnce(s, h.marker, reqs[1..]);
      }
    }
  }

  /**
   * A fresh start with the config present and no token: the first request
   * gets the page with the rewritten config and QR code, the second 410.
   */
  lemma FirstThenGone(s: Settings, first: Request, second: Request, text: string)
    requires s.token == "" && first.config == Some(text) && first.qrOk && first.writeOk
    ensures Serve(Handler(s), false, [first, second])[0].reply == Page(Rewritten(text, s.app, s.port), true)
    ensures Serve(Handler(s), false, [first, second])[1].reply == Error(410, "bootstrap already completed")
  {
    assert Handler(s)(false, first) == Bootstrap(s, false, first);
    assert Handler(s)(true, second) == Bootstrap(s, true, second);
    assert [first, second][1..] == [second];
  }
}
