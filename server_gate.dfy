/**
 * The `/bootstrap` handler of the library server: done marker, then token,
 * then config read; QR-encoding and marker-write errors are ignored, so a
 * page is always produced once the config has been read.
 */
module ServerGate {
  import opened Wrappers
  import opened Gate
  import opened Endpoint

  /** The handler, given the settings, whether the done marker exists, and the request. */
  function Bootstrap(s: Settings, marker: bool, req: Request): Handled {
    if marker then Handled(Error(410, "bootstrap already completed"), [], true)
    else if s.token != "" && req.token != s.token then Handled(Error(401, "unauthorized"), [], false)
    else
      match req.config
      case None => Handled(Error(503, "config not ready"), [ReadConfig], false)
      case Some(text) =>
        // A failed QR encoding leaves an empty image; a failed marker write leaves no marker.
        Handled(Page(Rewritten(text, s.app, s.port), req.qrOk), [ReadConfig, WriteMarker, RenderPage], req.writeOk)
  }

  function Handler(s: Settings): (bool, Request) -> Handled {
    (marker, req) => Bootstrap(s, marker, req)
  }

  /** With the marker present every request is turned away with 410, before anything is read. */
  lemma GoneWhenDone(s: Settings, req: Request)
    ensures Bootstrap(s, true, req).reply == Error(410, "bootstrap already completed")
    ensures Bootstrap(s, true, req).effects == []
    ensures Bootstrap(s, true, req).marker
  {
  }

  /**
   * With a token configured, a missing and a wrong token both get 401
   * without the config being read; without a token configured nobody does.
   */
  lemma Unauthorized(s: Settings, req: Request)
    ensures Bootstrap(s, false, req).reply == Error(401, "unauthorized") <==> s.token != "" && req.token != s.token
    ensures Bootstrap(s, false, req).reply == Error(401, "unauthorized") ==> ReadConfig !in Bootstrap(s, false, req).effects
  {
  }

  /**
   * Once the config has been read the page always follows, with the
   * rewritten config, whether or not QR encoding worked; the marker exists
   * afterwards exactly when its write succeeded, and it is written before
   * the page.
   */
  lemma PageAfterRead(s: Settings, req: Request, text: string)
    requires s.token == "" || req.token == s.token
    requires req.config == Some(text)
    ensures Bootstrap(s, false, req).reply == Page(Rewritten(text, s.app, s.port), req.qrOk)
    ensures Bootstrap(s, false, req).marker == req.writeOk
    ensures Before(Bootstrap(s, false, req).effects, WriteMarker, RenderPage)
  {
    var e := Bootstrap(s, false, req).effects;
    assert e[1] == WriteMarker && e[2] == RenderPage;
  }

  /** An unreadable config gets 503 and leaves the marker absent. */
  lemma ConfigNotReady(s: Settings, req: Request)
    requires s.token == "" || req.token == s.token
    requires req.config.None?
    ensures Bootstrap(s, false, req) == Handled(Error(503, "config not ready"), [ReadConfig], false)
  {
  }

  /** A page is served only with the marker absent, and when its write succeeds the marker then exists. */
  lemma MarkerFollowsPage(s: Settings, marker: bool, req: Request)
    ensures Bootstrap(s, marker, req).reply.Page? ==> !marker
    ensures Bootstrap(s, marker, req).marker <==> marker || (Bootstrap(s, marker, req).reply.Page? && req.writeOk)
  {
  }

  /** Once the marker is present no later request gets the page. */
  lemma {:induction false} NoPageAfterDone(s: Settings, reqs: seq<Request>)
    ensures PageCount(Serve(Handler(s), true, reqs)) == 0
    decreases |reqs|
  {
    if reqs != [] {
      assert Handler(s)(true, reqs[0]) == Bootstrap(s, true, reqs[0]);
      NoPageAfterDone(s, reqs[1..]);
    }
  }

  /** While every marker write succeeds, the page is served at most once. */
  lemma {:induction false} OnceWhileWritesSucceed(s: Settings, marker: bool, reqs: seq<Request>)
    requires forall i :: 0 <= i < |reqs| ==> reqs[i].writeOk
    ensures PageCount(Serve(Handler(s), marker, reqs)) <= 1
    decreases |reqs|
  {
    if reqs != [] {
      var h := Bootstrap(s, marker, reqs[0]);
      assert Handler(s)(marker, reqs[0]) == h;
      if h.reply.Page? {
        NoPageAfterDone(s, reqs[1..]);
      } else {
        OnceWhileWritesSucceed(s, h.marker, reqs[1..]);
      }
    }
  }

  /** A failed marker write is ignored, so the next request gets the page again. */
  lemma ReplayAfterFailedWrite(s: Settings, first: Request, second: Request)
    requires s.token == "" || (first.token == s.token && second.token == s.token)
    requires first.config.Some? && second.config.Some? && !first.writeOk
    ensures PageCount(Serve(Handler(s), false, [first, second])) == 2
  {
    assert Handler(s)(false, first) == Bootstrap(s, false, first);
    assert Handler(s)(false, second) == Bootstrap(s, false, second);
    assert [first, second][1..] == [second];
  }
}
