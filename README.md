# fly-wireguard-vpn-proxy bootstrap server, modelled in Dafny

The bootstrap server hands out a WireGuard peer configuration once. It serves
it as a page with a QR code at `/bootstrap`, and then refuses further requests
for good by writing a "done" marker file. It also runs a keepalive loop that
pings the app's Fly proxy for as long as WireGuard shows recent handshakes, so
the machine may be suspended when nobody is connected.

This project models the decision logic of that server:

- `endpoint.dfy`, module `Endpoint`: the endpoint rewrite that runs before a
  config is shown (`rewriteEndpoint`, identical in both binaries). Module
  `EndpointExamples` holds the worked IPv6 example.
- `server_gate.dfy` and `cmd_gate.dfy`: the two `/bootstrap` handlers, as
  decision functions over the marker flag and the outcomes of the outside calls.
  - `ServerGate` is the library server.
  - `CmdGate` is the stand-alone command, plus its `getenv` settings.
  - `gate.dfy` holds their shared types, and `Gate.Serve` runs requests one after another.
- `keepalive.dfy`: one tick of the keepalive loop as a pure `Step`, and the
  class `Monitor`, whose `Tick` and `Run` update the loop's variables in place.
- `handshakes.dfy`: the parse of `wg show <iface> latest-handshakes` output into
  the latest handshake and the idle time.
- `durations.dfy`: `formatDuration`, together with Go's saturating `time.Sub`/`time.Since` and
  `time.Since(time.Unix(sec, 0))`, including the wrap of `time.Unix`'s internal seconds.
- `go_strings.dfy`, `decimal.dfy` and `wrappers.dfy`: the Go library functions
  these use.
  - The strings functions are `TrimSpace`, `TrimLeft`, `TrimPrefix`, `Split`, `Join`, `Fields`, `Count` and `LastIndex`.
  - `decimal.dfy` has `%d` and `strconv.ParseInt`.
  - `wrappers.dfy` has an `Option` type.

Strings are sequences of runes. Every offset the source computes with `len` or
slicing cuts at an ASCII character (space, tab, `=`, `:`, `\n`), so byte and rune
positions pick out the same pieces. Durations and instants are integer
nanoseconds. The clock, the `wg` command's output, the config file's contents
and the success of QR encoding, the marker write and the ping are parameters.

## Model

| member | source | states |
|---|---|---|
| Endpoint.RewriteEndpoint | internal/bootstrap/server.go:278-326 | the loop over the lines returns exactly `Rewritten(conf, app, port)`, whose properties the lemmas below state; `rewriteEndpoint` in cmd/bootstrap-http/main.go (lines 177-225) has the same body and is modelled by the same member |
| Endpoint.Indent | internal/bootstrap/server.go:287-289 | the kept indentation is a prefix of the line made only of spaces and tabs, and it stops at the first other rune |
| Endpoint.FirstEndpointFrom | internal/bootstrap/server.go:281-285 | the line found is an Endpoint line (trimmed, starts with `Endpoint ` or `Endpoint=`) and no earlier line is; None means no line is |
| Endpoint.RewriteKeepsOtherLines | internal/bootstrap/server.go:279-325 | the line count is kept, and any line that differs is the first Endpoint line and keeps its indentation; later Endpoint lines are untouched |
| Endpoint.RewriteWithAppName | internal/bootstrap/server.go:296-300 | with app name and port, the first Endpoint line becomes its indentation followed by `Endpoint = <app>.fly.dev:<port>`; with no Endpoint line the text is returned as it was |
| Endpoint.RewriteBareIPv6 | internal/bootstrap/server.go:303-321 | otherwise the text changes exactly when the value has two or more colons, no `]` and a port after the last colon; it is cut there into non-empty host and colon-free port, giving `Endpoint = [<host>]:<port>` |
| Endpoint.BareIPv6Line | internal/bootstrap/server.go:306-317 | on one line, the IPv6 fix fires exactly when the value has two or more colons, no `]` and does not end in a colon (the `lastColon > 0` test then always holds) |
| Endpoint.RewriteIdempotent | internal/bootstrap/server.go:297-314 | rewriting the rewritten text again, with the same app name and port, changes nothing |
| Endpoint.RewrittenLineShape | internal/bootstrap/server.go:287-313 | a rewritten line is again an Endpoint line, with the original indentation and no newline |
| Endpoint.NewEndpointLine | internal/bootstrap/server.go:282-289 | indentation followed by `Endpoint =…` is recognised as an Endpoint line with that indentation |
| Endpoint.BracketedValueHasBracket | internal/bootstrap/server.go:306-312 | the value read back from a bracketed line contains `]`, so the IPv6 fix cannot fire twice |
| Endpoint.ValueAfterDirective | internal/bootstrap/server.go:290-293 | the value read from `<indent>Endpoint = <v>` is `v` itself when `v` neither starts with white space or `=` nor ends with white space |
| Endpoint.BareValueBracketed | internal/bootstrap/server.go:303-314 | without an app name and port, `<indent>Endpoint = <host>:<p>` with a colon and no `]` in the host and a non-empty port with neither becomes `<indent>Endpoint = [<host>]:<p>` |
| EndpointExamples.IPv6Example | internal/bootstrap/server.go:303-314 | `Endpoint = 2a02:1234::1:51820` without an app name becomes `Endpoint = [2a02:1234::1]:51820` |
| Durations.FormatDuration | internal/bootstrap/server.go:243-271 | the method computes `Formatted(d)`, the rendering of the in-range breakdown of the clamped whole seconds |
| Durations.WholeSeconds | internal/bootstrap/server.go:244-248 | negative durations count as 0 seconds; otherwise the result is the whole seconds `s` with `s·10⁹ <= d < (s+1)·10⁹` |
| Durations.Breakdown | internal/bootstrap/server.go:249-254 | hours < 24, minutes < 60, seconds < 60, and days·86400 + h·3600 + m·60 + s equals the whole seconds |
| Durations.BreakdownUnique | internal/bootstrap/server.go:249-254 | any in-range days/hours/minutes/seconds that add up to a total are that total's breakdown |
| Durations.FormattedRoundTrip | internal/bootstrap/server.go:243-271 | reading the rendered text back as digits-and-unit pieces gives the duration's whole seconds |
| Durations.FormattedZero | internal/bootstrap/server.go:244-267 | a negative duration, or one under a second, prints as `0s` |
| Durations.PartsCanonical | internal/bootstrap/server.go:256-268 | pieces come in d, h, m, s order with each unit at most once; only the lone `0s` piece holds a zero, and that happens exactly for 0 seconds |
| Durations.PartsAreComponents | internal/bootstrap/server.go:257-268 | each piece carries the breakdown's component for its unit |
| Durations.Since | internal/bootstrap/server.go:237 | the idle time is a valid duration, and non-negative when the handshake is not in the future |
| Durations.SinceUnix | internal/bootstrap/server.go:237 | `time.Since(time.Unix(sec, 0))`: when `sec + 62135596800` overflows int64 the instant reads as before every clock reading and the result is the largest duration (the smallest on underflow); otherwise it is `Since` of `sec·10⁹` nanoseconds; a past handshake never gives a negative idle time |
| Handshakes.Stamp | internal/bootstrap/server.go:219-226 | a line has a timestamp only if it has exactly two fields and the second parses as an int64 |
| Handshakes.WellFormedLine | internal/bootstrap/server.go:219-226 | a `<key><white space><digits>` line, as `wg` prints it, carries that number |
| Handshakes.MalformedIgnored | internal/bootstrap/server.go:220-226 | a line without a timestamp does not change the result |
| Handshakes.MaxOfIsLatest | internal/bootstrap/server.go:216-230 | the running maximum from 0 is non-negative, no timestamp exceeds it, and unless 0 some line carries it |
| Handshakes.LatestUnique | internal/bootstrap/server.go:216-230 | that description of the latest handshake fixes it uniquely |
| Handshakes.LatestHandshake | internal/bootstrap/server.go:215-230 | the loop's `lastHandshake` is that latest handshake |
| Handshakes.NeverIffNoPositive | internal/bootstrap/server.go:232-235 | "never handshaken" holds exactly when no line carries a positive timestamp |
| Handshakes.WireGuardIdle | internal/bootstrap/server.go:209-238 | a failed command is reported as an error and nothing else is; otherwise Never, or the idle time `time.Since(time.Unix(latest, 0))` as `SinceUnix` gives it, always a valid duration |
| Handshakes.PollOutcomes | internal/bootstrap/server.go:215-237 | Never exactly when no positive timestamp; otherwise the idle time is measured from a timestamp some line carries, and is the largest duration when that timestamp is too large for `time.Unix` |
| Keepalive.StopExactly | internal/bootstrap/server.go:139-180 | a tick stops the loop exactly when it is past the startup window and the poll says never handshaken or idle over 5 minutes |
| Keepalive.DecisionIgnoresTracker | internal/bootstrap/server.go:164-168 | whether a tick pings depends neither on the previous idle time (a decrease is only logged) nor on the session |
| Keepalive.StartupWindowPings | internal/bootstrap/server.go:139-141 | inside the 2-minute window a tick pings and leaves the state untouched, whatever a poll would report |
| Keepalive.PollErrorPings | internal/bootstrap/server.go:144-147 | a failed poll pings and leaves the state untouched |
| Keepalive.IdleUpdates | internal/bootstrap/server.go:168-192 | after a successful poll `lastIdle` is the new idle time; if the loop goes on, `connected` is true and `connectedSince` is set only on the false→true change |
| Keepalive.ConnectedStays | internal/bootstrap/server.go:183-192 | a tick never ends an inferred session nor moves its start |
| Keepalive.SessionKept | internal/bootstrap/server.go:134-203 | over any run, a session once inferred stays connected with the same start |
| Keepalive.PingFailuresIgnored | internal/bootstrap/server.go:196-200 | runs that differ only in which pings failed behave identically |
| Keepalive.StopsOnFirstIdleOverLimit | internal/bootstrap/server.go:134-203 | with idle times within the limit on ticks 1..n-1 and over it on tick n, the loop pings n-1 times and ends on tick n |
| Keepalive.WrappedStampStops | internal/bootstrap/server.go:168-180 | past the startup window, a latest handshake too large for `time.Unix` reads as the largest idle time, so the tick records it and ends the loop |
| Keepalive.StopsOnNever | internal/bootstrap/server.go:148-158 | a poll reporting no handshake ever ends the loop on that tick, without a ping and without touching the state |
| Keepalive.Monitor.constructor | internal/bootstrap/server.go:120-132 | the loop starts with `lastIdle` = -1, not connected, at the given start instant |
| Keepalive.Monitor.Tick | internal/bootstrap/server.go:139-192 | the new decision and variables are those of `Step` on the old variables, polling `wg` only after the startup window |
| Keepalive.Monitor.Run | internal/bootstrap/server.go:134-203 | the pings sent, whether the loop ended and the final variables are `RunSpec` of the ticks |
| ServerGate.GoneWhenDone | internal/bootstrap/server.go:78-81 | with the marker present the reply is 410, before any read |
| ServerGate.Unauthorized | internal/bootstrap/server.go:83-87 | 401 exactly when a token is configured and the query's differs, missing or wrong alike, and then the config is not read |
| ServerGate.ConfigNotReady | internal/bootstrap/server.go:89-93 | an unreadable config gets 503 and leaves no marker |
| ServerGate.PageAfterRead | internal/bootstrap/server.go:95-112 | after a read the page follows with the rewritten config, QR or not; the marker is written before it and exists afterwards exactly when its write succeeded |
| ServerGate.MarkerFollowsPage | internal/bootstrap/server.go:77-113 | a page is served only with the marker absent; afterwards the marker exists exactly when it was present or a page was served and its write succeeded |
| ServerGate.NoPageAfterDone | internal/bootstrap/server.go:78-81 | once the marker exists no request gets the page |
| ServerGate.OnceWhileWritesSucceed | internal/bootstrap/server.go:77-113 | while marker writes succeed the page is served at most once |
| ServerGate.ReplayAfterFailedWrite | internal/bootstrap/server.go:104-107 | because a failed marker write is ignored, the next admitted request gets the page again |
| CmdGate.Getenv | cmd/bootstrap-http/main.go:148-153 | the variable's value when it is non-empty, the default otherwise |
| CmdGate.EndpointPortChosen | cmd/bootstrap-http/main.go:54-65 | the endpoint port is `BOOTSTRAP_ENDPOINT_PORT`, else `SERVERPORT`, else 51820, so it is never empty; listen port and peer name are never empty |
| CmdGate.GoneFirst | cmd/bootstrap-http/main.go:85-88 | with the marker present the reply is 410, before any token check or read |
| CmdGate.TokenChecks | cmd/bootstrap-http/main.go:90-101 | with a token configured, missing gives 401 and wrong gives 403, both without reading; without a token neither occurs |
| CmdGate.ConfigNotReady | cmd/bootstrap-http/main.go:103-108 | an unreadable config gets 503 and the marker is not written |
| CmdGate.QrFailure | cmd/bootstrap-http/main.go:118-123 | a QR failure gets 500 and the marker is not written |
| CmdGate.WriteFailure | cmd/bootstrap-http/main.go:126-130 | a failed marker write gets 500 and no page |
| CmdGate.PageOnlyAfterMarker | cmd/bootstrap-http/main.go:84-139 | the page is served exactly when the marker was absent, the request admitted and every call succeeded; it shows the rewritten config after the marker write, and the marker then exists exactly when a page was served (or it already did) |
| CmdGate.AllGoneAfterDone | cmd/bootstrap-http/main.go:85-88 | once the marker exists every later request gets 410, whatever its token |
| CmdGate.AtMostOnce | cmd/bootstrap-http/main.go:84-139 | over any sequence of requests and outside-call outcomes the page is served at most once |
| CmdGate.FirstThenGone | cmd/bootstrap-http/main.go:84-139 | fresh start, config present, no token: the first request gets the page with the rewritten config and QR, the second 410 |

## Left out

- HTTP serving is not modelled: the muxes, `/` and `/healthz`, the status text written to the response, and `ListenAndServe`.
- QR encoding, base64 and the HTML templates are not modelled. QR encoding is the request's `qrOk` flag; rendering the template is the `RenderPage` effect. A template error is not modelled: cmd/bootstrap-http/main.go logs it and internal/bootstrap/server.go ignores it.
- Files are not modelled (`os.Stat`, `os.ReadFile`, `os.WriteFile`, `fileExists`). The marker is a flag. A marker write that fails is taken to leave no marker; a partly written file is not modelled.
- The concurrency race is not modelled. Two concurrent `/bootstrap` requests can both pass the marker check before either writes it; requests here are served one after another.
- The goroutine launch, the `KEEPALIVE_ENABLED` switch, `time.Sleep(interval)` and the HTTP ping client are left out.
  - The ping's outcome is a flag, and the loop ignores it.
  - `Keepalive.Interval` only records the constant.
- All log text is left out, including the handshake-reset message, which has no effect on control flow.
- `Keepalive.Monitor.Tick`: `connectedSince` is taken from the same clock reading as the tick, not from a second `time.Now()`.
- `Keepalive.Monitor.Tick`: time is plain integer nanoseconds. Monotonic-clock details are not modelled.
- `Durations.FormatDuration`: `d.Seconds()` is a float64 conversion; it is modelled as integer division by 10⁹, so float rounding of very large durations is not captured.
- `Handshakes.WireGuardIdle`: `exec.Command("wg", …)` is replaced by its output text, or None when it fails. `time.Since(time.Unix(ts, 0))` is `Durations.SinceUnix`; the clock reading `now` is a parameter.
- Go's `time` package is not part of this model. `Durations.SinceUnix` follows its `Unix` (which adds 62135596800 seconds to reach its internal epoch, in int64 arithmetic) and the overflow check of `Time.Sub`.
- `Endpoint.RewriteKeepsOtherLines` assumes the app name and port contain no newline; otherwise the new line would itself split into several lines.
- `Endpoint.RewriteWithAppName` and `Endpoint.RewriteIdempotent` carry the same newline assumption.
- Strings are sequences of runes; invalid UTF-8 in a config is not modelled.
- `waitForFile` (cmd/bootstrap-http/main.go:155-164) is never called.
- internal/config/config.go and internal/ui/page.go are not part of this model. The library server's settings come from there and appear here as parameters.
- `filepath.Join` path building is not part of this model.
