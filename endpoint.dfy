/**
 * Endpoint normalisation of a WireGuard peer configuration (`rewriteEndpoint`).
 * Both binaries carry the same body, so one definition models both.
 *
 * The first line whose trimmed form starts with `Endpoint ` or `Endpoint=` is
 * the only candidate. With an app name and a port it becomes
 * `Endpoint = <app>.fly.dev:<port>`; otherwise an unbracketed IPv6 value with a
 * trailing port gets its host bracketed; in every other case the text is
 * returned as it was. Indentation (spaces and tabs) of the changed line is kept.
 */
module Endpoint {
  import opened Wrappers
  import opened GoStrings

  /** The runes `strings.TrimLeft(line, " \t")` removes to find the indentation. */
  const IndentRunes: set<char> := {' ', '\t'}

  predicate IsEndpointLine(line: string) {
    var trimmed := TrimSpace(line);
    HasPrefix(trimmed, "Endpoint ") || HasPrefix(trimmed, "Endpoint=")
  }

  /** The leading spaces and tabs of a line. */
  function Indent(line: string): (indent: string)
    ensures HasPrefix(line, indent)
    ensures forall i :: 0 <= i < |indent| ==> indent[i] in IndentRunes
    ensures |indent| == |line| || line[|indent|] !in IndentRunes
  {
    var rest := TrimLeft(line, IndentRunes);
    TrimLeftSpec(line, IndentRunes);
    line[..|line| - |rest|]
  }

  /** The value after `Endpoint`, with white space and any `=` removed in front. */
  function CurrentValue(line: string): string
  {
    TrimLeft(TrimSpace(TrimPrefix(TrimSpace(line), "Endpoint")), {' ', '='})
  }

  /** The start of every line the rewrite produces. */
  const Directive: string := "Endpoint ="

  /** `Endpoint = <app>.fly.dev:<port>` */
  function FlyTarget(app: string, port: string): string
  {
    Directive + (" " + app + ".fly.dev:" + port)
  }

  /** `Endpoint = [<host>]:<port>` */
  function BracketTarget(host: string, port: string): string
  {
    Directive + (" [" + host + "]:" + port)
  }

  /** The two targets spelled out as the `Sprintf` formats write them. */
  lemma TargetsSpelledOut(app: string, port: string, host: string, p: string)
    ensures FlyTarget(app, port) == "Endpoint = " + app + ".fly.dev:" + port
    ensures BracketTarget(host, p) == "Endpoint = [" + host + "]:" + p
  {
    assert Directive + " " == "Endpoint = ";
    assert Directive + " [" == "Endpoint = [";
  }

  /**
   * The new text of an Endpoint line, or None when the whole configuration is
   * to be returned unchanged.
   */
  function RewriteLine(line: string, app: string, port: string): Option<string>
  {
    if app != "" && port != "" then Some(Indent(line) + FlyTarget(app, port))
    else
      var current := CurrentValue(line);
      if Count(current, ':') > 1 && ']' !in current then
        var lastColon := LastIndex(current, ':');
        if 0 < lastColon < |current| - 1 && current[lastColon + 1..] != "" then
          Some(Indent(line) + BracketTarget(current[..lastColon], current[lastColon + 1..]))
        else None
      else None
  }

  /** The position of the first Endpoint line at or after position `i`, if any. */
  function FirstEndpointFrom(lines: seq<string>, i: nat): (k: Option<nat>)
    requires i <= |lines|
    ensures k.Some? ==> i <= k.value < |lines| && IsEndpointLine(lines[k.value])
    ensures k.Some? ==> forall j :: i <= j < k.value ==> !IsEndpointLine(lines[j])
    ensures k.None? ==> forall j :: i <= j < |lines| ==> !IsEndpointLine(lines[j])
    decreases |lines| - i
  {
    if i == |lines| then None
    else if IsEndpointLine(lines[i]) then Some(i)
    else FirstEndpointFrom(lines, i + 1)
  }

  /** The position of the first Endpoint line, if any. */
  function FirstEndpoint(lines: seq<string>): Option<nat>
  {
    FirstEndpointFrom(lines, 0)
  }

  /** The first Endpoint line is the one with no Endpoint line before it. */
  lemma {:induction false} FirstEndpointAt(lines: seq<string>, i: nat, k: nat)
    requires i <= k < |lines| && IsEndpointLine(lines[k])
    requires forall j :: i <= j < k ==> !IsEndpointLine(lines[j])
    ensures FirstEndpointFrom(lines, i) == Some(k)
    decreases k - i
  {
    if i < k {
      FirstEndpointAt(lines, i + 1, k);
    }
  }

  /** The normalised configuration. */
  function Rewritten(conf: string, app: string, port: string): string
  {
    var lines := Split(conf, '\n');
    match FirstEndpoint(lines)
    case None => conf
    case Some(k) =>
      match RewriteLine(lines[k], app, port)
      case None => conf
      case Some(line) => Join(lines[k := line], '\n')
  }

  /** `rewriteEndpoint`: walks the lines and rewrites the first Endpoint line in place. */
  method RewriteEndpoint(conf: string, app: string, port: string) returns (r: string)
    ensures r == Rewritten(conf, app, port)
  {
    var lines := Split(conf, '\n');
    var i := 0;
    while i < |lines|
      invariant 0 <= i <= |lines|
      invariant lines == Split(conf, '\n')
      invariant forall j :: 0 <= j < i ==> !IsEndpointLine(lines[j])
    {
      var line := lines[i];
      var trimmed := TrimSpace(line);
      if HasPrefix(trimmed, "Endpoint ") || HasPrefix(trimmed, "Endpoint=") {
        FirstEndpointAt(lines, 0, i);
        var indentLen := |line| - |TrimLeft(line, IndentRunes)|;
        var indent := line[..indentLen];
        var rest := TrimSpace(TrimPrefix(trimmed, "Endpoint"));
        rest := TrimLeft(rest, {' ', '='});
        var current := rest;
        assert indent == Indent(line) && current == CurrentValue(line);
        TargetsSpelledOut(app, port, "", "");
        if app != "" && port != "" {
          var target := "Endpoint = " + app + ".fly.dev:" + port;
          assert RewriteLine(line, app, port) == Some(indent + target);
          lines := lines[i := indent + target];
          return Join(lines, '\n');
        }
        if Count(current, ':') > 1 && ']' !in current {
          var lastColon := LastIndex(current, ':');
          if 0 < lastColon < |current| - 1 && current[lastColon + 1..] != "" {
            var host := current[..lastColon];
            var p := current[lastColon + 1..];
            var target := "Endpoint = [" + host + "]:" + p;
            TargetsSpelledOut(app, port, host, p);
            assert RewriteLine(line, app, port) == Some(indent + target);
            lines := lines[i := indent + target];
            return Join(lines, '\n');
          }
        }
        assert RewriteLine(line, app, port) == None;
        return conf;
      }
      i := i + 1;
    }
    return conf;
  }

  /** An unbracketed value with two or more colons whose last colon is followed by a port. */
  predicate IsBareIPv6WithPort(current: string) {
    Count(current, ':') > 1 && ']' !in current && current[|current| - 1] != ':'
  }

  /**
   * Only the first Endpoint line may change, and it keeps its indentation;
   * every other line, later Endpoint lines included, is the same as before.
   */
  lemma RewriteKeepsOtherLines(conf: string, app: string, port: string)
    requires '\n' !in app && '\n' !in port
    ensures var lines := Split(conf, '\n');
      var out := Split(Rewritten(conf, app, port), '\n');
      && |out| == |lines|
      && forall j :: 0 <= j < |lines| && out[j] != lines[j] ==>
           FirstEndpoint(lines) == Some(j) && Indent(out[j]) == Indent(lines[j])
  {
    var lines := Split(conf, '\n');
    JoinSplit(conf, '\n');
    match FirstEndpoint(lines)
    case None =>
    case Some(k) =>
      match RewriteLine(lines[k], app, port)
      case None =>
      case Some(line) =>
        RewrittenLineShape(lines[k], app, port);
        SplitJoin(lines[k := line], '\n');
  }

  /**
   * With an app name and a port, the first Endpoint line becomes its own
   * indentation followed by `Endpoint = <app>.fly.dev:<port>`; without an
   * Endpoint line the text is unchanged.
   */
  lemma RewriteWithAppName(conf: string, app: string, port: string)
    requires app != "" && port != ""
    requires '\n' !in app && '\n' !in port
    ensures var lines := Split(conf, '\n');
      var r := Rewritten(conf, app, port);
      match FirstEndpoint(lines)
      case None => r == conf
      case Some(k) => Split(r, '\n') == lines[k := Indent(lines[k]) + FlyTarget(app, port)]
  {
    var lines := Split(conf, '\n');
    match FirstEndpoint(lines)
    case None =>
    case Some(k) =>
      RewrittenLineShape(lines[k], app, port);
      SplitJoin(lines[k := Indent(lines[k]) + FlyTarget(app, port)], '\n');
  }

  /**
   * Without an app name or port, the first Endpoint line is rewritten exactly
   * when its value is a bare IPv6 address with a port: the value is cut at its
   * last colon into a non-empty host and a non-empty, colon-free port, and the
   * line becomes `Endpoint = [<host>]:<port>`. Otherwise the text is unchanged.
   */
  lemma RewriteBareIPv6(conf: string, app: string, port: string, k: nat)
    requires app == "" || port == ""
    requires FirstEndpoint(Split(conf, '\n')) == Some(k)
    ensures var lines := Split(conf, '\n');
      var current := CurrentValue(lines[k]);
      var r := Rewritten(conf, app, port);
      && (!IsBareIPv6WithPort(current) ==> r == conf)
      && (IsBareIPv6WithPort(current) ==>
            var cut := LastIndex(current, ':');
            var host, p := current[..cut], current[cut + 1..];
            && current == host + ":" + p
            && host != "" && p != "" && ':' !in p
            && Split(r, '\n') == lines[k := Indent(lines[k]) + BracketTarget(host, p)])
  {
    var current := CurrentValue(Split(conf, '\n')[k]);
    if IsBareIPv6WithPort(current) {
      BareRewrite(conf, app, port, k);
    } else {
      BareIPv6Line(Split(conf, '\n')[k], app, port);
    }
  }

  lemma BareRewrite(conf: string, app: string, port: string, k: nat)
    requires app == "" || port == ""
    requires FirstEndpoint(Split(conf, '\n')) == Some(k)
    requires IsBareIPv6WithPort(CurrentValue(Split(conf, '\n')[k]))
    ensures var lines := Split(conf, '\n');
      var current := CurrentValue(lines[k]);
      var cut := LastIndex(current, ':');
      var host, p := current[..cut], current[cut + 1..];
      && current == host + ":" + p
      && host != "" && p != "" && ':' !in p
      && Split(Rewritten(conf, app, port), '\n') == lines[k := Indent(lines[k]) + BracketTarget(host, p)]
  {
    var lines := Split(conf, '\n');
    BareValueCut(CurrentValue(lines[k]));
    BareLineRewritten(conf, app, port, k);
  }

  /** A bare IPv6 value is cut at its last colon into a non-empty host and a non-empty, colon-free port. */
  lemma BareValueCut(current: string)
    requires IsBareIPv6WithPort(current)
    ensures var cut := LastIndex(current, ':');
      var host, p := current[..cut], current[cut + 1..];
      && current == host + ":" + p
      && host != "" && p != "" && ':' !in p
  {
    LastIndexPastFirst(current, ':');
    var cut := LastIndex(current, ':');
    assert current[..cut + 1] == current[..cut] + ":" by { assert current[cut] == ':'; }
    assert current == current[..cut + 1] + current[cut + 1..];
  }

  lemma BareLineRewritten(conf: string, app: string, port: string, k: nat)
    requires app == "" || port == ""
    requires FirstEndpoint(Split(conf, '\n')) == Some(k)
    requires IsBareIPv6WithPort(CurrentValue(Split(conf, '\n')[k]))
    ensures var lines := Split(conf, '\n');
      var current := CurrentValue(lines[k]);
      var cut := LastIndex(current, ':');
      Split(Rewritten(conf, app, port), '\n') ==
        lines[k := Indent(lines[k]) + BracketTarget(current[..cut], current[cut + 1..])]
  {
    var lines := Split(conf, '\n');
    SplitPiecesClean(conf, k);
    BareLineOut(lines[k], app, port);
    RewriteAt(conf, app, port, k);
  }

  /** A newline-free line with a bare IPv6 value gets the bracketed, newline-free form. */
  lemma BareLineOut(line: string, app: string, port: string)
    requires app == "" || port == ""
    requires '\n' !in line && IsBareIPv6WithPort(CurrentValue(line))
    ensures var current := CurrentValue(line);
      var cut := LastIndex(current, ':');
      var out := Indent(line) + BracketTarget(current[..cut], current[cut + 1..]);
      RewriteLine(line, app, port) == Some(out) && '\n' !in out
  {
    BareIPv6Line(line, app, port);
    BracketLineShape(line, app, port);
  }

  /** The pieces `Split` yields hold no newline. */
  lemma SplitPiecesClean(conf: string, k: nat)
    requires k < |Split(conf, '\n')|
    ensures '\n' !in Split(conf, '\n')[k]
  {
  }

  /** When the first Endpoint line is rewritten to a newline-free line, only that line changes. */
  lemma RewriteAt(conf: string, app: string, port: string, k: nat)
    requires FirstEndpoint(Split(conf, '\n')) == Some(k)
    requires RewriteLine(Split(conf, '\n')[k], app, port).Some?
    requires '\n' !in RewriteLine(Split(conf, '\n')[k], app, port).value
    ensures var lines := Split(conf, '\n');
      Split(Rewritten(conf, app, port), '\n') == lines[k := RewriteLine(lines[k], app, port).value]
  {
    var lines := Split(conf, '\n');
    SplitJoin(lines[k := RewriteLine(lines[k], app, port).value], '\n');
  }

  /** The line-level decision of the IPv6 fix. */
  lemma BareIPv6Line(line: string, app: string, port: string)
    requires app == "" || port == ""
    ensures var current := CurrentValue(line);
      var cut := LastIndex(current, ':');
      RewriteLine(line, app, port) ==
        if IsBareIPv6WithPort(current)
        then Some(Indent(line) + BracketTarget(current[..cut], current[cut + 1..]))
        else None
  {
    var current := CurrentValue(line);
    if Count(current, ':') > 1 {
      LastIndexPastFirst(current, ':');
    }
  }

  /**
   * Rewriting is idempotent for a fixed app name and port: the app-name form
   * regenerates the same line, and the bracketed form holds `]`, so the IPv6
   * fix does not fire a second time.
   */
  lemma RewriteIdempotent(conf: string, app: string, port: string)
    requires '\n' !in app && '\n' !in port
    ensures Rewritten(Rewritten(conf, app, port), app, port) == Rewritten(conf, app, port)
  {
    var lines := Split(conf, '\n');
    match FirstEndpoint(lines)
    case None =>
    case Some(k) =>
      match RewriteLine(lines[k], app, port)
      case None =>
      case Some(line) =>
        SplitPiecesClean(conf, k);
        RewrittenLineShape(lines[k], app, port);
        RewriteAt(conf, app, port, k);
        var r := Rewritten(conf, app, port);
        var next := lines[k := line];
        FirstEndpointAt(next, 0, k);
        RewrittenLineStable(lines[k], app, port);
        JoinSplit(r, '\n');
        assert next[k := line] == next;
  }

  /** Rewriting an already rewritten line leaves it as it is, or leaves the text unchanged. */
  lemma RewrittenLineStable(line: string, app: string, port: string)
    requires RewriteLine(line, app, port).Some?
    requires Indent(RewriteLine(line, app, port).value) == Indent(line)
    ensures var out := RewriteLine(line, app, port).value;
      RewriteLine(out, app, port) == None || RewriteLine(out, app, port) == Some(out)
  {
    if app == "" || port == "" {
      var current := CurrentValue(line);
      var cut := LastIndex(current, ':');
      BareIPv6Line(line, app, port);
      BracketedValueHasBracket(Indent(line), current[..cut], current[cut + 1..]);
    }
  }

  /**
   * A rewritten line is an Endpoint line with the original indentation, holds
   * no newline when its inputs hold none, and has one of the two target forms.
   */
  lemma RewrittenLineShape(line: string, app: string, port: string)
    requires '\n' !in line
    requires app != "" && port != "" ==> '\n' !in app && '\n' !in port
    requires RewriteLine(line, app, port).Some?
    ensures var out := RewriteLine(line, app, port).value;
      && '\n' !in out
      && IsEndpointLine(out)
      && Indent(out) == Indent(line)
  {
    if app != "" && port != "" {
      FlyLineShape(line, app, port);
    } else {
      BracketLineShape(line, app, port);
    }
  }

  lemma FlyLineShape(line: string, app: string, port: string)
    requires '\n' !in line && app != "" && port != "" && '\n' !in app && '\n' !in port
    ensures var out := Indent(line) + FlyTarget(app, port);
      && '\n' !in out
      && IsEndpointLine(out)
      && Indent(out) == Indent(line)
  {
    var indent := Indent(line);
    assert line == indent + line[|indent|..];
    var rest := " " + app + ".fly.dev:" + port;
    assert '\n' !in rest;
    NewEndpointLine(indent, rest);
    assert '\n' !in Directive;
  }

  lemma BracketLineShape(line: string, app: string, port: string)
    requires '\n' !in line && (app == "" || port == "")
    requires RewriteLine(line, app, port).Some?
    ensures var out := RewriteLine(line, app, port).value;
      && '\n' !in out
      && IsEndpointLine(out)
      && Indent(out) == Indent(line)
  {
    var indent := Indent(line);
    var current := CurrentValue(line);
    var cut := LastIndex(current, ':');
    var rest := " [" + current[..cut] + "]:" + current[cut + 1..];
    assert RewriteLine(line, app, port).value == indent + (Directive + rest) && 0 <= cut < |current| by {
      BareIPv6Line(line, app, port);
    }
    assert '\n' !in rest by {
      CurrentValueWithin(line, '\n');
      BracketRestClean(current, cut);
    }
    assert '\n' !in indent by {
      assert line == indent + line[|indent|..];
    }
    NewEndpointLine(indent, rest);
    assert '\n' !in Directive;
  }

  lemma BracketRestClean(current: string, cut: nat)
    requires '\n' !in current && cut < |current|
    ensures '\n' !in " [" + current[..cut] + "]:" + current[cut + 1..]
  {
    assert current == current[..cut] + [current[cut]] + current[cut + 1..];
  }

  /** Indentation followed by `Endpoint =...` is an Endpoint line with that indentation. */
  lemma NewEndpointLine(indent: string, rest: string)
    requires forall i :: 0 <= i < |indent| ==> indent[i] in IndentRunes
    ensures IsEndpointLine(indent + (Directive + rest))
    ensures Indent(indent + (Directive + rest)) == indent
  {
    var w := Directive + rest;
    assert w[0] == 'E' && w[9] == '=';
    TrimLeftPadded(indent, w, Spaces);
    TrimLeftPadded(indent, w, IndentRunes);
    TrimRightSpec(w, Spaces);
    var t := TrimRight(w, Spaces);
    assert |t| > 9;
    assert t[..9] == w[..9];
    assert (indent + w)[..|indent|] == indent;
  }

  /** Trimming an indented text that starts and ends with non-space runes leaves the text. */
  lemma TrimIndented(indent: string, w: string)
    requires forall i :: 0 <= i < |indent| ==> indent[i] in IndentRunes
    requires w != [] && !IsSpace(w[0]) && !IsSpace(w[|w| - 1])
    ensures TrimSpace(indent + w) == w
  {
    TrimLeftPadded(indent, w, Spaces);
  }

  /**
   * Trimming an indented text that starts with a non-space rune leaves a
   * prefix of the text that reaches past any other non-space rune.
   */
  lemma TrimIndentedPrefix(indent: string, w: string, at: nat)
    requires forall i :: 0 <= i < |indent| ==> indent[i] in IndentRunes
    requires at < |w| && !IsSpace(w[0]) && !IsSpace(w[at])
    ensures var t := TrimSpace(indent + w); at < |t| <= |w| && t == w[..|t|]
  {
    TrimLeftPadded(indent, w, Spaces);
    TrimRightSpec(w, Spaces);
    var t := TrimRight(w, Spaces);
    assert t == w[..|t|];
  }

  /**
   * The value of `<indent>Endpoint = <v>` is `v` itself, when `v` neither
   * starts with white space or `=` nor ends with white space.
   */
  lemma ValueAfterDirective(indent: string, v: string)
    requires forall i :: 0 <= i < |indent| ==> indent[i] in IndentRunes
    requires v != [] && !IsSpace(v[0]) && v[0] != '=' && !IsSpace(v[|v| - 1])
    ensures CurrentValue(indent + (Directive + (" " + v))) == v
  {
    var w := Directive + (" " + v);
    var u := "= " + v;
    assert TrimSpace(indent + w) == w by {
      assert w[0] == 'E' && w[|w| - 1] == v[|v| - 1];
      TrimIndented(indent, w);
    }
    assert TrimPrefix(w, "Endpoint") == " " + u by {
      assert w == "Endpoint" + (" " + u);
    }
    assert TrimSpace(" " + u) == u by {
      assert u[0] == '=' && u[|u| - 1] == v[|v| - 1];
      TrimIndented(" ", u);
    }
    TrimLeftPadded("= ", v, {' ', '='});
  }

  /**
   * Without an app name and port, `<indent>Endpoint = <host>:<p>` whose host
   * holds a colon and no `]`, and whose port is non-empty with no colon and
   * no `]`, becomes `<indent>Endpoint = [<host>]:<p>`.
   */
  lemma BareValueBracketed(indent: string, host: string, p: string, app: string, port: string)
    requires app == "" || port == ""
    requires forall i :: 0 <= i < |indent| ==> indent[i] in IndentRunes
    requires host != [] && !IsSpace(host[0]) && host[0] != '='
    requires p != [] && !IsSpace(p[|p| - 1])
    requires ':' in host && ']' !in host && ':' !in p && ']' !in p
    ensures RewriteLine(indent + (Directive + (" " + (host + ":" + p))), app, port) ==
      Some(indent + BracketTarget(host, p))
  {
    var v := host + ":" + p;
    var line := indent + (Directive + (" " + v));
    BareValueShape(host, p);
    ValueAfterDirective(indent, v);
    NewEndpointLine(indent, " " + v);
    BareIPv6Line(line, app, port);
  }

  /** `<host>:<p>` is a bare IPv6 value with a port, cut at the colon between the two. */
  lemma BareValueShape(host: string, p: string)
    requires host != [] && p != []
    requires ':' in host && ']' !in host && ':' !in p && ']' !in p
    ensures var v := host + ":" + p;
      && v[0] == host[0] && v[|v| - 1] == p[|p| - 1]
      && IsBareIPv6WithPort(v) && LastIndex(v, ':') == |host|
      && v[..|host|] == host && v[|host| + 1..] == p
  {
    var v := host + ":" + p;
    CountBoth(host, ":" + p, ':');
    assert v == (host + ":") + p;
    LastIndexBefore(host + ":", p, ':');
    assert ']' !in v;
  }

  /** The value read back from a bracketed Endpoint line contains `]`. */
  lemma BracketedValueHasBracket(indent: string, host: string, p: string)
    requires forall i :: 0 <= i < |indent| ==> indent[i] in IndentRunes
    ensures ']' in CurrentValue(indent + BracketTarget(host, p))
  {
    var w := BracketTarget(host, p);
    var at := 12 + |host|;
    assert w == "Endpoint" + (" = [" + host + "]:" + p);
    assert w[0] == 'E' && w[at] == ']';
    TrimIndentedPrefix(indent, w, at);
    var t := TrimSpace(indent + w);
    assert t[..8] == w[..8] == "Endpoint";
    var v := TrimPrefix(t, "Endpoint");
    assert v[at - 8] == t[at] == ']';
    TrimSpaceKeeps(v, ']');
    TrimLeftKeeps(TrimSpace(v), {' ', '='}, ']');
  }

  /** A rune absent from a line is absent from its Endpoint value. */
  lemma CurrentValueWithin(line: string, c: char)
    requires c !in line
    ensures c !in CurrentValue(line)
  {
    var t := TrimSpace(line);
    TrimSpaceWithin(line, c);
    var v := TrimPrefix(t, "Endpoint");
    assert c !in v by {
      if HasPrefix(t, "Endpoint") {
        assert t == t[..8] + v;
      }
    }
    TrimSpaceWithin(v, c);
    var u := TrimSpace(v);
    TrimLeftSpec(u, {' ', '='});
    var r := TrimLeft(u, {' ', '='});
    assert u == u[..|u| - |r|] + r;
  }
}

module EndpointExamples {
  import opened Wrappers
  import opened GoStrings
  import opened Endpoint

  const Line: string := "Endpoint = 2a02:1234::1:51820"
  const Host: string := "2a02:1234::1"
  const Port: string := "51820"
  const Rewrote: string := "Endpoint = [2a02:1234::1]:51820"

  /** Without an app name, a bare IPv6 endpoint gets its host bracketed. */
  lemma IPv6Example()
    ensures Rewritten(Line, "", "") == Rewrote
  {
    ExampleSplit();
    ExampleFirst();
    ExampleLine();
    ExampleRewriteLine(Line);
    ExampleTarget();
    assert [Line][0 := Rewrote] == [Rewrote];
  }

  lemma ExampleSplit()
    ensures Split(Line, '\n') == [Line]
  {
    ExampleLine();
    SplitNoSep(Line, '\n');
  }

  lemma ExampleFirst()
    ensures FirstEndpoint([Line]) == Some(0)
  {
    ExampleLine();
    NewEndpointLine("", " " + (Host + ":" + Port));
    FirstEndpointAt([Line], 0, 0);
  }

  lemma ExampleRewriteLine(line: string)
    requires line == "" + (Directive + (" " + (Host + ":" + Port)))
    ensures RewriteLine(line, "", "") == Some("" + BracketTarget(Host, Port))
  {
    ExampleParts();
    BareValueBracketed("", Host, Port, "", "");
  }

  lemma ExampleTarget()
    ensures "" + BracketTarget(Host, Port) == Rewrote
  {
    TargetsSpelledOut("", "", Host, Port);
  }

  lemma ExampleLine()
    ensures Line == "" + (Directive + (" " + (Host + ":" + Port)))
    ensures '\n' !in Line
  {
  }

  lemma ExampleParts()
    ensures Host != [] && !IsSpace(Host[0]) && Host[0] != '='
    ensures Port != [] && !IsSpace(Port[|Port| - 1])
    ensures ':' in Host && ']' !in Host && ':' !in Port && ']' !in Port
  {
    assert Host[4] == ':';
  }
}
