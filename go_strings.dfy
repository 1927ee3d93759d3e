/**
 * The parts of Go's `strings` package and of `unicode.IsSpace` that the
 * bootstrap server relies on. A Go string is modelled as the sequence of its
 * runes (Unicode code points); invalid UTF-8 is not modelled.
 */
module GoStrings {

  /** The runes for which Go's `unicode.IsSpace` holds. */
  const Spaces: set<char> := {
    '\t', '\n', '\U{000B}', '\U{000C}', '\r', ' ', '\U{0085}', '\U{00A0}',
    '\U{1680}', '\U{2000}', '\U{2001}', '\U{2002}', '\U{2003}', '\U{2004}',
    '\U{2005}', '\U{2006}', '\U{2007}', '\U{2008}', '\U{2009}', '\U{200A}',
    '\U{2028}', '\U{2029}', '\U{202F}', '\U{205F}', '\U{3000}'
  }

  predicate IsSpace(c: char) { c in Spaces }

  /** `strings.TrimLeft(s, cutset)`: drops the longest prefix made of runes in `cut`. */
  function TrimLeft(s: string, cut: set<char>): (r: string)
    ensures |r| <= |s|
    decreases |s|
  {
    if s != [] && s[0] in cut then TrimLeft(s[1..], cut) else s
  }

  /** What `TrimLeft` keeps is a suffix, what it drops is in `cut`, and it stops at a rune outside `cut`. */
  lemma {:induction false} TrimLeftSpec(s: string, cut: set<char>)
    ensures var r := TrimLeft(s, cut);
      && (forall i :: 0 <= i < |r| ==> r[i] == s[|s| - |r| + i])
      && (forall i :: 0 <= i < |s| - |r| ==> s[i] in cut)
      && (r == [] || r[0] !in cut)
    decreases |s|
  {
    if s != [] && s[0] in cut {
      TrimLeftSpec(s[1..], cut);
    }
  }

  /** `strings.TrimRight(s, cutset)`: drops the longest suffix made of runes in `cut`. */
  function TrimRight(s: string, cut: set<char>): (r: string)
    ensures |r| <= |s|
    decreases |s|
  {
    if s != [] && s[|s| - 1] in cut then TrimRight(s[..|s| - 1], cut) else s
  }

  /** What `TrimRight` keeps is a prefix, what it drops is in `cut`, and it stops at a rune outside `cut`. */
  lemma {:induction false} TrimRightSpec(s: string, cut: set<char>)
    ensures var r := TrimRight(s, cut);
      && (forall i :: 0 <= i < |r| ==> r[i] == s[i])
      && (forall i :: |r| <= i < |s| ==> s[i] in cut)
      && (r == [] || r[|r| - 1] !in cut)
    decreases |s|
  {
    if s != [] && s[|s| - 1] in cut {
      TrimRightSpec(s[..|s| - 1], cut);
    }
  }

  /** `strings.TrimSpace`: trims Unicode white space at both ends. */
  function TrimSpace(s: string): string
  {
    TrimRight(TrimLeft(s, Spaces), Spaces)
  }

  predicate HasPrefix(s: string, p: string) {
    |p| <= |s| && s[..|p|] == p
  }

  /** `strings.TrimPrefix`: removes `p` once when `s` starts with it. */
  function TrimPrefix(s: string, p: string): (r: string)
    ensures HasPrefix(s, p) ==> s == p + r
    ensures !HasPrefix(s, p) ==> r == s
  {
    if HasPrefix(s, p) then s[|p|..] else s
  }

  /** `strings.Count(s, string(c))` for a one-rune separator. */
  function Count(s: string, c: char): (n: nat)
    ensures n == multiset(s)[c]
    decreases |s|
  {
    if s == [] then 0
    else
      assert s == [s[0]] + s[1..];
      (if s[0] == c then 1 else 0) + Count(s[1..], c)
  }

  /** `strings.LastIndex(s, string(c))`: the last position of `c`, or -1. */
  function LastIndex(s: string, c: char): (i: int)
    ensures -1 <= i < |s|
    ensures 0 <= i ==> s[i] == c && c !in s[i + 1..]
    ensures i == -1 ==> c !in s
    decreases |s|
  {
    if s == [] then -1
    else if s[|s| - 1] == c then |s| - 1
    else
      assert s == s[..|s| - 1] + [s[|s| - 1]];
      LastIndex(s[..|s| - 1], c)
  }

  /** With two or more occurrences of `c`, the last one is not at position 0. */
  lemma LastIndexPastFirst(s: string, c: char)
    requires Count(s, c) > 1
    ensures LastIndex(s, c) > 0
  {
  }

  /** Two pieces that each hold `c` make at least two occurrences of it. */
  lemma CountBoth(a: string, b: string, c: char)
    requires c in a && c in b
    ensures Count(a + b, c) > 1
  {
    assert multiset(a + b) == multiset(a) + multiset(b);
  }

  /** The last occurrence of `c` is the last rune of `a` when `b` holds no `c`. */
  lemma {:induction false} LastIndexBefore(a: string, b: string, c: char)
    requires a != [] && a[|a| - 1] == c && c !in b
    ensures LastIndex(a + b, c) == |a| - 1
    decreases |b|
  {
    var s := a + b;
    if b == [] {
      assert s == a;
    } else {
      assert s[..|s| - 1] == a + b[..|b| - 1];
      assert s[|s| - 1] == b[|b| - 1];
      LastIndexBefore(a, b[..|b| - 1], c);
    }
  }

  /** `strings.Split(s, string(sep))`: never empty, and no piece holds `sep`. */
  function Split(s: string, sep: char): (r: seq<string>)
    ensures |r| >= 1
    ensures forall k :: 0 <= k < |r| ==> sep !in r[k]
    decreases |s|
  {
    if s == [] then [[]]
    else
      var rest := Split(s[1..], sep);
      if s[0] == sep then [[]] + rest
      else [[s[0]] + rest[0]] + rest[1..]
  }

  /** `strings.Join(ls, string(sep))`. */
  function Join(ls: seq<string>, sep: char): string
  {
    if |ls| == 0 then []
    else if |ls| == 1 then ls[0]
    else ls[0] + [sep] + Join(ls[1..], sep)
  }

  /** Joining the pieces of a split gives back the original text. */
  lemma {:induction false} JoinSplit(s: string, sep: char)
    ensures Join(Split(s, sep), sep) == s
    decreases |s|
  {
    if s != [] {
      var rest := Split(s[1..], sep);
      JoinSplit(s[1..], sep);
      if s[0] == sep {
        calc {
          Join(Split(s, sep), sep);
          Join([[]] + rest, sep);
          { assert ([[]] + rest)[1..] == rest; }
          [] + [sep] + Join(rest, sep);
          [sep] + s[1..];
          s;
        }
      } else if |rest| == 1 {
        assert Join(rest, sep) == rest[0];
        assert s == [s[0]] + s[1..];
      } else {
        var tail := rest[1..];
        assert ([[s[0]] + rest[0]] + tail)[1..] == tail;
        assert Join(rest, sep) == rest[0] + [sep] + Join(tail, sep);
        calc {
          Join(Split(s, sep), sep);
          ([s[0]] + rest[0]) + [sep] + Join(tail, sep);
          [s[0]] + (rest[0] + [sep] + Join(tail, sep));
          [s[0]] + s[1..];
          s;
        }
      }
    }
  }

  /** A piece without the separator, followed by the separator, splits off as one piece. */
  lemma {:induction false} SplitCons(a: string, b: string, sep: char)
    requires sep !in a
    ensures Split(a + [sep] + b, sep) == [a] + Split(b, sep)
    decreases |a|
  {
    var s := a + [sep] + b;
    if a == [] {
      assert s[1..] == b;
    } else {
      assert s[1..] == a[1..] + [sep] + b;
      SplitCons(a[1..], b, sep);
      assert [a[0]] + a[1..] == a;
    }
  }

  /** A text without the separator is a single piece. */
  lemma {:induction false} SplitNoSep(a: string, sep: char)
    requires sep !in a
    ensures Split(a, sep) == [a]
    decreases |a|
  {
    if a != [] {
      SplitNoSep(a[1..], sep);
      assert [a[0]] + a[1..] == a;
    }
  }

  /** Splitting a join of separator-free pieces gives back the pieces. */
  lemma {:induction false} SplitJoin(ls: seq<string>, sep: char)
    requires |ls| >= 1
    requires forall k :: 0 <= k < |ls| ==> sep !in ls[k]
    ensures Split(Join(ls, sep), sep) == ls
    decreases |ls|
  {
    if |ls| == 1 {
      SplitNoSep(ls[0], sep);
    } else {
      SplitJoin(ls[1..], sep);
      SplitCons(ls[0], Join(ls[1..], sep), sep);
      assert [ls[0]] + ls[1..] == ls;
    }
  }

  /** The longest prefix of `s` without white space. */
  function LeadingWord(s: string): (w: string)
    ensures |w| <= |s|
    ensures forall i :: 0 <= i < |w| ==> w[i] == s[i]
    ensures forall i :: 0 <= i < |w| ==> !IsSpace(w[i])
    ensures |w| == |s| || IsSpace(s[|w|])
    decreases |s|
  {
    if s != [] && !IsSpace(s[0]) then [s[0]] + LeadingWord(s[1..]) else []
  }

  /** `strings.Fields`: the maximal runs of non-space runes, in order. */
  function Fields(s: string): (r: seq<string>)
    ensures forall k :: 0 <= k < |r| ==> r[k] != []
    ensures forall k, i :: 0 <= k < |r| && 0 <= i < |r[k]| ==> !IsSpace(r[k][i])
    decreases |s|
  {
    if s == [] then []
    else if IsSpace(s[0]) then Fields(s[1..])
    else
      var w := LeadingWord(s);
      [w] + Fields(s[|w|..])
  }

  /** Two words separated by white space, as `wg` prints them, are exactly two fields. */
  lemma FieldsOfPair(a: string, gap: string, b: string)
    requires a != [] && b != [] && gap != []
    requires forall i :: 0 <= i < |a| ==> !IsSpace(a[i])
    requires forall i :: 0 <= i < |b| ==> !IsSpace(b[i])
    requires forall i :: 0 <= i < |gap| ==> IsSpace(gap[i])
    ensures Fields(a + gap + b) == [a, b]
  {
    var s := a + gap + b;
    WordBeforeSpace(a, gap + b);
    assert s == a + (gap + b);
    assert s[|a|..] == gap + b;
    assert Fields(s) == [a] + Fields(gap + b);
    SkipSpaces(gap, b);
    WordBeforeSpace(b, []);
    assert b + [] == b;
    assert b[|b|..] == [];
    assert Fields(b) == [b] + Fields([]);
  }

  /** A space-free word followed by nothing or by white space is the leading word. */
  lemma WordBeforeSpace(w: string, t: string)
    requires forall i :: 0 <= i < |w| ==> !IsSpace(w[i])
    requires t == [] || IsSpace(t[0])
    ensures LeadingWord(w + t) == w
  {
    assert (w + t)[..|w|] == w;
  }

  /** Leading white space contributes no field. */
  lemma {:induction false} SkipSpaces(gap: string, b: string)
    requires forall i :: 0 <= i < |gap| ==> IsSpace(gap[i])
    ensures Fields(gap + b) == Fields(b)
    decreases |gap|
  {
    if gap != [] {
      assert (gap + b)[0] == gap[0];
      assert (gap + b)[1..] == gap[1..] + b;
      SkipSpaces(gap[1..], b);
    } else {
      assert gap + b == b;
    }
  }

  /** Padding made of cut runes in front of text that does not start with one is trimmed exactly. */
  lemma {:induction false} TrimLeftPadded(pad: string, s: string, cut: set<char>)
    requires forall i :: 0 <= i < |pad| ==> pad[i] in cut
    requires s == [] || s[0] !in cut
    ensures TrimLeft(pad + s, cut) == s
    decreases |pad|
  {
    if pad == [] {
      assert pad + s == s;
    } else {
      assert (pad + s)[1..] == pad[1..] + s;
      TrimLeftPadded(pad[1..], s, cut);
    }
  }

  /** A rune outside the cut set survives a left trim. */
  lemma TrimLeftKeeps(s: string, cut: set<char>, c: char)
    requires c in s && c !in cut
    ensures c in TrimLeft(s, cut)
  {
    TrimLeftSpec(s, cut);
    var r := TrimLeft(s, cut);
    var i :| 0 <= i < |s| && s[i] == c;
    assert r[i - (|s| - |r|)] == c;
  }

  /** A rune outside the cut set survives a right trim. */
  lemma TrimRightKeeps(s: string, cut: set<char>, c: char)
    requires c in s && c !in cut
    ensures c in TrimRight(s, cut)
  {
    TrimRightSpec(s, cut);
    var r := TrimRight(s, cut);
    var i :| 0 <= i < |s| && s[i] == c;
    assert r[i] == c;
  }

  /** A rune that is not white space survives `TrimSpace`. */
  lemma TrimSpaceKeeps(s: string, c: char)
    requires c in s && !IsSpace(c)
    ensures c in TrimSpace(s)
  {
    TrimLeftKeeps(s, Spaces, c);
    TrimRightKeeps(TrimLeft(s, Spaces), Spaces, c);
  }

  /** Every rune of a trimmed text occurs in the text. */
  lemma TrimSpaceWithin(s: string, c: char)
    requires c !in s
    ensures c !in TrimSpace(s)
  {
    var l := TrimLeft(s, Spaces);
    TrimLeftSpec(s, Spaces);
    TrimRightSpec(l, Spaces);
  }
}
