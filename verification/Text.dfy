/** Texts put together from pieces with one separator between them. */
module Text {
  /** Where a cursor goes on after a piece that ends at `e`: behind the separator, if any. */
  function After(s: string, e: nat): (n: nat)
    requires e <= |s|
    ensures e <= n <= |s|
  {
    if e < |s| then e + 1 else e
  }

  function Join(parts: seq<string>, sep: char): (s: string) {
    if parts == [] then ""
    else if |parts| == 1 then parts[0]
    else parts[0] + [sep] + Join(parts[1..], sep)
  }

  lemma JoinCons(p: string, rest: seq<string>, sep: char)
    requires rest != []
    ensures Join([p] + rest, sep) == p + [sep] + Join(rest, sep)
  {
    assert ([p] + rest)[1..] == rest;
  }

  /** At most the first `n`. */
  function Truncate<T>(s: seq<T>, n: nat): (r: seq<T>) {
    if |s| <= n then s else s[..n]
  }

  /** The text of `s` from `i` on is `parts` with separators between them. */
  predicate Prints(parts: seq<string>, sep: char, s: string, i: nat)
    requires i <= |s|
    decreases |parts|
  {
    if parts == [] then i == |s|
    else
      var e := i + |parts[0]|;
      && e <= |s| && s[i..e] == parts[0]
      && if |parts| == 1 then e == |s| else e < |s| && s[e] == sep && Prints(parts[1..], sep, s, e + 1)
  }

  lemma PrintsCons(p: string, rest: seq<string>, sep: char, s: string, i: nat)
    requires i + |p| <= |s|
    ensures var e := i + |p|;
      Prints([p] + rest, sep, s, i) <==>
      s[i..e] == p && if rest == [] then e == |s| else e < |s| && s[e] == sep && Prints(rest, sep, s, e + 1)
  {
    assert ([p] + rest)[1..] == rest;
  }

  /** That is, it is what Join makes of them. */
  lemma {:induction false} PrintsIsJoin(parts: seq<string>, sep: char, s: string, i: nat)
    requires i <= |s|
    ensures Prints(parts, sep, s, i) <==> s[i..] == Join(parts, sep)
    decreases |parts|
  {
    if |parts| == 1 {
      WholePart(s, i, parts[0]);
    } else if |parts| > 1 {
      var p, e := parts[0], i + |parts[0]|;
      SplitPart(s, i, p, sep, Join(parts[1..], sep));
      if e < |s| { PrintsIsJoin(parts[1..], sep, s, e + 1); }
    }
  }

  lemma WholePart(s: string, i: nat, p: string)
    requires i <= |s|
    ensures s[i..] == p <==> i + |p| == |s| && s[i..|s|] == p
  {
    assert s[i..|s|] == s[i..];
  }

  lemma SplitPart(s: string, i: nat, p: string, sep: char, rest: string)
    requires i <= |s|
    ensures var e := i + |p|;
      s[i..] == p + [sep] + rest <==> e < |s| && s[i..e] == p && s[e] == sep && s[e + 1..] == rest
  {
    var t, e := s[i..], i + |p|;
    if t == p + [sep] + rest {
      assert t[..|p|] == p && t[|p|] == sep && t[|p| + 1..] == rest;
    }
    if e < |s| {
      assert s[i..e] == t[..|p|] && s[e] == t[|p|] && s[e + 1..] == t[|p| + 1..];
      assert t == t[..|p|] + [t[|p|]] + t[|p| + 1..];
    }
  }
}
