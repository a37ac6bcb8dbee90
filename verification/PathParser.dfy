/** Paths of the form "0:/dir/file": the drive number and the list of components. */
module PathParser {
  import opened Text

  const MAX_PATH := 108

  class PathPart {
    const part: string
    var next: PathPart?

    constructor (part: string)
      ensures this.part == part && next == null
    {
      this.part, next := part, null;
    }
  }

  class PathRoot {
    const driveNo: int
    var first: PathPart?

    constructor (driveNo: int)
      ensures this.driveNo == driveNo && first == null
    {
      this.driveNo, first := driveNo, null;
    }
  }

  /** `nodes` are linked in order and the last one ends the list. */
  ghost predicate Linked(nodes: seq<PathPart>)
    reads nodes
  {
    && (nodes != [] ==> nodes[|nodes| - 1].next == null)
    && forall i, j :: 0 <= i < j < |nodes| ==>
         nodes[i] != nodes[j] && (j == i + 1 ==> nodes[i].next == nodes[j])
  }

  /** What a reader of the list finds `n` links on. */
  ghost function Nth(node: PathPart?, n: nat): PathPart?
    reads *
  {
    if node == null || n == 0 then node else Nth(node.next, n - 1)
  }

  /** From node `j` on that is the nodes in order, and then the end. */
  lemma {:induction false} LinkedIs(nodes: seq<PathPart>, j: nat, n: nat)
    requires Linked(nodes) && j < |nodes|
    ensures Nth(nodes[j], n) == if j + n < |nodes| then nodes[j + n] else null
    decreases n
  {
    if n > 0 && j + 1 < |nodes| {
      assert nodes[j].next == nodes[j + 1];
      LinkedIs(nodes, j + 1, n - 1);
    }
  }

  ghost function Names(nodes: seq<PathPart>): (r: seq<string>)
    ensures |r| == |nodes|
  {
    seq(|nodes|, i requires 0 <= i < |nodes| => nodes[i].part)
  }

  // ---- What the components of a path are ----

  /** Index of the first slash from `i` on, or the length. */
  function PartEnd(s: string, i: nat): (e: nat)
    requires i <= |s|
    ensures i <= e <= |s| && (e < |s| ==> s[e] == '/') && forall k :: i <= k < e ==> s[k] != '/'
    decreases |s| - i
  {
    if i == |s| || s[i] == '/' then i else PartEnd(s, i + 1)
  }

  /** All pieces between slashes from `i` on, empty ones included. */
  function Split(s: string, i: nat): (r: seq<string>)
    requires i <= |s|
    decreases |s| - i
  {
    var e := PartEnd(s, i);
    if e == |s| then [s[i..]] else [s[i..e]] + Split(s, e + 1)
  }

  /** What the parser takes from `i` on: pieces until one is empty. */
  function Pieces(s: string, i: nat): (r: seq<string>)
    requires i <= |s|
    decreases |s| - i
  {
    var e := PartEnd(s, i);
    if e == i then [] else [s[i..e]] + Pieces(s, After(s, e))
  }

  /** The pieces up to the first empty one. */
  function UpToEmpty(pieces: seq<string>): (r: seq<string>) {
    if pieces == [] || pieces[0] == "" then [] else [pieces[0]] + UpToEmpty(pieces[1..])
  }

  /** What it takes when memory for `count` pieces is left. */
  function Taken(s: string, i: nat, count: nat): (r: seq<string>)
    requires i <= |s|
    decreases |s| - i
  {
    var e := PartEnd(s, i);
    if e == i || count == 0 then [] else [s[i..e]] + Taken(s, After(s, e), count - 1)
  }

  predicate IsPart(p: string) {
    p != "" && '/' !in p
  }

  // ---- The parser ----

  predicate IsDigit(c: char) {
    '0' <= c <= '9'
  }

  /** pathparser_path_valid_format */
  predicate ValidFormat(path: string) {
    |path| >= 3 && IsDigit(path[0]) && path[1..3] == ":/"
  }

  class Parser {
    const path: string
    /** The shared cursor, as an index into the path. */
    var at: nat
    /** How many calls of kzalloc still succeed. */
    var left: nat

    constructor (path: string, at: nat, left: nat)
      ensures this.path == path && this.at == at && this.left == left
    {
      this.path, this.at, this.left := path, at, left;
    }

    method Kzalloc() returns (ok: bool)
      modifies this`left
      ensures ok <==> old(left) > 0
      ensures left == if ok then old(left) - 1 else 0
    {
      ok := left > 0;
      if ok {
        left := left - 1;
      }
    }

    /** pathparser_get_path_part: no memory or an empty piece gives null; every other
        piece fits the 108-byte buffer with its terminator. */
    method GetPathPart() returns (part: string, found: bool)
      requires 3 <= at <= |path| <= MAX_PATH
      modifies this
      ensures left == if old(left) == 0 then 0 else old(left) - 1
      ensures old(left) == 0 ==> !found && at == old(at)
      ensures old(left) > 0 ==>
                var e := PartEnd(path, old(at));
                && part == path[old(at)..e] && |part| < MAX_PATH
                && (found <==> part != "")
                && at == After(path, e)
    {
      part := "";
      var ok := Kzalloc();
      if !ok {
        return part, false;
      }
      var i := 0;
      while at < |path| && path[at] != '/'
        invariant old(at) <= at <= |path| && i == at - old(at) && left == old(left) - 1
        invariant part == path[old(at)..at] && PartEnd(path, old(at)) == PartEnd(path, at)
      {
        part := part + [path[at]];
        at := at + 1;
        i := i + 1;
      }
      if at < |path| && path[at] == '/' {
        at := at + 1;
      }
      found := i != 0;
    }

    /** pathparser_parser_path_part: makes the next node and hangs it on the last one. */
    method ParsePathPart(last: PathPart?, ghost nodes: seq<PathPart>) returns (part: PathPart?)
      requires 3 <= at <= |path| <= MAX_PATH && Linked(nodes)
      requires last == if nodes == [] then null else nodes[|nodes| - 1]
      modifies this, nodes
      ensures old(at) <= at <= |path|
      ensures var e := PartEnd(path, old(at));
        && (part == null <==> e == old(at) || old(left) < 2)
        && (part == null ==> Linked(nodes))
        && (part != null ==>
              && fresh(part) && part.part == path[old(at)..e] && |part.part| < MAX_PATH
              && Linked(nodes + [part]) && left == old(left) - 2
              && at == After(path, e))
    {
      var name, found := GetPathPart();
      if !found {
        return null;
      }
      var ok := Kzalloc();
      if !ok {
        return null;
      }
      part := new PathPart(name);
      if last != null {
        last.next := part;
      }
      ghost var all := nodes + [part];
      assert forall i :: 0 <= i < |nodes| ==> all[i] == nodes[i];
    }
  }

  /** How many components get their two blocks, when `budget` blocks are left for the
      root and them. */
  function Affordable(budget: nat): (n: nat)
    ensures budget > 0 ==> 1 + 2 * n <= budget < 3 + 2 * n
  {
    if budget == 0 then 0 else (budget - 1) / 2
  }

  /** pathparser_parse once the format is known to be valid. */
  method ParseParts(path: string, budget: nat) returns (root: PathRoot?, ghost nodes: seq<PathPart>)
    requires |path| <= MAX_PATH && ValidFormat(path)
    ensures root == null <==> PartEnd(path, 3) == 3 || Affordable(budget) == 0
    ensures root != null ==>
              && root.driveNo == path[0] as int - '0' as int
              && Linked(nodes) && nodes != [] && root.first == nodes[0]
              && Names(nodes) == Truncate(UpToEmpty(Split(path, 3)), Affordable(budget))
  {
    root, nodes := null, [];
    var parser := new Parser(path, 3, budget);
    var ok := parser.Kzalloc();
    if !ok {
      return;
    }
    root := new PathRoot(path[0] as int - '0' as int);
    var first := parser.ParsePathPart(null, []);
    if first == null {
      root := null;
      return;
    }
    root.first := first;
    ghost var rest := Remaining(path, parser.at, parser.left, first);
    nodes := ParseRest(parser, first, path);
    FirstStep(path, budget, first.part, rest);
  }

  /** pathparser_parse, where `budget` calls of kzalloc succeed before one fails. Memory
      that runs out after the first component cuts the path short without an error. */
  method Parse(path: string, budget: nat) returns (root: PathRoot?, ghost nodes: seq<PathPart>)
    ensures root != null <==>
              3 < |path| <= 108 && '0' <= path[0] <= '9' && path[1] == ':' && path[2] == '/' && path[3] != '/'
              && budget >= 3
    ensures root != null ==>
              && root.driveNo == path[0] as int - '0' as int
              && Linked(nodes) && nodes != [] && root.first == nodes[0]
              && Names(nodes) == Truncate(UpToEmpty(Split(path, 3)), Affordable(budget))
  {
    root, nodes := null, [];
    if |path| > MAX_PATH {
      return;
    }
    if !ValidFormat(path) {
      return;
    }
    assert path[1..3] == [path[1], path[2]];
    root, nodes := ParseParts(path, budget);
  }

  /** The loop of pathparser_parse. */
  method ParseRest(parser: Parser, first: PathPart, ghost path: string) returns (ghost nodes: seq<PathPart>)
    requires parser.path == path && 3 <= parser.at <= |path| <= MAX_PATH && first.next == null
    modifies parser, first
    ensures nodes != [] && nodes[0] == first && Linked(nodes)
    ensures Names(nodes) == [first.part] + old(Remaining(path, parser.at, parser.left, first))
  {
    nodes := [first];
    ghost var goal := [first.part] + Remaining(path, parser.at, parser.left, first);
    var part: PathPart? := first;
    while part != null
      invariant 3 <= parser.at <= |path|
      invariant nodes != [] && Linked(nodes) && nodes[0] == first && fresh(set n | n in nodes && n != first)
      invariant part != null ==> part == nodes[|nodes| - 1]
      invariant Names(nodes) + Remaining(path, parser.at, parser.left, part) == goal
      decreases |path| - parser.at, if part == null then 0 else 1
    {
      part, nodes := Step(parser, part, nodes, path, goal);
    }
  }

  /** One pass of the loop. */
  method Step(parser: Parser, part: PathPart, ghost nodes: seq<PathPart>, ghost path: string, ghost goal: seq<string>)
    returns (next: PathPart?, ghost all: seq<PathPart>)
    requires parser.path == path && 3 <= parser.at <= |path| <= MAX_PATH
    requires nodes != [] && Linked(nodes) && part == nodes[|nodes| - 1]
    requires Names(nodes) + Remaining(path, parser.at, parser.left, part) == goal
    modifies parser, nodes
    ensures old(parser.at) <= parser.at <= |path| && (next != null ==> old(parser.at) < parser.at && fresh(next))
    ensures all == if next == null then nodes else nodes + [next]
    ensures Linked(all) && Names(all) + Remaining(path, parser.at, parser.left, next) == goal
  {
    ghost var at, left, names := parser.at, parser.left, Names(nodes);
    next := parser.ParsePathPart(part, nodes);
    all := nodes;
    if next == null {
      RemainingNone(path, at, left, names);
    } else {
      NamesSnoc(nodes, next);
      all := nodes + [next];
      RemainingStep(path, at, left, names);
    }
  }

  /** What is still to come with `left` blocks: nothing once the parser has met null. */
  ghost function Remaining(path: string, at: nat, left: nat, part: PathPart?): (r: seq<string>)
    requires at <= |path|
  {
    if part == null then [] else Taken(path, at, left / 2)
  }

  lemma FirstStep(path: string, budget: nat, piece: string, rest: seq<string>)
    requires 3 <= |path| && PartEnd(path, 3) > 3 && budget >= 3 && piece == path[3..PartEnd(path, 3)]
    requires rest == Taken(path, After(path, PartEnd(path, 3)), (budget - 3) / 2)
    ensures [piece] + rest == Truncate(UpToEmpty(Split(path, 3)), Affordable(budget))
  {
    assert (budget - 3) / 2 == Affordable(budget) - 1;
    TakenStep(path, 3, Affordable(budget));
    TakenIsSplit(path, 3, Affordable(budget));
  }

  lemma TakenStep(s: string, i: nat, count: nat)
    requires i <= |s| && PartEnd(s, i) > i && count > 0
    ensures Taken(s, i, count) == [s[i..PartEnd(s, i)]] + Taken(s, After(s, PartEnd(s, i)), count - 1)
  {
  }

  lemma RemainingNone(path: string, at: nat, left: nat, names: seq<string>)
    requires at <= |path| && (PartEnd(path, at) == at || left < 2)
    ensures names + Taken(path, at, left / 2) == names + []
  {
  }

  lemma RemainingStep(path: string, at: nat, left: nat, names: seq<string>)
    requires at <= |path| && PartEnd(path, at) > at && left >= 2
    ensures var e := PartEnd(path, at);
      names + Taken(path, at, left / 2) == names + [path[at..e]] + Taken(path, After(path, e), (left - 2) / 2)
  {
    var e := PartEnd(path, at);
    assert left / 2 - 1 == (left - 2) / 2;
    Regroup(names, [path[at..e]], Taken(path, After(path, e), (left - 2) / 2));
  }

  lemma Regroup<T>(a: seq<T>, b: seq<T>, c: seq<T>)
    ensures a + (b + c) == a + b + c
  {
  }

  lemma PiecesStep(s: string, i: nat)
    requires i <= |s| && PartEnd(s, i) > i
    ensures Pieces(s, i) == [s[i..PartEnd(s, i)]] + Pieces(s, After(s, PartEnd(s, i)))
  {
  }

  lemma NothingAtEnd(s: string)
    ensures Pieces(s, |s|) == [] && !NoEmptyPiece(s, |s|)
  {
  }

  /** Running out of memory keeps the front of the pieces. */
  lemma {:induction false} TakenIsFront(s: string, i: nat, count: nat)
    requires i <= |s|
    ensures Taken(s, i, count) == Truncate(Pieces(s, i), count)
    decreases |s| - i
  {
    var e := PartEnd(s, i);
    if e > i && count > 0 {
      TakenStep(s, i, count);
      PiecesStep(s, i);
      TakenIsFront(s, After(s, e), count - 1);
      TruncateCons(s[i..e], Pieces(s, After(s, e)), count);
    }
  }

  lemma TruncateCons(piece: string, rest: seq<string>, count: nat)
    requires count > 0
    ensures Truncate([piece] + rest, count) == [piece] + Truncate(rest, count - 1)
  {
  }

  lemma NamesSnoc(nodes: seq<PathPart>, n: PathPart)
    ensures Names(nodes + [n]) == Names(nodes) + [n.part]
  {
  }

  /** The parser's pieces are the components up to the first empty one. */
  lemma {:induction false} PiecesAreSplit(s: string, i: nat)
    requires i <= |s|
    ensures Pieces(s, i) == UpToEmpty(Split(s, i))
    decreases |s| - i
  {
    var e := PartEnd(s, i);
    var first := s[i..e];
    SplitStep(s, i);
    if e > i { PiecesStep(s, i); }
    if e < |s| {
      PiecesAreSplit(s, e + 1);
      UpToEmptyCons(first, Split(s, e + 1));
    } else {
      NothingAtEnd(s);
      UpToEmptyCons(first, []);
    }
  }

  lemma SplitStep(s: string, i: nat)
    requires i <= |s|
    ensures var e := PartEnd(s, i);
      Split(s, i) == [s[i..e]] + if e < |s| then Split(s, e + 1) else []
  {
    if PartEnd(s, i) == |s| { assert s[i..|s|] == s[i..]; }
  }

  lemma UpToEmptyCons(first: string, rest: seq<string>)
    ensures UpToEmpty([first] + rest) == if first == "" then [] else [first] + UpToEmpty(rest)
  {
    assert ([first] + rest)[1..] == rest;
  }

  lemma TakenIsSplit(s: string, i: nat, count: nat)
    requires i <= |s|
    ensures Taken(s, i, count) == Truncate(UpToEmpty(Split(s, i)), count)
  {
    TakenIsFront(s, i, count);
    PiecesAreSplit(s, i);
  }

  /** UpToEmpty keeps the longest front without an empty piece. */
  lemma {:induction false} UpToEmptyIs(pieces: seq<string>)
    ensures var r := UpToEmpty(pieces);
      && |r| <= |pieces| && r == pieces[..|r|] && (forall i :: 0 <= i < |r| ==> pieces[i] != "")
      && (|r| < |pieces| ==> pieces[|r|] == "")
  {
    if pieces != [] && pieces[0] != "" { UpToEmptyIs(pieces[1..]); }
  }

  /** Split takes the text apart at every slash: the pieces have none, and with one between each two
      they are the text. */
  lemma {:induction false} SplitIs(s: string, i: nat)
    requires i <= |s|
    ensures Split(s, i) != [] && Join(Split(s, i), '/') == s[i..]
    ensures forall j :: 0 <= j < |Split(s, i)| ==> '/' !in Split(s, i)[j]
    decreases |s| - i
  {
    var e := PartEnd(s, i);
    var first := s[i..e];
    SplitStep(s, i);
    assert '/' !in first;
    if e < |s| {
      SplitIs(s, e + 1);
      JoinCons(first, Split(s, e + 1), '/');
      assert s[i..] == first + ['/'] + s[e + 1..];
    } else {
      assert [first] + [] == [first] && first == s[i..];
    }
  }

  // ---- Printing and parsing ----

  /** Parsing what was printed gives the parts back. */
  lemma {:induction false} PiecesOfPrinted(s: string, i: nat, parts: seq<string>)
    requires i <= |s| && Prints(parts, '/', s, i)
    requires forall j :: 0 <= j < |parts| ==> IsPart(parts[j])
    ensures Pieces(s, i) == parts
    decreases |parts|
  {
    if parts != [] {
      var p, rest, e := parts[0], parts[1..], i + |parts[0]|;
      assert IsPart(p);
      EndOfPart(s, i, i, p);
      if rest != [] { PiecesOfPrinted(s, e + 1, rest); }
      assert parts == [p] + rest;
    }
  }

  lemma {:induction false} EndOfPart(s: string, i: nat, j: nat, p: string)
    requires i <= j <= i + |p| <= |s| && '/' !in p && s[i..i + |p|] == p
    requires i + |p| == |s| || s[i + |p|] == '/'
    ensures PartEnd(s, j) == i + |p|
    decreases i + |p| - j
  {
    if j < i + |p| {
      assert s[j] == s[i..i + |p|][j - i] && p[j - i] in p;
      EndOfPart(s, i, j + 1, p);
    }
  }

  /** No piece from `i` on is empty. */
  predicate NoEmptyPiece(s: string, i: nat)
    requires i <= |s|
    decreases |s| - i
  {
    var e := PartEnd(s, i);
    e > i && (e < |s| ==> NoEmptyPiece(s, e + 1))
  }

  /** Printing what was parsed gives the path back exactly when no component is empty. */
  lemma {:induction false} PrintedPieces(s: string, i: nat)
    requires i < |s|
    ensures Prints(Pieces(s, i), '/', s, i) <==> NoEmptyPiece(s, i)
    decreases |s| - i
  {
    var e := PartEnd(s, i);
    if e > i {
      var rest := Pieces(s, After(s, e));
      assert Pieces(s, i) == [s[i..e]] + rest;
      PrintsCons(s[i..e], rest, '/', s, i);
      if e + 1 < |s| {
        PrintedPieces(s, e + 1);
      } else {
        NothingAtEnd(s);
      }
    }
  }

  /** pathparser_parse undoes printing "d:/" and the joined parts, memory permitting. */
  method ParsePrinted(d: char, parts: seq<string>, budget: nat)
    returns (root: PathRoot?, ghost nodes: seq<PathPart>)
    requires IsDigit(d) && parts != [] && forall i :: 0 <= i < |parts| ==> IsPart(parts[i])
    requires 3 + |Join(parts, '/')| <= MAX_PATH && |parts| <= Affordable(budget)
    ensures root != null && root.driveNo == d as int - '0' as int
    ensures Linked(nodes) && nodes != [] && root.first == nodes[0] && Names(nodes) == parts
  {
    var before := [d] + ":/";
    var path := before + Join(parts, '/');
    assert path[3..] == Join(parts, '/');
    PrintsIsJoin(parts, '/', path, 3);
    PiecesOfPrinted(path, 3, parts);
    PiecesAreSplit(path, 3);
    assert path[1..3] == ":/";
    root, nodes := Parse(path, budget);
  }
}
