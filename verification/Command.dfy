/** strtok with its static cursor, and the command line split with it. */
module Command {
  import opened Text

  const MAX_ARGUMENT := 512
  const MAX_COMMAND := 1025
  const NUL := '\0'

  // ---- Words ----

  /** First index at or after `i` whose character is no delimiter. */
  function WordStart(t: string, d: string, i: nat): (b: nat)
    requires i <= |t|
    ensures i <= b <= |t| && (b < |t| ==> t[b] !in d) && forall k :: i <= k < b ==> t[k] in d
    decreases |t| - i
  {
    if i == |t| || t[i] !in d then i else WordStart(t, d, i + 1)
  }

  /** First index at or after `i` whose character is a delimiter. */
  function WordEnd(t: string, d: string, i: nat): (e: nat)
    requires i <= |t|
    ensures i <= e <= |t| && (e < |t| ==> t[e] in d) && forall k :: i <= k < e ==> t[k] !in d
    decreases |t| - i
  {
    if i == |t| || t[i] in d then i else WordEnd(t, d, i + 1)
  }

  /** The maximal delimiter-free runs from `i` on, in order. */
  function Words(t: string, d: string, i: nat): (r: seq<string>)
    requires i <= |t|
    decreases |t| - i
  {
    var b := WordStart(t, d, i);
    if b == |t| then []
    else var e := WordEnd(t, d, b); [t[b..e]] + Words(t, d, After(t, e))
  }

  // ---- What the words are ----

  /** Where the words from `i` on begin. */
  function Starts(t: string, d: string, i: nat): (r: seq<nat>)
    requires i <= |t|
    decreases |t| - i
  {
    var b := WordStart(t, d, i);
    if b == |t| then [] else [b] + Starts(t, d, After(t, WordEnd(t, d, b)))
  }

  /** A delimiter-free run begins at `k`, in the text from `i` on. */
  predicate BeginsRun(t: string, d: string, i: nat, k: nat) {
    i <= k < |t| && t[k] !in d && (k == i || t[k - 1] in d)
  }

  /** Every word reaches from its start to the next delimiter. */
  lemma {:induction false} WordsAtStarts(t: string, d: string, i: nat)
    requires i <= |t|
    ensures |Words(t, d, i)| == |Starts(t, d, i)|
    ensures forall m :: 0 <= m < |Words(t, d, i)| ==>
              var b := Starts(t, d, i)[m]; b < |t| && Words(t, d, i)[m] == t[b..WordEnd(t, d, b)]
    decreases |t| - i
  {
    var b := WordStart(t, d, i);
    if b < |t| { WordsAtStarts(t, d, After(t, WordEnd(t, d, b))); }
  }

  /** Every place where a run begins is the start of one word, and there are no others. */
  lemma {:induction false} StartsAreRuns(t: string, d: string, i: nat, k: nat)
    requires i <= |t|
    ensures k in Starts(t, d, i) <==> BeginsRun(t, d, i, k)
    decreases |t| - i
  {
    var b := WordStart(t, d, i);
    if b < |t| {
      var n := After(t, WordEnd(t, d, b));
      StartsAreRuns(t, d, n, k);
      RunsBeyond(t, d, i, k);
      assert Starts(t, d, i) == [b] + Starts(t, d, n);
    } else if i <= k < |t| {
      assert t[k] in d;
    }
  }

  /** The runs after the first word are those that begin behind it. */
  lemma RunsBeyond(t: string, d: string, i: nat, k: nat)
    requires i <= |t| && WordStart(t, d, i) < |t|
    ensures var b := WordStart(t, d, i); var n := After(t, WordEnd(t, d, b));
      BeginsRun(t, d, i, k) <==> k == b || BeginsRun(t, d, n, k)
  {
    var b := WordStart(t, d, i);
    var e := WordEnd(t, d, b);
    if i <= k < b { assert t[k] in d; }
    if i < b { assert t[b - 1] in d; }
    if b < k <= e { assert t[k - 1] !in d; }
  }

  lemma {:induction false} StartsIncrease(t: string, d: string, i: nat)
    requires i <= |t|
    ensures forall m :: 0 <= m < |Starts(t, d, i)| ==> i <= Starts(t, d, i)[m] < |t|
    ensures forall m, n :: 0 <= m < n < |Starts(t, d, i)| ==> Starts(t, d, i)[m] < Starts(t, d, i)[n]
    decreases |t| - i
  {
    var b := WordStart(t, d, i);
    if b < |t| {
      var rest := After(t, WordEnd(t, d, b));
      StartsIncrease(t, d, rest);
      IncreasingCons(b, Starts(t, d, rest));
    }
  }

  lemma IncreasingCons(b: nat, rest: seq<nat>)
    requires forall m :: 0 <= m < |rest| ==> b < rest[m]
    requires forall m, n :: 0 <= m < n < |rest| ==> rest[m] < rest[n]
    ensures forall m, n :: 0 <= m < n < |[b] + rest| ==> ([b] + rest)[m] < ([b] + rest)[n]
  {
  }

  predicate IsWord(w: string, d: string) {
    w != "" && forall k :: 0 <= k < |w| ==> w[k] !in d
  }

  lemma WordsStep(t: string, d: string, i: nat, e: nat)
    requires i < |t| && t[i] !in d && e == WordEnd(t, d, i)
    ensures Words(t, d, i) == [t[i..e]] + Words(t, d, After(t, e))
  {
    assert WordStart(t, d, i) == i;
  }

  lemma NoWordsAtEnd(t: string, d: string)
    ensures Words(t, d, |t|) == []
  {
  }

  /** The words of a line printed with single spaces are the ones printed. */
  lemma {:induction false} WordsOfPrinted(t: string, i: nat, words: seq<string>)
    requires i <= |t| && Prints(words, ' ', t, i)
    requires forall j :: 0 <= j < |words| ==> IsWord(words[j], " ")
    ensures Words(t, " ", i) == words
    decreases |words|
  {
    if words != [] {
      var w, rest, e := words[0], words[1..], i + |words[0]|;
      assert IsWord(w, " ") && t[i..e] == w;
      assert t[i] == t[i..e][0] == w[0];
      EndOfWord(t, i, i, w);
      WordsStep(t, " ", i, e);
      if rest != [] { WordsOfPrinted(t, e + 1, rest); } else { NoWordsAtEnd(t, " "); }
      assert words == [w] + rest;
    }
  }

  lemma {:induction false} EndOfWord(t: string, i: nat, j: nat, w: string)
    requires i <= j <= i + |w| <= |t| && IsWord(w, " ") && t[i..i + |w|] == w
    requires i + |w| == |t| || t[i + |w|] == ' '
    ensures WordEnd(t, " ", j) == i + |w|
    decreases i + |w| - j
  {
    if j < i + |w| {
      assert t[j] == t[i..i + |w|][j - i] == w[j - i];
      EndOfWord(t, i, j + 1, w);
    }
  }

  // ---- strtok ----

  /** From index `i` on the buffer holds the rest of `t` and a terminator. */
  ghost predicate Holds(buf: array<char>, t: string, i: nat)
    reads buf
  {
    && i <= |t| < buf.Length && buf[|t|] == NUL
    && forall k :: i <= k < |t| ==> buf[k] == t[k] && t[k] != NUL
  }

  class Tokenizer {
    /** The static cursor: a place in a buffer, or null. */
    var buf: array?<char>
    var at: nat

    constructor ()
      ensures buf == null
    {
      buf, at := null, 0;
    }

    /** strtok: a string is taken only while the cursor is null; -1 is the null token. */
    method Strtok(str: array?<char>, delims: string, ghost t: string) returns (token: int)
      requires NUL !in delims
      requires buf != null ==> Holds(buf, t, at)
      requires buf == null && str != null ==> Holds(str, t, 0)
      modifies this, buf, if buf == null then str else null
      ensures old(buf) == null && str == null ==> token == -1 && buf == null
      ensures old(buf) != null || str != null ==>
                var cur, i := if old(buf) != null then old(buf) else str, if old(buf) != null then old(at) else 0;
                var b := WordStart(t, delims, i);
                if b == |t| then token == -1 && buf == null
                else var e := WordEnd(t, delims, b);
                  && token == b && buf == cur && at == After(t, e) && Holds(cur, t, at)
                  && cur[b..e] == t[b..e] && cur[e] == NUL
    {
      if str == null && buf == null {
        return -1;
      }
      if str != null && buf == null {
        buf, at := str, 0;
      }
      var start := SkipDelimiters(delims, t);
      at := start;
      if buf[at] == NUL {
        buf := null;
        return -1;
      }
      EndWord(delims, t);
      token := start;
    }

    /** The first loop of strtok. */
    method SkipDelimiters(delims: string, ghost t: string) returns (start: nat)
      requires NUL !in delims && buf != null && Holds(buf, t, at)
      ensures start == WordStart(t, delims, at)
    {
      start := at;
      while true
        invariant at <= start <= |t| && WordStart(t, delims, start) == WordStart(t, delims, at)
        decreases |t| - start
      {
        var i := 0;
        while i < |delims| && buf[start] != delims[i]
          invariant 0 <= i <= |delims| && forall j :: 0 <= j < i ==> delims[j] != buf[start]
        {
          i := i + 1;
        }
        if i < |delims| {
          assert buf[start] in delims && start < |t|;
          start := start + 1;
        }
        if i == |delims| {
          assert buf[start] !in delims;
          break;
        }
      }
    }

    /** The second loop of strtok: writes the NUL that ends the word. */
    method EndWord(delims: string, ghost t: string)
      requires NUL !in delims && buf != null && Holds(buf, t, at) && at < |t|
      modifies this`at, buf
      ensures var e := WordEnd(t, delims, old(at));
        && at == After(t, e) && Holds(buf, t, at)
        && buf[old(at)..e] == t[old(at)..e] && buf[e] == NUL
    {
      ghost var b := at;
      while buf[at] != NUL
        invariant b <= at <= |t| && Holds(buf, t, b)
        invariant WordEnd(t, delims, at) == WordEnd(t, delims, b)
        decreases |t| - at
      {
        var i := 0;
        while i < |delims| && buf[at] != delims[i]
          invariant 0 <= i <= |delims| && forall j :: 0 <= j < i ==> delims[j] != buf[at]
        {
          i := i + 1;
        }
        var c := buf[at];
        if i < |delims| {
          assert c in delims;
          buf[at] := NUL;
          at := at + 1;
          break;
        }
        assert c !in delims;
        at := at + 1;
      }
    }
  }

  // ---- marrowos_parse_command ----

  class CommandArgument {
    const argument: string
    var next: CommandArgument?

    constructor (argument: string)
      ensures this.argument == argument && next == null
    {
      this.argument, next := argument, null;
    }
  }

  ghost predicate Linked(nodes: seq<CommandArgument>)
    reads nodes
  {
    && (nodes != [] ==> nodes[|nodes| - 1].next == null)
    && forall i, j :: 0 <= i < j < |nodes| ==>
         nodes[i] != nodes[j] && (j == i + 1 ==> nodes[i].next == nodes[j])
  }

  /** What a reader of the list finds `n` links on. */
  ghost function Nth(node: CommandArgument?, n: nat): CommandArgument?
    reads *
  {
    if node == null || n == 0 then node else Nth(node.next, n - 1)
  }

  /** From node `j` on that is the nodes in order, and then the end. */
  lemma {:induction false} LinkedIs(nodes: seq<CommandArgument>, j: nat, n: nat)
    requires Linked(nodes) && j < |nodes|
    ensures Nth(nodes[j], n) == if j + n < |nodes| then nodes[j + n] else null
    decreases n
  {
    if n > 0 && j + 1 < |nodes| {
      assert nodes[j].next == nodes[j + 1];
      LinkedIs(nodes, j + 1, n - 1);
    }
  }

  /** The nodes hold the first `budget` words, each cut to fit an argument buffer. */
  ghost predicate Stored(nodes: seq<CommandArgument>, words: seq<string>, budget: nat) {
    && |nodes| == (if |words| < budget then |words| else budget)
    && forall m :: 0 <= m < |nodes| ==> nodes[m].argument == Truncate(words[m], 511)
  }

  /** strncpy into a buffer of the given size. */
  method Strncpy(dest: array<char>, src: string)
    requires dest.Length > 0 && NUL !in src
    modifies dest
    ensures Holds(dest, Truncate(src, dest.Length - 1), 0)
  {
    var i := 0;
    while i < dest.Length - 1 && i < |src|
      invariant 0 <= i <= |src| && i < dest.Length
      invariant forall k :: 0 <= k < i ==> dest[k] == src[k]
    {
      dest[i] := src[i];
      i := i + 1;
    }
    dest[i] := NUL;
    assert forall k :: 0 <= k < |src| ==> src[k] in src;
  }

  /** The C string at index `token` is `word`. */
  ghost predicate PointsAt(buf: array<char>, token: int, word: string)
    reads buf
  {
    0 <= token && token + |word| < buf.Length && buf[token..token + |word|] == word && buf[token + |word|] == NUL
    && NUL !in word
  }

  /** strncpy of a token into an argument buffer: up to its NUL, at most 511 characters. */
  method CopyToken(buf: array<char>, token: nat, ghost word: string) returns (argument: string)
    requires PointsAt(buf, token, word)
    ensures argument == Truncate(word, MAX_ARGUMENT - 1)
  {
    argument := "";
    var i := 0;
    while i < MAX_ARGUMENT - 1 && buf[token + i] != NUL
      invariant 0 <= i <= |word| && i < MAX_ARGUMENT && argument == word[..i]
    {
      if i < |word| { assert word[i] == buf[token..token + |word|][i]; }
      argument := argument + [buf[token + i]];
      i := i + 1;
    }
    if i < |word| { assert buf[token + i] == word[i] && word[i] in word; }
  }

  /** The command text the tokens are taken from. */
  function CommandText(command: string): string {
    Truncate(command, 1024)
  }

  /** The cursor stands in a buffer with the words from index `k` on still to come. */
  ghost predicate CursorAt(tok: Tokenizer, t: string, words: seq<string>, k: nat)
    reads tok, tok.buf
  {
    && tok.buf != null && Holds(tok.buf, t, tok.at)
    && k <= |words| && words[k..] == Words(t, " ", tok.at)
  }

  /** strtok has just answered `token` for word `k`: null when there is none, and then the
      cursor is null; otherwise the word, with the cursor behind it. */
  ghost predicate AtWord(tok: Tokenizer, buf: array?<char>, token: int, t: string, words: seq<string>, k: nat)
    reads tok, tok.buf, buf
  {
    && k <= |words| && (token < 0 <==> k == |words|)
    && if token < 0 then tok.buf == null
       else buf != null && tok.buf == buf && CursorAt(tok, t, words, k + 1) && PointsAt(buf, token, words[k])
  }

  /** A call of strtok for the next space-separated word, `words[k]`. */
  method NextToken(tok: Tokenizer, str: array?<char>, ghost t: string, ghost words: seq<string>, ghost k: nat)
    returns (token: int)
    requires NUL !in t
    requires if tok.buf == null then str != null && k == 0 && Holds(str, t, 0) && words == Words(t, " ", 0)
             else CursorAt(tok, t, words, k)
    modifies tok, tok.buf, if tok.buf == null then str else null
    ensures AtWord(tok, if old(tok.buf) == null then str else old(tok.buf), token, t, words, k)
  {
    ghost var i := if tok.buf == null then 0 else tok.at;
    assert words[k..] == Words(t, " ", i);
    token := tok.Strtok(str, " ", t);
    if token >= 0 {
      ghost var e := WordEnd(t, " ", token);
      ghost var word, rest := t[token..e], Words(t, " ", After(t, e));
      assert words[k..] == [word] + rest;
      assert words[k] == word && words[k + 1..] == words[k..][1..] == rest;
    }
  }

  /** The nodes of the first words, linked from `root` to `current`. */
  ghost predicate Chain(nodes: seq<CommandArgument>, root: CommandArgument, current: CommandArgument,
                        words: seq<string>)
    reads nodes
  {
    && nodes != [] && nodes[0] == root && current == nodes[|nodes| - 1] && Linked(nodes)
    && |nodes| <= |words| && Stored(nodes, words, |nodes|)
  }

  /** One more node at the end of the list, holding the word at `token`. */
  method AppendWord(buf: array<char>, token: nat, root: CommandArgument, current: CommandArgument,
                    ghost nodes: seq<CommandArgument>, ghost words: seq<string>)
    returns (node: CommandArgument, ghost all: seq<CommandArgument>)
    requires Chain(nodes, root, current, words) && |nodes| < |words| && PointsAt(buf, token, words[|nodes|])
    modifies current
    ensures fresh(node) && |all| == |nodes| + 1 && Chain(all, root, node, words)
  {
    var argument := CopyToken(buf, token, words[|nodes|]);
    node := new CommandArgument(argument);
    current.next := node;
    all := nodes + [node];
    assert forall i :: 0 <= i < |nodes| ==> all[i] == nodes[i];
  }

  /** One pass of the loop: the node for this word, and the next word. */
  method Step(tok: Tokenizer, token: int, root: CommandArgument, current: CommandArgument,
              ghost nodes: seq<CommandArgument>, ghost t: string, ghost words: seq<string>)
    returns (node: CommandArgument, next: int, ghost all: seq<CommandArgument>)
    requires NUL !in t && token >= 0 && AtWord(tok, tok.buf, token, t, words, |nodes|)
    requires Chain(nodes, root, current, words)
    modifies tok, tok.buf, current
    ensures fresh(node) && |all| == |nodes| + 1 && Chain(all, root, node, words)
    ensures AtWord(tok, old(tok.buf), next, t, words, |all|)
  {
    node, all := AppendWord(tok.buf, token, root, current, nodes, words);
    next := NextToken(tok, null, t, words, |all|);
  }

  /** The loop of marrowos_parse_command. */
  method ParseRest(tok: Tokenizer, root: CommandArgument, budget: nat, ghost t: string, ghost words: seq<string>)
    returns (ghost nodes: seq<CommandArgument>)
    requires NUL !in t && CursorAt(tok, t, words, 1) && root.next == null
    requires root.argument == Truncate(words[0], MAX_ARGUMENT - 1)
    modifies tok, tok.buf, root
    ensures nodes != [] && nodes[0] == root && Linked(nodes) && Stored(nodes, words, budget + 1)
    ensures tok.buf == null <==> |words| <= budget + 1
  {
    nodes := [root];
    var current, left: nat := root, budget;
    ghost var buf := tok.buf;
    var token := NextToken(tok, null, t, words, 1);
    while token >= 0 && left > 0
      invariant left + |nodes| == budget + 1 && (current == root || fresh(current))
      invariant Chain(nodes, root, current, words)
      invariant AtWord(tok, buf, token, t, words, |nodes|)
      decreases left
    {
      current, token, nodes := Step(tok, token, root, current, nodes, t, words);
      left := left - 1;
    }
  }

  /** marrowos_parse_command after its strncpy. */
  method ParseTokens(tok: Tokenizer, scommand: array<char>, budget: nat, ghost t: string, ghost words: seq<string>)
    returns (root: CommandArgument?, ghost nodes: seq<CommandArgument>)
    requires NUL !in t
    requires if tok.buf == null then Holds(scommand, t, 0) && words == Words(t, " ", 0) else CursorAt(tok, t, words, 0)
    modifies tok, tok.buf, if tok.buf == null then scommand else null
    ensures root == (if nodes == [] then null else nodes[0]) && Linked(nodes)
    ensures Stored(nodes, words, budget) && (tok.buf == null <==> |words| <= budget)
  {
    root, nodes := null, [];
    var token := NextToken(tok, scommand, t, words, 0);
    if token < 0 || budget == 0 {
      return;
    }
    var word := CopyToken(tok.buf, token, words[0]);
    root := new CommandArgument(word);
    nodes := ParseRest(tok, root, budget - 1, t, words);
  }

  /** The words the next strtok calls find for this command: its own when the cursor is
      null, otherwise those left behind the cursor, in the text `left` of an earlier command. */
  ghost function WordsAhead(tok: Tokenizer, command: string, left: string): (words: seq<string>)
    requires tok.buf != null ==> tok.at <= |left|
    reads tok
  {
    if tok.buf == null then Words(CommandText(command), " ", 0) else Words(left, " ", tok.at)
  }

  /** marrowos_parse_command, wherever the strtok cursor stands. `budget` is the number of
      argument nodes user memory allows. The cursor is null afterwards exactly when all
      words got a node; otherwise the next command gets the words left over. */
  method ParseCommand(tok: Tokenizer, command: string, max: int, budget: nat, ghost left: string)
    returns (root: CommandArgument?, ghost nodes: seq<CommandArgument>)
    requires NUL !in command && NUL !in left && (tok.buf != null ==> Holds(tok.buf, left, tok.at))
    modifies tok, tok.buf
    ensures root == (if nodes == [] then null else nodes[0]) && Linked(nodes)
    ensures max >= 1025 ==> nodes == [] && tok.buf == old(tok.buf) && tok.at == old(tok.at)
    ensures max < 1025 ==>
              && Stored(nodes, old(WordsAhead(tok, command, left)), budget)
              && (tok.buf == null <==> |old(WordsAhead(tok, command, left))| <= budget)
  {
    root, nodes := null, [];
    if max >= MAX_COMMAND {
      return;
    }
    var scommand := new char[MAX_COMMAND];
    Strncpy(scommand, command);
    ghost var t := if tok.buf == null then CommandText(command) else left;
    ghost var words := WordsAhead(tok, command, left);
    root, nodes := ParseTokens(tok, scommand, budget, t, words);
  }

  /** marrowos_parse_command undoes joining with spaces, within its size limits. */
  method ParseJoined(tok: Tokenizer, words: seq<string>, max: int, budget: nat)
    returns (root: CommandArgument?, ghost nodes: seq<CommandArgument>)
    requires tok.buf == null && max < MAX_COMMAND && |words| <= budget
    requires |Join(words, ' ')| < MAX_COMMAND && NUL !in Join(words, ' ')
    requires forall j :: 0 <= j < |words| ==> IsWord(words[j], " ") && |words[j]| < MAX_ARGUMENT
    modifies tok
    ensures root == (if nodes == [] then null else nodes[0]) && Linked(nodes) && tok.buf == null
    ensures |nodes| == |words| && forall j :: 0 <= j < |words| ==> nodes[j].argument == words[j]
  {
    var command := Join(words, ' ');
    assert command[0..] == command;
    PrintsIsJoin(words, ' ', command, 0);
    WordsOfPrinted(command, 0, words);
    root, nodes := ParseCommand(tok, command, max, budget, "");
  }
}
