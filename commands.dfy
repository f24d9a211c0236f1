/**
 * The command line of bfdb: `split` (bfdb.c:228-253), a strtok-based
 * tokenizer, and the dispatch of `parse_command` (bfdb.c:319-348) over the
 * command table (bfdb.c:149-159).
 *
 * `Tokens` is the meaning of strtok's scan: the maximal non-empty runs of
 * characters outside the delimiter set. `Split` is the C loop, proved to
 * return exactly those runs. `ParseCommand` is the loop over the table,
 * proved to fire at most one command, the one whose abbreviation is the
 * first character of the first token.
 */
module Commands {
  import opened Ir

  /** Length of the run of non-delimiters at the front of `s`. */
  function RunLength(s: string, at: string): (n: nat)
    ensures n <= |s|
    ensures forall k :: 0 <= k < n ==> s[k] !in at
    ensures n < |s| ==> s[n] in at
  {
    if s == [] || s[0] in at then 0 else 1 + RunLength(s[1..], at)
  }

  /** The tokens strtok produces from `s` with delimiter characters `at`. */
  function Tokens(s: string, at: string): (r: seq<string>)
    ensures forall t :: 0 <= t < |r| ==> r[t] != [] && forall k :: 0 <= k < |r[t]| ==> r[t][k] !in at
    decreases |s|
  {
    if s == [] then []
    else if s[0] in at then Tokens(s[1..], at)
    else
      var n := RunLength(s, at);
      [s[..n]] + Tokens(s[n..], at)
  }

  /** The tokens joined back together, one delimiter `d` between neighbours. */
  function Join(ws: seq<string>, d: char): string {
    if ws == [] then [] else if |ws| == 1 then ws[0] else ws[0] + [d] + Join(ws[1..], d)
  }

  /** A run without delimiters is read whole up to the delimiter that follows it. */
  lemma {:induction false} RunLengthOfWord(w: string, rest: string, at: string)
    requires forall k :: 0 <= k < |w| ==> w[k] !in at
    requires rest == [] || rest[0] in at
    ensures RunLength(w + rest, at) == |w|
    decreases |w|
  {
    if w != [] {
      assert (w + rest)[1..] == w[1..] + rest;
      RunLengthOfWord(w[1..], rest, at);
    } else {
      assert w + rest == rest;
    }
  }

  /** Tokenising a word followed by delimiter-led text yields the word, then the text's tokens. */
  lemma TokensOfWord(w: string, rest: string, at: string)
    requires w != [] && forall k :: 0 <= k < |w| ==> w[k] !in at
    requires rest == [] || rest[0] in at
    ensures Tokens(w + rest, at) == [w] + Tokens(rest, at)
  {
    RunLengthOfWord(w, rest, at);
    var s := w + rest;
    assert s[0] == w[0];
    assert s[..|w|] == w;
    assert s[|w|..] == rest;
  }

  /**
   * Round trip: tokens that are non-empty and free of delimiters, joined
   * with a delimiter, tokenise back to themselves.
   */
  lemma {:induction false} TokensOfJoin(ws: seq<string>, d: char, at: string)
    requires d in at
    requires forall t :: 0 <= t < |ws| ==> ws[t] != [] && forall k :: 0 <= k < |ws[t]| ==> ws[t][k] !in at
    ensures Tokens(Join(ws, d), at) == ws
    decreases |ws|
  {
    if |ws| == 1 {
      TokensOfWord(ws[0], [], at);
      assert ws[0] + [] == ws[0];
    } else if |ws| > 1 {
      var rest := [d] + Join(ws[1..], d);
      assert Join(ws, d) == ws[0] + rest;
      TokensOfWord(ws[0], rest, at);
      assert rest[1..] == Join(ws[1..], d);
      TokensOfJoin(ws[1..], d, at);
      assert [ws[0]] + ws[1..] == ws;
    }
  }

  /** A text of delimiters only has no token. */
  lemma {:induction false} NoTokens(s: string, at: string)
    requires forall k :: 0 <= k < |s| ==> s[k] in at
    ensures Tokens(s, at) == []
    decreases |s|
  {
    if s != [] {
      NoTokens(s[1..], at);
    }
  }

  /** A delimiter contributes nothing to the tokens. */
  lemma SkipDelimiter(s: string, i: nat, at: string)
    requires i < |s| && s[i] in at
    ensures Tokens(s[i..], at) == Tokens(s[i + 1..], at)
  {
    assert s[i..][1..] == s[i + 1..];
  }

  /** The maximal run of non-delimiters from `i` to `j` is the first token of `s[i..]`. */
  lemma TokenAt(s: string, i: nat, j: nat, at: string)
    requires i < j <= |s|
    requires forall k :: i <= k < j ==> s[k] !in at
    requires j == |s| || s[j] in at
    ensures Tokens(s[i..], at) == [s[i..j]] + Tokens(s[j..], at)
  {
    var w := s[i..j];
    assert forall k :: 0 <= k < |w| ==> w[k] == s[i + k];
    assert s[i..] == w + s[j..];
    TokensOfWord(w, s[j..], at);
  }

  /** The token from `i` to `j`, then the tokens after the delimiter that ends it (if any). */
  lemma TokenThen(s: string, i: nat, j: nat, next: nat, at: string)
    requires i < j <= |s|
    requires forall k :: i <= k < j ==> s[k] !in at
    requires j == |s| || s[j] in at
    requires next == if j < |s| then j + 1 else j
    ensures Tokens(s[i..], at) == [s[i..j]] + Tokens(s[next..], at)
  {
    TokenAt(s, i, j, at);
    if j < |s| {
      SkipDelimiter(s, j, at);
    }
  }

  /**
   * One strtok call resumed at `from`: it skips delimiters, and then either
   * reports that no token is left or returns the next token together with
   * the position it saves for the next call (past the delimiter that ended
   * the token, which strtok overwrites with a terminator).
   */
  method NextToken(s: string, at: string, from: nat) returns (tok: Option<string>, next: nat)
    requires from <= |s|
    ensures next <= |s|
    ensures tok.None? <==> Tokens(s[from..], at) == []
    ensures tok.None? ==> next == |s|
    ensures tok.Some? ==> from < next && Tokens(s[from..], at) == [tok.value] + Tokens(s[next..], at)
  {
    var i := SkipDelimiters(s, at, from);
    if i == |s| {
      assert s[i..] == [];
      return None, i;
    }
    var j := TokenEnd(s, at, i);
    next := if j < |s| then j + 1 else j;
    TokenThen(s, i, j, next, at);
    tok := Some(s[i..j]);
  }

  /** strtok's first scan: past the delimiters from `from`, which contribute no token. */
  method SkipDelimiters(s: string, at: string, from: nat) returns (i: nat)
    requires from <= |s|
    ensures from <= i <= |s| && (i == |s| || s[i] !in at)
    ensures Tokens(s[i..], at) == Tokens(s[from..], at)
  {
    i := from;
    while i < |s| && s[i] in at
      invariant from <= i <= |s|
      invariant Tokens(s[i..], at) == Tokens(s[from..], at)
    {
      SkipDelimiter(s, i, at);
      i := i + 1;
    }
  }

  /** strtok's second scan: the end of the run of non-delimiters that starts at `i`. */
  method TokenEnd(s: string, at: string, i: nat) returns (j: nat)
    requires i <= |s|
    ensures i <= j <= |s| && (j == |s| || s[j] in at)
    ensures forall k :: i <= k < j ==> s[k] !in at
  {
    j := i;
    while j < |s| && s[j] !in at
      invariant i <= j <= |s|
      invariant forall k :: i <= k < j ==> s[k] !in at
    {
      j := j + 1;
    }
  }

  /**
   * `split`: the tokens of `str` in order (their number is the length of
   * the result); no token at all when either argument is the null pointer.
   */
  method Split(str: Option<string>, at: Option<string>) returns (parts: seq<string>)
    ensures str.Some? && at.Some? ==> parts == Tokens(str.value, at.value)
    ensures str.None? || at.None? ==> parts == []
  {
    if str.None? || at.None? {
      return [];
    }
    var s, delims := str.value, at.value;
    parts := [];
    var p, pos := NextToken(s, delims, 0);
    assert s[0..] == s;
    while p.Some?
      invariant pos <= |s|
      invariant p.None? ==> parts == Tokens(s, delims)
      invariant p.Some? ==> parts + [p.value] + Tokens(s[pos..], delims) == Tokens(s, delims)
      decreases |s| - pos, p.Some?
    {
      parts := parts + [p.value];
      var old_pos := pos;
      p, pos := NextToken(s, delims, pos);
      if p.None? {
        assert parts + Tokens(s[old_pos..], delims) == Tokens(s, delims);
      }
    }
  }

  /** The commands of bfdb, in the order of its command table. */
  datatype Command = Help | Quit | File | Run | Next | Jump | Continue | Dataptr | Print

  const Table: seq<Command> := [Help, Quit, File, Run, Next, Jump, Continue, Dataptr, Print]

  function Name(c: Command): string {
    match c
    case Help => "help"
    case Quit => "quit"
    case File => "file"
    case Run => "run"
    case Next => "next"
    case Jump => "jump"
    case Continue => "continue"
    case Dataptr => "dataptr"
    case Print => "print"
  }

  function Abbr(c: Command): char {
    match c
    case Help => 'h'
    case Quit => 'q'
    case File => 'f'
    case Run => 'r'
    case Next => 'n'
    case Jump => 'j'
    case Continue => 'c'
    case Dataptr => 'd'
    case Print => 'p'
  }

  /** The table lists every command once, and each name begins with its own abbreviation. */
  lemma TableWellFormed()
    ensures forall c: Command :: c in Table
    ensures forall i, j :: 0 <= i < j < |Table| ==> Abbr(Table[i]) != Abbr(Table[j])
    ensures forall c: Command :: Name(c) != [] && Name(c)[0] == Abbr(c)
  {
    forall c: Command
      ensures c in Table
    {
      match c
      case Help => assert Table[0] == c;
      case Quit => assert Table[1] == c;
      case File => assert Table[2] == c;
      case Run => assert Table[3] == c;
      case Next => assert Table[4] == c;
      case Jump => assert Table[5] == c;
      case Continue => assert Table[6] == c;
      case Dataptr => assert Table[7] == c;
      case Print => assert Table[8] == c;
    }
  }

  /** The command whose abbreviation is `ch`, if there is one. */
  function ByAbbr(ch: char): (r: Option<Command>)
    ensures forall c: Command :: r == Some(c) <==> Abbr(c) == ch
  {
    match ch
    case 'h' => Some(Help)
    case 'q' => Some(Quit)
    case 'f' => Some(File)
    case 'r' => Some(Run)
    case 'n' => Some(Next)
    case 'j' => Some(Jump)
    case 'c' => Some(Continue)
    case 'd' => Some(Dataptr)
    case 'p' => Some(Print)
    case _ => None
  }

  /** The test of `parse_command`: the token is the command's name, or starts with its abbreviation. */
  predicate Fires(c: Command, tok: string) {
    tok == Name(c) || (tok != [] && tok[0] == Abbr(c))
  }

  /** A command handler call: the command and its optional argument. */
  datatype Call = Call(command: Command, arg: Option<string>)

  /** The commands of `cs` that fire on `tok`, in order. */
  function Firing(cs: seq<Command>, tok: string): (r: seq<Command>)
    ensures forall c :: c in r <==> c in cs && Fires(c, tok)
  {
    if cs == [] then []
    else (if Fires(cs[0], tok) then [cs[0]] else []) + Firing(cs[1..], tok)
  }

  /** Matching by name adds nothing: a command fires exactly when its abbreviation begins the token. */
  lemma FiresByAbbr(c: Command, tok: string)
    requires tok != []
    ensures Fires(c, tok) <==> tok[0] == Abbr(c)
  {
    TableWellFormed();
  }

  /** Among commands with distinct abbreviations, at most one fires. */
  lemma {:induction false} AtMostOneFires(cs: seq<Command>, tok: string)
    requires tok != []
    requires forall i, j :: 0 <= i < j < |cs| ==> Abbr(cs[i]) != Abbr(cs[j])
    ensures |Firing(cs, tok)| <= 1
    decreases |cs|
  {
    if cs != [] {
      AtMostOneFires(cs[1..], tok);
      if Fires(cs[0], tok) {
        FiresByAbbr(cs[0], tok);
        var r := Firing(cs[1..], tok);
        if r != [] {
          assert r[0] in cs[1..] && Fires(r[0], tok);
          FiresByAbbr(r[0], tok);
          assert false;
        }
      }
    }
  }

  /** On the command table, exactly the command whose abbreviation is the token's first character fires. */
  lemma FiringOnTable(tok: string)
    requires tok != []
    ensures Firing(Table, tok) == (match ByAbbr(tok[0]) case None => [] case Some(c) => [c])
  {
    TableWellFormed();
    FiringUnique(Table, tok);
  }

  /** In a table that lists every command once, exactly the command named by the abbreviation fires. */
  lemma FiringUnique(cs: seq<Command>, tok: string)
    requires tok != []
    requires forall c: Command :: c in cs
    requires forall i, j :: 0 <= i < j < |cs| ==> Abbr(cs[i]) != Abbr(cs[j])
    ensures Firing(cs, tok) == (match ByAbbr(tok[0]) case None => [] case Some(c) => [c])
  {
    AtMostOneFires(cs, tok);
    var r := Firing(cs, tok);
    var b := ByAbbr(tok[0]);
    if b.None? {
      if r != [] {
        FiresByAbbr(r[0], tok);
        assert false;
      }
    } else {
      FiresByAbbr(b.value, tok);
      assert b.value in r;
    }
  }

  /**
   * `parse_command` on a line: an empty line does nothing; otherwise every
   * command in the table that fires on the first token is called, in table
   * order, with the second token as argument exactly when there are two
   * tokens. A non-empty line made only of spaces makes bfdb dereference a
   * null token array, so it is excluded.
   */
  method ParseCommand(cmd: string) returns (calls: seq<Call>)
    requires cmd == [] || Tokens(cmd, " ") != []
    ensures cmd == [] ==> calls == []
    ensures cmd != [] ==>
      var toks := Tokens(cmd, " ");
      var arg := if |toks| == 2 then Some(toks[1]) else None;
      calls == match ByAbbr(toks[0][0]) case None => [] case Some(c) => [Call(c, arg)]
  {
    if |cmd| == 0 {
      return [];
    }
    var splitCmd := Split(Some(cmd), Some(" "));
    ghost var given := if |splitCmd| == 2 then Some(splitCmd[1]) else None;
    ghost var fired: seq<Command> := [];
    calls := [];
    for i := 0 to |Table|
      invariant fired == Firing(Table[..i], splitCmd[0])
      invariant calls == CallsOf(fired, given)
    {
      var command := Table[i];
      if splitCmd[0] == Name(command) || splitCmd[0][0] == Abbr(command) {
        var arg := if |splitCmd| == 2 then Some(splitCmd[1]) else None;
        CallsOfSnoc(fired, command, given);
        calls := calls + [Call(command, arg)];
        fired := fired + [command];
      }
      FiringSnoc(Table[..i], Table[i], splitCmd[0]);
      SliceSnoc(Table, i);
    }
    SliceAll(Table);
    DispatchOnTable(splitCmd[0], given);
  }

  /** The calls `parse_command` makes for first token `tok` and argument `arg`. */
  lemma DispatchOnTable(tok: string, arg: Option<string>)
    requires tok != []
    ensures CallsOf(Firing(Table, tok), arg) == match ByAbbr(tok[0]) case None => [] case Some(c) => [Call(c, arg)]
  {
    FiringOnTable(tok);
  }

  /** The handler calls for the commands `fired`, each with argument `arg`. */
  function CallsOf(fired: seq<Command>, arg: Option<string>): (r: seq<Call>)
    ensures |r| == |fired| && forall k :: 0 <= k < |r| ==> r[k] == Call(fired[k], arg)
  {
    seq(|fired|, k requires 0 <= k < |fired| => Call(fired[k], arg))
  }

  lemma CallsOfSnoc(fired: seq<Command>, c: Command, arg: Option<string>)
    ensures CallsOf(fired + [c], arg) == CallsOf(fired, arg) + [Call(c, arg)]
  {
  }

  lemma SliceSnoc<T>(s: seq<T>, i: nat)
    requires i < |s|
    ensures s[..i + 1] == s[..i] + [s[i]]
  {
  }

  lemma SliceAll<T>(s: seq<T>)
    ensures s[..|s|] == s
  {
  }

  lemma {:induction false} FiringSnoc(cs: seq<Command>, c: Command, tok: string)
    ensures Firing(cs + [c], tok) == Firing(cs, tok) + (if Fires(c, tok) then [c] else [])
    decreases |cs|
  {
    if cs == [] {
      assert [c][1..] == [];
    } else {
      assert (cs + [c])[1..] == cs[1..] + [c];
      FiringSnoc(cs[1..], c, tok);
    }
  }
}
