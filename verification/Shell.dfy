/** The command parser of user/sh.c: its grammar on tokens, and the printer it undoes. A panic is Bad. */
module Shell {

  const MAXARGS: nat := 10
  const NUL: char := '\0'

  // ---------- tokens ----------

  predicate IsWhite(c: char) { c == ' ' || c == '\t' || c == '\r' || c == '\n' || c == '\U{000B}' }
  predicate IsSymbol(c: char) { c in "<|>&;()" }
  predicate InWord(c: char) { !IsWhite(c) && !IsSymbol(c) && c != NUL }

  datatype Token = Word(text: string) | Symbol(c: char) | Append

  predicate IsWord(w: string) {
    w != "" && forall i | 0 <= i < |w| :: InWord(w[i])
  }

  /** How many characters at the start of s are of a word. */
  function WordLength(s: string): (n: nat)
    ensures n <= |s| && (forall i | 0 <= i < n :: InWord(s[i])) && (n < |s| ==> !InWord(s[n]))
  {
    if s == "" || !InWord(s[0]) then 0 else 1 + WordLength(s[1..])
  }

  /** The tokens of a line that has no NUL. */
  function Lex(s: string): seq<Token>
    requires NUL !in s
    decreases |s|
  {
    if s == "" then []
    else if IsWhite(s[0]) then Lex(s[1..])
    else if s[0] == '>' && |s| >= 2 && s[1] == '>' then [Append] + Lex(s[2..])
    else if IsSymbol(s[0]) then [Symbol(s[0])] + Lex(s[1..])
    else
      var n := WordLength(s);
      assert s[0] in s;
      assert n > 0;
      [Word(s[..n])] + Lex(s[n..])
  }

  // ---------- the grammar ----------

  datatype Cmd<W> =
    | Exec(argv: seq<W>)
    | Redir(cmd: Cmd<W>, file: W, write: bool)
    | Pipe(left: Cmd<W>, right: Cmd<W>)
    | List(left: Cmd<W>, right: Cmd<W>)
    | Back(cmd: Cmd<W>)

  datatype Redirection = Redirection(file: string, write: bool)

  datatype Result = Ok(cmd: Cmd<string>, rest: seq<Token>) | Bad
  datatype Redirs = Redirs(rs: seq<Redirection>, rest: seq<Token>) | NoFile

  predicate At(ts: seq<Token>, cs: string) {
    ts != [] && ts[0].Symbol? && ts[0].c in cs
  }

  predicate AtRedir(ts: seq<Token>) {
    ts != [] && (ts[0] == Symbol('<') || ts[0] == Symbol('>') || ts[0] == Append)
  }

  /** The redirections rs around c, the first innermost. */
  function Wrap(c: Cmd<string>, rs: seq<Redirection>): Cmd<string>
    decreases |rs|
  {
    if rs == [] then c else Wrap(Redir(c, rs[0].file, rs[0].write), rs[1..])
  }

  function ParseRedirs(ts: seq<Token>): (r: Redirs)
    ensures r.Redirs? ==> |r.rest| <= |ts| && !AtRedir(r.rest)
  {
    if !AtRedir(ts) then Redirs([], ts)
    else if |ts| < 2 || !ts[1].Word? then NoFile
    else
      match ParseRedirs(ts[2..])
      case NoFile => NoFile
      case Redirs(rs, rest) => Redirs([Redirection(ts[1].text, ts[0] != Symbol('<'))] + rs, rest)
  }

  /** parseexec's loop, with the words and redirections it has. */
  function ParseArgs(argv: seq<string>, rs: seq<Redirection>, ts: seq<Token>): (r: Result)
    ensures r.Ok? ==> |r.rest| <= |ts|
    decreases |ts|
  {
    if ts == [] || At(ts, "|)&;") then Ok(Wrap(Exec(argv), rs), ts)
    else if !ts[0].Word? || |argv| + 1 >= MAXARGS then Bad
    else
      match ParseRedirs(ts[1..])
      case NoFile => Bad
      case Redirs(more, rest) => ParseArgs(argv + [ts[0].text], rs + more, rest)
  }

  function ParseExec(ts: seq<Token>): (r: Result)
    ensures r.Ok? ==> |r.rest| <= |ts|
    decreases |ts|, 1
  {
    if At(ts, "(") then ParseBlock(ts)
    else
      match ParseRedirs(ts)
      case NoFile => Bad
      case Redirs(rs, rest) => ParseArgs([], rs, rest)
  }

  function ParseBlock(ts: seq<Token>): (r: Result)
    requires At(ts, "(")
    ensures r.Ok? ==> |r.rest| <= |ts|
    decreases |ts|, 0
  {
    match ParseLine(ts[1..])
    case Bad => Bad
    case Ok(c, rest) =>
      if !At(rest, ")") then Bad
      else
        match ParseRedirs(rest[1..])
        case NoFile => Bad
        case Redirs(rs, rest) => Ok(Wrap(c, rs), rest)
  }

  function ParsePipe(ts: seq<Token>): (r: Result)
    ensures r.Ok? ==> |r.rest| <= |ts|
    decreases |ts|, 2
  {
    match ParseExec(ts)
    case Bad => Bad
    case Ok(c, rest) =>
      if !At(rest, "|") then Ok(c, rest)
      else
        match ParsePipe(rest[1..])
        case Bad => Bad
        case Ok(right, rest) => Ok(Pipe(c, right), rest)
  }

  /** parseline's loop. */
  function ParseBacks(c: Cmd<string>, ts: seq<Token>): (r: Result)
    ensures r.Ok? && |r.rest| <= |ts| && !At(r.rest, "&")
    decreases |ts|
  {
    if At(ts, "&") then ParseBacks(Back(c), ts[1..]) else Ok(c, ts)
  }

  function ParseLine(ts: seq<Token>): (r: Result)
    ensures r.Ok? ==> |r.rest| <= |ts|
    decreases |ts|, 3
  {
    match ParsePipe(ts)
    case Bad => Bad
    case Ok(c, rest) =>
      var Ok(c, rest) := ParseBacks(c, rest);
      if !At(rest, ";") then Ok(c, rest)
      else
        match ParseLine(rest[1..])
        case Bad => Bad
        case Ok(right, rest) => Ok(List(c, right), rest)
  }

  // ---------- the printer ----------

  /** What the shell can run: at most 9 words a command, each a word. */
  predicate WellFormed(c: Cmd<string>) {
    match c
    case Exec(argv) => |argv| < MAXARGS && forall i | 0 <= i < |argv| :: IsWord(argv[i])
    case Redir(d, file, _) => WellFormed(d) && IsWord(file)
    case Pipe(l, r) => WellFormed(l) && WellFormed(r)
    case List(l, r) => WellFormed(l) && WellFormed(r)
    case Back(d) => WellFormed(d)
  }

  /** 0 a list, 1 a background command, 2 a pipe, 3 what binds tightest. */
  function Level(c: Cmd<string>): nat {
    match c
    case List(_, _) => 0
    case Back(_) => 1
    case Pipe(_, _) => 2
    case _ => 3
  }

  function Words(argv: seq<string>): seq<Token> {
    seq(|argv|, i requires 0 <= i < |argv| => Word(argv[i]))
  }

  /** c where something of the given level is expected, in parentheses if it binds less tightly. */
  function Tokens(c: Cmd<string>, level: nat): seq<Token>
    decreases c, 1
  {
    if Level(c) < level then [Symbol('(')] + Body(c) + [Symbol(')')] else Body(c)
  }

  function Body(c: Cmd<string>): seq<Token>
    decreases c, 0
  {
    match c
    case Exec(argv) => Words(argv)
    case Redir(d, file, write) => Tokens(d, 3) + [Symbol(if write then '>' else '<'), Word(file)]
    case Pipe(l, r) => Tokens(l, 3) + [Symbol('|')] + Tokens(r, 2)
    case List(l, r) => Tokens(l, 1) + [Symbol(';')] + Tokens(r, 0)
    case Back(d) => Tokens(d, 1) + [Symbol('&')]
  }

  /** The token as text, with a blank after it. */
  function Text(t: Token): string {
    (match t
     case Word(w) => w
     case Symbol(c) => [c]
     case Append => ">>") + " "
  }

  function Render(ts: seq<Token>): string {
    if ts == [] then "" else Text(ts[0]) + Render(ts[1..])
  }

  function Print(c: Cmd<string>): string {
    Render(Tokens(c, 0))
  }

  // ---------- parsing what was printed ----------

  /** What may follow a command: after its redirections, nothing that goes on with its words. */
  ghost predicate Follows(k: seq<Token>) {
    var r := ParseRedirs(k);
    r.Redirs? && (r.rest == [] || At(r.rest, "|)&;"))
  }

  /** c with the redirections that follow. */
  function Redirected(c: Cmd<string>, k: seq<Token>): Result {
    match ParseRedirs(k)
    case NoFile => Bad
    case Redirs(rs, rest) => Ok(Wrap(c, rs), rest)
  }

  lemma {:induction false} Args(done: seq<string>, todo: seq<string>, k: seq<Token>)
    requires |done| + |todo| < MAXARGS && Follows(k) && todo != []
    ensures ParseArgs(done, [], Words(todo) + k) == Redirected(Exec(done + todo), k)
    decreases |todo|
  {
    hide Follows, Wrap, ParseArgs, ParseRedirs;
    var ts, rest := Words(todo) + k, Words(todo[1..]) + k;
    assert ts == [Word(todo[0])] + rest;
    if |todo| == 1 {
      assert rest == k && done + todo == done + [todo[0]];
      ArgsLast(done, todo[0], k);
    } else {
      assert rest[0] == Word(todo[1]);
      ArgsOn(done, todo[0], rest);
      Args(done + [todo[0]], todo[1..], k);
      assert done + [todo[0]] + todo[1..] == done + todo;
    }
  }

  lemma ArgsLast(done: seq<string>, w: string, k: seq<Token>)
    requires |done| + 1 < MAXARGS && Follows(k)
    ensures ParseArgs(done, [], [Word(w)] + k) == Redirected(Exec(done + [w]), k)
  {
    var ts, none := [Word(w)] + k, [];
    assert ts[1..] == k;
    var r := ParseRedirs(k);
    assert none + r.rs == r.rs;
  }

  lemma ArgsOn(done: seq<string>, w: string, rest: seq<Token>)
    requires |done| + 1 < MAXARGS && rest != [] && rest[0].Word?
    ensures ParseArgs(done, [], [Word(w)] + rest) == ParseArgs(done + [w], [], rest)
  {
    var ts: seq<Token>, none: seq<Redirection> := [Word(w)] + rest, [];
    assert ts[1..] == rest && none + none == none;
  }

  predicate Ends(k: seq<Token>, cs: string) {
    k == [] || At(k, cs)
  }

  /** A command up to its last &. */
  function ParseBacked(ts: seq<Token>): Result {
    match ParsePipe(ts)
    case Bad => Bad
    case Ok(c, rest) => ParseBacks(c, rest)
  }

  function Rank(c: Cmd<string>, level: nat): nat
    requires level < 4
  {
    (Level(c) + 4 - level) % 4
  }

  lemma Associate(a: seq<Token>, b: seq<Token>, c: seq<Token>)
    ensures (a + b) + c == a + (b + c)
  {
  }

  lemma {:induction false} Reparse3(c: Cmd<string>, k: seq<Token>)
    requires WellFormed(c) && Follows(k)
    ensures ParseExec(Tokens(c, 3) + k) == Redirected(c, k)
    decreases c, Rank(c, 3)
  {
    hide ParseArgs, ParseRedirs, Wrap, ParseLine, ParsePipe;
    match c {
      case Exec(argv) => ReparseExec(argv, k);
      case Redir(d, file, write) =>
        var op := [Symbol(if write then '>' else '<'), Word(file)];
        FollowsRedir(d, file, write, k);
        Reparse3(d, op + k);
        Associate(Tokens(d, 3), op, k);
      case _ =>
        var close := [Symbol(')')] + k;
        Reparse0(c, close);
        assert Tokens(c, 3) + k == [Symbol('(')] + (Tokens(c, 0) + close);
        assert close[1..] == k;
    }
  }

  lemma ReparseExec(argv: seq<string>, k: seq<Token>)
    requires |argv| < MAXARGS && Follows(k)
    ensures ParseExec(Words(argv) + k) == Redirected(Exec(argv), k)
  {
    var ts: seq<Token>, none: seq<string> := Words(argv) + k, [];
    if argv == [] {
      assert ts == k;
    } else {
      Args([], argv, k);
      assert none + argv == argv;
      assert ts[0] == Word(argv[0]);
    }
  }

  lemma FollowsRedir(d: Cmd<string>, file: string, write: bool, k: seq<Token>)
    requires Follows(k)
    ensures var op := [Symbol(if write then '>' else '<'), Word(file)];
            Follows(op + k) && Redirected(d, op + k) == Redirected(Redir(d, file, write), k)
  {
    var ts := [Symbol(if write then '>' else '<'), Word(file)] + k;
    assert ts[2..] == k;
  }

  lemma FollowsEnd(c: Cmd<string>, k: seq<Token>)
    requires Ends(k, "|)&;")
    ensures Follows(k) && Redirected(c, k) == Ok(c, k)
  {
  }

  lemma {:induction false} Reparse2(c: Cmd<string>, k: seq<Token>)
    requires WellFormed(c) && Ends(k, ")&;")
    ensures ParsePipe(Tokens(c, 2) + k) == Ok(c, k)
    decreases c, Rank(c, 2)
  {
    hide ParseExec, ParseRedirs, Follows;
    match c {
      case Pipe(l, r) =>
        var rest := [Symbol('|')] + (Tokens(r, 2) + k);
        FollowsEnd(l, rest);
        Reparse3(l, rest);
        Reparse2(r, k);
        assert Tokens(c, 2) + k == Tokens(l, 3) + rest;
        assert rest[1..] == Tokens(r, 2) + k;
      case _ =>
        FollowsEnd(c, k);
        Reparse3(c, k);
    }
  }

  lemma {:induction false} Reparse1(c: Cmd<string>, k: seq<Token>)
    requires WellFormed(c) && Ends(k, ")&;")
    ensures ParseBacked(Tokens(c, 1) + k) == ParseBacks(c, k)
    decreases c, Rank(c, 1)
  {
    hide ParsePipe;
    match c {
      case Back(d) =>
        var rest := [Symbol('&')] + k;
        Reparse1(d, rest);
        assert Tokens(c, 1) + k == Tokens(d, 1) + rest;
        assert rest[1..] == k;
      case _ =>
        Reparse2(c, k);
    }
  }

  lemma {:induction false} Reparse0(c: Cmd<string>, k: seq<Token>)
    requires WellFormed(c) && Ends(k, ")")
    ensures ParseLine(Tokens(c, 0) + k) == Ok(c, k)
    decreases c, Rank(c, 0)
  {
    hide ParsePipe;
    match c {
      case List(l, r) =>
        var rest := [Symbol(';')] + (Tokens(r, 0) + k);
        Reparse1(l, rest);
        Reparse0(r, k);
        assert Tokens(c, 0) + k == Tokens(l, 1) + rest;
        assert rest[1..] == Tokens(r, 0) + k;
      case _ =>
        Reparse1(c, k);
    }
  }

  // ---------- what a parse can give ----------

  /** Tokens that a line can have. */
  predicate GoodTokens(ts: seq<Token>) {
    forall i | 0 <= i < |ts| :: (ts[i].Word? ==> IsWord(ts[i].text)) && (ts[i].Symbol? ==> IsSymbol(ts[i].c))
  }

  predicate GoodResult(r: Result) {
    r.Ok? ==> WellFormed(r.cmd) && GoodTokens(r.rest)
  }

  lemma {:induction false} WrapGood(c: Cmd<string>, rs: seq<Redirection>)
    requires WellFormed(c) && forall i | 0 <= i < |rs| :: IsWord(rs[i].file)
    ensures WellFormed(Wrap(c, rs))
    decreases |rs|
  {
    if rs != [] { WrapGood(Redir(c, rs[0].file, rs[0].write), rs[1..]); }
  }

  lemma {:induction false} RedirsGood(ts: seq<Token>)
    requires GoodTokens(ts)
    ensures var r := ParseRedirs(ts); r.Redirs? ==>
              GoodTokens(r.rest) && forall i | 0 <= i < |r.rs| :: IsWord(r.rs[i].file)
  {
    if AtRedir(ts) && |ts| >= 2 && ts[1].Word? {
      RedirsGood(ts[2..]);
      assert IsWord(ts[1].text);
    }
  }

  lemma {:induction false} ArgsGood(argv: seq<string>, rs: seq<Redirection>, ts: seq<Token>)
    requires GoodTokens(ts) && |argv| < MAXARGS && (forall i | 0 <= i < |argv| :: IsWord(argv[i]))
               && forall i | 0 <= i < |rs| :: IsWord(rs[i].file)
    ensures GoodResult(ParseArgs(argv, rs, ts))
    decreases |ts|
  {
    hide Wrap, ParseRedirs;
    if ts == [] || At(ts, "|)&;") {
      WrapGood(Exec(argv), rs);
    } else if ts[0].Word? && |argv| + 1 < MAXARGS {
      RedirsGood(ts[1..]);
      var r := ParseRedirs(ts[1..]);
      if r.Redirs? { ArgsGood(argv + [ts[0].text], rs + r.rs, r.rest); }
    }
  }

  lemma {:induction false} ExecGood(ts: seq<Token>)
    requires GoodTokens(ts)
    ensures GoodResult(ParseExec(ts))
    decreases |ts|, 1
  {
    hide Wrap, ParseRedirs, ParseArgs, ParseLine;
    if At(ts, "(") {
      LineGood(ts[1..]);
      var r := ParseLine(ts[1..]);
      if r.Ok? && At(r.rest, ")") {
        RedirsGood(r.rest[1..]);
        var rs := ParseRedirs(r.rest[1..]);
        if rs.Redirs? { WrapGood(r.cmd, rs.rs); }
      }
    } else {
      RedirsGood(ts);
      var rs := ParseRedirs(ts);
      if rs.Redirs? { ArgsGood([], rs.rs, rs.rest); }
    }
  }

  lemma {:induction false} PipeGood(ts: seq<Token>)
    requires GoodTokens(ts)
    ensures GoodResult(ParsePipe(ts))
    decreases |ts|, 2
  {
    hide ParseExec;
    ExecGood(ts);
    var r := ParseExec(ts);
    if r.Ok? && At(r.rest, "|") { PipeGood(r.rest[1..]); }
  }

  lemma {:induction false} BacksGood(c: Cmd<string>, ts: seq<Token>)
    requires WellFormed(c) && GoodTokens(ts)
    ensures GoodResult(ParseBacks(c, ts))
    decreases |ts|
  {
    if At(ts, "&") { BacksGood(Back(c), ts[1..]); }
  }

  lemma {:induction false} LineGood(ts: seq<Token>)
    requires GoodTokens(ts)
    ensures GoodResult(ParseLine(ts))
    decreases |ts|, 3
  {
    hide ParsePipe, ParseBacks;
    PipeGood(ts);
    var r := ParsePipe(ts);
    if r.Ok? {
      BacksGood(r.cmd, r.rest);
      var b := ParseBacks(r.cmd, r.rest);
      if At(b.rest, ";") { LineGood(b.rest[1..]); }
    }
  }

  // ---------- characters ----------

  lemma Good3(a: seq<Token>, t: seq<Token>, b: seq<Token>)
    requires GoodTokens(a) && GoodTokens(t) && GoodTokens(b)
    ensures GoodTokens(a + t + b) && GoodTokens(a + t)
  {
  }

  lemma GoodSymbol(c: char)
    requires IsSymbol(c)
    ensures GoodTokens([Symbol(c)])
  {
  }

  lemma {:induction false} TokensGood(c: Cmd<string>, level: nat)
    requires WellFormed(c)
    ensures GoodTokens(Tokens(c, level))
    decreases c, 1
  {
    hide GoodTokens, IsSymbol;
    BodyGood(c);
    assert IsSymbol('(') && IsSymbol(')') by { Symbols(); }
    GoodSymbol('(');
    GoodSymbol(')');
    Good3([Symbol('(')], Body(c), [Symbol(')')]);
  }

  lemma Symbols()
    ensures forall c | c in "<|>&;()" :: IsSymbol(c)
  {
  }

  lemma {:induction false} BodyGood(c: Cmd<string>)
    requires WellFormed(c)
    ensures GoodTokens(Body(c))
    decreases c, 0
  {
    hide GoodTokens, IsSymbol, Tokens;
    Symbols();
    match c {
      case Exec(argv) => WordsGood(argv);
      case Redir(d, file, write) =>
        TokensGood(d, 3);
        var op := [Symbol(if write then '>' else '<'), Word(file)];
        assert GoodTokens(op) by { OpGood(write, file); }
        Good3(Tokens(d, 3), op, op);
      case Pipe(l, r) =>
        TokensGood(l, 3);
        TokensGood(r, 2);
        GoodSymbol('|');
        Good3(Tokens(l, 3), [Symbol('|')], Tokens(r, 2));
      case List(l, r) =>
        TokensGood(l, 1);
        TokensGood(r, 0);
        GoodSymbol(';');
        Good3(Tokens(l, 1), [Symbol(';')], Tokens(r, 0));
      case Back(d) =>
        TokensGood(d, 1);
        GoodSymbol('&');
        Good3(Tokens(d, 1), [Symbol('&')], [Symbol('&')]);
    }
  }

  lemma WordsGood(argv: seq<string>)
    requires forall i | 0 <= i < |argv| :: IsWord(argv[i])
    ensures GoodTokens(Words(argv))
  {
  }

  lemma OpGood(write: bool, file: string)
    requires IsWord(file)
    ensures GoodTokens([Symbol(if write then '>' else '<'), Word(file)])
  {
  }

  lemma {:induction false} WordLengthIs(w: string, rest: string)
    requires IsWord(w) && rest != "" && !InWord(rest[0])
    ensures WordLength(w + rest) == |w|
  {
    var s := w + rest;
    if |w| > 1 {
      assert s[1..] == w[1..] + rest;
      WordLengthIs(w[1..], rest);
    } else {
      assert s[1..] == rest;
    }
  }

  lemma LexBlank(s: string)
    requires NUL !in s
    ensures NUL !in " " + s && Lex(" " + s) == Lex(s)
  {
    assert (" " + s)[1..] == s;
  }

  lemma LexWord(w: string, s: string)
    requires IsWord(w) && NUL !in s
    ensures NUL !in w + (" " + s) && Lex(w + (" " + s)) == [Word(w)] + Lex(" " + s)
  {
    var line := w + (" " + s);
    WordLengthIs(w, " " + s);
    assert line[0] == w[0] && InWord(w[0]);
    assert line[..|w|] == w && line[|w|..] == " " + s;
  }

  lemma LexSymbol(c: char, s: string)
    requires IsSymbol(c) && NUL !in s
    ensures NUL !in [c] + (" " + s) && Lex([c] + (" " + s)) == [Symbol(c)] + Lex(" " + s)
  {
    var line := [c] + (" " + s);
    assert line[0] == c && line[1] == ' ' && line[1..] == " " + s;
  }

  lemma LexAppend(s: string)
    requires NUL !in s
    ensures NUL !in ">>" + (" " + s) && Lex(">>" + (" " + s)) == [Append] + Lex(" " + s)
  {
    var line := ">>" + (" " + s);
    assert line[0] == '>' && line[1] == '>' && line[2..] == " " + s;
  }

  lemma LexOne(t: Token, s: string)
    requires (t.Word? ==> IsWord(t.text)) && (t.Symbol? ==> IsSymbol(t.c)) && NUL !in s
    ensures NUL !in Text(t) + s && Lex(Text(t) + s) == [t] + Lex(s)
  {
    hide Lex, IsSymbol, IsWord;
    LexBlank(s);
    match t {
      case Word(w) =>
        LexWord(w, s);
        assert Text(t) + s == w + (" " + s);
      case Symbol(c) =>
        LexSymbol(c, s);
        assert Text(t) + s == [c] + (" " + s);
      case Append =>
        LexAppend(s);
        assert Text(t) + s == ">>" + (" " + s);
    }
  }

  lemma LexNothing()
    ensures Lex("") == []
  {
  }

  lemma {:induction false} LexRender(ts: seq<Token>)
    requires GoodTokens(ts)
    ensures NUL !in Render(ts) && Lex(Render(ts)) == ts
  {
    hide Lex, Text;
    LexNothing();
    if ts != [] {
      LexRender(ts[1..]);
      LexOne(ts[0], Render(ts[1..]));
    }
  }

  lemma {:induction false} LexGood(s: string)
    requires NUL !in s
    ensures GoodTokens(Lex(s))
    decreases |s|
  {
    if s != "" {
      assert s[0] in s;
      var n := WordLength(s);
      if IsWhite(s[0]) || IsSymbol(s[0]) {
        LexGood(s[1..]);
        if |s| >= 2 { LexGood(s[2..]); }
      } else {
        assert IsWord(s[..n]);
        LexGood(s[n..]);
      }
    }
  }

  /** The parser on a whole line; Bad also if something is left over. */
  function Parse(line: string): Result
    requires NUL !in line
  {
    match ParseLine(Lex(line))
    case Bad => Bad
    case Ok(c, rest) => if rest == [] then Ok(c, []) else Bad
  }

  /** Parsing what was printed gives the command back. */
  lemma RoundTrip(c: Cmd<string>)
    requires WellFormed(c)
    ensures NUL !in Print(c) && Parse(Print(c)) == Ok(c, [])
  {
    TokensGood(c, 0);
    LexRender(Tokens(c, 0));
    Reparse0(c, []);
    assert Tokens(c, 0) + [] == Tokens(c, 0);
  }

  /** Whatever line is parsed, the command can be printed, and the print means the same to the parser. */
  lemma ParsePrintParse(line: string)
    requires NUL !in line && Parse(line).Ok?
    ensures WellFormed(Parse(line).cmd) && NUL !in Print(Parse(line).cmd)
              && Parse(Print(Parse(line).cmd)) == Parse(line)
  {
    LexGood(line);
    LineGood(Lex(line));
    RoundTrip(Parse(line).cmd);
  }

  // ---------- the grammar as trees ----------

  datatype Way = In | Out | Onto

  /** What a command is made of: words, and redirections between them. */
  datatype Item = Arg(word: string) | To(way: Way, file: string)

  /** A piece of a line as it is written. */
  datatype Tree =
    | Plain(items: seq<Item>)
    | Block(line: Tree, redirs: seq<Item>)
    | Piped(left: Tree, right: Tree)
    | Backed(tree: Tree)
    | Listed(left: Tree, right: Tree)
  {
    /** A line is pipelines with any number of &, joined by ; and a pipeline is commands and blocks joined by |. */
    predicate IsLine()
      decreases this, 3
    {
      if Listed? then left.IsBacked() && right.IsLine() else IsBacked()
    }

    predicate IsBacked()
      decreases this, 2
    {
      if Backed? then tree.IsBacked() else IsPipe()
    }

    predicate IsPipe()
      decreases this, 1
    {
      if Piped? then left.IsExec() && right.IsPipe() else IsExec()
    }

    /** A command has fewer than MAXARGS words, and after a block come only redirections. */
    predicate IsExec()
      decreases this, 0
    {
      match this
      case Plain(items) => |WordsOf(items)| < 10
      case Block(line, redirs) => line.IsLine() && WordsOf(redirs) == []
      case _ => false
    }

    /** The tokens it is written with. */
    function Yield(): seq<Token> {
      match this
      case Plain(items) => Written(items)
      case Block(line, redirs) => [Symbol('(')] + line.Yield() + [Symbol(')')] + Written(redirs)
      case Piped(left, right) => left.Yield() + [Symbol('|')] + right.Yield()
      case Backed(tree) => tree.Yield() + [Symbol('&')]
      case Listed(left, right) => left.Yield() + [Symbol(';')] + right.Yield()
    }

    /** The command it stands for. */
    function Meaning(): Cmd<string> {
      match this
      case Plain(items) => Around(Exec(WordsOf(items)), items)
      case Block(line, redirs) => Around(line.Meaning(), redirs)
      case Piped(left, right) => Pipe(left.Meaning(), right.Meaning())
      case Backed(tree) => Back(tree.Meaning())
      case Listed(left, right) => List(left.Meaning(), right.Meaning())
    }
  }

  function WordsOf(items: seq<Item>): seq<string> {
    if items == [] then [] else WordOf(items[0]) + WordsOf(items[1..])
  }

  function WordOf(item: Item): seq<string> {
    if item.Arg? then [item.word] else []
  }

  function Written(items: seq<Item>): seq<Token> {
    if items == [] then [] else WrittenOne(items[0]) + Written(items[1..])
  }

  function WrittenOne(item: Item): seq<Token> {
    match item
    case Arg(word) => [Word(word)]
    case To(In, file) => [Symbol('<'), Word(file)]
    case To(Out, file) => [Symbol('>'), Word(file)]
    case To(Onto, file) => [Append, Word(file)]
  }

  /** The redirections among the items around c, the first innermost. */
  function Around(c: Cmd<string>, items: seq<Item>): Cmd<string>
    decreases |items|
  {
    if items == [] then c
    else Around(if items[0].Arg? then c else Redir(c, items[0].file, items[0].way != In), items[1..])
  }

  function RedirsOf(items: seq<Item>): seq<Redirection> {
    if items == [] then [] else RedirOf(items[0]) + RedirsOf(items[1..])
  }

  function RedirOf(item: Item): seq<Redirection> {
    if item.Arg? then [] else [Redirection(item.file, item.way != In)]
  }

  lemma {:induction false} AroundIs(c: Cmd<string>, items: seq<Item>)
    ensures Around(c, items) == Wrap(c, RedirsOf(items))
    decreases |items|
  {
    if items != [] {
      AroundIs(if items[0].Arg? then c else Redir(c, items[0].file, items[0].way != In), items[1..]);
      if items[0].To? {
        assert RedirsOf(items)[1..] == RedirsOf(items[1..]);
      } else {
        assert RedirsOf(items) == RedirsOf(items[1..]);
      }
    }
  }

  lemma {:induction false} ItemsJoin(a: seq<Item>, b: seq<Item>)
    ensures WordsOf(a + b) == WordsOf(a) + WordsOf(b) && RedirsOf(a + b) == RedirsOf(a) + RedirsOf(b)
    ensures Written(a + b) == Written(a) + Written(b)
  {
    hide WordOf, RedirOf, WrittenOne;
    if a == [] {
      assert a + b == b;
    } else {
      assert (a + b)[1..] == a[1..] + b;
      ItemsJoin(a[1..], b);
      Together(WordOf(a[0]), WordsOf(a[1..]), WordsOf(b));
      Together(RedirOf(a[0]), RedirsOf(a[1..]), RedirsOf(b));
      Together(WrittenOne(a[0]), Written(a[1..]), Written(b));
    }
  }

  lemma Together<T>(a: seq<T>, b: seq<T>, c: seq<T>)
    ensures (a + b) + c == a + (b + c)
  {
  }

  /** How many items there are before the first word. */
  function Lead(items: seq<Item>): (n: nat)
    ensures n <= |items| && (n < |items| ==> items[n].Arg?)
  {
    if items == [] || items[0].Arg? then 0 else 1 + Lead(items[1..])
  }

  /** parseredirs takes the redirections up to the next word or the end. */
  lemma {:induction false} RedirsRead(items: seq<Item>, k: seq<Token>)
    requires !AtRedir(k)
    ensures var n := Lead(items);
            WordsOf(items[..n]) == []
            && ParseRedirs(Written(items) + k) == Redirs(RedirsOf(items[..n]), Written(items[n..]) + k)
  {
    hide WrittenOne, ParseRedirs, AtRedir;
    var n := Lead(items);
    assert n < |items| ==> items[0..] == items;
    if items == [] {
      NoRedirs(k);
      assert Written(items) + k == k && items[..0] == [] && items[0..] == [];
    } else {
      var more := Written(items[1..]) + k;
      Together(WrittenOne(items[0]), Written(items[1..]), k);
      OneWritten(items[0], more);
      if items[0].Arg? {
        assert items[..0] == [];
      } else {
        RedirsRead(items[1..], k);
        assert items[..n][1..] == items[1..][..n - 1] && items[n..] == items[1..][n - 1..];
        assert WordsOf(items[..n]) == WordsOf(items[1..][..n - 1]);
        assert RedirsOf(items[..n]) == RedirOf(items[0]) + RedirsOf(items[1..][..n - 1]);
      }
    }
  }

  lemma NoRedirs(k: seq<Token>)
    requires !AtRedir(k)
    ensures ParseRedirs(k) == Redirs([], k)
  {
  }

  /** The tokens of one item before others. */
  lemma OneWritten(item: Item, more: seq<Token>)
    ensures var ts := WrittenOne(item) + more;
            if item.Arg? then
              ts != [] && ts[0] == Word(item.word) && ts[1..] == more && ParseRedirs(ts) == Redirs([], ts)
            else
              match ParseRedirs(more)
              case NoFile => ParseRedirs(ts) == NoFile
              case Redirs(rs, rest) => ParseRedirs(ts) == Redirs(RedirOf(item) + rs, rest)
  {
    var ts := WrittenOne(item) + more;
    if item.To? { assert ts[1] == Word(item.file) && ts[2..] == more; } else { assert ts[1..] == more; }
  }

  /** parseexec's loop takes all items, and keeps words and redirections apart. */
  lemma {:induction false} ArgsRead(argv: seq<string>, rs: seq<Redirection>, items: seq<Item>, k: seq<Token>)
    requires Ends(k, "|)&;") && |argv| + |WordsOf(items)| < MAXARGS && Lead(items) == 0
    ensures ParseArgs(argv, rs, Written(items) + k) == Ok(Wrap(Exec(argv + WordsOf(items)), rs + RedirsOf(items)), k)
    decreases |items|
  {
    hide Wrap, ParseRedirs, ParseArgs, Written, WordsOf, RedirsOf, Lead;
    FirstArg(items);
    if items == [] {
      ArgsEnd(argv, rs, k);
    } else {
      var word, more := items[0].word, items[1..];
      var n := Lead(more);
      var words, redirs := WordsOf(more[n..]), RedirsOf(more[..n]);
      RedirsRead(more, k);
      ItemsJoin(more[..n], more[n..]);
      assert more[..n] + more[n..] == more && WordsOf(more) == words;
      LeadThen(more);
      ArgsRead(argv + [word], rs + redirs, more[n..], k);
      ArgsOne(argv, rs, items, k, redirs, Written(more[n..]) + k);
      Together(argv, [word], words);
      Together(rs, redirs, RedirsOf(more[n..]));
    }
  }

  lemma FirstArg(items: seq<Item>)
    requires Lead(items) == 0
    ensures items != [] ==>
              && items[0].Arg? && WordsOf(items) == [items[0].word] + WordsOf(items[1..])
              && RedirsOf(items) == RedirsOf(items[1..])
  {
  }

  lemma {:induction false} LeadThen(items: seq<Item>)
    ensures Lead(items[Lead(items)..]) == 0
  {
  }

  lemma ArgsEnd(argv: seq<string>, rs: seq<Redirection>, k: seq<Token>)
    requires Ends(k, "|)&;")
    ensures ParseArgs(argv, rs, Written([]) + k) == Ok(Wrap(Exec(argv + WordsOf([])), rs + RedirsOf([])), k)
  {
    hide Wrap;
    assert Written([]) + k == k && argv + WordsOf([]) == argv && rs + RedirsOf([]) == rs;
  }

  lemma ArgsOne(argv: seq<string>, rs: seq<Redirection>, items: seq<Item>, k: seq<Token>, redirs: seq<Redirection>,
                rest: seq<Token>)
    requires items != [] && items[0].Arg? && |argv| + 1 < MAXARGS
    requires ParseRedirs(Written(items[1..]) + k) == Redirs(redirs, rest)
    ensures |rest| <= |Written(items[1..]) + k|
    ensures ParseArgs(argv, rs, Written(items) + k) == ParseArgs(argv + [items[0].word], rs + redirs, rest)
  {
    hide WrittenOne, ParseRedirs, Wrap;
    Together(WrittenOne(items[0]), Written(items[1..]), k);
    OneWritten(items[0], Written(items[1..]) + k);
  }

  /** Words and redirections in any order, up to an end: the words in order run, with the redirections in order around
      them. */
  lemma ItemsRead(items: seq<Item>, k: seq<Token>)
    requires Ends(k, "|)&;") && |WordsOf(items)| < 10
    ensures ParseExec(Written(items) + k) == Ok(Around(Exec(WordsOf(items)), items), k)
  {
    hide ParseArgs, ParseRedirs, Wrap, Around, WordsOf, RedirsOf, Written, Lead, At, AtRedir;
    var n, none := Lead(items), [];
    EndsApart(k);
    RedirsRead(items, k);
    ItemsJoin(items[..n], items[n..]);
    assert items[..n] + items[n..] == items;
    assert none + WordsOf(items[n..]) == WordsOf(items);
    LeadThen(items);
    ArgsRead([], RedirsOf(items[..n]), items[n..], k);
    AroundIs(Exec(WordsOf(items)), items);
    NotBlock(items, k);
  }

  lemma EndsApart(k: seq<Token>)
    requires Ends(k, "|)&;")
    ensures !AtRedir(k)
  {
  }

  lemma NotBlock(items: seq<Item>, k: seq<Token>)
    requires Ends(k, "|)&;")
    ensures !At(Written(items) + k, "(")
  {
  }

  lemma {:induction false} AllRedirs(items: seq<Item>)
    requires WordsOf(items) == []
    ensures Lead(items) == |items|
  {
    if items != [] {
      assert |WordOf(items[0])| + |WordsOf(items[1..])| == 0;
      AllRedirs(items[1..]);
    }
  }

  lemma {:induction false} CommandRead(t: Tree, k: seq<Token>)
    requires t.IsExec() && Ends(k, "|)&;")
    ensures ParseExec(t.Yield() + k) == Ok(t.Meaning(), k)
    decreases t, 0
  {
    hide ParseLine, ParseRedirs, ParseArgs, Wrap, Around, Written, ParseExec, Tree.IsLine, WordsOf, RedirsOf, Lead;
    if t.Plain? {
      ItemsRead(t.items, k);
    } else {
      var line, redirs := t.line, t.redirs;
      var after := Written(redirs) + k;
      LineRead(line, [Symbol(')')] + after);
      AllRedirs(redirs);
      RedirsRead(redirs, k);
      AroundIs(line.Meaning(), redirs);
      NoTokens(k);
      assert redirs[..|redirs|] == redirs && redirs[|redirs|..] == [];
      Within(line.Yield(), Written(redirs), k);
      BlockRead(line.Yield() + ([Symbol(')')] + after), line.Meaning(), after, RedirsOf(redirs), k);
    }
  }

  lemma Within(line: seq<Token>, redirs: seq<Token>, k: seq<Token>)
    ensures ([Symbol('(')] + line + [Symbol(')')] + redirs) + k
         == [Symbol('(')] + (line + ([Symbol(')')] + (redirs + k)))
  {
  }

  lemma NoTokens(k: seq<Token>)
    ensures Written([]) + k == k
  {
  }

  lemma BlockRead(ts: seq<Token>, c: Cmd<string>, after: seq<Token>, rs: seq<Redirection>, rest: seq<Token>)
    requires ParseLine(ts) == Ok(c, [Symbol(')')] + after) && ParseRedirs(after) == Redirs(rs, rest)
    ensures ParseExec([Symbol('(')] + ts) == Ok(Wrap(c, rs), rest)
  {
    hide ParseLine, ParseRedirs;
    assert ([Symbol('(')] + ts)[1..] == ts && ([Symbol(')')] + after)[1..] == after;
  }

  lemma {:induction false} PipeRead(t: Tree, k: seq<Token>)
    requires t.IsPipe() && Ends(k, ")&;")
    ensures ParsePipe(t.Yield() + k) == Ok(t.Meaning(), k)
    decreases t, 1
  {
    hide ParseExec;
    if t.Piped? {
      var rest := [Symbol('|')] + (t.right.Yield() + k);
      Joint(t.left.Yield(), '|', t.right.Yield(), k);
      CommandRead(t.left, rest);
      PipeRead(t.right, k);
      PipeOn(t.left.Yield() + rest, t.left.Meaning(), t.right.Yield() + k, Ok(t.right.Meaning(), k));
    } else {
      CommandRead(t, k);
      assert ParsePipe(t.Yield() + k) == ParseExec(t.Yield() + k);
    }
  }

  lemma Joint(a: seq<Token>, c: char, b: seq<Token>, k: seq<Token>)
    ensures (a + [Symbol(c)] + b) + k == a + ([Symbol(c)] + (b + k)) && ([Symbol(c)] + (b + k))[1..] == b + k
  {
  }

  lemma PipeOn(ts: seq<Token>, c: Cmd<string>, after: seq<Token>, r: Result)
    requires ParseExec(ts) == Ok(c, [Symbol('|')] + after) && ParsePipe(after) == r && r.Ok?
    ensures ParsePipe(ts) == Ok(Pipe(c, r.cmd), r.rest)
  {
    hide ParseExec;
    assert ([Symbol('|')] + after)[1..] == after;
  }

  lemma {:induction false} BackedRead(t: Tree, k: seq<Token>)
    requires t.IsBacked() && Ends(k, ")&;")
    ensures ParseBacked(t.Yield() + k) == ParseBacks(t.Meaning(), k)
    decreases t, 2
  {
    hide ParsePipe, Tree.IsPipe;
    if t.Backed? {
      var rest := [Symbol('&')] + k;
      BackedRead(t.tree, rest);
      assert t.Yield() + k == t.tree.Yield() + rest && rest[1..] == k;
    } else {
      PipeRead(t, k);
    }
  }

  /** A line is read as what it stands for. */
  lemma {:induction false} LineRead(t: Tree, k: seq<Token>)
    requires t.IsLine() && Ends(k, ")")
    ensures ParseLine(t.Yield() + k) == Ok(t.Meaning(), k)
    decreases t, 3
  {
    hide ParsePipe, Tree.IsPipe, Tree.IsBacked;
    if t.Listed? {
      var rest := [Symbol(';')] + (t.right.Yield() + k);
      Joint(t.left.Yield(), ';', t.right.Yield(), k);
      BackedRead(t.left, rest);
      LineRead(t.right, k);
    } else {
      BackedRead(t, k);
    }
  }

  // ---------- every parse has a tree ----------

  lemma {:induction false} RedirsTree(ts: seq<Token>) returns (items: seq<Item>)
    requires ParseRedirs(ts).Redirs?
    ensures WordsOf(items) == [] && RedirsOf(items) == ParseRedirs(ts).rs
    ensures ts == Written(items) + ParseRedirs(ts).rest
  {
    hide Written, WordsOf, RedirsOf, WrittenOne, WordOf, RedirOf;
    items := [];
    if AtRedir(ts) {
      var more := RedirsTree(ts[2..]);
      var item := To(if ts[0] == Append then Onto else if ts[0] == Symbol('<') then In else Out, ts[1].text);
      items := [item] + more;
      TwoTokens(ts, item);
      ItemFirst(item, more);
      Together(WrittenOne(item), Written(more), ParseRedirs(ts).rest);
    } else {
      NoTokens(ts);
      NoItems();
    }
  }

  lemma TwoTokens(ts: seq<Token>, item: Item)
    requires AtRedir(ts) && |ts| >= 2 && ts[1].Word?
    requires item == To(if ts[0] == Append then Onto else if ts[0] == Symbol('<') then In else Out, ts[1].text)
    ensures ts == WrittenOne(item) + ts[2..] && WordOf(item) == []
    ensures RedirOf(item) == [Redirection(ts[1].text, ts[0] != Symbol('<'))]
  {
  }

  lemma ItemFirst(item: Item, more: seq<Item>)
    ensures Written([item] + more) == WrittenOne(item) + Written(more)
    ensures WordsOf([item] + more) == WordOf(item) + WordsOf(more)
    ensures RedirsOf([item] + more) == RedirOf(item) + RedirsOf(more)
  {
    assert ([item] + more)[1..] == more;
  }

  lemma NoItems()
    ensures WordsOf([]) == [] && RedirsOf([]) == [] && Written([]) == []
  {
  }

  lemma {:induction false} ArgsTree(argv: seq<string>, rs: seq<Redirection>, ts: seq<Token>) returns (items: seq<Item>)
    requires |argv| < MAXARGS && ParseArgs(argv, rs, ts).Ok?
    ensures ts == Written(items) + ParseArgs(argv, rs, ts).rest && |argv| + |WordsOf(items)| < MAXARGS
    ensures ParseArgs(argv, rs, ts).cmd == Wrap(Exec(argv + WordsOf(items)), rs + RedirsOf(items))
    decreases |ts|
  {
    hide Wrap, ParseRedirs, ParseArgs, Written, WordsOf, RedirsOf;
    items := [];
    ArgsTurn(argv, rs, ts);
    NoItems();
    if ts == [] || At(ts, "|)&;") {
      assert argv + [] == argv && rs + [] == rs;
    } else {
      var r := ParseRedirs(ts[1..]);
      var redirs := RedirsTree(ts[1..]);
      var word := ts[0].text;
      var more := ArgsTree(argv + [word], rs + r.rs, r.rest);
      items := [Arg(word)] + (redirs + more);
      ItemsJoin(redirs, more);
      ItemFirst(Arg(word), redirs + more);
      assert WordsOf(items) == [word] + WordsOf(more) && RedirsOf(items) == r.rs + RedirsOf(more);
      Together(argv, [word], WordsOf(more));
      Together(rs, r.rs, RedirsOf(more));
      Together(Written(redirs), Written(more), ParseArgs(argv, rs, ts).rest);
      Together([Word(word)], Written(redirs) + Written(more), ParseArgs(argv, rs, ts).rest);
      assert ts == [Word(word)] + ts[1..];
    }
  }

  /** One turn of the loop. */
  lemma ArgsTurn(argv: seq<string>, rs: seq<Redirection>, ts: seq<Token>)
    requires ParseArgs(argv, rs, ts).Ok?
    ensures if ts == [] || At(ts, "|)&;") then ParseArgs(argv, rs, ts) == Ok(Wrap(Exec(argv), rs), ts)
            else
              && ts[0].Word? && |argv| + 1 < MAXARGS && ParseRedirs(ts[1..]).Redirs?
              && ParseArgs(argv, rs, ts) ==
                 ParseArgs(argv + [ts[0].text], rs + ParseRedirs(ts[1..]).rs, ParseRedirs(ts[1..]).rest)
  {
  }

  lemma {:induction false} ExecTree(ts: seq<Token>) returns (t: Tree)
    requires ParseExec(ts).Ok?
    ensures t.IsExec() && ts == t.Yield() + ParseExec(ts).rest && ParseExec(ts).cmd == t.Meaning()
    decreases |ts|, 1
  {
    hide Wrap, ParseRedirs, ParseArgs, ParseLine, Around, Written, WordsOf, RedirsOf, Tree.IsLine;
    if At(ts, "(") {
      var r := ParseLine(ts[1..]);
      var line := LineTree(ts[1..]);
      var redirs := RedirsTree(r.rest[1..]);
      AroundIs(line.Meaning(), redirs);
      t := Block(line, redirs);
      Parens(ts, line.Yield(), r.rest, Written(redirs), ParseExec(ts).rest);
    } else {
      var r := ParseRedirs(ts);
      var redirs := RedirsTree(ts);
      var args := ArgsTree([], r.rs, r.rest);
      var items, none := redirs + args, [];
      ItemsJoin(redirs, args);
      AroundIs(Exec(WordsOf(items)), items);
      assert none + WordsOf(args) == WordsOf(items);
      Together(Written(redirs), Written(args), ParseExec(ts).rest);
      t := Plain(items);
    }
  }

  lemma Parens(ts: seq<Token>, line: seq<Token>, after: seq<Token>, redirs: seq<Token>, rest: seq<Token>)
    requires At(ts, "(") && ts[1..] == line + after && At(after, ")") && after[1..] == redirs + rest
    ensures ts == ([Symbol('(')] + line + [Symbol(')')] + redirs) + rest
  {
    assert ts == [Symbol('(')] + (line + after) && after == [Symbol(')')] + (redirs + rest);
  }

  lemma {:induction false} PipeTree(ts: seq<Token>) returns (t: Tree)
    requires ParsePipe(ts).Ok?
    ensures t.IsPipe() && ts == t.Yield() + ParsePipe(ts).rest && ParsePipe(ts).cmd == t.Meaning()
    decreases |ts|, 2
  {
    hide ParseExec, Tree.IsExec;
    t := ExecTree(ts);
    Levels(t);
    var r := ParseExec(ts);
    if At(r.rest, "|") {
      var left := t;
      var right := PipeTree(r.rest[1..]);
      t := Piped(left, right);
      Joint(left.Yield(), '|', right.Yield(), ParsePipe(ts).rest);
      assert r.rest == [Symbol('|')] + r.rest[1..];
    }
  }

  lemma {:induction false} BacksTree(c: Tree, ts: seq<Token>) returns (t: Tree)
    requires c.IsBacked()
    ensures t.IsBacked() && c.Yield() + ts == t.Yield() + ParseBacks(c.Meaning(), ts).rest
    ensures ParseBacks(c.Meaning(), ts).cmd == t.Meaning()
    decreases |ts|
  {
    hide Tree.IsPipe;
    t := c;
    if At(ts, "&") {
      t := BacksTree(Backed(c), ts[1..]);
      assert ts == [Symbol('&')] + ts[1..];
    }
  }

  lemma {:induction false} LineTree(ts: seq<Token>) returns (t: Tree)
    requires ParseLine(ts).Ok?
    ensures t.IsLine() && ts == t.Yield() + ParseLine(ts).rest && ParseLine(ts).cmd == t.Meaning()
    decreases |ts|, 3
  {
    hide ParsePipe, ParseBacks, Tree.IsPipe, Tree.IsBacked;
    var pipe := PipeTree(ts);
    Levels(pipe);
    var r := ParsePipe(ts);
    t := BacksTree(pipe, r.rest);
    Levels(t);
    var b := ParseBacks(r.cmd, r.rest);
    if At(b.rest, ";") {
      var left := t;
      var right := LineTree(b.rest[1..]);
      t := Listed(left, right);
      Joint(left.Yield(), ';', right.Yield(), ParseLine(ts).rest);
      assert b.rest == [Symbol(';')] + b.rest[1..];
    }
  }

  /** What binds more tightly may stand alone. */
  lemma Levels(t: Tree)
    ensures t.IsExec() ==> t.IsPipe()
    ensures t.IsPipe() ==> t.IsBacked()
    ensures t.IsBacked() ==> t.IsLine()
  {
    if t.Backed? { assert t.IsPipe() ==> t.IsExec(); }
  }

  /** The parser accepts a line as c exactly if the line is written as a tree that stands for c. */
  lemma Grammar(ts: seq<Token>, c: Cmd<string>)
    ensures ParseLine(ts) == Ok(c, []) <==> exists t: Tree :: t.IsLine() && t.Yield() == ts && t.Meaning() == c
  {
    hide ParseLine, Tree.IsLine, Tree.Yield, Tree.Meaning;
    if ParseLine(ts) == Ok(c, []) {
      var t := LineTree(ts);
      assert t.Yield() + [] == t.Yield();
    }
    forall t: Tree | t.IsLine() && t.Yield() == ts && t.Meaning() == c
      ensures ParseLine(ts) == Ok(c, [])
    {
      LineRead(t, []);
      assert t.Yield() + [] == t.Yield();
    }
  }

  // ---------- the characters between the tokens ----------

  function Glyph(t: Token): string {
    match t
    case Word(w) => w
    case Symbol(c) => [c]
    case Append => ">>"
  }

  /** Blanks, tabs, and what ends a line. */
  predicate Gap(g: string) {
    forall i | 0 <= i < |g| :: g[i] in {' ', '\t', '\r', '\n', '\U{000B}'}
  }

  /** The two may be written with nothing between them. */
  predicate Apart(a: Token, b: Token) {
    !(a.Word? && b.Word?) && !(a == Symbol('>') && (b == Symbol('>') || b == Append))
  }

  /** The tokens with a gap before each and one at the end. */
  function Layout(ts: seq<Token>, gaps: seq<string>): string
    requires |gaps| == |ts| + 1
  {
    if ts == [] then gaps[0] else gaps[0] + (Glyph(ts[0]) + Layout(ts[1..], gaps[1..]))
  }

  predicate Spaced(ts: seq<Token>, gaps: seq<string>) {
    && |gaps| == |ts| + 1 && (forall i | 0 <= i < |gaps| :: Gap(gaps[i]))
    && forall i | 0 < i < |ts| && gaps[i] == "" :: Apart(ts[i - 1], ts[i])
  }

  predicate GoodToken(t: Token) {
    (t.Word? ==> IsWord(t.text)) && (t.Symbol? ==> IsSymbol(t.c))
  }

  /** s does not go on with the token. */
  predicate Ended(t: Token, s: string) {
    s == "" || ((t.Word? ==> !InWord(s[0])) && (t == Symbol('>') ==> s[0] != '>'))
  }

  lemma {:induction false} LexGap(g: string, s: string)
    requires Gap(g) && NUL !in s
    ensures NUL !in g + s && Lex(g + s) == Lex(s)
  {
    if g == "" {
      assert g + s == s;
    } else {
      assert (g + s)[1..] == g[1..] + s;
      LexGap(g[1..], s);
    }
  }

  lemma {:induction false} WordEnds(w: string, rest: string)
    requires IsWord(w) && (rest == "" || !InWord(rest[0]))
    ensures WordLength(w + rest) == |w|
  {
    var s := w + rest;
    if |w| > 1 {
      assert s[1..] == w[1..] + rest;
      WordEnds(w[1..], rest);
    } else {
      assert s[1..] == rest;
    }
  }

  lemma LexGlyph(t: Token, s: string)
    requires GoodToken(t) && NUL !in s && Ended(t, s)
    ensures NUL !in Glyph(t) + s && Lex(Glyph(t) + s) == [t] + Lex(s)
  {
    var line := Glyph(t) + s;
    match t {
      case Word(w) =>
        WordEnds(w, s);
        assert line[0] == w[0] && InWord(w[0]) && line[..|w|] == w && line[|w|..] == s;
      case Symbol(c) => assert line[0] == c && line[1..] == s;
      case Append => assert line[0] == '>' && line[1] == '>' && line[2..] == s;
    }
  }

  /** After a token comes a gap or a token that may be written right after it. */
  lemma LayoutEnds(t: Token, ts: seq<Token>, gaps: seq<string>)
    requires GoodTokens([t] + ts) && |gaps| == |ts| + 1 && Gap(gaps[0])
    requires ts != [] && gaps[0] == "" ==> Apart(t, ts[0])
    ensures Ended(t, Layout(ts, gaps))
  {
    if ts != [] {
      assert ([t] + ts)[1] == ts[0];
      if gaps[0] == "" { assert GoodToken(ts[0]) && Layout(ts, gaps)[0] == Glyph(ts[0])[0]; }
    }
  }

  /** However the tokens of a line are spaced, they are read. */
  lemma {:induction false} LexLayout(ts: seq<Token>, gaps: seq<string>)
    requires GoodTokens(ts) && Spaced(ts, gaps)
    ensures NUL !in Layout(ts, gaps) && Lex(Layout(ts, gaps)) == ts
  {
    hide Lex, Glyph, Ended, IsWord, IsSymbol, InWord;
    LexNothing();
    if ts == [] {
      LexGap(gaps[0], "");
      assert gaps[0] + "" == gaps[0];
    } else {
      LexLayout(ts[1..], gaps[1..]);
      assert [ts[0]] + ts[1..] == ts;
      LayoutEnds(ts[0], ts[1..], gaps[1..]);
      LexGlyph(ts[0], Layout(ts[1..], gaps[1..]));
      LexGap(gaps[0], Glyph(ts[0]) + Layout(ts[1..], gaps[1..]));
    }
  }

  /** Every line is its tokens in some layout. */
  lemma {:induction false} LayoutOf(s: string) returns (gaps: seq<string>)
    requires NUL !in s
    ensures Spaced(Lex(s), gaps) && Layout(Lex(s), gaps) == s
    decreases |s|
  {
    hide Spaced, Glyph, Layout, Lex, WordLength;
    if s == "" {
      gaps := [""];
      NoGap();
      LexNothing();
    } else if IsWhite(s[0]) {
      var more := LayoutOf(s[1..]);
      LexGap(s[..1], s[1..]);
      assert s[..1] + s[1..] == s;
      gaps := WiderGap(s[0], Lex(s[1..]), more);
      assert [s[0]] + s[1..] == s;
    } else {
      assert s[0] in s;
      var t, n := FirstToken(s), FirstLength(s);
      LexFirst(s);
      FirstIs(s);
      var more := LayoutOf(s[n..]);
      LexGood(s[n..]);
      gaps := [""] + more;
      NextToken(t, Lex(s[n..]), more);
      assert s[..n] + s[n..] == s;
    }
  }

  lemma NoGap()
    ensures Spaced([], [""]) && Layout([], [""]) == ""
  {
  }

  function FirstToken(s: string): Token
    requires s != ""
  {
    if s[0] == '>' && |s| >= 2 && s[1] == '>' then Append
    else if IsSymbol(s[0]) then Symbol(s[0]) else Word(s[..WordLength(s)])
  }

  function FirstLength(s: string): (n: nat)
    requires s != ""
    ensures n <= |s|
  {
    if s[0] == '>' && |s| >= 2 && s[1] == '>' then 2 else if IsSymbol(s[0]) then 1 else WordLength(s)
  }

  lemma LexFirst(s: string)
    requires NUL !in s && s != "" && !IsWhite(s[0])
    ensures Lex(s) == [FirstToken(s)] + Lex(s[FirstLength(s)..])
  {
  }

  lemma FirstIs(s: string)
    requires NUL !in s && s != "" && !IsWhite(s[0])
    ensures Glyph(FirstToken(s)) == s[..FirstLength(s)] && FirstLength(s) > 0
    ensures Ended(FirstToken(s), s[FirstLength(s)..])
  {
    assert s[0] in s;
  }

  lemma WiderGap(c: char, ts: seq<Token>, more: seq<string>) returns (gaps: seq<string>)
    requires IsWhite(c) && Spaced(ts, more)
    ensures Spaced(ts, gaps) && Layout(ts, gaps) == [c] + Layout(ts, more)
  {
    gaps := [[c] + more[0]] + more[1..];
    assert gaps[1..] == more[1..];
  }

  lemma NextToken(t: Token, ts: seq<Token>, more: seq<string>)
    requires Spaced(ts, more) && GoodTokens(ts) && Ended(t, Layout(ts, more))
    ensures Spaced([t] + ts, [""] + more) && Layout([t] + ts, [""] + more) == Glyph(t) + Layout(ts, more)
  {
    var all, gaps := [t] + ts, [""] + more;
    assert all[1..] == ts && gaps[1..] == more;
    if ts != [] && more[0] == "" { assert GoodToken(ts[0]) && Layout(ts, more)[0] == Glyph(ts[0])[0]; }
  }

  /** The parser accepts the characters of a line as c exactly if they are a layout of a tree that stands for c. */
  lemma LineGrammar(line: string, c: Cmd<string>)
    requires NUL !in line
    ensures Parse(line) == Ok(c, []) <==>
              exists t: Tree, gaps: seq<string> ::
                && t.IsLine() && t.Meaning() == c && GoodTokens(t.Yield())
                && Spaced(t.Yield(), gaps) && Layout(t.Yield(), gaps) == line
  {
    hide ParseLine, Tree.IsLine, Tree.Yield, Tree.Meaning, Lex, Layout, GoodTokens;
    Grammar(Lex(line), c);
    if Parse(line) == Ok(c, []) {
      var t: Tree :| t.IsLine() && t.Yield() == Lex(line) && t.Meaning() == c;
      LexGood(line);
      var gaps := LayoutOf(line);
      assert Spaced(t.Yield(), gaps);
    }
    forall t: Tree, gaps: seq<string> |
        && t.IsLine() && t.Meaning() == c && GoodTokens(t.Yield())
        && Spaced(t.Yield(), gaps) && Layout(t.Yield(), gaps) == line
      ensures Parse(line) == Ok(c, [])
    {
      LexLayout(t.Yield(), gaps);
      assert Lex(line) == t.Yield();
      LineRead(t, []);
      assert t.Yield() + [] == t.Yield();
    }
  }

  // ---------- the parser on its buffer ----------

  /** A word in the buffer: q and eq of the source. */
  datatype Span = Span(q: nat, eq: nat)

  datatype SpanRedir = SpanRedir(file: Span, write: bool)

  datatype Parsed = Done(cmd: Cmd<Span>) | Panic

  /** The characters from q up to eq are all the word there is. */
  predicate GoodSpan(buf: string, w: Span) {
    && w.q < w.eq < |buf| && (forall i | w.q <= i < w.eq :: InWord(buf[i])) && !InWord(buf[w.eq])
  }

  predicate GoodSpans(buf: string, c: Cmd<Span>) {
    match c
    case Exec(argv) => forall i | 0 <= i < |argv| :: GoodSpan(buf, argv[i])
    case Redir(d, file, _) => GoodSpans(buf, d) && GoodSpan(buf, file)
    case Pipe(l, r) => GoodSpans(buf, l) && GoodSpans(buf, r)
    case List(l, r) => GoodSpans(buf, l) && GoodSpans(buf, r)
    case Back(d) => GoodSpans(buf, d)
  }

  predicate GoodRedirs(buf: string, rs: seq<SpanRedir>) {
    forall i | 0 <= i < |rs| :: GoodSpan(buf, rs[i].file)
  }

  function ReadWord(buf: string, w: Span): string
    requires GoodSpan(buf, w)
  {
    buf[w.q..w.eq]
  }

  function ReadWords(buf: string, argv: seq<Span>): (r: seq<string>)
    requires forall i | 0 <= i < |argv| :: GoodSpan(buf, argv[i])
    ensures |r| == |argv|
  {
    seq(|argv|, i requires 0 <= i < |argv| => ReadWord(buf, argv[i]))
  }

  function ReadRedirs(buf: string, rs: seq<SpanRedir>): (r: seq<Redirection>)
    requires GoodRedirs(buf, rs)
    ensures |r| == |rs|
  {
    seq(|rs|, i requires 0 <= i < |rs| => Redirection(ReadWord(buf, rs[i].file), rs[i].write))
  }

  /** The command with its words read from the buffer. */
  function Read(buf: string, c: Cmd<Span>): Cmd<string>
    requires GoodSpans(buf, c)
  {
    match c
    case Exec(argv) => Exec(ReadWords(buf, argv))
    case Redir(d, file, write) => Redir(Read(buf, d), ReadWord(buf, file), write)
    case Pipe(l, r) => Pipe(Read(buf, l), Read(buf, r))
    case List(l, r) => List(Read(buf, l), Read(buf, r))
    case Back(d) => Back(Read(buf, d))
  }

  /** redircmd, once for each redirection. */
  function WrapSpans(c: Cmd<Span>, rs: seq<SpanRedir>): Cmd<Span>
    decreases |rs|
  {
    if rs == [] then c else WrapSpans(Redir(c, rs[0].file, rs[0].write), rs[1..])
  }

  lemma {:induction false} WrapRead(buf: string, c: Cmd<Span>, rs: seq<SpanRedir>)
    requires GoodSpans(buf, c) && GoodRedirs(buf, rs)
    ensures GoodSpans(buf, WrapSpans(c, rs)) && Read(buf, WrapSpans(c, rs)) == Wrap(Read(buf, c), ReadRedirs(buf, rs))
    decreases |rs|
  {
    if rs != [] {
      WrapRead(buf, Redir(c, rs[0].file, rs[0].write), rs[1..]);
      assert ReadRedirs(buf, rs)[1..] == ReadRedirs(buf, rs[1..]);
    }
  }

  function First(t: Token): char
    requires t.Word? ==> t.text != ""
  {
    match t
    case Word(w) => w[0]
    case Symbol(c) => c
    case Append => '>'
  }

  /** What gettoken returns for a token. */
  function Code(t: Token): char {
    match t
    case Word(_) => 'a'
    case Symbol(c) => c
    case Append => '+'
  }

  /** The first token of a line that starts with something. */
  lemma LexHead(s: string)
    requires NUL !in s && s != "" && !IsWhite(s[0])
    ensures Lex(s) != [] && (Lex(s)[0].Word? ==> Lex(s)[0].text != "") && First(Lex(s)[0]) == s[0]
    ensures Lex(s)[0] == Append <==> s[0] == '>' && |s| >= 2 && s[1] == '>'
    ensures Lex(s)[0].Symbol? <==> IsSymbol(s[0]) && Lex(s)[0] != Append
    ensures Lex(s)[1..] ==
              Lex(if Lex(s)[0] == Append then s[2..] else if IsSymbol(s[0]) then s[1..] else s[WordLength(s)..])
    ensures Lex(s)[0].Word? ==> Lex(s)[0].text == s[..WordLength(s)] && WordLength(s) > 0
  {
    assert s[0] in s;
  }

  function Prepend(rs: seq<Redirection>, r: Redirs): Redirs {
    match r
    case NoFile => NoFile
    case Redirs(more, rest) => Redirs(rs + more, rest)
  }

  /** One turn of the loop of parseredirs. */
  lemma RedirsStep(rs: seq<Redirection>, ts: seq<Token>)
    ensures Prepend([], ParseRedirs(ts)) == ParseRedirs(ts)
    ensures !AtRedir(ts) ==> Prepend(rs, ParseRedirs(ts)) == Redirs(rs, ts)
    ensures AtRedir(ts) && (|ts| < 2 || !ts[1].Word?) ==> ParseRedirs(ts) == NoFile
    ensures AtRedir(ts) && |ts| >= 2 && ts[1].Word? ==>
              Prepend(rs, ParseRedirs(ts)) ==
                  Prepend(rs + [Redirection(ts[1].text, ts[0] != Symbol('<'))], ParseRedirs(ts[2..]))
  {
    var r := ParseRedirs(ts);
    if AtRedir(ts) && |ts| >= 2 && ts[1].Word? {
      var first := [Redirection(ts[1].text, ts[0] != Symbol('<'))];
      var r2 := ParseRedirs(ts[2..]);
      if r2.Redirs? { assert rs + (first + r2.rs) == (rs + first) + r2.rs; }
    } else if r.Redirs? {
      assert [] + r.rs == r.rs && rs + [] == rs;
    }
  }

  lemma ReadMore(buf: string, rs: seq<SpanRedir>, r: SpanRedir)
    requires GoodRedirs(buf, rs) && GoodSpan(buf, r.file)
    ensures GoodRedirs(buf, rs + [r])
              && ReadRedirs(buf, rs + [r]) == ReadRedirs(buf, rs) + [Redirection(ReadWord(buf, r.file), r.write)]
  {
  }

  /** One turn of parseexec's loop. */
  lemma ArgsStep(argv: seq<string>, rs: seq<Redirection>, ts: seq<Token>)
    ensures ts == [] || At(ts, "|)&;") ==> ParseArgs(argv, rs, ts) == Ok(Wrap(Exec(argv), rs), ts)
    ensures ts != [] && !At(ts, "|)&;") ==>
              var r := ParseRedirs(ts[1..]);
              ParseArgs(argv, rs, ts) == if !ts[0].Word? || |argv| + 1 >= MAXARGS || r.NoFile? then Bad
                                         else ParseArgs(argv + [ts[0].text], rs + r.rs, r.rest)
  {
  }

  lemma ReadWordMore(buf: string, argv: seq<Span>, w: Span)
    requires (forall i | 0 <= i < |argv| :: GoodSpan(buf, argv[i])) && GoodSpan(buf, w)
    ensures (forall i | 0 <= i < |argv| + 1 :: GoodSpan(buf, (argv + [w])[i]))
              && ReadWords(buf, argv + [w]) == ReadWords(buf, argv) + [ReadWord(buf, w)]
  {
  }

  lemma ReadBoth(buf: string, rs: seq<SpanRedir>, more: seq<SpanRedir>)
    requires GoodRedirs(buf, rs) && GoodRedirs(buf, more)
    ensures GoodRedirs(buf, rs + more) && ReadRedirs(buf, rs + more) == ReadRedirs(buf, rs) + ReadRedirs(buf, more)
  {
  }

  lemma ExecRead(buf: string, argv: seq<Span>)
    requires forall i | 0 <= i < |argv| :: GoodSpan(buf, argv[i])
    ensures GoodSpans(buf, Exec(argv)) && Read(buf, Exec(argv)) == Exec(ReadWords(buf, argv))
  {
  }

  // ---------- the words as C strings ----------

  function EndsOf(c: Cmd<Span>): set<nat> {
    match c
    case Exec(argv) => set i | 0 <= i < |argv| :: argv[i].eq
    case Redir(d, file, _) => EndsOf(d) + {file.eq}
    case Pipe(l, r) => EndsOf(l) + EndsOf(r)
    case List(l, r) => EndsOf(l) + EndsOf(r)
    case Back(d) => EndsOf(d)
  }

  predicate InBuf(c: Cmd<Span>, n: nat) {
    match c
    case Exec(argv) => forall i | 0 <= i < |argv| :: argv[i].eq < n
    case Redir(d, file, _) => InBuf(d, n) && file.eq < n
    case Pipe(l, r) => InBuf(l, n) && InBuf(r, n)
    case List(l, r) => InBuf(l, n) && InBuf(r, n)
    case Back(d) => InBuf(d, n)
  }

  /** The C string at q. */
  function CString(buf: string, q: nat): string
    decreases |buf| - q
  {
    if q >= |buf| || buf[q] == NUL then "" else [buf[q]] + CString(buf, q + 1)
  }

  function CStrings(buf: string, argv: seq<Span>): seq<string> {
    seq(|argv|, i requires 0 <= i < |argv| => CString(buf, argv[i].q))
  }

  /** What runcmd sees of the command. */
  function Strings(buf: string, c: Cmd<Span>): Cmd<string> {
    match c
    case Exec(argv) => Exec(CStrings(buf, argv))
    case Redir(d, file, write) => Redir(Strings(buf, d), CString(buf, file.q), write)
    case Pipe(l, r) => Pipe(Strings(buf, l), Strings(buf, r))
    case List(l, r) => List(Strings(buf, l), Strings(buf, r))
    case Back(d) => Back(Strings(buf, d))
  }

  lemma {:induction false} InBufMore(c: Cmd<Span>, n: nat, m: nat)
    requires InBuf(c, n) && n <= m
    ensures InBuf(c, m)
  {
    match c {
      case Exec(argv) =>
      case Redir(d, file, _) => InBufMore(d, n, m);
      case Pipe(l, r) =>
        InBufMore(l, n, m);
        InBufMore(r, n, m);
      case List(l, r) =>
        InBufMore(l, n, m);
        InBufMore(r, n, m);
      case Back(d) => InBufMore(d, n, m);
    }
  }

  lemma {:induction false} EndsGood(buf: string, c: Cmd<Span>)
    requires GoodSpans(buf, c)
    ensures forall e | e in EndsOf(c) :: e < |buf| && !InWord(buf[e])
    ensures InBuf(c, |buf|)
  {
    match c {
      case Exec(argv) =>
      case Redir(d, file, _) => EndsGood(buf, d);
      case Pipe(l, r) =>
        EndsGood(buf, l);
        EndsGood(buf, r);
      case List(l, r) =>
        EndsGood(buf, l);
        EndsGood(buf, r);
      case Back(d) => EndsGood(buf, d);
    }
  }

  /** A word's characters are still there and end in NUL. */
  lemma WordRead(buf: string, buf': string, w: Span, ends: set<nat>)
    requires GoodSpan(buf, w) && |buf'| == |buf| && w.eq in ends && forall e | e in ends :: e < |buf| && !InWord(buf[e])
    requires forall i | 0 <= i < |buf| :: buf'[i] == if i in ends then NUL else buf[i]
    ensures CString(buf', w.q) == ReadWord(buf, w)
  {
    assert forall i | w.q <= i < w.eq :: InWord(buf[i]) && buf'[i] == buf[i];
    CStringIs(buf', w.q, w.eq);
    assert buf'[w.q..w.eq] == buf[w.q..w.eq];
  }

  lemma {:induction false} CStringIs(buf: string, q: nat, eq: nat)
    requires q <= eq < |buf| && buf[eq] == NUL && forall i | q <= i < eq :: buf[i] != NUL
    ensures CString(buf, q) == buf[q..eq]
    decreases eq - q
  {
    if q < eq {
      CStringIs(buf, q + 1, eq);
      assert buf[q..eq] == [buf[q]] + buf[q + 1..eq];
    }
  }

  lemma {:induction false} StringsRead(buf: string, buf': string, c: Cmd<Span>, ends: set<nat>)
    requires GoodSpans(buf, c) && |buf'| == |buf| && EndsOf(c) <= ends
               && forall e | e in ends :: e < |buf| && !InWord(buf[e])
    requires forall i | 0 <= i < |buf| :: buf'[i] == if i in ends then NUL else buf[i]
    ensures Strings(buf', c) == Read(buf, c)
  {
    hide GoodSpan, CString, ReadWord;
    EndsGood(buf, c);
    match c {
      case Exec(argv) =>
        forall i | 0 <= i < |argv|
          ensures CString(buf', argv[i].q) == ReadWord(buf, argv[i])
        {
          assert argv[i].eq in EndsOf(c);
          WordRead(buf, buf', argv[i], ends);
        }
        assert CStrings(buf', argv) == ReadWords(buf, argv);
      case Redir(d, file, _) =>
        StringsRead(buf, buf', d, ends);
        WordRead(buf, buf', file, ends);
      case Pipe(l, r) =>
        StringsRead(buf, buf', l, ends);
        StringsRead(buf, buf', r, ends);
      case List(l, r) =>
        StringsRead(buf, buf', l, ends);
        StringsRead(buf, buf', r, ends);
      case Back(d) => StringsRead(buf, buf', d, ends);
    }
  }

  class Parser {
    const buf: array<char>
    const es: nat
    var s: nat

    ghost predicate Valid()
      reads this, buf
    {
      && s <= es < buf.Length && buf[es] == NUL && NUL !in buf[..es]
    }

    /** The tokens from s on. */
    ghost function Ahead(): seq<Token>
      reads this, buf
      requires Valid()
    {
      Tail(buf[..es], s)
    }

    constructor (line: string)
      requires NUL !in line
      ensures Valid() && fresh(buf) && s == 0 && es == |line| && buf[..es] == line
    {
      buf := new char[|line| + 1](i requires 0 <= i < |line| + 1 => if i < |line| then line[i] else NUL);
      es, s := |line|, 0;
      new;
      assert buf[..es] == line;
    }

    /** while(s < es && strchr(whitespace, *s)) s++ */
    method SkipWhite()
      requires Valid()
      modifies this`s
      ensures Valid() && s >= old(s) && Ahead() == old(Ahead()) && (s < es ==> !IsWhite(buf[s]))
                && (s == es <==> Ahead() == [])
    {
      while s < es && IsWhite(buf[s])
        invariant Valid() && s >= old(s) && Ahead() == old(Ahead())
      {
        TailNext(buf[..es], s);
        s := s + 1;
      }
      TailHead(buf[..es], s);
    }

    method Peek(toks: string) returns (r: bool)
      requires Valid() && forall c | c in toks :: IsSymbol(c)
      modifies this`s
      ensures Valid() && s >= old(s) && Ahead() == old(Ahead()) && (s == es <==> Ahead() == [])
      ensures r <==> At(Ahead(), toks) || (Ahead() != [] && Ahead()[0] == Append && '>' in toks)
    {
      SkipWhite();
      TailHead(buf[..es], s);
      r := buf[s] != NUL && buf[s] in toks;
    }

    method GetToken() returns (ret: char, q: nat, eq: nat)
      requires Valid()
      modifies this`s
      ensures Valid() && s >= old(s)
      ensures old(Ahead()) == [] ==> ret == NUL && Ahead() == []
      ensures old(Ahead()) != [] ==>
                var t := old(Ahead())[0];
                && s > old(s) && Ahead() == old(Ahead())[1..] && ret == Code(t) && ret != NUL
                     && (t.Word? <==> ret == 'a')
                && (t.Word? ==> GoodSpan(buf[..es + 1], Span(q, eq)) && ReadWord(buf[..es + 1], Span(q, eq)) == t.text)
    {
      hide Lex, WordLength, GoodSpan, Tail;
      SkipWhite();
      TailHead(buf[..es], s);
      q, ret := s, buf[s];
      if buf[s] == NUL {
      } else if buf[s] == '>' {
        s := s + 1;
        if buf[s] == '>' {
          ret := '+';
          s := s + 1;
        }
      } else if buf[s] in "|();&<" {
        s := s + 1;
      } else {
        ret := 'a';
        ScanWord();
      }
      eq := s;
      SkipWhite();
    }

    /** The default case of gettoken. */
    method ScanWord()
      requires Valid() && s < es && InWord(buf[s])
      modifies this`s
      ensures Valid() && s == old(s) + WordLength(buf[..es][old(s)..]) && GoodSpan(buf[..es + 1], Span(old(s), s))
      ensures ReadWord(buf[..es + 1], Span(old(s), s)) == buf[..es][old(s)..s]
    {
      ghost var q := s;
      while s < es && !IsWhite(buf[s]) && !IsSymbol(buf[s])
        invariant Valid() && q <= s && forall i | q <= i < s :: InWord(buf[i])
      {
        NotNul(buf[..es], s);
        s := s + 1;
      }
      ghost var w := buf[..es][q..];
      assert forall i | 0 <= i < s - q :: w[i] == buf[q + i];
      assert s < es ==> w[s - q] == buf[s];
      assert s - q == WordLength(w);
    }

    /** The buffer with the NUL that ends it. */
    ghost function Buf(): string
      reads this, buf
      requires Valid()
    {
      buf[..es + 1]
    }

    /** The method's result is the grammar's. */
    ghost predicate Gives(r: Result, p: Parsed)
      reads this, buf
      requires Valid()
    {
      && (r == Bad <==> p == Panic)
      && (p.Done? ==> GoodSpans(Buf(), p.cmd) && r == Ok(Read(Buf(), p.cmd), Ahead()))
    }

    /** The loop of parseredirs; the caller wraps its command. */
    method Redirections() returns (ok: bool, rs: seq<SpanRedir>)
      requires Valid()
      modifies this`s
      ensures Valid() && s >= old(s) && (ok <==> ParseRedirs(old(Ahead())).Redirs?)
      ensures ok ==> GoodRedirs(Buf(), rs) && ParseRedirs(old(Ahead())) == Redirs(ReadRedirs(Buf(), rs), Ahead())
    {
      hide Lex, Tail, GoodSpan, ReadWord, ParseRedirs;
      RedirsStep([], Ahead());
      rs := [];
      while true
        invariant Valid() && s >= old(s) && GoodRedirs(Buf(), rs)
        invariant ParseRedirs(old(Ahead())) == Prepend(ReadRedirs(Buf(), rs), ParseRedirs(Ahead()))
        decreases es - s
      {
        ghost var ts := Ahead();
        var more := Peek("<>");
        RedirsStep(ReadRedirs(Buf(), rs), ts);
        if !more { return true, rs; }
        var tok, q, eq := GetToken();
        var word, q1, eq1 := GetToken();
        if word != 'a' { return false, rs; }
        var r := SpanRedir(Span(q1, eq1), tok != '<');
        ReadMore(Buf(), rs, r);
        rs := rs + [r];
      }
    }

    /** parseexec. Its words and redirections are collected, and the tree is built at the end. */
    method ExecCmd() returns (p: Parsed)
      requires Valid()
      modifies this`s
      ensures Valid() && s >= old(s) && Gives(ParseExec(old(Ahead())), p)
      decreases es - s, 1
    {
      hide Lex, Tail, GoodSpan, ReadWord, ParseRedirs, ParseLine, ParseArgs, Read, Wrap, WrapSpans, GoodSpans;
      var open := Peek("(");
      if open {
        p := Block();
        return;
      }
      var ok, rs := Redirections();
      if !ok { return Panic; }
      var argv: seq<Span> := [];
      assert ReadWords(Buf(), argv) == [];
      while true
        invariant Valid() && s >= old(s) && GoodRedirs(Buf(), rs) && |argv| < MAXARGS
                    && forall i | 0 <= i < |argv| :: GoodSpan(Buf(), argv[i])
        invariant ParseExec(old(Ahead())) == ParseArgs(ReadWords(Buf(), argv), ReadRedirs(Buf(), rs), Ahead())
        decreases es - s
      {
        ghost var ts := Ahead();
        var end := Peek("|)&;");
        if end { break; }
        ArgsStep(ReadWords(Buf(), argv), ReadRedirs(Buf(), rs), ts);
        var tok, q, eq := GetToken();
        if tok == NUL { break; }
        if tok != 'a' { return Panic; }
        ReadWordMore(Buf(), argv, Span(q, eq));
        argv := argv + [Span(q, eq)];
        if |argv| >= MAXARGS { return Panic; }
        var more;
        ok, more := Redirections();
        if !ok { return Panic; }
        ReadBoth(Buf(), rs, more);
        rs := rs + more;
      }
      ArgsStep(ReadWords(Buf(), argv), ReadRedirs(Buf(), rs), Ahead());
      ExecRead(Buf(), argv);
      WrapRead(Buf(), Exec(argv), rs);
      return Done(WrapSpans(Exec(argv), rs));
    }

    /** parseblock */
    method Block() returns (p: Parsed)
      requires Valid() && At(Ahead(), "(")
      modifies this`s
      ensures Valid() && s >= old(s) && Gives(ParseBlock(old(Ahead())), p)
      decreases es - s, 0
    {
      hide Lex, Tail, GoodSpan, ReadWord, ParseRedirs, ParseLine, Read, Wrap, WrapSpans, GoodSpans;
      var open := Peek("(");
      if !open { return Panic; }
      var tok, q, eq := GetToken();
      p := Line();
      if p == Panic { return; }
      var close := Peek(")");
      if !close { return Panic; }
      tok, q, eq := GetToken();
      var ok, rs := Redirections();
      if !ok { return Panic; }
      WrapRead(Buf(), p.cmd, rs);
      return Done(WrapSpans(p.cmd, rs));
    }

    /** parsepipe */
    method PipeCmd() returns (p: Parsed)
      requires Valid()
      modifies this`s
      ensures Valid() && s >= old(s) && Gives(ParsePipe(old(Ahead())), p)
      decreases es - s, 2
    {
      hide Lex, Tail, ParseExec;
      p := ExecCmd();
      if p == Panic { return; }
      var bar := Peek("|");
      if bar {
        var tok, q, eq := GetToken();
        var right := PipeCmd();
        if right == Panic { return Panic; }
        return Done(Pipe(p.cmd, right.cmd));
      }
    }

    /** parseline */
    method Line() returns (p: Parsed)
      requires Valid()
      modifies this`s
      ensures Valid() && s >= old(s) && Gives(ParseLine(old(Ahead())), p)
      decreases es - s, 3
    {
      hide Lex, Tail, ParsePipe;
      p := PipeCmd();
      if p == Panic { return; }
      ghost var first := ParseBacks(Read(Buf(), p.cmd), Ahead());
      var amp := Peek("&");
      while amp
        invariant Valid() && s >= old(s) && p.Done? && GoodSpans(Buf(), p.cmd)
                    && ParseBacks(Read(Buf(), p.cmd), Ahead()) == first
        invariant amp <==> At(Ahead(), "&")
        decreases es - s
      {
        var tok, q, eq := GetToken();
        p := Done(Back(p.cmd));
        amp := Peek("&");
      }
      var semi := Peek(";");
      if semi {
        var tok, q, eq := GetToken();
        var right := Line();
        if right == Panic { return Panic; }
        return Done(List(p.cmd, right.cmd));
      }
    }

    /** nulterminate: the character after each word becomes NUL. */
    method Nulterminate(cmd: Cmd<Span>)
      requires InBuf(cmd, buf.Length)
      modifies buf
      ensures forall i | 0 <= i < buf.Length :: buf[i] == if i in EndsOf(cmd) then NUL else old(buf[i])
      decreases cmd
    {
      match cmd {
        case Exec(argv) =>
          for i := 0 to |argv|
            invariant forall k | 0 <= k < buf.Length ::
                        buf[k] == if exists j :: 0 <= j < i && argv[j].eq == k then NUL else old(buf[k])
          {
            assert argv[i].eq in EndsOf(cmd);
            buf[argv[i].eq] := NUL;
          }
        case Redir(d, file, _) =>
          Nulterminate(d);
          buf[file.eq] := NUL;
        case Pipe(l, r) =>
          Nulterminate(l);
          Nulterminate(r);
        case List(l, r) =>
          Nulterminate(l);
          Nulterminate(r);
        case Back(d) =>
          Nulterminate(d);
      }
    }

    /** parsecmd, on the whole line. The strings it leaves in the buffer are the words of the command. */
    method ParseCmd() returns (p: Parsed)
      requires Valid() && s == 0
      modifies this`s, buf
      ensures p == Panic <==> Parse(old(buf[..es])) == Bad
      ensures p.Done? ==> Parse(old(buf[..es])) == Ok(Strings(buf[..es + 1], p.cmd), [])
    {
      hide Lex, ParseLine, Read, Strings, EndsOf, GoodSpan;
      assert buf[..es][0..] == buf[..es];
      p := Line();
      if p == Panic { return; }
      var nothing := Peek("");
      if s != es { return Panic; }
      ghost var was := Buf();
      EndsGood(was, p.cmd);
      InBufMore(p.cmd, |was|, buf.Length);
      Nulterminate(p.cmd);
      StringsRead(was, buf[..es + 1], p.cmd, EndsOf(p.cmd));
    }
  }

  ghost function Tail(line: string, s: nat): seq<Token>
    requires NUL !in line && s <= |line|
  {
    Lex(line[s..])
  }

  lemma TailNext(line: string, s: nat)
    requires NUL !in line && s < |line| && IsWhite(line[s])
    ensures Tail(line, s) == Tail(line, s + 1)
  {
    assert line[s..][1..] == line[s + 1..];
  }

  lemma NotNul(line: string, s: nat)
    requires NUL !in line && s < |line|
    ensures line[s] != NUL
  {
    assert line[s] in line;
  }

  /** What the character at s, not a blank, says of the tokens from there on. */
  lemma TailHead(line: string, s: nat)
    requires NUL !in line && s <= |line| && (s < |line| ==> !IsWhite(line[s]))
    ensures s == |line| <==> Tail(line, s) == []
    ensures s < |line| ==>
              var t, n := Tail(line, s)[0], WordLength(line[s..]);
              && (t.Word? ==> t.text != "") && First(t) == line[s] && line[s] != NUL
              && (t == Append <==> line[s] == '>' && s + 1 < |line| && line[s + 1] == '>')
              && (t.Symbol? <==> IsSymbol(line[s]) && t != Append)
              && Tail(line, s)[1..] == Tail(line, if t == Append then s + 2 else if t.Symbol? then s + 1 else s + n)
              && (t.Word? ==> t.text == line[s..s + n] && n > 0)
  {
    if s < |line| {
      LexHead(line[s..]);
      assert line[s] in line;
      assert forall n: nat | n <= |line| - s :: line[s..][n..] == line[s + n..];
    }
  }
}
