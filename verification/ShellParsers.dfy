/** The two recursive-descent parsers over a moving cursor:
    mit6.828/homework/shell/parse.cc and mit6.828/homework/shell/sh.c. */
module ShellParsers {
  import opened ShellSpec
  import opened ShellTheorems

  /** A value, or the message with which the program exits. */
  datatype Outcome<T> = Value(value: T) | Exit(error: Error)

  /** The token that starts at a character that is not white. */
  lemma TokenAt(line: string, s: nat)
    requires s < |line| && !IsWhite(line[s])
    ensures IsSymbol(line[s]) ==> Tokenize(line[s..]) == [Sym(line[s])] + Tokenize(line[s + 1..])
    ensures !IsSymbol(line[s]) ==>
      var e := s + WordLen(line[s..]); s < e <= |line| && Tokenize(line[s..]) == [Word(line[s..e])] + Tokenize(line[e..])
  {
    var rest, k := line[s..], WordLen(line[s..]);
    assert rest[0] == line[s] && rest[1..] == line[s + 1..];
    assert rest[k..] == line[s + k..] && rest[..k] == line[s..s + k];
  }

  /** The shared cursor; get_token/gettoken and peek are the same in both files. */
  class Lexer {
    const line: string
    var cur: nat

    constructor (buf: string)
      requires '\0' !in buf
      ensures line == buf && cur == 0 && Valid()
    {
      line, cur := buf, 0;
    }

    /** A C string has no NUL before its end. */
    ghost predicate Valid()
      reads this
    {
      cur <= |line| && '\0' !in line
    }

    /** The tokens still to be read. */
    ghost function Rest(): seq<Token>
      requires Valid()
      reads this
    {
      Tokenize(line[cur..])
    }

    /** *s, which is NUL at the end. */
    function CharAt(s: nat): char
    {
      if s < |line| then line[s] else '\0'
    }

    method SkipWhite(s: nat) returns (t: nat)
      requires s <= |line|
      ensures s <= t <= |line| && (t == |line| || !IsWhite(line[t]))
      ensures Tokenize(line[t..]) == Tokenize(line[s..])
    {
      t := s;
      while t < |line| && IsWhite(line[t])
        invariant s <= t <= |line| && Tokenize(line[t..]) == Tokenize(line[s..])
      {
        assert line[t..][1..] == line[t + 1..];
        t := t + 1;
      }
    }

    method SkipWord(s: nat) returns (t: nat)
      requires s <= |line|
      ensures t == s + WordLen(line[s..])
    {
      t := s;
      while t < |line| && !IsWhite(line[t]) && !IsSymbol(line[t])
        invariant s <= t <= |line| && forall i :: s <= i < t ==> WordChar(line[i])
      {
        t := t + 1;
      }
      WordLenIs(line[s..], t - s);
    }

    /** The switch of get_token, at a character that is not white. */
    method ReadToken(q: nat) returns (ret: char, s: nat)
      requires Valid() && q <= |line| && (q == |line| || !IsWhite(line[q]))
      ensures q <= s <= |line|
      ensures q == |line| ==> ret == '\0' && s == q && Tokenize(line[q..]) == []
      ensures q < |line| ==> q < s
      ensures q < |line| && IsSymbol(line[q]) ==>
        ret == line[q] && Tokenize(line[q..]) == [Sym(ret)] + Tokenize(line[s..])
      ensures q < |line| && !IsSymbol(line[q]) ==>
        ret == 'a' && Tokenize(line[q..]) == [Word(line[q..s])] + Tokenize(line[s..])
    {
      s := q;
      ret := CharAt(s);
      if s < |line| {
        assert line[s] in line;
        TokenAt(line, s);
        if IsSymbol(ret) {
          s := s + 1;
        } else {
          ret := 'a';
          s := SkipWord(s);
        }
      }
    }

    /** get_token: NUL at the end, 'a' for a word, otherwise the symbol. */
    method GetToken() returns (ret: char, q: nat, eq: nat)
      requires Valid()
      modifies `cur
      ensures Valid() && cur >= old(cur) && q <= eq <= |line|
      ensures old(Rest()) == [] ==> ret == '\0' && Rest() == []
      ensures old(Rest()) != [] ==> Rest() == old(Rest())[1..] && cur > old(cur)
      ensures old(Rest()) != [] && old(Rest())[0].Word? ==> ret == 'a' && line[q..eq] == old(Rest())[0].text
      ensures old(Rest()) != [] && old(Rest())[0].Sym? ==> ret == old(Rest())[0].c && IsSymbol(ret)
    {
      var s := SkipWhite(cur);
      q := s;
      ret, s := ReadToken(s);
      eq := s;
      cur := SkipWhite(s);
    }

    /** peek: is the next token one of these symbols? */
    method Peek(toks: string) returns (b: bool)
      requires Valid() && forall c :: c in toks ==> IsSymbol(c)
      modifies `cur
      ensures Valid() && cur >= old(cur) && Rest() == old(Rest()) && (Rest() == [] ==> cur == |line|)
      ensures b <==> Rest() != [] && Rest()[0].Sym? && Rest()[0].c in toks
    {
      cur := SkipWhite(cur);
      if cur < |line| {
        assert line[cur..][0] == line[cur];
        assert line[cur] in line;
      }
      var c := CharAt(cur);
      b := c != '\0' && c in toks;
    }
  }

  /** set_args: replace the words of the command inside its redirections. */
  function SetArgs(c: Cmd, args: seq<string>): Cmd {
    match c
    case Exec(_) => Exec(args)
    case Redir(d, r) => Redir(SetArgs(d, args), r)
    case _ => c
  }

  lemma {:induction false} SetArgsWrap(rs: seq<Redirection>, args: seq<string>)
    ensures SetArgs(Wrap(Exec([]), rs), args) == Wrap(Exec(args), rs)
  {
    if rs != [] {
      SetArgsWrap(rs[..|rs| - 1], args);
    }
  }

  /** The next step of SimpleFrom, by the kind of the next token. */
  lemma RedirNext(ts: seq<Token>, acc: Simple, limit: Limit)
    requires ts != [] && IsRedir(ts[0])
    ensures |ts| == 1 || !ts[1].Word? ==> SimpleFrom(ts, acc, limit) == Err(MissingFile)
    ensures |ts| > 1 && ts[1].Word? ==>
      SimpleFrom(ts, acc, limit) ==
      SimpleFrom(ts[2..], acc.(redirs := acc.redirs + [Redirection(ts[1].text, ts[0] == Sym('<'))]), limit)
  {
  }

  lemma WordNext(ts: seq<Token>, acc: Simple, limit: Limit)
    requires ts != [] && ts[0].Word?
    ensures SimpleFrom(ts, acc, limit) ==
      if Full(limit, |acc.args| + 1) then Err(TooManyArgs)
      else SimpleFrom(ts[1..], acc.(args := acc.args + [ts[0].text]), limit)
  {
  }

  lemma WrapNext(c: Cmd, rs: seq<Redirection>, r: Redirection)
    ensures Wrap(c, rs + [r]) == Redir(Wrap(c, rs), r)
  {
    assert (rs + [r])[..|rs|] == rs;
  }

  /** parse_redir and parseredirs: collect the redirections at the cursor. */
  method ParseRedirs(lex: Lexer, cmd: Cmd, ghost acc: Simple, ghost limit: Limit) returns (r: Outcome<Cmd>, ghost acc2: Simple)
    requires lex.Valid() && cmd == Wrap(Exec([]), acc.redirs)
    modifies lex`cur
    ensures lex.Valid() && lex.cur >= old(lex.cur)
    ensures r.Value? ==> r.value == Wrap(Exec([]), acc2.redirs) && acc2.args == acc.args
    ensures r.Value? ==> SimpleFrom(old(lex.Rest()), acc, limit) == SimpleFrom(lex.Rest(), acc2, limit)
    ensures r.Value? ==> lex.Rest() == [] || !IsRedir(lex.Rest()[0])
    ensures r.Exit? ==> r.error == MissingFile && SimpleFrom(old(lex.Rest()), acc, limit) == Err(MissingFile)
  {
    var c := cmd;
    acc2 := acc;
    var more := lex.Peek("<>");
    while more
      invariant lex.Valid() && lex.cur >= old(lex.cur)
      invariant c == Wrap(Exec([]), acc2.redirs) && acc2.args == acc.args
      invariant SimpleFrom(old(lex.Rest()), acc, limit) == SimpleFrom(lex.Rest(), acc2, limit)
      invariant more <==> lex.Rest() != [] && lex.Rest()[0].Sym? && lex.Rest()[0].c in "<>"
      decreases |lex.line| - lex.cur
    {
      ghost var ts := lex.Rest();
      RedirNext(ts, acc2, limit);
      var token, q, eq := lex.GetToken();
      var kind;
      kind, q, eq := lex.GetToken();
      if kind != 'a' {
        return Exit(MissingFile), acc2;
      }
      assert ts[1..][1..] == ts[2..];
      var redir := Redirection(lex.line[q..eq], token == '<');
      WrapNext(Exec([]), acc2.redirs, redir);
      c := Redir(c, redir);
      acc2 := acc2.(redirs := acc2.redirs + [redir]);
      more := lex.Peek("<>");
    }
    r := Value(c);
  }

  /** The outcome and the tokens left over are those of the reference parse. */
  ghost predicate Agrees(r: Outcome<Cmd>, p: Parsed<Cmd>, rest: seq<Token>) {
    match p
    case Ok(c, rest2) => r == Value(c) && rest == rest2
    case Err(e) => r == Exit(e)
  }

  /** parse_exec: words and redirections up to '|' or ';'. */
  method CcExec(lex: Lexer) returns (r: Outcome<Cmd>)
    requires lex.Valid()
    modifies lex`cur
    ensures lex.Valid() && lex.cur >= old(lex.cur)
    ensures match SimpleAt(old(lex.Rest()), NoLimit)
      case Ok(s, rest) => r == Value(Leaf(s)) && lex.Rest() == rest
      case Err(e) => r == Exit(e)
  {
    var args: seq<string> := [];
    ghost var acc := Simple([], []);
    r, acc := ParseRedirs(lex, Exec([]), acc, NoLimit);
    if r.Exit? {
      return;
    }
    var stop := lex.Peek(";|");
    while !stop
      invariant lex.Valid() && lex.cur >= old(lex.cur)
      invariant r == Value(Wrap(Exec([]), acc.redirs)) && acc.args == args
      invariant SimpleAt(old(lex.Rest()), NoLimit) == SimpleFrom(lex.Rest(), acc, NoLimit)
      invariant lex.Rest() == [] || !IsRedir(lex.Rest()[0])
      invariant stop <==> lex.Rest() != [] && lex.Rest()[0].Sym? && lex.Rest()[0].c in ";|"
      decreases |lex.line| - lex.cur
    {
      ghost var ts := lex.Rest();
      var status, q, eq := lex.GetToken();
      if status == '\0' {
        break;
      }
      if status != 'a' {
        return Exit(SyntaxError);
      }
      WordNext(ts, acc, NoLimit);
      args := args + [lex.line[q..eq]];
      acc := acc.(args := args);
      r, acc := ParseRedirs(lex, r.value, acc, NoLimit);
      if r.Exit? {
        return;
      }
      stop := lex.Peek(";|");
    }
    SetArgsWrap(acc.redirs, args);
    r := Value(SetArgs(r.value, args));
  }

  /** parse_pipe. */
  method CcPipe(lex: Lexer) returns (r: Outcome<Cmd>)
    requires lex.Valid()
    modifies lex`cur
    ensures lex.Valid() && lex.cur >= old(lex.cur)
    ensures Agrees(r, PipeAt(old(lex.Rest()), NoLimit), lex.Rest())
    decreases |lex.line| - lex.cur
  {
    SimpleRest(lex.Rest(), Simple([], []), NoLimit);
    r := CcExec(lex);
    if r.Exit? {
      return;
    }
    var bar := lex.Peek("|");
    if bar {
      var ret, q, eq := lex.GetToken();
      var right := CcPipe(lex);
      if right.Exit? {
        return right;
      }
      r := Value(Pipe(r.value, right.value));
    }
  }

  /** parse_colon. */
  method CcList(lex: Lexer) returns (r: Outcome<Cmd>)
    requires lex.Valid()
    modifies lex`cur
    ensures lex.Valid() && lex.cur >= old(lex.cur)
    ensures Agrees(r, LineAt(old(lex.Rest()), NoLimit), lex.Rest())
    decreases |lex.line| - lex.cur
  {
    PipeRest(lex.Rest(), NoLimit);
    r := CcPipe(lex);
    if r.Exit? {
      return;
    }
    var semi := lex.Peek(";");
    if semi {
      var ret, q, eq := lex.GetToken();
      var second := CcList(lex);
      if second.Exit? {
        return second;
      }
      r := Value(List(r.value, second.value));
    }
  }

  /** parse_command: succeeds exactly when every '<' or '>' is followed by a
      word; "syntax error" and "parse not complete" never occur; the tree keeps
      the order of words, redirections and separators. */
  method ParseCommand(buf: string) returns (r: Outcome<Cmd>)
    requires '\0' !in buf
    ensures r.Value? <==> RedirsOk(Tokenize(buf))
    ensures r.Exit? ==> r.error == MissingFile
    ensures r.Value? ==> LineAt(Tokenize(buf), NoLimit) == Ok(r.value, [])
    ensures r.Value? ==> Leaves(r.value) == SimplesOf(Pieces(Tokenize(buf))) && Seps(r.value) == Breaks(Tokenize(buf))
  {
    var lex := new Lexer(buf);
    assert buf[0..] == buf;
    TokenizeGood(buf);
    LineSucceeds(Tokenize(buf));
    LineOrder(Tokenize(buf));
    r := CcList(lex);
    if r.Exit? {
      return;
    }
    var b := lex.Peek("");
    if lex.cur != |lex.line| {
      r := Exit(NotComplete);
    }
  }

  /** One word of parseexec goes into argv[argc]; false at the end of the line. */
  method ShWord(lex: Lexer, argv: array<string>, argc: nat, ghost acc: Simple) returns (r: Outcome<bool>, ghost acc2: Simple)
    requires lex.Valid() && argv.Length == 10 && argc < 10 && acc.args == argv[..argc]
    requires lex.Rest() == [] || (!IsRedir(lex.Rest()[0]) && !IsBreak(lex.Rest()[0]))
    modifies lex`cur, argv
    ensures lex.Valid() && lex.cur >= old(lex.cur)
    ensures r.Exit? ==> SimpleFrom(old(lex.Rest()), acc, MaxArgs(10)) == Err(r.error)
    ensures r == Value(false) ==> old(lex.Rest()) == [] && lex.Rest() == [] && acc2 == acc && argv[..argc] == old(argv[..argc])
    ensures r == Value(true) ==> argc + 1 < 10 && lex.cur > old(lex.cur) && acc2.redirs == acc.redirs && acc2.args == argv[..argc + 1]
    ensures r == Value(true) ==> SimpleFrom(old(lex.Rest()), acc, MaxArgs(10)) == SimpleFrom(lex.Rest(), acc2, MaxArgs(10))
  {
    ghost var ts := lex.Rest();
    acc2 := acc;
    var tok, q, eq := lex.GetToken();
    if tok == '\0' {
      return Value(false), acc;
    }
    if tok != 'a' {
      return Exit(SyntaxError), acc;
    }
    WordNext(ts, acc, MaxArgs(10));
    argv[argc] := lex.line[q..eq];
    assert argv[..argc + 1] == acc.args + [lex.line[q..eq]];
    if argc + 1 >= 10 {
      return Exit(TooManyArgs), acc;
    }
    r, acc2 := Value(true), acc.(args := argv[..argc + 1]);
  }

  /** parseexec: the same, filling an array of MAXARGS words by index. */
  method ShExec(lex: Lexer) returns (r: Outcome<Cmd>)
    requires lex.Valid()
    modifies lex`cur
    ensures lex.Valid() && lex.cur >= old(lex.cur)
    ensures match SimpleAt(old(lex.Rest()), MaxArgs(10))
      case Ok(s, rest) => r == Value(Leaf(s)) && lex.Rest() == rest
      case Err(e) => r == Exit(e)
  {
    var argv := new string[10](_ => "");
    var argc := 0;
    ghost var acc := Simple([], []);
    r, acc := ParseRedirs(lex, Exec([]), acc, MaxArgs(10));
    if r.Exit? {
      return;
    }
    var stop := lex.Peek("|;");
    while !stop
      invariant lex.Valid() && lex.cur >= old(lex.cur)
      invariant 0 <= argc < 10 && r == Value(Wrap(Exec([]), acc.redirs)) && acc.args == argv[..argc]
      invariant SimpleAt(old(lex.Rest()), MaxArgs(10)) == SimpleFrom(lex.Rest(), acc, MaxArgs(10))
      invariant lex.Rest() == [] || !IsRedir(lex.Rest()[0])
      invariant stop <==> lex.Rest() != [] && lex.Rest()[0].Sym? && lex.Rest()[0].c in "|;"
      decreases |lex.line| - lex.cur
    {
      var word;
      word, acc := ShWord(lex, argv, argc, acc);
      if word.Exit? {
        return Exit(word.error);
      }
      if !word.value {
        break;
      }
      argc := argc + 1;
      r, acc := ParseRedirs(lex, r.value, acc, MaxArgs(10));
      if r.Exit? {
        return;
      }
      stop := lex.Peek("|;");
    }
    SetArgsWrap(acc.redirs, argv[..argc]);
    r := Value(SetArgs(r.value, argv[..argc]));
  }

  /** parsepipe. */
  method ShPipe(lex: Lexer) returns (r: Outcome<Cmd>)
    requires lex.Valid()
    modifies lex`cur
    ensures lex.Valid() && lex.cur >= old(lex.cur)
    ensures Agrees(r, PipeAt(old(lex.Rest()), MaxArgs(10)), lex.Rest())
    decreases |lex.line| - lex.cur
  {
    SimpleRest(lex.Rest(), Simple([], []), MaxArgs(10));
    r := ShExec(lex);
    if r.Exit? {
      return;
    }
    var bar := lex.Peek("|");
    if bar {
      var ret, q, eq := lex.GetToken();
      var right := ShPipe(lex);
      if right.Exit? {
        return right;
      }
      r := Value(Pipe(r.value, right.value));
    }
  }

  /** parsecomd. */
  method ShList(lex: Lexer) returns (r: Outcome<Cmd>)
    requires lex.Valid()
    modifies lex`cur
    ensures lex.Valid() && lex.cur >= old(lex.cur)
    ensures Agrees(r, LineAt(old(lex.Rest()), MaxArgs(10)), lex.Rest())
    decreases |lex.line| - lex.cur
  {
    PipeRest(lex.Rest(), MaxArgs(10));
    r := ShPipe(lex);
    if r.Exit? {
      return;
    }
    var semi := lex.Peek(";");
    if semi {
      var ret, q, eq := lex.GetToken();
      var second := ShList(lex);
      if second.Exit? {
        return second;
      }
      r := Value(List(r.value, second.value));
    }
  }

  /** parsecmd: accepts a line exactly when parse_command does and no simple
      command has more than nine words, and then builds the same tree. */
  method ParseCmd(buf: string) returns (r: Outcome<Cmd>)
    requires '\0' !in buf
    ensures var ref := LineAt(Tokenize(buf), NoLimit);
      && (r.Value? <==> ref.Ok? && AtMostNine(Leaves(ref.value)))
      && (r.Value? ==> ref == Ok(r.value, []))
    ensures r.Exit? ==> r.error == MissingFile || r.error == TooManyArgs
  {
    var lex := new Lexer(buf);
    assert buf[0..] == buf;
    TokenizeGood(buf);
    LineSucceeds(Tokenize(buf));
    LineLimit(Tokenize(buf));
    LineErrors(Tokenize(buf));
    r := ShList(lex);
    if r.Exit? {
      return;
    }
    var b := lex.Peek("");
    if lex.cur != |lex.line| {
      r := Exit(NotComplete);
    }
  }
}
