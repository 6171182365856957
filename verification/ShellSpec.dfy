/** Command lines of the two shells (mit6.828/homework/shell/parse.cc and sh.c):
    tokens, trees, and the tree that a line denotes. */
module ShellSpec {

  // ---------- tokens ----------

  predicate IsWhite(c: char) { c == ' ' || c == '\r' || c == '\n' || c == '\t' || c == '\U{B}' }

  predicate IsSymbol(c: char) { c == '<' || c == '>' || c == '|' || c == ';' }

  const WHITESPACE := " \t\r\n\U{B}"
  const SYMBOLS := "<|>;"

  /** The two character classes of parse.cc and sh.c. */
  lemma ClassesAre(c: char)
    ensures IsWhite(c) <==> c in WHITESPACE
    ensures IsSymbol(c) <==> c in SYMBOLS
  {
    assert WHITESPACE[0] == ' ' && WHITESPACE[1] == '\t' && WHITESPACE[2] == '\r' && WHITESPACE[3] == '\n' && WHITESPACE[4] == '\U{B}';
    assert SYMBOLS[0] == '<' && SYMBOLS[1] == '|' && SYMBOLS[2] == '>' && SYMBOLS[3] == ';';
  }

  predicate WordChar(c: char) { !IsWhite(c) && !IsSymbol(c) }

  datatype Token = Word(text: string) | Sym(c: char)

  /** Length of the longest prefix of word characters. */
  function WordLen(s: string): (k: nat)
    ensures k <= |s| && (forall i :: 0 <= i < k ==> WordChar(s[i])) && (k < |s| ==> !WordChar(s[k]))
  {
    if s != [] && WordChar(s[0]) then 1 + WordLen(s[1..]) else 0
  }

  function Tokenize(s: string): seq<Token>
    decreases |s|
  {
    if s == [] then []
    else if IsWhite(s[0]) then Tokenize(s[1..])
    else if IsSymbol(s[0]) then [Sym(s[0])] + Tokenize(s[1..])
    else
      var k := WordLen(s);
      assert k > 0;
      [Word(s[..k])] + Tokenize(s[k..])
  }

  predicate IsRedir(t: Token) { t == Sym('<') || t == Sym('>') }
  predicate IsBreak(t: Token) { t == Sym('|') || t == Sym(';') }

  /** Tokens that a line can yield. */
  ghost predicate GoodWord(w: string) { w != [] && forall i :: 0 <= i < |w| ==> WordChar(w[i]) }
  ghost predicate GoodToken(t: Token) { if t.Word? then GoodWord(t.text) else IsSymbol(t.c) }
  ghost predicate GoodTokens(ts: seq<Token>) { forall i :: 0 <= i < |ts| ==> GoodToken(ts[i]) }

  lemma {:induction false} TokenizeGood(s: string)
    ensures GoodTokens(Tokenize(s))
    decreases |s|
  {
    if s != [] {
      if IsWhite(s[0]) || IsSymbol(s[0]) {
        TokenizeGood(s[1..]);
      } else {
        TokenizeGood(s[WordLen(s)..]);
      }
    }
  }

  // ---------- trees ----------

  datatype Redirection = Redirection(file: string, input: bool)

  datatype Cmd =
    | Exec(args: seq<string>)
    | Redir(cmd: Cmd, redir: Redirection)
    | Pipe(left: Cmd, right: Cmd)
    | List(first: Cmd, second: Cmd)

  datatype Error = MissingFile | SyntaxError | NotComplete | TooManyArgs

  /** The words and redirections of a simple command. */
  datatype Simple = Simple(args: seq<string>, redirs: seq<Redirection>)

  /** Redirections wrap the command in the order in which they are written. */
  function Wrap(c: Cmd, rs: seq<Redirection>): Cmd {
    if rs == [] then c else Redir(Wrap(c, rs[..|rs| - 1]), rs[|rs| - 1])
  }

  function Leaf(s: Simple): Cmd { Wrap(Exec(s.args), s.redirs) }

  // ---------- what a token list denotes ----------

  datatype Parsed<T> = Ok(value: T, rest: seq<Token>) | Err(error: Error)

  /** sh.c exits when the tenth word of a simple command arrives. */
  datatype Limit = NoLimit | MaxArgs(n: nat)

  predicate Full(limit: Limit, n: nat) { limit.MaxArgs? && n >= limit.n }

  /** The simple command at the front of `ts`, after `acc` has been read. */
  function SimpleFrom(ts: seq<Token>, acc: Simple, limit: Limit): Parsed<Simple> {
    if ts == [] || IsBreak(ts[0]) then Ok(acc, ts)
    else if ts[0].Word? then
      if Full(limit, |acc.args| + 1) then Err(TooManyArgs)
      else SimpleFrom(ts[1..], acc.(args := acc.args + [ts[0].text]), limit)
    else if !IsRedir(ts[0]) then Err(SyntaxError)
    else if |ts| == 1 || !ts[1].Word? then Err(MissingFile)
    else SimpleFrom(ts[2..], acc.(redirs := acc.redirs + [Redirection(ts[1].text, ts[0] == Sym('<'))]), limit)
  }

  function SimpleAt(ts: seq<Token>, limit: Limit): Parsed<Simple> { SimpleFrom(ts, Simple([], []), limit) }

  lemma {:induction false} SimpleRest(ts: seq<Token>, acc: Simple, limit: Limit)
    ensures var r := SimpleFrom(ts, acc, limit);
      r.Ok? ==> |r.rest| <= |ts| && (r.rest == [] || IsBreak(r.rest[0])) && r.rest == ts[|ts| - |r.rest|..]
  {
    if ts == [] || IsBreak(ts[0]) {
    } else if ts[0].Word? {
      SimpleRest(ts[1..], acc.(args := acc.args + [ts[0].text]), limit);
    } else if IsRedir(ts[0]) && |ts| > 1 && ts[1].Word? {
      SimpleRest(ts[2..], acc.(redirs := acc.redirs + [Redirection(ts[1].text, ts[0] == Sym('<'))]), limit);
    }
  }

  function PipeAt(ts: seq<Token>, limit: Limit): Parsed<Cmd>
    decreases |ts|
  {
    SimpleRest(ts, Simple([], []), limit);
    match SimpleAt(ts, limit)
    case Err(e) => Err(e)
    case Ok(s, rest) =>
      if rest != [] && rest[0] == Sym('|') then
        match PipeAt(rest[1..], limit)
        case Err(e) => Err(e)
        case Ok(c, rest2) => Ok(Pipe(Leaf(s), c), rest2)
      else Ok(Leaf(s), rest)
  }

  lemma {:induction false} PipeRest(ts: seq<Token>, limit: Limit)
    ensures var r := PipeAt(ts, limit); r.Ok? ==> |r.rest| <= |ts| && (r.rest == [] || r.rest[0] == Sym(';'))
    decreases |ts|
  {
    SimpleRest(ts, Simple([], []), limit);
    var r := SimpleAt(ts, limit);
    if r.Ok? && r.rest != [] && r.rest[0] == Sym('|') {
      PipeRest(r.rest[1..], limit);
    }
  }

  function LineAt(ts: seq<Token>, limit: Limit): Parsed<Cmd>
    decreases |ts|
  {
    PipeRest(ts, limit);
    match PipeAt(ts, limit)
    case Err(e) => Err(e)
    case Ok(p, rest) =>
      if rest != [] then
        match LineAt(rest[1..], limit)
        case Err(e) => Err(e)
        case Ok(c, rest2) => Ok(List(p, c), rest2)
      else Ok(p, rest)
  }

  // ---------- when parsing succeeds ----------

  /** Every '<' or '>' is immediately followed by a word. */
  ghost predicate RedirsOk(ts: seq<Token>) {
    forall i :: 0 <= i < |ts| && IsRedir(ts[i]) ==> i + 1 < |ts| && ts[i + 1].Word?
  }

  lemma RedirsOkTail(ts: seq<Token>, k: nat)
    requires k <= |ts| && (k == 0 || !IsRedir(ts[k - 1])) && forall i :: 0 <= i < k && IsRedir(ts[i]) ==> i + 1 < |ts| && ts[i + 1].Word?
    ensures RedirsOk(ts) <==> RedirsOk(ts[k..])
  {
    if RedirsOk(ts[k..]) {
      forall i | 0 <= i < |ts| && IsRedir(ts[i]) ensures i + 1 < |ts| && ts[i + 1].Word? {
        if i >= k {
          assert IsRedir(ts[k..][i - k]) && ts[k..][i - k + 1] == ts[i + 1];
        }
      }
    }
    if RedirsOk(ts) {
      forall i | 0 <= i < |ts[k..]| && IsRedir(ts[k..][i]) ensures i + 1 < |ts[k..]| && ts[k..][i + 1].Word? {
        assert IsRedir(ts[k + i]);
      }
    }
  }

  lemma {:induction false} SimpleSucceeds(ts: seq<Token>, acc: Simple)
    requires GoodTokens(ts)
    ensures var r := SimpleFrom(ts, acc, NoLimit);
      if r.Ok? then r.rest == [] || IsBreak(r.rest[0]) else !RedirsOk(ts) && r.error == MissingFile
    ensures var r := SimpleFrom(ts, acc, NoLimit); r.Ok? ==> |r.rest| <= |ts| && (RedirsOk(ts) <==> RedirsOk(r.rest)) && GoodTokens(r.rest)
  {
    if ts == [] || IsBreak(ts[0]) {
    } else if ts[0].Word? {
      RedirsOkTail(ts, 1);
      SimpleSucceeds(ts[1..], acc.(args := acc.args + [ts[0].text]));
    } else if |ts| > 1 && ts[1].Word? {
      RedirsOkTail(ts, 2);
      SimpleSucceeds(ts[2..], acc.(redirs := acc.redirs + [Redirection(ts[1].text, ts[0] == Sym('<'))]));
    } else {
      assert IsRedir(ts[0]);
    }
  }

  lemma {:induction false} PipeSucceeds(ts: seq<Token>)
    requires GoodTokens(ts)
    ensures var r := PipeAt(ts, NoLimit);
      if r.Ok? then |r.rest| <= |ts| && (r.rest == [] || r.rest[0] == Sym(';')) && (RedirsOk(ts) <==> RedirsOk(r.rest)) && GoodTokens(r.rest)
      else !RedirsOk(ts) && r.error == MissingFile
    decreases |ts|
  {
    SimpleSucceeds(ts, Simple([], []));
    var r := SimpleAt(ts, NoLimit);
    if r.Ok? && r.rest != [] && r.rest[0] == Sym('|') {
      RedirsOkTail(r.rest, 1);
      PipeSucceeds(r.rest[1..]);
    }
  }

  /** A line parses exactly when every redirection has its file; the only error
      is the missing file, and a successful parse consumes the whole line. */
  lemma {:induction false} LineSucceeds(ts: seq<Token>)
    requires GoodTokens(ts)
    ensures var r := LineAt(ts, NoLimit);
      (r.Ok? <==> RedirsOk(ts)) && (if r.Ok? then r.rest == [] else r.error == MissingFile)
    decreases |ts|
  {
    PipeSucceeds(ts);
    var r := PipeAt(ts, NoLimit);
    if r.Ok? && r.rest != [] {
      RedirsOkTail(r.rest, 1);
      LineSucceeds(r.rest[1..]);
    }
  }
}
