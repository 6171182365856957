/** What the trees of ShellSpec say about the line they come from. */
module ShellTheorems {
  import opened ShellSpec

  // ---------- reading a tree back ----------

  /** The words and redirections of a simple command tree. */
  function AsSimple(c: Cmd): Simple {
    match c
    case Exec(args) => Simple(args, [])
    case Redir(d, r) => var s := AsSimple(d); s.(redirs := s.redirs + [r])
    case _ => Simple([], [])
  }

  predicate IsLeaf(c: Cmd) {
    match c
    case Exec(_) => true
    case Redir(d, _) => IsLeaf(d)
    case _ => false
  }

  predicate IsPipeline(c: Cmd) { if c.Pipe? then IsLeaf(c.left) && IsPipeline(c.right) else IsLeaf(c) }
  predicate IsLine(c: Cmd) { if c.List? then IsPipeline(c.first) && IsLine(c.second) else IsPipeline(c) }

  /** The simple commands of a tree, from left to right. */
  function Leaves(c: Cmd): seq<Simple> {
    match c
    case Pipe(l, r) => Leaves(l) + Leaves(r)
    case List(l, r) => Leaves(l) + Leaves(r)
    case _ => [AsSimple(c)]
  }

  /** The separators between them. */
  function Seps(c: Cmd): seq<char> {
    match c
    case Pipe(l, r) => Seps(l) + ['|'] + Seps(r)
    case List(l, r) => Seps(l) + [';'] + Seps(r)
    case _ => []
  }

  lemma {:induction false} WrapIsLeaf(args: seq<string>, rs: seq<Redirection>)
    ensures IsLeaf(Wrap(Exec(args), rs)) && AsSimple(Wrap(Exec(args), rs)) == Simple(args, rs)
  {
    if rs != [] {
      WrapIsLeaf(args, rs[..|rs| - 1]);
      assert rs == rs[..|rs| - 1] + [rs[|rs| - 1]];
    }
  }

  lemma LeafInverse(s: Simple)
    ensures IsLeaf(Leaf(s)) && AsSimple(Leaf(s)) == s && Leaves(Leaf(s)) == [s] && Seps(Leaf(s)) == []
  {
    WrapIsLeaf(s.args, s.redirs);
  }

  lemma {:induction false} SimpleInverse(c: Cmd)
    requires IsLeaf(c)
    ensures Leaf(AsSimple(c)) == c
  {
    if c.Redir? {
      SimpleInverse(c.cmd);
      var s := AsSimple(c);
      assert s.redirs[..|s.redirs| - 1] == AsSimple(c.cmd).redirs;
    }
  }

  // ---------- the limit of sh.c ----------

  ghost predicate AtMostNine(ss: seq<Simple>) { forall i :: 0 <= i < |ss| ==> |ss[i].args| <= 9 }

  lemma AtMostNineConcat(a: seq<Simple>, b: seq<Simple>)
    ensures AtMostNine(a + b) <==> AtMostNine(a) && AtMostNine(b)
  {
    if AtMostNine(a + b) {
      forall i | 0 <= i < |b| ensures |b[i].args| <= 9 {
        assert (a + b)[|a| + i] == b[i];
      }
      forall i | 0 <= i < |a| ensures |a[i].args| <= 9 {
        assert (a + b)[i] == a[i];
      }
    }
  }

  lemma {:induction false} SimpleGrows(ts: seq<Token>, acc: Simple)
    ensures var r := SimpleFrom(ts, acc, NoLimit); r.Ok? ==> |acc.args| <= |r.value.args|
  {
    if ts == [] || IsBreak(ts[0]) {
    } else if ts[0].Word? {
      SimpleGrows(ts[1..], acc.(args := acc.args + [ts[0].text]));
    } else if IsRedir(ts[0]) && |ts| > 1 && ts[1].Word? {
      SimpleGrows(ts[2..], acc.(redirs := acc.redirs + [Redirection(ts[1].text, ts[0] == Sym('<'))]));
    }
  }

  lemma {:induction false} SimpleLimit(ts: seq<Token>, acc: Simple)
    requires |acc.args| <= 9
    ensures var r, q := SimpleFrom(ts, acc, NoLimit), SimpleFrom(ts, acc, MaxArgs(10));
      (q.Ok? <==> r.Ok? && |r.value.args| <= 9) && (q.Ok? ==> q == r)
  {
    if ts == [] || IsBreak(ts[0]) {
    } else if ts[0].Word? {
      var acc2 := acc.(args := acc.args + [ts[0].text]);
      if |acc.args| == 9 {
        SimpleGrows(ts[1..], acc2);
      } else {
        SimpleLimit(ts[1..], acc2);
      }
    } else if IsRedir(ts[0]) && |ts| > 1 && ts[1].Word? {
      SimpleLimit(ts[2..], acc.(redirs := acc.redirs + [Redirection(ts[1].text, ts[0] == Sym('<'))]));
    }
  }

  lemma LeafNine(s: Simple)
    ensures AtMostNine(Leaves(Leaf(s))) <==> |s.args| <= 9
  {
    LeafInverse(s);
    assert [s][0] == s;
  }

  lemma PipeNine(s: Simple, c: Cmd)
    ensures AtMostNine(Leaves(Pipe(Leaf(s), c))) <==> |s.args| <= 9 && AtMostNine(Leaves(c))
  {
    LeafNine(s);
    AtMostNineConcat(Leaves(Leaf(s)), Leaves(c));
  }

  lemma {:induction false} PipeLimit(ts: seq<Token>)
    ensures var r, q := PipeAt(ts, NoLimit), PipeAt(ts, MaxArgs(10));
      (q.Ok? <==> r.Ok? && AtMostNine(Leaves(r.value))) && (q.Ok? ==> q == r)
    decreases |ts|
  {
    SimpleLimit(ts, Simple([], []));
    SimpleRest(ts, Simple([], []), NoLimit);
    var r := SimpleAt(ts, NoLimit);
    if r.Ok? {
      LeafNine(r.value);
      if r.rest != [] && r.rest[0] == Sym('|') {
        PipeLimit(r.rest[1..]);
        var p := PipeAt(r.rest[1..], NoLimit);
        if p.Ok? {
          PipeNine(r.value, p.value);
        }
      }
    }
  }

  /** sh.c accepts a line exactly when parse.cc does and no simple command has
      more than nine words; then both build the same tree. */
  lemma {:induction false} LineLimit(ts: seq<Token>)
    ensures var r, q := LineAt(ts, NoLimit), LineAt(ts, MaxArgs(10));
      (q.Ok? <==> r.Ok? && AtMostNine(Leaves(r.value))) && (q.Ok? ==> q == r)
    decreases |ts|
  {
    PipeLimit(ts);
    PipeRest(ts, NoLimit);
    var r := PipeAt(ts, NoLimit);
    if r.Ok? && r.rest != [] {
      LineLimit(r.rest[1..]);
      var p := LineAt(r.rest[1..], NoLimit);
      if p.Ok? {
        AtMostNineConcat(Leaves(r.value), Leaves(p.value));
      }
    }
  }

  /** sh.c, too, fails only for a missing file or for too many words. */
  lemma {:induction false} SimpleErrors(ts: seq<Token>, acc: Simple)
    requires GoodTokens(ts)
    ensures var r := SimpleFrom(ts, acc, MaxArgs(10)); r.Err? ==> r.error == MissingFile || r.error == TooManyArgs
    ensures var r := SimpleFrom(ts, acc, MaxArgs(10)); r.Ok? ==> |r.rest| <= |ts| && GoodTokens(r.rest)
  {
    if ts == [] || IsBreak(ts[0]) {
    } else if ts[0].Word? {
      SimpleErrors(ts[1..], acc.(args := acc.args + [ts[0].text]));
    } else if |ts| > 1 && ts[1].Word? {
      SimpleErrors(ts[2..], acc.(redirs := acc.redirs + [Redirection(ts[1].text, ts[0] == Sym('<'))]));
    }
  }

  lemma {:induction false} PipeErrors(ts: seq<Token>)
    requires GoodTokens(ts)
    ensures var r := PipeAt(ts, MaxArgs(10)); r.Err? ==> r.error == MissingFile || r.error == TooManyArgs
    ensures var r := PipeAt(ts, MaxArgs(10)); r.Ok? ==> |r.rest| <= |ts| && GoodTokens(r.rest)
    decreases |ts|
  {
    SimpleErrors(ts, Simple([], []));
    var r := SimpleAt(ts, MaxArgs(10));
    if r.Ok? && r.rest != [] {
      PipeErrors(r.rest[1..]);
    }
  }

  lemma {:induction false} LineErrors(ts: seq<Token>)
    requires GoodTokens(ts)
    ensures var r := LineAt(ts, MaxArgs(10)); r.Err? ==> r.error == MissingFile || r.error == TooManyArgs
    decreases |ts|
  {
    PipeErrors(ts);
    var r := PipeAt(ts, MaxArgs(10));
    if r.Ok? && r.rest != [] {
      LineErrors(r.rest[1..]);
    }
  }

  // ---------- order ----------

  /** The separators of a token list, in order. */
  function Breaks(ts: seq<Token>): seq<char> {
    if ts == [] then [] else (if IsBreak(ts[0]) then [ts[0].c] else []) + Breaks(ts[1..])
  }

  /** The pieces between the separators. */
  function Pieces(ts: seq<Token>): (ps: seq<seq<Token>>)
    ensures ps != []
  {
    if ts == [] then [[]]
    else
      var ps := Pieces(ts[1..]);
      if IsBreak(ts[0]) then [[]] + ps else [[ts[0]] + ps[0]] + ps[1..]
  }

  /** The words of a piece that do not follow a redirection sign, in order. */
  function ArgsOf(piece: seq<Token>): seq<string> {
    if piece == [] then []
    else if piece[0].Word? then [piece[0].text] + ArgsOf(piece[1..])
    else if |piece| == 1 then [] else ArgsOf(piece[2..])
  }

  /** Its redirections, in order. */
  function RedirsOf(piece: seq<Token>): seq<Redirection> {
    if piece == [] then []
    else if piece[0].Word? then RedirsOf(piece[1..])
    else if |piece| == 1 || !piece[1].Word? then []
    else [Redirection(piece[1].text, piece[0] == Sym('<'))] + RedirsOf(piece[2..])
  }

  function SimpleOf(piece: seq<Token>): Simple { Simple(ArgsOf(piece), RedirsOf(piece)) }

  function SimplesOf(ps: seq<seq<Token>>): seq<Simple> {
    if ps == [] then [] else [SimpleOf(ps[0])] + SimplesOf(ps[1..])
  }

  /** The first separator of a token list is at n. */
  ghost predicate BreakAt(ts: seq<Token>, n: nat) {
    n <= |ts| && (forall i :: 0 <= i < n ==> !IsBreak(ts[i])) && (n < |ts| ==> IsBreak(ts[n]))
  }

  /** Cutting a token list at its first separator. */
  lemma {:induction false} PiecesCut(ts: seq<Token>, n: nat)
    requires BreakAt(ts, n)
    ensures Pieces(ts) == [ts[..n]] + (if n == |ts| then [] else Pieces(ts[n + 1..]))
  {
    if n > 0 {
      PiecesCut(ts[1..], n - 1);
      assert n < |ts| ==> ts[1..][n..] == ts[n + 1..];
      assert ts[..n] == [ts[0]] + ts[1..][..n - 1];
    }
  }

  lemma {:induction false} BreaksCut(ts: seq<Token>, n: nat)
    requires BreakAt(ts, n)
    ensures Breaks(ts) == (if n == |ts| then [] else [ts[n].c] + Breaks(ts[n + 1..]))
  {
    if n > 0 {
      BreaksCut(ts[1..], n - 1);
      assert n < |ts| ==> ts[1..][n..] == ts[n + 1..];
    }
  }

  /** A simple command reads up to the first separator. */
  lemma {:induction false} SimplePrefix(ts: seq<Token>, acc: Simple)
    ensures var r := SimpleFrom(ts, acc, NoLimit); r.Ok? ==>
      && |r.rest| <= |ts| && r.rest == ts[|ts| - |r.rest|..]
      && (forall i :: 0 <= i < |ts| - |r.rest| ==> !IsBreak(ts[i]))
      && (r.rest != [] ==> IsBreak(ts[|ts| - |r.rest|]))
  {
    if ts == [] || IsBreak(ts[0]) {
    } else if ts[0].Word? {
      SimplePrefix(ts[1..], acc.(args := acc.args + [ts[0].text]));
    } else if IsRedir(ts[0]) && |ts| > 1 && ts[1].Word? {
      SimplePrefix(ts[2..], acc.(redirs := acc.redirs + [Redirection(ts[1].text, ts[0] == Sym('<'))]));
    }
  }

  /** ... and collects the words and redirections of that piece. */
  lemma {:induction false} SimpleValue(ts: seq<Token>, acc: Simple)
    ensures var r := SimpleFrom(ts, acc, NoLimit); r.Ok? ==>
      && |r.rest| <= |ts|
      && var piece := ts[..|ts| - |r.rest|]; r.value == Simple(acc.args + ArgsOf(piece), acc.redirs + RedirsOf(piece))
  {
    var r := SimpleFrom(ts, acc, NoLimit);
    if ts == [] || IsBreak(ts[0]) {
      assert ts[..0] == [];
    } else if ts[0].Word? {
      SimpleValue(ts[1..], acc.(args := acc.args + [ts[0].text]));
      if r.Ok? {
        WordStep(ts, |ts| - |r.rest|);
      }
    } else if IsRedir(ts[0]) && |ts| > 1 && ts[1].Word? {
      SimpleValue(ts[2..], acc.(redirs := acc.redirs + [Redirection(ts[1].text, ts[0] == Sym('<'))]));
      if r.Ok? {
        RedirStep(ts, |ts| - |r.rest|);
      }
    }
  }

  lemma WordStep(ts: seq<Token>, n: nat)
    requires 1 <= n <= |ts| && ts[0].Word?
    ensures ArgsOf(ts[..n]) == [ts[0].text] + ArgsOf(ts[1..][..n - 1]) && RedirsOf(ts[..n]) == RedirsOf(ts[1..][..n - 1])
  {
    assert ts[..n][1..] == ts[1..][..n - 1];
  }

  lemma RedirStep(ts: seq<Token>, n: nat)
    requires 2 <= n <= |ts| && ts[0].Sym? && ts[1].Word?
    ensures ArgsOf(ts[..n]) == ArgsOf(ts[2..][..n - 2])
    ensures RedirsOf(ts[..n]) == [Redirection(ts[1].text, ts[0] == Sym('<'))] + RedirsOf(ts[2..][..n - 2])
  {
    assert ts[..n][2..] == ts[2..][..n - 2];
  }

  lemma SimplesCons(piece: seq<Token>, ps: seq<seq<Token>>)
    ensures SimplesOf([piece] + ps) == [SimpleOf(piece)] + SimplesOf(ps)
  {
    assert ([piece] + ps)[1..] == ps;
  }

  /** `ts` reads as the simple commands `ss` with separators `seps` between
      them, then, if `rest` is not empty, its separator and what follows. */
  ghost predicate Reads(ts: seq<Token>, ss: seq<Simple>, seps: seq<char>, rest: seq<Token>) {
    if rest == [] then SimplesOf(Pieces(ts)) == ss && Breaks(ts) == seps
    else
      && rest[0].Sym?
      && SimplesOf(Pieces(ts)) == ss + SimplesOf(Pieces(rest[1..]))
      && Breaks(ts) == seps + [rest[0].c] + Breaks(rest[1..])
  }

  lemma FirstPiece(ts: seq<Token>)
    ensures var r := SimpleAt(ts, NoLimit); r.Ok? ==> |r.rest| <= |ts| && Reads(ts, [r.value], [], r.rest)
  {
    SimplePrefix(ts, Simple([], []));
    SimpleValue(ts, Simple([], []));
    var r := SimpleAt(ts, NoLimit);
    if r.Ok? {
      var n := |ts| - |r.rest|;
      assert r.value.args == ArgsOf(ts[..n]) && r.value.redirs == RedirsOf(ts[..n]);
      assert r.value == SimpleOf(ts[..n]);
      PieceReads(ts, n);
    }
  }

  lemma PieceReads(ts: seq<Token>, n: nat)
    requires BreakAt(ts, n)
    ensures Reads(ts, [SimpleOf(ts[..n])], [], ts[n..])
  {
    PiecesCut(ts, n);
    BreaksCut(ts, n);
    if n < |ts| {
      SimplesCons(ts[..n], Pieces(ts[n + 1..]));
      assert ts[n..][1..] == ts[n + 1..];
    } else {
      SimplesCons(ts[..n], []);
    }
  }

  /** Reading on after the separator. */
  lemma ReadsJoin(ts: seq<Token>, a: seq<Simple>, sa: seq<char>, mid: seq<Token>, b: seq<Simple>, sb: seq<char>, rest: seq<Token>)
    requires mid != [] && Reads(ts, a, sa, mid) && Reads(mid[1..], b, sb, rest)
    ensures Reads(ts, a + b, sa + [mid[0].c] + sb, rest)
  {
    if rest != [] {
      assert a + (b + SimplesOf(Pieces(rest[1..]))) == a + b + SimplesOf(Pieces(rest[1..]));
      assert sa + [mid[0].c] + (sb + [rest[0].c] + Breaks(rest[1..])) == sa + [mid[0].c] + sb + [rest[0].c] + Breaks(rest[1..]);
    }
  }

  lemma {:induction false} PipeOrder(ts: seq<Token>)
    ensures var r := PipeAt(ts, NoLimit); r.Ok? ==> IsPipeline(r.value) && Reads(ts, Leaves(r.value), Seps(r.value), r.rest)
    decreases |ts|
  {
    FirstPiece(ts);
    SimpleRest(ts, Simple([], []), NoLimit);
    var r := SimpleAt(ts, NoLimit);
    if r.Ok? {
      LeafInverse(r.value);
      if r.rest != [] && r.rest[0] == Sym('|') {
        PipeOrder(r.rest[1..]);
        var p := PipeAt(r.rest[1..], NoLimit);
        if p.Ok? {
          ReadsJoin(ts, [r.value], [], r.rest, Leaves(p.value), Seps(p.value), p.rest);
        }
      }
    }
  }

  /** The tree keeps the order of everything: its simple commands are the pieces
      of the line from left to right, each with its words and redirections in
      order, and its separators are those of the line. */
  lemma {:induction false} LineReads(ts: seq<Token>)
    ensures var r := LineAt(ts, NoLimit); r.Ok? ==> IsLine(r.value) && Reads(ts, Leaves(r.value), Seps(r.value), r.rest)
    decreases |ts|
  {
    PipeOrder(ts);
    PipeRest(ts, NoLimit);
    var r := PipeAt(ts, NoLimit);
    if r.Ok? && r.rest != [] {
      LineReads(r.rest[1..]);
      var p := LineAt(r.rest[1..], NoLimit);
      if p.Ok? {
        ReadsJoin(ts, Leaves(r.value), Seps(r.value), r.rest, Leaves(p.value), Seps(p.value), p.rest);
      }
    }
  }

  lemma LineOrder(ts: seq<Token>)
    requires GoodTokens(ts)
    ensures var r := LineAt(ts, NoLimit); r.Ok? ==>
      IsLine(r.value) && Leaves(r.value) == SimplesOf(Pieces(ts)) && Seps(r.value) == Breaks(ts)
  {
    LineReads(ts);
    LineSucceeds(ts);
  }

  // ---------- printing and reading back ----------

  function WordToks(args: seq<string>): seq<Token> {
    if args == [] then [] else [Word(args[0])] + WordToks(args[1..])
  }

  function RedirToks(rs: seq<Redirection>): seq<Token> {
    if rs == [] then [] else [SignOf(rs[0]), Word(rs[0].file)] + RedirToks(rs[1..])
  }

  /** The canonical tokens of a tree: words first, then redirections. */
  function Toks(c: Cmd): seq<Token> {
    match c
    case Pipe(l, r) => Toks(l) + [Sym('|')] + Toks(r)
    case List(l, r) => Toks(l) + [Sym(';')] + Toks(r)
    case _ => WordToks(AsSimple(c).args) + RedirToks(AsSimple(c).redirs)
  }

  /** The parser takes one word, ... */
  lemma WordTaken(w: string, tail: seq<Token>, acc: Simple)
    ensures SimpleFrom([Word(w)] + tail, acc, NoLimit) == SimpleFrom(tail, Simple(acc.args + [w], acc.redirs), NoLimit)
  {
    assert ([Word(w)] + tail)[1..] == tail;
  }

  lemma {:induction false} WordsRead(args: seq<string>, acc: Simple, rest: seq<Token>)
    ensures SimpleFrom(WordToks(args) + rest, acc, NoLimit) == SimpleFrom(rest, Simple(acc.args + args, acc.redirs), NoLimit)
  {
    if args == [] {
      assert WordToks(args) + rest == rest && acc.args + args == acc.args;
    } else {
      var tail := WordToks(args[1..]) + rest;
      WordTaken(args[0], tail, acc);
      WordsRead(args[1..], Simple(acc.args + [args[0]], acc.redirs), rest);
      assert acc.args + [args[0]] + args[1..] == acc.args + args;
      assert WordToks(args) + rest == [Word(args[0])] + tail;
    }
  }

  function SignOf(r: Redirection): Token { Sym(if r.input then '<' else '>') }

  /** ... or one redirection. */
  lemma RedirTaken(r: Redirection, tail: seq<Token>, acc: Simple)
    ensures SimpleFrom([SignOf(r), Word(r.file)] + tail, acc, NoLimit) ==
            SimpleFrom(tail, Simple(acc.args, acc.redirs + [r]), NoLimit)
  {
    assert ([SignOf(r), Word(r.file)] + tail)[2..] == tail;
  }

  lemma {:induction false} RedirsRead(rs: seq<Redirection>, acc: Simple, rest: seq<Token>)
    ensures SimpleFrom(RedirToks(rs) + rest, acc, NoLimit) == SimpleFrom(rest, Simple(acc.args, acc.redirs + rs), NoLimit)
  {
    if rs == [] {
      assert RedirToks(rs) + rest == rest && acc.redirs + rs == acc.redirs;
    } else {
      var tail := RedirToks(rs[1..]) + rest;
      RedirTaken(rs[0], tail, acc);
      RedirsRead(rs[1..], Simple(acc.args, acc.redirs + [rs[0]]), rest);
      assert acc.redirs + [rs[0]] + rs[1..] == acc.redirs + rs;
      assert RedirToks(rs) + rest == [SignOf(rs[0]), Word(rs[0].file)] + tail;
    }
  }

  lemma SimpleRead(s: Simple, rest: seq<Token>)
    requires rest == [] || IsBreak(rest[0])
    ensures SimpleAt(WordToks(s.args) + (RedirToks(s.redirs) + rest), NoLimit) == Ok(s, rest)
  {
    WordsRead(s.args, Simple([], []), RedirToks(s.redirs) + rest);
    RedirsRead(s.redirs, Simple(s.args, []), rest);
    assert [] + s.args == s.args && [] + s.redirs == s.redirs;
  }

  lemma LeafRead(c: Cmd, rest: seq<Token>)
    requires IsLeaf(c) && (rest == [] || IsBreak(rest[0]))
    ensures SimpleAt(Toks(c) + rest, NoLimit) == Ok(AsSimple(c), rest)
  {
    var s := AsSimple(c);
    SimpleRead(s, rest);
    assert Toks(c) + rest == WordToks(s.args) + (RedirToks(s.redirs) + rest);
  }

  lemma {:induction false} PipeRead(c: Cmd, rest: seq<Token>)
    requires IsPipeline(c) && (rest == [] || rest[0] == Sym(';'))
    ensures PipeAt(Toks(c) + rest, NoLimit) == Ok(c, rest)
  {
    if c.Pipe? {
      var tail := [Sym('|')] + Toks(c.right) + rest;
      assert Toks(c) + rest == Toks(c.left) + tail && tail[1..] == Toks(c.right) + rest;
      LeafRead(c.left, tail);
      SimpleInverse(c.left);
      PipeRead(c.right, rest);
    } else {
      LeafRead(c, rest);
      SimpleInverse(c);
    }
  }

  /** Parsing the canonical tokens of a tree gives back the tree. */
  lemma {:induction false} LineRead(c: Cmd)
    requires IsLine(c)
    ensures LineAt(Toks(c), NoLimit) == Ok(c, [])
  {
    if c.List? {
      var tail := [Sym(';')] + Toks(c.second);
      assert Toks(c) == Toks(c.first) + tail && tail[1..] == Toks(c.second);
      PipeRead(c.first, tail);
      LineRead(c.second);
    } else {
      PipeRead(c, []);
      assert Toks(c) + [] == Toks(c);
    }
  }

  function TokenText(t: Token): string { if t.Word? then t.text else [t.c] }

  /** A blank after every token. */
  function PrintTokens(ts: seq<Token>): string {
    if ts == [] then "" else TokenText(ts[0]) + " " + PrintTokens(ts[1..])
  }

  lemma {:induction false} WordLenIs(s: string, k: nat)
    requires k <= |s| && (forall i :: 0 <= i < k ==> WordChar(s[i])) && (k < |s| ==> !WordChar(s[k]))
    ensures WordLen(s) == k
  {
    if k > 0 {
      WordLenIs(s[1..], k - 1);
    }
  }

  lemma TokenizeBlank(s: string)
    ensures Tokenize(" " + s) == Tokenize(s)
  {
    assert (" " + s)[1..] == s;
  }

  lemma TokenizeOne(t: Token, s: string)
    requires GoodToken(t)
    ensures Tokenize(TokenText(t) + " " + s) == [t] + Tokenize(s)
  {
    var text := TokenText(t);
    var line := text + " " + s;
    TokenizeBlank(s);
    assert line[|text|..] == " " + s && line[..|text|] == text;
    assert forall i :: 0 <= i < |text| ==> line[i] == text[i];
    if t.Word? {
      WordLenIs(line, |text|);
    }
  }

  lemma {:induction false} TokenizePrint(ts: seq<Token>)
    requires GoodTokens(ts)
    ensures Tokenize(PrintTokens(ts)) == ts
  {
    if ts != [] {
      TokenizePrint(ts[1..]);
      TokenizeOne(ts[0], PrintTokens(ts[1..]));
      assert [ts[0]] + ts[1..] == ts;
    }
  }

  ghost predicate GoodSimple(s: Simple) {
    && (forall i :: 0 <= i < |s.args| ==> GoodWord(s.args[i]))
    && (forall i :: 0 <= i < |s.redirs| ==> GoodWord(s.redirs[i].file))
  }

  ghost predicate GoodTree(c: Cmd) { forall i :: 0 <= i < |Leaves(c)| ==> GoodSimple(Leaves(c)[i]) }

  lemma {:induction false} GoodWordToks(args: seq<string>)
    requires forall i :: 0 <= i < |args| ==> GoodWord(args[i])
    ensures GoodTokens(WordToks(args))
  {
    if args != [] {
      GoodWordToks(args[1..]);
    }
  }

  lemma {:induction false} GoodRedirToks(rs: seq<Redirection>)
    requires forall i :: 0 <= i < |rs| ==> GoodWord(rs[i].file)
    ensures GoodTokens(RedirToks(rs))
  {
    if rs != [] {
      GoodRedirToks(rs[1..]);
    }
  }

  lemma {:induction false} GoodToks(c: Cmd)
    requires GoodTree(c)
    ensures GoodTokens(Toks(c))
  {
    match c
    case Pipe(l, r) => GoodParts(c, l, r); GoodToks(l); GoodToks(r);
    case List(l, r) => GoodParts(c, l, r); GoodToks(l); GoodToks(r);
    case _ =>
      assert Leaves(c)[0] == AsSimple(c);
      GoodWordToks(AsSimple(c).args);
      GoodRedirToks(AsSimple(c).redirs);
  }

  lemma GoodParts(c: Cmd, l: Cmd, r: Cmd)
    requires GoodTree(c) && (c == Pipe(l, r) || c == List(l, r))
    ensures GoodTree(l) && GoodTree(r)
  {
    forall i | 0 <= i < |Leaves(l)| ensures GoodSimple(Leaves(l)[i]) {
      assert Leaves(c)[i] == Leaves(l)[i];
    }
    forall i | 0 <= i < |Leaves(r)| ensures GoodSimple(Leaves(r)[i]) {
      assert Leaves(c)[|Leaves(l)| + i] == Leaves(r)[i];
    }
  }

  /** Printing a tree and parsing the text gives back the tree, with parse.cc
      always and with sh.c when no simple command has more than nine words. */
  lemma PrintParse(c: Cmd)
    requires IsLine(c) && GoodTree(c)
    ensures LineAt(Tokenize(PrintTokens(Toks(c))), NoLimit) == Ok(c, [])
    ensures AtMostNine(Leaves(c)) ==> LineAt(Tokenize(PrintTokens(Toks(c))), MaxArgs(10)) == Ok(c, [])
  {
    GoodToks(c);
    TokenizePrint(Toks(c));
    LineRead(c);
    LineLimit(Toks(c));
  }
}
