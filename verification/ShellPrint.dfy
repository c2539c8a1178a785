/** Commands written back as lines, independently of the grammar: a command that the
    shell can build is the one that its line parses to (src/user/sh.c). */
module ShellPrinting {
  import opened ShellGrammar

  /** The symbol `k`, wherever it stands. */
  function Sym(k: char): Tok {
    Tok(k, Word(0, 1))
  }

  function Words(args: seq<Word>): (r: seq<Tok>)
    ensures |r| == |args| && forall i :: 0 <= i < |args| ==> r[i] == Tok('a', args[i])
  {
    seq(|args|, i requires 0 <= i < |args| => Tok('a', args[i]))
  }

  /** `< file` reads from it at descriptor 0; `> file` creates it and writes to it at
      descriptor 1. */
  function RedirSym(mode: int, fd: int): char {
    if mode == 0 && fd == 0 then '<' else '>'
  }

  predicate Simple(c: Cmd) {
    c.Exec? || c.Redir?
  }

  /** The shell can build the command: no more arguments than it has room for, and only
      the two kinds of redirections. */
  predicate Buildable(c: Cmd) {
    match c
    case Exec(args) => |args| < MAXARGS
    case Redir(d, _, mode, fd) => Buildable(d) && ((mode == 0 && fd == 0) || (mode == 0x201 && fd == 1))
    case Pipe(l, r) => Buildable(l) && Buildable(r)
    case List(l, r) => Buildable(l) && Buildable(r)
    case Back(d) => Buildable(d)
  }

  /** A simple command: its words, then its redirections from the inside out; any other
      command goes into parentheses. */
  function ShowExec(c: Cmd): seq<Tok>
    decreases c, if Simple(c) then 0 else 4
  {
    match c
    case Exec(args) => Words(args)
    case Redir(d, file, mode, fd) => ShowExec(d) + [Sym(RedirSym(mode, fd)), Tok('a', file)]
    case _ => [Sym('(')] + ShowLine(c) + [Sym(')')]
  }

  function ShowPipe(c: Cmd): seq<Tok>
    decreases c, if Simple(c) || c.Pipe? then 1 else 5
  {
    if c.Pipe? then ShowExec(c.left) + [Sym('|')] + ShowPipe(c.right) else ShowExec(c)
  }

  function ShowBacks(c: Cmd): seq<Tok>
    decreases c, if c.List? then 6 else 2
  {
    if c.Back? then ShowBacks(c.cmd) + [Sym('&')] else ShowPipe(c)
  }

  function ShowLine(c: Cmd): seq<Tok>
    decreases c, 3
  {
    if c.List? then ShowBacks(c.left) + [Sym(';')] + ShowLine(c.right) else ShowBacks(c)
  }

  // ------------------------------------------------------------------ it parses

  lemma {:induction false} WordsFirst(args: seq<Word>, rs: seq<Tok>)
    requires IsItems(rs)
    ensures var ts := Words(args) + rs;
      IsItems(ts) && Args(ts) == args + Args(rs) && Redirs(ts) == Redirs(rs)
  {
    if args == [] {
      assert Words(args) + rs == rs;
    } else {
      WordsFirst(args[1..], rs);
      assert (Words(args) + rs)[1..] == Words(args[1..]) + rs;
      assert args == [args[0]] + args[1..];
    }
  }

  lemma {:induction false} ItemsAnd(ts: seq<Tok>, k: char, w: Word)
    requires IsItems(ts) && (k == '<' || k == '>')
    ensures var us := ts + [Sym(k), Tok('a', w)];
      IsItems(us) && Args(us) == Args(ts) && Redirs(us) == Redirs(ts) + [RedirOf(k, w)]
    decreases |ts|
  {
    var us := ts + [Sym(k), Tok('a', w)];
    if ts == [] {
      assert us[2..] == [];
    } else if ts[0].kind == 'a' {
      ItemsAnd(ts[1..], k, w);
      assert us[1..] == ts[1..] + [Sym(k), Tok('a', w)];
    } else {
      ItemsAnd(ts[2..], k, w);
      assert us[2..] == ts[2..] + [Sym(k), Tok('a', w)];
      assert Redirs(us) == [RedirOf(ts[0].kind, ts[1].w)] + Redirs(us[2..]);
    }
  }

  /** What a command is without the redirections around it, and these. */
  function Core(c: Cmd): Cmd {
    if c.Redir? then Core(c.cmd) else c
  }

  function Around(c: Cmd): seq<Redirection> {
    if c.Redir? then Around(c.cmd) + [Redirection(c.file, c.mode, c.fd)] else []
  }

  function ShowRedirs(c: Cmd): seq<Tok> {
    if c.Redir? then ShowRedirs(c.cmd) + [Sym(RedirSym(c.mode, c.fd)), Tok('a', c.file)] else []
  }

  lemma {:induction false} CoreAround(c: Cmd)
    requires Buildable(c)
    ensures Wrap(Core(c), Around(c)) == c && !Core(c).Redir? && Buildable(Core(c))
    ensures ShowExec(c) == ShowExec(Core(c)) + ShowRedirs(c)
    ensures IsItems(ShowRedirs(c)) && Args(ShowRedirs(c)) == [] && Redirs(ShowRedirs(c)) == Around(c)
  {
    if c.Redir? {
      CoreAround(c.cmd);
      ItemsAnd(ShowRedirs(c.cmd), RedirSym(c.mode, c.fd), c.file);
      assert Around(c)[..|Around(c)| - 1] == Around(c.cmd);
    } else {
      assert ShowExec(c) + [] == ShowExec(c);
    }
  }

  lemma {:induction false} ExecShown(c: Cmd)
    requires Buildable(c)
    ensures IsExec(ShowExec(c), c)
    decreases c, if Simple(c) then 0 else 4
  {
    CoreAround(c);
    var d, rs := Core(c), ShowRedirs(c);
    if d.Exec? {
      WordsFirst(d.args, rs);
      assert d.args + [] == d.args;
    } else {
      CoreSmaller(c);
      LineShown(d);
      BlockShown(c, d, rs, ShowLine(d));
    }
  }

  lemma {:induction false} CoreSmaller(c: Cmd)
    ensures c.Redir? ==> Core(c) < c
    ensures !c.Redir? ==> Core(c) == c
  {
    if c.Redir? {
      CoreSmaller(c.cmd);
    }
  }

  lemma BlockShown(c: Cmd, d: Cmd, rs: seq<Tok>, ls: seq<Tok>)
    requires IsLine(ls, d) && IsItems(rs) && Args(rs) == [] && c == Wrap(d, Redirs(rs))
    ensures IsExec([Sym('(')] + ls + [Sym(')')] + rs, c)
  {
    var ts, k := [Sym('(')] + ls + [Sym(')')] + rs, |ls| + 1;
    assert ts[1..k] == ls && ts[k + 1..] == rs;
    assert IsBlock(ts, c, k, d);
  }

  lemma {:induction false} PipeShown(c: Cmd)
    requires Buildable(c)
    ensures IsPipe(ShowPipe(c), c)
    decreases c, if Simple(c) || c.Pipe? then 1 else 5
  {
    if c.Pipe? {
      ExecShown(c.left);
      PipeShown(c.right);
      var ts, k := ShowPipe(c), |ShowExec(c.left)|;
      assert ts[k].kind == '|' && ts[..k] == ShowExec(c.left) && ts[k + 1..] == ShowPipe(c.right);
    } else {
      ExecShown(c);
    }
  }

  lemma {:induction false} BacksShown(c: Cmd)
    requires Buildable(c)
    ensures IsBacks(ShowBacks(c), c)
    decreases c, if c.List? then 6 else 2
  {
    if c.Back? {
      BacksShown(c.cmd);
      var ts := ShowBacks(c);
      assert ts[..|ts| - 1] == ShowBacks(c.cmd);
    } else {
      PipeShown(c);
    }
  }

  lemma {:induction false} LineShown(c: Cmd)
    requires Buildable(c)
    ensures IsLine(ShowLine(c), c)
    decreases c, 3
  {
    if c.List? {
      BacksShown(c.left);
      LineShown(c.right);
      var ts, k := ShowLine(c), |ShowBacks(c.left)|;
      assert ts[k].kind == ';' && ts[..k] == ShowBacks(c.left) && ts[k + 1..] == ShowLine(c.right);
    } else {
      BacksShown(c);
    }
  }

  /** Round trip: recursive descent makes of the line of a command the command, with
      its arguments, redirections and parts in their order. */
  lemma ShownParses(c: Cmd)
    requires Buildable(c)
    ensures LineOf(ShowLine(c)) == Done(c, [])
  {
    LineShown(c);
    AcceptsExactly(ShowLine(c), c);
  }
}
