/** The shell's parser (src/user/sh.c): recursive descent over one line, with a
    shared cursor, and the pass that ends every word with a NUL in place. A result
    with `ok` false stands for a panic. Each parsing method is tied to the parser on
    token sequences of `ShellGrammar`. */
module Shell {
  import opened ShellGrammar

  class Parser {
    /** The line and the NUL behind it; `s` is the cursor, `es` the end. */
    const buf: array<char>
    const es: nat
    var s: nat

    constructor (line: seq<char>)
      requires forall j :: 0 <= j < |line| ==> line[j] != NUL
      ensures Valid() && s == 0 && Line() == line && fresh(buf)
    {
      buf := new char[|line| + 1](i requires 0 <= i <= |line| => if i < |line| then line[i] else NUL);
      es := |line|;
      s := 0;
      new;
      assert buf[..es] == line;
    }

    function Line(): seq<char>
      requires es < buf.Length
      reads buf
    {
      buf[..es]
    }

    ghost predicate Valid()
      reads this, buf
    {
      && buf.Length == es + 1 && s <= es && buf[es] == NUL
      && (forall j :: 0 <= j < es ==> buf[j] != NUL)
    }

    /** The tokens that are left. */
    ghost function Left(): seq<Tok>
      requires Valid()
      reads this, buf
    {
      Toks(Line(), s)
    }

    /** The loop over blanks. */
    method SkipSpace()
      requires Valid()
      modifies this`s
      ensures Valid() && old(s) <= s == BlankEnd(Line(), old(s)) && !IsSpace(buf[s]) && Left() == old(Left())
    {
      ghost var b := Line();
      var t := s;
      while t < es && IsSpace(buf[t])
        invariant s <= t <= es && BlankEnd(b, s) == BlankEnd(b, t) && b == Line()
      {
        t := t + 1;
      }
      s := t;
    }

    /** peek: whether the next token starts with one of the characters. */
    method Peek(toks: string) returns (r: bool)
      requires Valid() && forall x :: x in toks ==> IsSymbol(x)
      modifies this`s
      ensures Valid() && old(s) <= s && Left() == old(Left())
      ensures r <==> Leads(Left(), toks)
      ensures s == es <==> Left() == []
    {
      SkipSpace();
      r := buf[s] != NUL && buf[s] in toks;
      assert BlankEnd(Line(), s) == s;
      if s < es {
        assert buf[s] == Line()[s];
      }
    }

    /** The switch of gettoken, at a character that is no blank. */
    method Token() returns (tok: char)
      requires Valid() && !IsSpace(buf[s])
      modifies this`s
      ensures Valid() && old(s) <= s
      ensures if old(s) == es then tok == NUL && s == old(s) else Tok(tok, Word(old(s), s)) == FirstTok(Line(), old(s))
    {
      ghost var b := Line();
      tok := buf[s];
      if tok == NUL {
      } else if IsSymbol(tok) {
        s := s + 1;
        if tok == '>' && buf[s] == '>' {
          tok := '+';
          s := s + 1;
        }
      } else {
        tok := 'a';
        var t := s;
        while t < es && !IsSpace(buf[t]) && !IsSymbol(buf[t])
          invariant s <= t <= es && WordEnd(b, s) == WordEnd(b, t) && b == Line()
        {
          t := t + 1;
        }
        s := t;
      }
    }

    /** gettoken: the next token, NUL at the end. */
    method Gettoken() returns (tok: char, w: Word)
      requires Valid()
      modifies this`s
      ensures Valid() && old(s) <= s
      ensures if tok == NUL then old(Left()) == [] && Left() == [] else old(s) < s && old(Left()) == [Tok(tok, w)] + Left()
    {
      SkipSpace();
      var q := s;
      assert BlankEnd(Line(), q) == q;
      tok := Token();
      var eq := s;
      w := Word(q, eq);
      SkipSpace();
    }

    /** One redirection, at its symbol. */
    method ParseRedir() returns (ok: bool, r: Redirection)
      requires Valid() && Leads(Left(), "<>")
      modifies this`s
      ensures Valid() && old(s) < s
      ensures var ts := old(Left());
        ok == (|ts| >= 2 && ts[1].kind == 'a') && (ok ==> r == RedirOf(ts[0].kind, ts[1].w) && Left() == ts[2..])
    {
      ghost var left := Left();
      var tok, _ := Gettoken();
      ghost var behind := Left();
      assert left[1..] == behind;
      var kind, w := Gettoken();
      ok := kind == 'a';
      r := RedirOf(tok, w);
      if kind != NUL {
        assert behind[1..] == Left() && left[1] == behind[0];
      }
    }

    /** parseredirs, adding to the redirections around a command. */
    method ParseRedirs(rs0: seq<Redirection>) returns (ok: bool, rs: seq<Redirection>)
      requires Valid()
      modifies this`s
      ensures Valid() && old(s) <= s
      ensures var r := RedirsOf(old(Left())); ok == r.Done? && (ok ==> rs == rs0 + r.value && Left() == r.rest)
    {
      rs := rs0;
      ghost var r0 := RedirsOf(Left());
      while true
        invariant Valid() && old(s) <= s
        invariant Behind(rs0, r0) == Behind(rs, RedirsOf(Left()))
        decreases es - s
      {
        ghost var left := Left();
        var more := Peek("<>");
        if !more {
          break;
        }
        var r;
        ok, r := ParseRedir();
        if !ok {
          return;
        }
        BehindOne(rs, left);
        rs := rs + [r];
      }
      assert rs + [] == rs;
      ok := true;
    }

    /** The loop of parseexec: the arguments and the redirections among them. */
    method ParseArgs() returns (ok: bool, args: seq<Word>, rs: seq<Redirection>)
      requires Valid()
      modifies this`s
      ensures Valid() && old(s) <= s
      ensures ok ==> ItemsOf(old(Left())) == Done(Simple(args, rs), Left()) && |args| < MAXARGS
      ensures !ok ==> ItemsOf(old(Left())) == Fail || |ItemsOf(old(Left())).value.args| >= MAXARGS
    {
      args := [];
      ghost var r0 := ItemsOf(Left());
      ok, rs := ParseRedirs([]);
      assert ok ==> rs == RedirsOf(old(Left())).value;
      while ok
        invariant Valid() && old(s) <= s && |args| < MAXARGS
        invariant if ok then r0 == Ahead(args, rs, WordsOf(Left())) else r0 == Fail
        decreases ok, es - s
      {
        var stop := Peek("|)&;");
        if stop {
          AheadEnd(args, rs, Left());
          return;
        }
        ghost var left := Left();
        var tok, w := Gettoken();
        if tok == NUL {
          AheadEnd(args, rs, Left());
          return;
        }
        if tok != 'a' {
          return false, args, rs;
        }
        AheadWord(args, rs, left);
        args := args + [w];
        if |args| >= MAXARGS {
          return false, args, rs;
        }
        assert left[1..] == Left();
        left := Left();
        ghost var rs1 := rs;
        ok, rs := ParseRedirs(rs);
        if ok {
          AheadTwice(args, rs1, [], RedirsOf(left).value, WordsOf(Left()));
          assert args + [] == args;
        }
      }
    }

    /** parseexec. */
    method ParseExec() returns (ok: bool, c: Cmd)
      requires Valid()
      modifies this`s
      ensures Valid() && old(s) <= s && (ok ==> ExecOf(old(Left())) == Done(c, Left())) && (!ok ==> ExecOf(old(Left())) == Fail)
      decreases es - s, 1
    {
      var block := Peek("(");
      if block {
        ok, c := ParseBlock();
      } else {
        var args, rs;
        ok, args, rs := ParseArgs();
        c := Wrap(Exec(args), rs);
      }
    }

    /** parseblock, at an opening parenthesis. */
    method ParseBlock() returns (ok: bool, c: Cmd)
      requires Valid() && Leads(Left(), "(")
      modifies this`s
      ensures Valid() && old(s) <= s && (ok ==> BlockOf(old(Left())) == Done(c, Left())) && (!ok ==> BlockOf(old(Left())) == Fail)
      decreases es - s, 0
    {
      ghost var left := Left();
      var _, _ := Gettoken();
      assert left[1..] == Left();
      ok, c := ParseLine();
      if !ok {
        return;
      }
      ok, c := ParseClose(c);
    }

    /** The closing parenthesis and the redirections behind it. */
    method ParseClose(c: Cmd) returns (ok: bool, d: Cmd)
      requires Valid()
      modifies this`s
      ensures Valid() && old(s) <= s && (ok ==> CloseOf(c, old(Left())) == Done(d, Left())) && (!ok ==> CloseOf(c, old(Left())) == Fail)
    {
      ghost var left := Left();
      d := c;
      var close := Peek(")");
      if !close {
        return false, d;
      }
      var _, _ := Gettoken();
      assert left[1..] == Left();
      var rs;
      ghost var behind := Left();
      ok, rs := ParseRedirs([]);
      assert ok ==> rs == RedirsOf(behind).value;
      d := Wrap(c, rs);
    }

    /** parsepipe. */
    method ParsePipe() returns (ok: bool, c: Cmd)
      requires Valid()
      modifies this`s
      ensures Valid() && old(s) <= s && (ok ==> PipeOf(old(Left())) == Done(c, Left())) && (!ok ==> PipeOf(old(Left())) == Fail)
      decreases es - s, 2
    {
      ok, c := ParseExec();
      if !ok {
        return;
      }
      ghost var left := Left();
      var more := Peek("|");
      if more {
        var _, _ := Gettoken();
        assert left[1..] == Left();
        var right;
        ok, right := ParsePipe();
        c := Pipe(c, right);
      }
    }

    /** The `&`s behind a pipeline. */
    method ParseBacks(c0: Cmd) returns (c: Cmd)
      requires Valid()
      modifies this`s
      ensures Valid() && old(s) <= s && BacksOf(c0, old(Left())) == (c, Left()) && !Leads(Left(), "&")
    {
      c := c0;
      while true
        invariant Valid() && old(s) <= s && BacksOf(c0, old(Left())) == BacksOf(c, Left())
        decreases es - s
      {
        ghost var left := Left();
        var back := Peek("&");
        if !back {
          break;
        }
        var _, _ := Gettoken();
        assert left[1..] == Left();
        c := Back(c);
      }
    }

    /** parseline. */
    method ParseLine() returns (ok: bool, c: Cmd)
      requires Valid()
      modifies this`s
      ensures Valid() && old(s) <= s && (ok ==> LineOf(old(Left())) == Done(c, Left())) && (!ok ==> LineOf(old(Left())) == Fail)
      decreases es - s, 3
    {
      ok, c := ParsePipe();
      if !ok {
        return;
      }
      c := ParseBacks(c);
      ghost var left := Left();
      var more := Peek(";");
      if more {
        var _, _ := Gettoken();
        assert left[1..] == Left();
        var right;
        ok, right := ParseLine();
        c := List(c, right);
      }
    }

    /** The loop of nulterminate over the arguments. */
    method EndArgs(args: seq<Word>)
      requires forall w :: w in multiset(args) ==> w.eq < buf.Length
      modifies buf
      ensures forall j :: 0 <= j < buf.Length ==> buf[j] == if EndsAt(Exec(args), j) then NUL else old(buf[j])
    {
      var i := 0;
      while i < |args|
        invariant 0 <= i <= |args|
        invariant forall j :: 0 <= j < buf.Length ==> buf[j] == if EndsAt(Exec(args[..i]), j) then NUL else old(buf[j])
      {
        assert args[i] in multiset(args);
        ArgsEnd(args, i);
        buf[args[i].eq] := NUL;
        i := i + 1;
      }
      assert args[..i] == args;
    }

    /** nulterminate: a NUL goes behind every word of the command, and nowhere
        else. */
    method Nulterminate(c: Cmd)
      requires forall w :: w in CmdWords(c) ==> w.eq < buf.Length
      modifies buf
      ensures forall j :: 0 <= j < buf.Length ==> buf[j] == if EndsAt(c, j) then NUL else old(buf[j])
      decreases c
    {
      match c
      case Exec(args) =>
        EndArgs(args);
      case Redir(d, file, _, _) =>
        Nulterminate(d);
        buf[file.eq] := NUL;
      case Pipe(l, r) =>
        Nulterminate(l);
        Nulterminate(r);
      case List(l, r) =>
        Nulterminate(l);
        Nulterminate(r);
      case Back(d) =>
        Nulterminate(d);
    }

    /** After nulterminate the words of the line are strings. */
    method Terminate(c: Cmd, ghost line: seq<char>)
      requires Valid() && line == Line() && forall w :: w in CmdWords(c) ==> IsRun(line, w)
      modifies buf
      ensures forall w :: w in CmdWords(c) ==> w.q < w.eq <= es && CString(buf[..], w.q) == line[w.q..w.eq]
    {
      Nulterminate(c);
      forall w | w in CmdWords(c) ensures CString(buf[..], w.q) == line[w.q..w.eq] {
        assert EndsAt(c, w.eq);
        forall j | w.q <= j < w.eq ensures buf[..][j] == line[j] {
          NoEndInside(line, c, w, j);
        }
        WordSurvives(line, buf[..], w);
      }
    }

    /** parsecmd, on a line from its start. It succeeds exactly on the lines that the
        grammar derives, with the one command that it derives; and the string of
        each word, read up to the NUL, is the word. */
    method ParseCmd() returns (ok: bool, c: Cmd)
      requires Valid() && s == 0
      modifies this, buf
      ensures ok ==> IsLine(Toks(old(Line()), 0), c)
      ensures !ok ==> forall d :: !IsLine(Toks(old(Line()), 0), d)
      ensures ok ==> forall w :: w in CmdWords(c) ==> w.q < w.eq <= es && CString(buf[..], w.q) == old(Line())[w.q..w.eq]
    {
      ghost var line, ts := Line(), Left();
      forall d ensures IsLine(ts, d) <==> LineOf(ts) == Done(d, []) {
        AcceptsExactly(ts, d);
      }
      ok, c := ParseLine();
      if !ok {
        return;
      }
      var _ := Peek("");
      if s != es {
        return false, c;
      }
      LineWords(ts, c);
      forall w | w in CmdWords(c) ensures IsRun(line, w) {
        TokWordsIn(ts, w);
        ToksAreRuns(line, 0, w);
      }
      Terminate(c, line);
    }
  }

  /** More redirections behind those read so far. */
  function Behind(rs: seq<Redirection>, r: Parse<seq<Redirection>>): Parse<seq<Redirection>> {
    match r
    case Fail => Fail
    case Done(more, rest) => Done(rs + more, rest)
  }

  lemma BehindOne(rs: seq<Redirection>, ts: seq<Tok>)
    requires Leads(ts, "<>") && |ts| >= 2 && ts[1].kind == 'a'
    ensures Behind(rs, RedirsOf(ts)) == Behind(rs + [RedirOf(ts[0].kind, ts[1].w)], RedirsOf(ts[2..]))
  {
    var r := RedirsOf(ts[2..]);
    if r.Done? {
      Assoc(rs, [RedirOf(ts[0].kind, ts[1].w)], r.value);
    }
  }

  lemma AheadEnd(args: seq<Word>, rs: seq<Redirection>, ts: seq<Tok>)
    requires ts == [] || Leads(ts, "|)&;")
    ensures Ahead(args, rs, WordsOf(ts)) == Done(Simple(args, rs), ts)
  {
    assert args + [] == args && rs + [] == rs;
  }

  lemma AheadWord(args: seq<Word>, rs: seq<Redirection>, ts: seq<Tok>)
    requires ts != [] && ts[0].kind == 'a'
    ensures Ahead(args, rs, WordsOf(ts)) == Ahead(args + [ts[0].w], rs, ItemsOf(ts[1..]))
  {
    AheadTwice(args, rs, [ts[0].w], [], ItemsOf(ts[1..]));
    assert rs + [] == rs;
  }

  /** A word of the command ends at `j`. */
  ghost predicate EndsAt(c: Cmd, j: int) {
    exists w :: w in CmdWords(c) && w.eq == j
  }

  lemma ArgsEnd(args: seq<Word>, i: nat)
    requires i < |args|
    ensures forall j :: EndsAt(Exec(args[..i + 1]), j) <==> EndsAt(Exec(args[..i]), j) || j == args[i].eq
  {
    assert args[..i + 1] == args[..i] + [args[i]];
    forall j ensures EndsAt(Exec(args[..i + 1]), j) <==> EndsAt(Exec(args[..i]), j) || j == args[i].eq {
      if j == args[i].eq {
        assert args[i] in CmdWords(Exec(args[..i + 1]));
      }
      if EndsAt(Exec(args[..i]), j) {
        var w :| w in CmdWords(Exec(args[..i])) && w.eq == j;
        assert w in CmdWords(Exec(args[..i + 1]));
      }
    }
  }

  /** The string at `q`, up to a NUL. */
  function CString(b: seq<char>, q: nat): seq<char>
    decreases |b| - q
  {
    if q >= |b| || b[q] == NUL then [] else [b[q]] + CString(b, q + 1)
  }

  lemma {:induction false} CStringIs(b: seq<char>, q: nat, e: nat)
    requires q <= e < |b| && b[e] == NUL && forall j :: q <= j < e ==> b[j] != NUL
    ensures CString(b, q) == b[q..e]
    decreases e - q
  {
    if q < e {
      CStringIs(b, q + 1, e);
      assert b[q..e] == [b[q]] + b[q + 1..e];
    }
  }

  /** Every NUL that `nulterminate` writes falls outside all words. */
  lemma NoEndInside(line: seq<char>, c: Cmd, w: Word, j: nat)
    requires (forall v :: v in CmdWords(c) ==> IsRun(line, v)) && IsRun(line, w) && w.q <= j < w.eq
    ensures !EndsAt(c, j)
  {
    assert IsWordChar(line[j]);
    forall v | v in CmdWords(c) ensures v.eq != j {
      assert IsRun(line, v);
    }
  }

  lemma WordSurvives(line: seq<char>, b: seq<char>, w: Word)
    requires |b| == |line| + 1 && IsRun(line, w) && b[w.eq] == NUL && forall j :: w.q <= j < w.eq ==> b[j] == line[j]
    ensures CString(b, w.q) == line[w.q..w.eq]
  {
    forall j | w.q <= j < w.eq ensures b[j] != NUL {
      assert IsWordChar(line[j]);
    }
    CStringIs(b, w.q, w.eq);
  }
}
