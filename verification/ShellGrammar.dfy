/** The command language of the shell (src/user/sh.c): the tokens of a line, the
    grammar, and a parser on token sequences that is proved to accept exactly what
    the grammar derives. */
module ShellGrammar {
  const NUL: char := '\0'
  const MAXARGS := 10

  predicate IsSpace(c: char) {
    c == ' ' || c == '\t' || c == '\r' || c == '\n' || c == 11 as char
  }

  predicate IsSymbol(c: char) {
    c == '<' || c == '|' || c == '>' || c == '&' || c == ';' || c == '(' || c == ')'
  }

  predicate IsWordChar(c: char) {
    c != NUL && !IsSpace(c) && !IsSymbol(c)
  }

  /** A word by its place in the line: from `q` up to `eq`. */
  datatype Word = Word(q: nat, eq: nat)

  datatype Cmd =
    | Exec(args: seq<Word>)
    | Redir(cmd: Cmd, file: Word, mode: int, fd: int)
    | Pipe(left: Cmd, right: Cmd)
    | List(left: Cmd, right: Cmd)
    | Back(cmd: Cmd)

  // ------------------------------------------------------------------ tokens

  /** What `gettoken` returns: 'a' for a word, '+' for `>>`, else the symbol; and
      the place in the line. */
  datatype Tok = Tok(kind: char, w: Word)

  /** Where the run of word characters at `s` ends. */
  function WordEnd(b: seq<char>, s: nat): (e: nat)
    requires s <= |b|
    ensures s <= e <= |b| && (forall j :: s <= j < e ==> IsWordChar(b[j])) && (e == |b| || !IsWordChar(b[e]))
    decreases |b| - s
  {
    if s == |b| || !IsWordChar(b[s]) then s else WordEnd(b, s + 1)
  }

  /** Where the blanks at `s` end. */
  function BlankEnd(b: seq<char>, s: nat): (e: nat)
    requires s <= |b|
    ensures s <= e <= |b| && (forall j :: s <= j < e ==> IsSpace(b[j])) && (e == |b| || !IsSpace(b[e]))
    decreases |b| - s
  {
    if s == |b| || !IsSpace(b[s]) then s else BlankEnd(b, s + 1)
  }

  /** The tokens of a line from `s` on; there is no NUL in it. */
  function Toks(b: seq<char>, s: nat): seq<Tok>
    requires s <= |b|
    decreases |b| - s
  {
    var t := BlankEnd(b, s);
    if t == |b| || b[t] == NUL then [] else [FirstTok(b, t)] + Toks(b, FirstTok(b, t).w.eq)
  }

  /** The token at a character that is no blank. */
  function FirstTok(b: seq<char>, t: nat): (x: Tok)
    requires t < |b| && !IsSpace(b[t]) && b[t] != NUL
    ensures x.w.q == t < x.w.eq <= |b|
    ensures x.kind == 'a' <==> !IsSymbol(b[t])
    ensures x.kind == 'a' ==> x.w.eq == WordEnd(b, t)
    ensures x.kind != 'a' ==> forall j :: t <= j < x.w.eq ==> IsSymbol(b[j])
    ensures IsSymbol(b[t]) ==> Lead(x) == b[t]
  {
    if b[t] == '>' && t + 1 < |b| && b[t + 1] == '>' then Tok('+', Word(t, t + 2))
    else if IsSymbol(b[t]) then Tok(b[t], Word(t, t + 1))
    else
      assert IsWordChar(b[t]);
      Tok('a', Word(t, WordEnd(b, t)))
  }

  /** A longest run of word characters. */
  ghost predicate IsRun(b: seq<char>, w: Word) {
    && w.q < w.eq <= |b| && (forall j :: w.q <= j < w.eq ==> IsWordChar(b[j]))
    && (w.q == 0 || !IsWordChar(b[w.q - 1])) && (w.eq == |b| || !IsWordChar(b[w.eq]))
  }

  /** `s` does not lie within a word. */
  predicate Between(b: seq<char>, s: nat) {
    s <= |b| && (s == 0 || s == |b| || !IsWordChar(b[s - 1]) || !IsWordChar(b[s]))
  }

  /** The word tokens are exactly the longest runs of characters that are neither
      blank nor symbol. */
  lemma {:induction false} ToksAreRuns(b: seq<char>, s: nat, w: Word)
    requires Between(b, s) && forall j :: 0 <= j < |b| ==> b[j] != NUL
    ensures Tok('a', w) in Toks(b, s) <==> IsRun(b, w) && s <= w.q
    decreases |b| - s
  {
    var t := BlankEnd(b, s);
    if IsRun(b, w) && s <= w.q {
      assert IsWordChar(b[w.q]) && t <= w.q;
    }
    if t < |b| {
      var x := FirstTok(b, t);
      ToksAreRuns(b, x.w.eq, w);
      InCons(x, Toks(b, x.w.eq), Tok('a', w));
      if !IsSymbol(b[t]) {
        RunAt(b, s, t, w);
      }
    }
  }

  lemma InCons<T>(x: T, xs: seq<T>, y: T)
    ensures y in [x] + xs <==> y == x || y in xs
  {
  }

  lemma RunAt(b: seq<char>, s: nat, t: nat, w: Word)
    requires Between(b, s) && s <= t < |b| && IsWordChar(b[t]) && forall j :: s <= j < t ==> IsSpace(b[j])
    ensures IsRun(b, w) && t <= w.q < WordEnd(b, t) <==> w == Word(t, WordEnd(b, t))
  {
    if IsRun(b, w) && t <= w.q < WordEnd(b, t) {
      assert w.q == t;
    }
  }

  /** The tokens stand in the order of the line, none touching another. */
  lemma {:induction false} ToksInOrder(b: seq<char>, s: nat, j: nat, k: nat)
    requires s <= |b| && j < k < |Toks(b, s)|
    ensures s <= Toks(b, s)[j].w.q < Toks(b, s)[j].w.eq <= Toks(b, s)[k].w.q
    decreases |b| - s
  {
    var t := BlankEnd(b, s);
    var e := Toks(b, s)[0].w.eq;
    assert Toks(b, s)[1..] == Toks(b, e);
    if j > 0 {
      ToksInOrder(b, e, j - 1, k - 1);
    } else {
      ToksFrom(b, e, k - 1);
    }
  }

  lemma {:induction false} ToksFrom(b: seq<char>, s: nat, k: nat)
    requires s <= |b| && k < |Toks(b, s)|
    ensures s <= Toks(b, s)[k].w.q < Toks(b, s)[k].w.eq <= |b|
    decreases |b| - s
  {
    if k > 0 {
      var e := Toks(b, s)[0].w.eq;
      assert Toks(b, s)[1..] == Toks(b, e);
      ToksFrom(b, e, k - 1);
    }
  }

  /** The first character of a token, as `peek` sees it. */
  function Lead(t: Tok): char {
    if t.kind == '+' then '>' else t.kind
  }

  predicate Leads(ts: seq<Tok>, toks: string) {
    ts != [] && Lead(ts[0]) in toks
  }

  // ----------------------------------------------------------------- grammar

  const O_RDONLY := 0
  const O_WRONLY := 1
  const O_CREATE := 0x200

  datatype Redirection = Redirection(file: Word, mode: int, fd: int)

  function RedirOf(kind: char, w: Word): Redirection {
    if kind == '<' then Redirection(w, O_RDONLY, 0) else Redirection(w, O_WRONLY + O_CREATE, 1)
  }

  /** Redirections put around a command, the first one innermost. */
  function Wrap(c: Cmd, rs: seq<Redirection>): Cmd {
    if rs == [] then c
    else var r := rs[|rs| - 1]; Redir(Wrap(c, rs[..|rs| - 1]), r.file, r.mode, r.fd)
  }

  /** A simple command is a series of words and redirections. */
  predicate IsItems(ts: seq<Tok>) {
    || ts == []
    || (ts[0].kind == 'a' && IsItems(ts[1..]))
    || (Leads(ts, "<>") && |ts| >= 2 && ts[1].kind == 'a' && IsItems(ts[2..]))
  }

  /** Its arguments in order, and its redirections in order. */
  function Args(ts: seq<Tok>): seq<Word> {
    if ts == [] then []
    else if ts[0].kind == 'a' then [ts[0].w] + Args(ts[1..])
    else if |ts| >= 2 then Args(ts[2..])
    else []
  }

  function Redirs(ts: seq<Tok>): seq<Redirection> {
    if ts == [] then []
    else if ts[0].kind == 'a' then Redirs(ts[1..])
    else if |ts| >= 2 then [RedirOf(ts[0].kind, ts[1].w)] + Redirs(ts[2..])
    else []
  }

  /** exec: words and redirections, or a line in parentheses with redirections
      behind. */
  ghost predicate IsExec(ts: seq<Tok>, c: Cmd)
    decreases |ts|, 1
  {
    || (IsItems(ts) && |Args(ts)| < MAXARGS && c == Wrap(Exec(Args(ts)), Redirs(ts)))
    || (exists k, d :: IsBlock(ts, c, k, d))
  }

  ghost predicate IsBlock(ts: seq<Tok>, c: Cmd, k: nat, d: Cmd)
    decreases |ts|, 0
  {
    && 1 <= k < |ts| && ts[0].kind == '(' && ts[k].kind == ')' && IsLine(ts[1..k], d)
    && IsItems(ts[k + 1..]) && Args(ts[k + 1..]) == [] && c == Wrap(d, Redirs(ts[k + 1..]))
  }

  /** pipe: exec | pipe */
  ghost predicate IsPipe(ts: seq<Tok>, c: Cmd)
    decreases |ts|, 2
  {
    || IsExec(ts, c)
    || (c.Pipe? && exists k :: 0 <= k < |ts| && ts[k].kind == '|' && IsExec(ts[..k], c.left) && IsPipe(ts[k + 1..], c.right))
  }

  /** A pipe and the `&`s behind it. */
  ghost predicate IsBacks(ts: seq<Tok>, c: Cmd)
    decreases |ts|, 3
  {
    || IsPipe(ts, c)
    || (c.Back? && ts != [] && ts[|ts| - 1].kind == '&' && IsBacks(ts[..|ts| - 1], c.cmd))
  }

  /** line: pipe & ; line */
  ghost predicate IsLine(ts: seq<Tok>, c: Cmd)
    decreases |ts|, 4
  {
    || IsBacks(ts, c)
    || (c.List? && exists k :: 0 <= k < |ts| && ts[k].kind == ';' && IsBacks(ts[..k], c.left) && IsLine(ts[k + 1..], c.right))
  }

  // ------------------------------------------- recursive descent on sequences

  datatype Parse<+T> = Fail | Done(value: T, rest: seq<Tok>)

  function RedirsOf(ts: seq<Tok>): (r: Parse<seq<Redirection>>)
    ensures r.Done? ==> |r.rest| <= |ts|
  {
    if !Leads(ts, "<>") then Done([], ts)
    else if |ts| < 2 || ts[1].kind != 'a' then Fail
    else
      match RedirsOf(ts[2..])
      case Fail => Fail
      case Done(rs, rest) => Done([RedirOf(ts[0].kind, ts[1].w)] + rs, rest)
  }

  datatype Simple = Simple(args: seq<Word>, rs: seq<Redirection>)

  /** Words and redirections, as far as they go. */
  function ItemsOf(ts: seq<Tok>): (r: Parse<Simple>)
    ensures r.Done? ==> |r.rest| <= |ts|
    decreases |ts|, 1
  {
    match RedirsOf(ts)
    case Fail => Fail
    case Done(rs, rest) => Ahead([], rs, WordsOf(rest))
  }

  /** The same behind the redirections. */
  function WordsOf(ts: seq<Tok>): (r: Parse<Simple>)
    ensures r.Done? ==> |r.rest| <= |ts|
    decreases |ts|, 0
  {
    if ts == [] || Leads(ts, "|)&;") then Done(Simple([], []), ts)
    else if ts[0].kind != 'a' then Fail
    else Ahead([ts[0].w], [], ItemsOf(ts[1..]))
  }

  function Ahead(args: seq<Word>, rs: seq<Redirection>, r: Parse<Simple>): Parse<Simple> {
    match r
    case Fail => Fail
    case Done(x, rest) => Done(Simple(args + x.args, rs + x.rs), rest)
  }

  function ExecOf(ts: seq<Tok>): (r: Parse<Cmd>)
    ensures r.Done? ==> |r.rest| <= |ts|
    decreases |ts|, 1
  {
    if Leads(ts, "(") then BlockOf(ts)
    else
      match ItemsOf(ts)
      case Fail => Fail
      case Done(x, rest) => if |x.args| < MAXARGS then Done(Wrap(Exec(x.args), x.rs), rest) else Fail
  }

  function BlockOf(ts: seq<Tok>): (r: Parse<Cmd>)
    requires Leads(ts, "(")
    ensures r.Done? ==> |r.rest| <= |ts|
    decreases |ts|, 0
  {
    match LineOf(ts[1..])
    case Fail => Fail
    case Done(c, rest) => CloseOf(c, rest)
  }

  function CloseOf(c: Cmd, ts: seq<Tok>): (r: Parse<Cmd>)
    ensures r.Done? ==> |r.rest| <= |ts|
  {
    if !Leads(ts, ")") then Fail
    else
      match RedirsOf(ts[1..])
      case Fail => Fail
      case Done(rs, rest) => Done(Wrap(c, rs), rest)
  }

  function PipeOf(ts: seq<Tok>): (r: Parse<Cmd>)
    ensures r.Done? ==> |r.rest| <= |ts|
    decreases |ts|, 2
  {
    match ExecOf(ts)
    case Fail => Fail
    case Done(c, rest) =>
      if !Leads(rest, "|") then Done(c, rest)
      else
        match PipeOf(rest[1..])
        case Fail => Fail
        case Done(d, rest2) => Done(Pipe(c, d), rest2)
  }

  /** The command with the `&`s behind it, and what follows them. */
  function BacksOf(c: Cmd, ts: seq<Tok>): (r: (Cmd, seq<Tok>))
    ensures |r.1| <= |ts|
    decreases |ts|
  {
    if Leads(ts, "&") then BacksOf(Back(c), ts[1..]) else (c, ts)
  }

  function LineOf(ts: seq<Tok>): (r: Parse<Cmd>)
    ensures r.Done? ==> |r.rest| <= |ts|
    decreases |ts|, 3
  {
    match PipeOf(ts)
    case Fail => Fail
    case Done(c, rest) =>
      var (d, rest2) := BacksOf(c, rest);
      if !Leads(rest2, ";") then Done(d, rest2)
      else
        match LineOf(rest2[1..])
        case Fail => Fail
        case Done(e, rest3) => Done(List(d, e), rest3)
  }

  // ------------------------------------------------------------ completeness

  /** What may stand behind an exec, a pipe, a line. */
  predicate Stops(rest: seq<Tok>, toks: string) {
    rest == [] || Lead(rest[0]) in toks
  }

  lemma {:induction false} RedirsComplete(ts: seq<Tok>, rest: seq<Tok>)
    requires IsItems(ts) && Args(ts) == [] && !Leads(rest, "<>")
    ensures RedirsOf(ts + rest) == Done(Redirs(ts), rest)
    decreases |ts|
  {
    if ts == [] {
      assert ts + rest == rest;
    } else {
      RedirsComplete(ts[2..], rest);
      assert (ts + rest)[2..] == ts[2..] + rest;
    }
  }

  lemma {:induction false} ItemsComplete(ts: seq<Tok>, rest: seq<Tok>)
    requires IsItems(ts) && Stops(rest, "|)&;")
    ensures ItemsOf(ts + rest) == Done(Simple(Args(ts), Redirs(ts)), rest)
    decreases |ts|
  {
    if ts == [] {
      assert ts + rest == rest;
      assert RedirsOf(rest) == Done([], rest);
    } else if ts[0].kind == 'a' {
      assert (ts + rest)[1..] == ts[1..] + rest;
      ItemsComplete(ts[1..], rest);
      assert RedirsOf(ts + rest) == Done([], ts + rest);
      assert WordsOf(ts + rest) == Ahead([ts[0].w], [], ItemsOf(ts[1..] + rest));
      AheadNothing(WordsOf(ts + rest));
      assert [] + Redirs(ts[1..]) == Redirs(ts[1..]);
    } else {
      assert (ts + rest)[2..] == ts[2..] + rest;
      ItemsComplete(ts[2..], rest);
      RedirAhead(ts + rest);
    }
  }

  /** A redirection in front. */
  lemma RedirAhead(ts: seq<Tok>)
    requires Leads(ts, "<>") && |ts| >= 2 && ts[1].kind == 'a'
    ensures ItemsOf(ts) == Ahead([], [RedirOf(ts[0].kind, ts[1].w)], ItemsOf(ts[2..]))
  {
    var r := [RedirOf(ts[0].kind, ts[1].w)];
    match RedirsOf(ts[2..])
    case Fail =>
    case Done(rs, rest) =>
      assert RedirsOf(ts) == Done(r + rs, rest);
      var none: seq<Word> := [];
      AheadTwice(none, r, none, rs, WordsOf(rest));
      assert none + none == none;
  }

  lemma AheadNothing(x: Parse<Simple>)
    ensures Ahead([], [], x) == x
  {
    if x.Done? {
      assert [] + x.value.args == x.value.args && [] + x.value.rs == x.value.rs;
    }
  }

  lemma AheadTwice(a: seq<Word>, r: seq<Redirection>, b: seq<Word>, s: seq<Redirection>, x: Parse<Simple>)
    ensures Ahead(a, r, Ahead(b, s, x)) == Ahead(a + b, r + s, x)
  {
    if x.Done? {
      assert a + (b + x.value.args) == a + b + x.value.args;
      assert r + (s + x.value.rs) == r + s + x.value.rs;
    }
  }

  lemma Cut(ts: seq<Tok>, k: nat, rest: seq<Tok>)
    requires k < |ts|
    ensures ts + rest == ts[..k] + (ts[k..] + rest)
    ensures (ts[k..] + rest)[0] == ts[k] && (ts[k..] + rest)[1..] == ts[k + 1..] + rest
  {
  }

  lemma CutTail(ts: seq<Tok>, k: nat, rest: seq<Tok>)
    requires 1 <= k < |ts|
    ensures (ts + rest)[0] == ts[0] && (ts + rest)[1..] == ts[1..k] + (ts[k..] + rest)
  {
  }

  lemma {:induction false} ExecComplete(ts: seq<Tok>, c: Cmd, rest: seq<Tok>)
    requires IsExec(ts, c) && Stops(rest, "|)&;")
    ensures ExecOf(ts + rest) == Done(c, rest)
    decreases |ts|, 1
  {
    if IsItems(ts) && |Args(ts)| < MAXARGS && c == Wrap(Exec(Args(ts)), Redirs(ts)) {
      ItemsComplete(ts, rest);
      assert !Leads(ts + rest, "(");
    } else {
      var k, d :| IsBlock(ts, c, k, d);
      BlockComplete(ts, c, k, d, rest);
    }
  }

  lemma {:induction false} BlockComplete(ts: seq<Tok>, c: Cmd, k: nat, d: Cmd, rest: seq<Tok>)
    requires IsBlock(ts, c, k, d) && Stops(rest, "|)&;")
    ensures ExecOf(ts + rest) == Done(c, rest)
    decreases |ts|, 0
  {
    var behind := ts[k..] + rest;
    Cut(ts, k, rest);
    CutTail(ts, k, rest);
    LineComplete(ts[1..k], d, behind);
    RedirsComplete(ts[k + 1..], rest);
    assert CloseOf(d, behind) == Done(c, rest);
    assert BlockOf(ts + rest) == Done(c, rest);
  }

  lemma {:induction false} PipeComplete(ts: seq<Tok>, c: Cmd, rest: seq<Tok>)
    requires IsPipe(ts, c) && Stops(rest, ")&;")
    ensures PipeOf(ts + rest) == Done(c, rest)
    decreases |ts|, 2
  {
    if IsExec(ts, c) {
      ExecComplete(ts, c, rest);
    } else {
      var k :| 0 <= k < |ts| && ts[k].kind == '|' && IsExec(ts[..k], c.left) && IsPipe(ts[k + 1..], c.right);
      var behind := ts[k..] + rest;
      Cut(ts, k, rest);
      ExecComplete(ts[..k], c.left, behind);
      PipeComplete(ts[k + 1..], c.right, rest);
    }
  }

  /** The pipe in front of the `&`s, which are taken one by one. */
  lemma {:induction false} BacksComplete(ts: seq<Tok>, c: Cmd, rest: seq<Tok>) returns (n: nat, p: Cmd)
    requires IsBacks(ts, c) && Stops(rest, ");&")
    ensures n <= |ts| && IsPipe(ts[..n], p) && Stops(ts[n..] + rest, ")&;")
    ensures BacksOf(p, ts[n..] + rest) == BacksOf(c, rest)
    decreases |ts|
  {
    if IsPipe(ts, c) {
      n, p := |ts|, c;
      assert ts[..n] == ts && ts[n..] + rest == rest;
    } else {
      var m := |ts| - 1;
      var behind := [ts[m]] + rest;
      n, p := BacksComplete(ts[..m], c.cmd, behind);
      assert ts[..m][..n] == ts[..n] && ts[..m][n..] + behind == ts[n..] + rest;
      assert behind[1..] == rest;
    }
  }

  lemma {:induction false} LineComplete(ts: seq<Tok>, c: Cmd, rest: seq<Tok>)
    requires IsLine(ts, c) && Stops(rest, ")")
    ensures LineOf(ts + rest) == Done(c, rest)
    decreases |ts|, 4
  {
    if IsBacks(ts, c) {
      PartComplete(ts, c, rest);
    } else {
      var k :| 0 <= k < |ts| && ts[k].kind == ';' && IsBacks(ts[..k], c.left) && IsLine(ts[k + 1..], c.right);
      var behind := ts[k..] + rest;
      Cut(ts, k, rest);
      PartComplete(ts[..k], c.left, behind);
      LineComplete(ts[k + 1..], c.right, rest);
    }
  }

  lemma {:induction false} PartComplete(ts: seq<Tok>, c: Cmd, rest: seq<Tok>)
    requires IsBacks(ts, c) && Stops(rest, ");")
    ensures PipeOf(ts + rest).Done? && BacksOf(PipeOf(ts + rest).value, PipeOf(ts + rest).rest) == (c, rest)
    decreases |ts|, 3
  {
    var n, p := BacksComplete(ts, c, rest);
    assert ts + rest == ts[..n] + (ts[n..] + rest);
    PipeComplete(ts[..n], p, ts[n..] + rest);
  }

  // --------------------------------------------------------------- soundness

  /** `rest` is what is left of `ts` behind its first `|ts| - |rest|` tokens. */
  predicate Suffix(ts: seq<Tok>, rest: seq<Tok>) {
    |rest| <= |ts| && rest == ts[|ts| - |rest|..]
  }

  function Front(ts: seq<Tok>, rest: seq<Tok>): seq<Tok>
    requires |rest| <= |ts|
  {
    ts[..|ts| - |rest|]
  }

  lemma Assoc<T>(a: seq<T>, b: seq<T>, c: seq<T>)
    ensures a + (b + c) == a + b + c
  {
  }

  lemma ItemWord(t: Tok, ts: seq<Tok>)
    requires t.kind == 'a' && IsItems(ts)
    ensures IsItems([t] + ts) && Args([t] + ts) == [t.w] + Args(ts) && Redirs([t] + ts) == Redirs(ts)
  {
    assert ([t] + ts)[1..] == ts;
  }

  lemma ItemRedir(t: Tok, u: Tok, ts: seq<Tok>)
    requires Leads([t], "<>") && u.kind == 'a' && IsItems(ts)
    ensures IsItems([t, u] + ts) && Args([t, u] + ts) == Args(ts) && Redirs([t, u] + ts) == [RedirOf(t.kind, u.w)] + Redirs(ts)
  {
    assert ([t, u] + ts)[2..] == ts;
  }

  lemma RedirParts(t: Tok, u: Tok, ts: seq<Tok>)
    requires t.kind != 'a'
    ensures Args([t, u] + ts) == Args(ts) && Redirs([t, u] + ts) == [RedirOf(t.kind, u.w)] + Redirs(ts)
  {
    assert ([t, u] + ts)[2..] == ts;
  }

  lemma FrontTail(ts: seq<Tok>, rest: seq<Tok>)
    requires ts != [] && Suffix(ts[1..], rest)
    ensures Suffix(ts, rest) && Front(ts, rest) == [ts[0]] + Front(ts[1..], rest)
  {
  }

  /** Suffixes of suffixes. */
  lemma FrontJoin(ts: seq<Tok>, mid: seq<Tok>, rest: seq<Tok>)
    requires Suffix(ts, mid) && Suffix(mid, rest)
    ensures Suffix(ts, rest) && Front(ts, rest) == Front(ts, mid) + Front(mid, rest)
  {
  }

  /** What follows the first token of a suffix. */
  lemma FrontCut(ts: seq<Tok>, mid: seq<Tok>, rest: seq<Tok>)
    requires Suffix(ts, mid) && mid != [] && Suffix(mid[1..], rest)
    ensures Suffix(ts, rest) && Suffix(mid, rest)
    ensures var f, k := Front(ts, rest), |ts| - |mid|; k < |f| && f[..k] == Front(ts, mid) && f[k] == mid[0] && f[k + 1..] == Front(mid[1..], rest)
    ensures Front(mid, rest) == [mid[0]] + Front(mid[1..], rest)
  {
  }

  lemma {:induction false} ItemsJoin(a: seq<Tok>, b: seq<Tok>)
    requires IsItems(a) && IsItems(b)
    ensures Joins(a, b)
    decreases |a|
  {
    if a == [] {
      assert a + b == b;
    } else if a[0].kind == 'a' {
      ItemsJoin(a[1..], b);
      JoinWord(a[0], a[1..], b);
      assert [a[0]] + a[1..] == a;
    } else {
      ItemsJoin(a[2..], b);
      JoinRedir(a[0], a[1], a[2..], b);
      assert [a[0], a[1]] + a[2..] == a;
    }
  }

  predicate Joins(a: seq<Tok>, b: seq<Tok>) {
    IsItems(a + b) && Args(a + b) == Args(a) + Args(b) && Redirs(a + b) == Redirs(a) + Redirs(b)
  }

  lemma JoinWord(t: Tok, a: seq<Tok>, b: seq<Tok>)
    requires t.kind == 'a' && IsItems(a) && Joins(a, b)
    ensures Joins([t] + a, b)
  {
    ItemWord(t, a);
    ItemWord(t, a + b);
    Assoc([t], a, b);
    Assoc([t.w], Args(a), Args(b));
  }

  lemma JoinRedir(t: Tok, u: Tok, a: seq<Tok>, b: seq<Tok>)
    requires Leads([t], "<>") && u.kind == 'a' && IsItems(a) && Joins(a, b)
    ensures Joins([t, u] + a, b)
  {
    ItemRedir(t, u, a);
    ItemRedir(t, u, a + b);
    Assoc([t, u], a, b);
    Assoc([RedirOf(t.kind, u.w)], Redirs(a), Redirs(b));
  }

  lemma {:induction false} RedirsSound(ts: seq<Tok>)
    requires RedirsOf(ts).Done?
    ensures var r := RedirsOf(ts);
      Suffix(ts, r.rest) && IsItems(Front(ts, r.rest)) && Args(Front(ts, r.rest)) == [] && Redirs(Front(ts, r.rest)) == r.value
    decreases |ts|
  {
    if Leads(ts, "<>") {
      RedirsSound(ts[2..]);
      var r := RedirsOf(ts);
      assert Front(ts, r.rest)[2..] == Front(ts[2..], r.rest);
    }
  }

  lemma {:induction false} ItemsSound(ts: seq<Tok>)
    requires ItemsOf(ts).Done?
    ensures var r := ItemsOf(ts);
      && Suffix(ts, r.rest) && IsItems(Front(ts, r.rest))
      && Args(Front(ts, r.rest)) == r.value.args && Redirs(Front(ts, r.rest)) == r.value.rs
    decreases |ts|
  {
    RedirsSound(ts);
    var mid := RedirsOf(ts).rest;
    if mid == [] || Leads(mid, "|)&;") {
      AheadStop(RedirsOf(ts).value, mid);
    } else {
      ItemsSound(mid[1..]);
      ItemsOfWord(ts, mid);
      WordParts(ts, mid, ItemsOf(mid[1..]).rest);
    }
  }

  lemma AheadStop(rs: seq<Redirection>, mid: seq<Tok>)
    ensures Ahead([], rs, Done(Simple([], []), mid)) == Done(Simple([], rs), mid)
  {
    var none: seq<Word> := [];
    assert rs + [] == rs && none + none == none;
  }

  lemma ItemsOfWord(ts: seq<Tok>, mid: seq<Tok>)
    requires RedirsOf(ts).Done? && mid == RedirsOf(ts).rest && mid != [] && mid[0].kind == 'a' && ItemsOf(mid[1..]).Done?
    ensures var x := ItemsOf(mid[1..]);
      ItemsOf(ts) == Done(Simple([mid[0].w] + x.value.args, RedirsOf(ts).value + x.value.rs), x.rest)
  {
    var x := ItemsOf(mid[1..]);
    assert WordsOf(mid) == Done(Simple([mid[0].w] + x.value.args, [] + x.value.rs), x.rest);
    assert [] + x.value.rs == x.value.rs;
    assert [] + ([mid[0].w] + x.value.args) == [mid[0].w] + x.value.args;
  }

  lemma WordParts(ts: seq<Tok>, mid: seq<Tok>, rest: seq<Tok>)
    requires Suffix(ts, mid) && mid != [] && mid[0].kind == 'a' && Suffix(mid[1..], rest)
    requires IsItems(Front(ts, mid)) && IsItems(Front(mid[1..], rest))
    ensures Suffix(ts, rest) && IsItems(Front(ts, rest))
    ensures Args(Front(ts, rest)) == Args(Front(ts, mid)) + ([mid[0].w] + Args(Front(mid[1..], rest)))
    ensures Redirs(Front(ts, rest)) == Redirs(Front(ts, mid)) + Redirs(Front(mid[1..], rest))
  {
    FrontCut(ts, mid, rest);
    FrontJoin(ts, mid, rest);
    ItemWord(mid[0], Front(mid[1..], rest));
    ItemsJoin(Front(ts, mid), Front(mid, rest));
  }

  lemma {:induction false} ExecSound(ts: seq<Tok>)
    requires ExecOf(ts).Done?
    ensures Suffix(ts, ExecOf(ts).rest) && IsExec(Front(ts, ExecOf(ts).rest), ExecOf(ts).value)
    decreases |ts|, 1
  {
    if Leads(ts, "(") {
      BlockSound(ts);
    } else {
      ItemsSound(ts);
    }
  }

  lemma {:induction false} BlockSound(ts: seq<Tok>)
    requires Leads(ts, "(") && BlockOf(ts).Done?
    ensures Suffix(ts, BlockOf(ts).rest) && IsExec(Front(ts, BlockOf(ts).rest), BlockOf(ts).value)
    decreases |ts|, 0
  {
    LineSound(ts[1..]);
    var d, mid := LineOf(ts[1..]).value, LineOf(ts[1..]).rest;
    RedirsSound(mid[1..]);
    BlockParts(ts, mid, BlockOf(ts).rest, d, BlockOf(ts).value);
  }

  lemma BlockParts(ts: seq<Tok>, mid: seq<Tok>, rest: seq<Tok>, d: Cmd, c: Cmd)
    requires Leads(ts, "(") && Suffix(ts[1..], mid) && Leads(mid, ")") && Suffix(mid[1..], rest) && IsLine(Front(ts[1..], mid), d)
    requires IsItems(Front(mid[1..], rest)) && Args(Front(mid[1..], rest)) == [] && c == Wrap(d, Redirs(Front(mid[1..], rest)))
    ensures Suffix(ts, rest) && IsExec(Front(ts, rest), c)
  {
    FrontTail(ts, mid);
    FrontCut(ts, mid, rest);
    var f, k := Front(ts, rest), |ts| - |mid|;
    assert f[1..k] == f[..k][1..] == Front(ts[1..], mid);
    assert IsBlock(f, c, k, d);
  }

  lemma {:induction false} PipeSound(ts: seq<Tok>)
    requires PipeOf(ts).Done?
    ensures Suffix(ts, PipeOf(ts).rest) && IsPipe(Front(ts, PipeOf(ts).rest), PipeOf(ts).value)
    decreases |ts|, 2
  {
    ExecSound(ts);
    var mid, r := ExecOf(ts).rest, PipeOf(ts);
    if Leads(mid, "|") {
      PipeSound(mid[1..]);
      FrontCut(ts, mid, r.rest);
    }
  }

  lemma {:induction false} BacksSound(a: seq<Tok>, c: Cmd, ts: seq<Tok>)
    requires IsBacks(a, c)
    ensures Suffix(ts, BacksOf(c, ts).1) && IsBacks(a + Front(ts, BacksOf(c, ts).1), BacksOf(c, ts).0)
    decreases |ts|
  {
    var rest := BacksOf(c, ts).1;
    if Leads(ts, "&") {
      OneBack(a, c, ts[0]);
      BacksSound(a + [ts[0]], Back(c), ts[1..]);
      FrontTail(ts, rest);
      Assoc(a, [ts[0]], Front(ts[1..], rest));
    } else {
      assert a + Front(ts, rest) == a;
    }
  }

  lemma OneBack(a: seq<Tok>, c: Cmd, t: Tok)
    requires IsBacks(a, c) && t.kind == '&'
    ensures IsBacks(a + [t], Back(c))
  {
    assert (a + [t])[..|a|] == a;
  }

  lemma {:induction false} LineSound(ts: seq<Tok>)
    requires LineOf(ts).Done?
    ensures Suffix(ts, LineOf(ts).rest) && IsLine(Front(ts, LineOf(ts).rest), LineOf(ts).value)
    decreases |ts|, 3
  {
    PipeSound(ts);
    var p, r := PipeOf(ts), LineOf(ts);
    BacksSound(Front(ts, p.rest), p.value, p.rest);
    var (d, mid) := BacksOf(p.value, p.rest);
    FrontJoin(ts, p.rest, mid);
    if Leads(mid, ";") {
      LineSound(mid[1..]);
      ListParts(ts, mid, r.rest, d, LineOf(mid[1..]).value);
    }
  }

  lemma ListParts(ts: seq<Tok>, mid: seq<Tok>, rest: seq<Tok>, d: Cmd, e: Cmd)
    requires Suffix(ts, mid) && Leads(mid, ";") && Suffix(mid[1..], rest)
    requires IsBacks(Front(ts, mid), d) && IsLine(Front(mid[1..], rest), e)
    ensures Suffix(ts, rest) && IsLine(Front(ts, rest), List(d, e))
  {
    FrontCut(ts, mid, rest);
  }

  /** Recursive descent accepts exactly the token sequences that the grammar
      derives, and the grammar derives at most one command from each. */
  lemma AcceptsExactly(ts: seq<Tok>, c: Cmd)
    ensures LineOf(ts) == Done(c, []) <==> IsLine(ts, c)
  {
    if LineOf(ts) == Done(c, []) {
      LineSound(ts);
      assert Front(ts, []) == ts;
    }
    if IsLine(ts, c) {
      LineComplete(ts, c, []);
      assert ts + [] == ts;
    }
  }

  lemma Unambiguous(ts: seq<Tok>, c: Cmd, d: Cmd)
    requires IsLine(ts, c) && IsLine(ts, d)
    ensures c == d
  {
    AcceptsExactly(ts, c);
    AcceptsExactly(ts, d);
  }

  // ------------------------------------------------------ words of a command

  /** The words of a command: arguments and file names. */
  function CmdWords(c: Cmd): multiset<Word> {
    match c
    case Exec(args) => multiset(args)
    case Redir(d, file, _, _) => CmdWords(d) + multiset{file}
    case Pipe(l, r) => CmdWords(l) + CmdWords(r)
    case List(l, r) => CmdWords(l) + CmdWords(r)
    case Back(d) => CmdWords(d)
  }

  function TokWords(ts: seq<Tok>): multiset<Word> {
    if ts == [] then multiset{}
    else TokWords(ts[..|ts| - 1]) + if ts[|ts| - 1].kind == 'a' then multiset{ts[|ts| - 1].w} else multiset{}
  }

  lemma {:induction false} TokWordsJoin(a: seq<Tok>, b: seq<Tok>)
    ensures TokWords(a + b) == TokWords(a) + TokWords(b)
    decreases |b|
  {
    if b == [] {
      assert a + b == a;
    } else {
      TokWordsJoin(a, b[..|b| - 1]);
      assert (a + b)[..|a + b| - 1] == a + b[..|b| - 1];
    }
  }

  lemma {:induction false} TokWordsIn(ts: seq<Tok>, w: Word)
    ensures w in TokWords(ts) <==> Tok('a', w) in ts
  {
    if ts != [] {
      TokWordsIn(ts[..|ts| - 1], w);
      assert ts == ts[..|ts| - 1] + [ts[|ts| - 1]];
    }
  }

  function RedirWords(rs: seq<Redirection>): multiset<Word> {
    if rs == [] then multiset{} else RedirWords(rs[..|rs| - 1]) + multiset{rs[|rs| - 1].file}
  }

  lemma {:induction false} RedirWordsAhead(r: Redirection, rs: seq<Redirection>)
    ensures RedirWords([r] + rs) == multiset{r.file} + RedirWords(rs)
    decreases |rs|
  {
    if rs == [] {
      assert ([r] + rs)[..0] == [];
    } else {
      RedirWordsAhead(r, rs[..|rs| - 1]);
      assert ([r] + rs)[..|rs|] == [r] + rs[..|rs| - 1];
    }
  }

  lemma {:induction false} WrapWords(c: Cmd, rs: seq<Redirection>)
    ensures CmdWords(Wrap(c, rs)) == CmdWords(c) + RedirWords(rs)
  {
    if rs != [] {
      WrapWords(c, rs[..|rs| - 1]);
    }
  }

  lemma TokWordsOne(t: Tok)
    ensures TokWords([t]) == if t.kind == 'a' then multiset{t.w} else multiset{}
  {
    assert [t][..0] == [];
  }

  predicate Counted(ts: seq<Tok>) {
    multiset(Args(ts)) + RedirWords(Redirs(ts)) == TokWords(ts)
  }

  lemma CountWord(t: Tok, ts: seq<Tok>)
    requires t.kind == 'a' && IsItems(ts) && Counted(ts)
    ensures Counted([t] + ts)
  {
    ItemWord(t, ts);
    TokWordsAhead(t, ts);
    assert multiset([t.w] + Args(ts)) == multiset{t.w} + multiset(Args(ts));
  }

  lemma CountRedir(t: Tok, u: Tok, ts: seq<Tok>)
    requires t.kind != 'a' && u.kind == 'a' && Counted(ts)
    ensures Counted([t, u] + ts)
  {
    RedirParts(t, u, ts);
    PairWords(t, u, ts);
    RedirWordsAhead(RedirOf(t.kind, u.w), Redirs(ts));
    CountedBy([t, u] + ts, Args(ts), [RedirOf(t.kind, u.w)] + Redirs(ts), u.w, RedirWords(Redirs(ts)), TokWords(ts));
  }

  lemma CountedBy(ts: seq<Tok>, a: seq<Word>, rs: seq<Redirection>, w: Word, r: multiset<Word>, m: multiset<Word>)
    requires Args(ts) == a && Redirs(ts) == rs && RedirWords(rs) == multiset{w} + r && TokWords(ts) == multiset{w} + m
    requires multiset(a) + r == m
    ensures Counted(ts)
  {
    Swap(multiset(a), multiset{w}, r);
  }

  lemma PairWords(t: Tok, u: Tok, ts: seq<Tok>)
    requires t.kind != 'a' && u.kind == 'a'
    ensures TokWords([t, u] + ts) == multiset{u.w} + TokWords(ts)
  {
    TokWordsAhead(u, ts);
    TokWordsAhead(t, [u] + ts);
    assert [t] + ([u] + ts) == [t, u] + ts;
  }

  lemma Swap<T>(a: multiset<T>, b: multiset<T>, c: multiset<T>)
    ensures a + (b + c) == b + (a + c)
  {
  }

  lemma {:induction false} ItemsWords(ts: seq<Tok>)
    requires IsItems(ts)
    ensures Counted(ts)
    decreases |ts|
  {
    if ts != [] {
      if ts[0].kind == 'a' {
        ItemsWords(ts[1..]);
        CountWord(ts[0], ts[1..]);
        assert [ts[0]] + ts[1..] == ts;
      } else {
        ItemsWords(ts[2..]);
        CountRedir(ts[0], ts[1], ts[2..]);
        assert [ts[0], ts[1]] + ts[2..] == ts;
      }
    }
  }

  lemma TokWordsAhead(t: Tok, ts: seq<Tok>)
    ensures TokWords([t] + ts) == (if t.kind == 'a' then multiset{t.w} else multiset{}) + TokWords(ts)
  {
    TokWordsOne(t);
    TokWordsJoin([t], ts);
  }

  lemma TokWordsAround(a: seq<Tok>, t: Tok, b: seq<Tok>)
    requires t.kind != 'a'
    ensures TokWords(a + ([t] + b)) == TokWords(a) + TokWords(b)
  {
    TokWordsAhead(t, b);
    TokWordsJoin(a, [t] + b);
  }

  lemma TokWordsCut(ts: seq<Tok>, k: nat)
    requires k < |ts| && ts[k].kind != 'a'
    ensures TokWords(ts) == TokWords(ts[..k]) + TokWords(ts[k + 1..])
  {
    hide TokWords;
    TokWordsAround(ts[..k], ts[k], ts[k + 1..]);
    assert ts[..k] + ([ts[k]] + ts[k + 1..]) == ts;
  }

  lemma {:induction false} ExecWords(ts: seq<Tok>, c: Cmd)
    requires IsExec(ts, c)
    ensures CmdWords(c) == TokWords(ts)
    decreases |ts|, 1
  {
    if IsItems(ts) && |Args(ts)| < MAXARGS && c == Wrap(Exec(Args(ts)), Redirs(ts)) {
      ItemsWords(ts);
      WrapWords(Exec(Args(ts)), Redirs(ts));
    } else {
      var k: nat, d: Cmd :| IsBlock(ts, c, k, d);
      LineWords(ts[1..k], d);
      ItemsWords(ts[k + 1..]);
      WrapWords(d, Redirs(ts[k + 1..]));
      BlockWords(ts, k);
    }
  }

  lemma BlockWords(ts: seq<Tok>, k: nat)
    requires 1 <= k < |ts| && ts[0].kind == '(' && ts[k].kind == ')'
    ensures TokWords(ts) == TokWords(ts[1..k]) + TokWords(ts[k + 1..])
  {
    TokWordsCut(ts, k);
    TokWordsAhead(ts[0], ts[1..k]);
    assert [ts[0]] + ts[1..k] == ts[..k];
  }

  lemma {:induction false} PipeWords(ts: seq<Tok>, c: Cmd)
    requires IsPipe(ts, c)
    ensures CmdWords(c) == TokWords(ts)
    decreases |ts|, 2
  {
    if IsExec(ts, c) {
      ExecWords(ts, c);
    } else {
      var k :| 0 <= k < |ts| && ts[k].kind == '|' && IsExec(ts[..k], c.left) && IsPipe(ts[k + 1..], c.right);
      ExecWords(ts[..k], c.left);
      PipeWords(ts[k + 1..], c.right);
      TokWordsCut(ts, k);
    }
  }

  lemma {:induction false} BacksWords(ts: seq<Tok>, c: Cmd)
    requires IsBacks(ts, c)
    ensures CmdWords(c) == TokWords(ts)
    decreases |ts|, 3
  {
    if IsPipe(ts, c) {
      PipeWords(ts, c);
    } else {
      BacksWords(ts[..|ts| - 1], c.cmd);
    }
  }

  /** Every word of the line is in the command, once, and no other. */
  lemma {:induction false} LineWords(ts: seq<Tok>, c: Cmd)
    requires IsLine(ts, c)
    ensures CmdWords(c) == TokWords(ts)
    decreases |ts|, 4
  {
    if IsBacks(ts, c) {
      BacksWords(ts, c);
    } else {
      var k :| 0 <= k < |ts| && ts[k].kind == ';' && IsBacks(ts[..k], c.left) && IsLine(ts[k + 1..], c.right);
      BacksWords(ts[..k], c.left);
      LineWords(ts[k + 1..], c.right);
      TokWordsCut(ts, k);
    }
  }
}
