/** The command language of user/sh.c: what gettoken, peek and the recursive descent compute, and a
    printer that parenthesises by precedence. A string stands for what is left of the input; like
    every C string it has no NUL in it. */
module Shell {
  /** What a C string is made of. */
  type CChar = c: char | c != '\0' witness 'a'
  type CString = seq<CChar>

  datatype Mode = In | Out | Append

  datatype Cmd =
    | Exec(argv: seq<CString>)
    | Redir(cmd: Cmd, mode: Mode, file: CString)
    | Pipe(left: Cmd, right: Cmd)
    | List(left: Cmd, right: Cmd)
    | Back(cmd: Cmd)

  datatype Token = End | Symbol(c: char) | AppendTo | Word(w: CString)

  const MAXARGS := 10

  predicate IsSpace(c: char) {
    c == ' ' || c == '\t' || c == '\r' || c == '\n' || c == '\U{000B}'
  }

  predicate IsSymbol(c: char) {
    c == '<' || c == '|' || c == '>' || c == '&' || c == ';' || c == '(' || c == ')'
  }

  predicate InWord(c: char) {
    !IsSpace(c) && !IsSymbol(c)
  }

  function Skip(s: CString): (t: CString)
    ensures |t| <= |s|
    ensures t == "" || !IsSpace(t[0])
  {
    if s != "" && IsSpace(s[0]) then Skip(s[1..]) else s
  }

  /** The length of the word that s begins with. */
  function WordLength(s: CString): (n: nat)
    ensures n <= |s|
    ensures s != "" && InWord(s[0]) ==> n > 0
  {
    if s != "" && InWord(s[0]) then 1 + WordLength(s[1..]) else 0
  }

  /** `peek`, with its argument as a set. */
  predicate Peek(s: CString, toks: set<char>) {
    var t := Skip(s);
    t != "" && t[0] in toks
  }

  /** `gettoken`: the token, and the input after it and the white space behind it. */
  function Gettoken(s: CString): (r: (Token, CString))
    ensures |r.1| <= |s|
    ensures r.0 != End ==> |r.1| < |s|
    ensures r.0 == End ==> r.1 == ""
    ensures r.0.Word? ==> r.0.w != ""
  {
    var t := Skip(s);
    if t == "" then (End, "")
    else if t[0] == '>' then
      if |t| > 1 && t[1] == '>' then (AppendTo, Skip(t[2..])) else (Symbol('>'), Skip(t[1..]))
    else if IsSymbol(t[0]) then (Symbol(t[0]), Skip(t[1..]))
    else (Word(t[..WordLength(t)]), Skip(t[WordLength(t)..]))
  }

  /** A redirection. */
  datatype Redirection = To(mode: Mode, file: CString)

  function ModeOf(t: Token): Mode {
    if t == AppendTo then Append else if t == Symbol('<') then In else Out
  }

  /** Redirections are applied first come, innermost. */
  function Wrap(c: Cmd, rs: seq<Redirection>): Cmd {
    if rs == [] then c else Redir(Wrap(c, rs[..|rs| - 1]), rs[|rs| - 1].mode, rs[|rs| - 1].file)
  }

  /** The outcome of a parser: panic, or a value and the input that is left. */
  datatype Result<T> = Panic | Ok(value: T, rest: CString)

  /** `parseredirs`. */
  function ParseRedirs(s: CString): (r: Result<seq<Redirection>>)
    ensures r.Ok? ==> |r.rest| <= |s|
    decreases |s|
  {
    if !Peek(s, {'<', '>'}) then Ok([], Skip(s)) else
    var (tok, s1) := Gettoken(s);
    var (tok2, s2) := Gettoken(s1);
    if !tok2.Word? then Panic else
    var more := ParseRedirs(s2);
    if more.Panic? then Panic else Ok([To(ModeOf(tok), tok2.w)] + more.value, more.rest)
  }

  datatype Args = Args(argv: seq<CString>, rs: seq<Redirection>)

  /** The loop of `parseexec`. */
  function ParseArgs(s: CString, a: Args): (r: Result<Args>)
    ensures r.Ok? ==> |r.rest| <= |s|
    decreases |s|
  {
    if Peek(s, {'|', ')', '&', ';'}) then Ok(a, Skip(s)) else
    var (tok, s1) := Gettoken(s);
    if tok == End then Ok(a, s1)
    else if !tok.Word? || |a.argv| + 1 >= MAXARGS then Panic
    else
      var rr := ParseRedirs(s1);
      if rr.Panic? then Panic else ParseArgs(rr.rest, Args(a.argv + [tok.w], a.rs + rr.value))
  }

  function ParseExec(s: CString): (r: Result<Cmd>)
    ensures r.Ok? ==> |r.rest| <= |s|
    decreases |s|, 1
  {
    if Peek(s, {'('}) then ParseBlock(s) else
    var rr := ParseRedirs(s);
    if rr.Panic? then Panic else
    var a := ParseArgs(rr.rest, Args([], rr.value));
    if a.Panic? then Panic else Ok(Wrap(Exec(a.value.argv), a.value.rs), a.rest)
  }

  function ParseBlock(s: CString): (r: Result<Cmd>)
    requires Peek(s, {'('})
    ensures r.Ok? ==> |r.rest| <= |s|
    decreases |s|, 0
  {
    var l := ParseLine(Gettoken(s).1);
    if l.Panic? || !Peek(l.rest, {')'}) then Panic else
    var rr := ParseRedirs(Gettoken(l.rest).1);
    if rr.Panic? then Panic else Ok(Wrap(l.value, rr.value), rr.rest)
  }

  function ParsePipe(s: CString): (r: Result<Cmd>)
    ensures r.Ok? ==> |r.rest| <= |s|
    decreases |s|, 2
  {
    var e := ParseExec(s);
    if e.Panic? then Panic
    else if Peek(e.rest, {'|'}) then
      var p := ParsePipe(Gettoken(e.rest).1);
      if p.Panic? then Panic else Ok(Pipe(e.value, p.value), p.rest)
    else Ok(e.value, Skip(e.rest))
  }

  /** The `&` loop of `parseline`. */
  function ParseBacks(c: Cmd, s: CString): (r: Result<Cmd>)
    ensures r.Ok? && |r.rest| <= |s|
    decreases |s|
  {
    if Peek(s, {'&'}) then ParseBacks(Back(c), Gettoken(s).1) else Ok(c, Skip(s))
  }

  function ParseLine(s: CString): (r: Result<Cmd>)
    ensures r.Ok? ==> |r.rest| <= |s|
    decreases |s|, 3
  {
    var p := ParsePipe(s);
    if p.Panic? then Panic else
    var b := ParseBacks(p.value, p.rest);
    if Peek(b.rest, {';'}) then
      var l := ParseLine(Gettoken(b.rest).1);
      if l.Panic? then Panic else Ok(List(b.value, l.value), l.rest)
    else Ok(b.value, Skip(b.rest))
  }

  /** `parsecmd`: nothing may be left over. */
  function ParseCmd(s: CString): Result<Cmd> {
    var l := ParseLine(s);
    if l.Panic? || Skip(l.rest) != "" then Panic else Ok(l.value, "")
  }

  // Printing, in front of what follows.

  predicate WordOk(w: CString) {
    w != "" && forall i :: 0 <= i < |w| ==> InWord(w[i])
  }

  /** What the parser can produce: words that lexing leaves whole, at most nine to a command. */
  predicate WellFormed(c: Cmd) {
    match c
    case Exec(argv) => |argv| < MAXARGS && forall i :: 0 <= i < |argv| ==> WordOk(argv[i])
    case Redir(b, _, f) => WellFormed(b) && WordOk(f)
    case Pipe(l, r) => WellFormed(l) && WellFormed(r)
    case List(l, r) => WellFormed(l) && WellFormed(r)
    case Back(b) => WellFormed(b)
  }

  function PrintWords(argv: seq<CString>, k: CString): CString {
    if argv == [] then k else argv[0] + (" " + PrintWords(argv[1..], k))
  }

  function Arrow(m: Mode): CString {
    match m
    case In => "<"
    case Out => ">"
    case Append => ">>"
  }

  function PrintRedirs(rs: seq<Redirection>, k: CString): CString {
    if rs == [] then k else Arrow(rs[0].mode) + (rs[0].file + (" " + PrintRedirs(rs[1..], k)))
  }

  /** The level of the grammar at which c needs no parentheses. */
  function Home(c: Cmd): nat {
    match c
    case Exec(_) => 0
    case Redir(_, _, _) => 0
    case Pipe(_, _) => 1
    case Back(_) => 2
    case List(_, _) => 3
  }

  function PrintAtom(c: Cmd, k: CString): CString
    decreases c, (0 - Home(c)) % 4
  {
    match c
    case Exec(argv) => PrintWords(argv, k)
    case Redir(b, m, f) => PrintAtom(b, PrintRedirs([To(m, f)], k))
    case _ => "(" + PrintLine(c, ")" + k)
  }

  function PrintPipe(c: Cmd, k: CString): CString
    decreases c, (1 - Home(c)) % 4
  {
    match c
    case Pipe(l, r) => PrintAtom(l, "|" + PrintPipe(r, k))
    case _ => PrintAtom(c, k)
  }

  function PrintBacks(c: Cmd, k: CString): CString
    decreases c, (2 - Home(c)) % 4
  {
    match c
    case Back(b) => PrintBacks(b, "&" + k)
    case _ => PrintPipe(c, k)
  }

  function PrintLine(c: Cmd, k: CString): CString
    decreases c, (3 - Home(c)) % 4
  {
    match c
    case List(l, r) => PrintBacks(l, ";" + PrintLine(r, k))
    case _ => PrintBacks(c, k)
  }

  function Print(c: Cmd): CString {
    PrintLine(c, "")
  }

  // Lexing what has been printed.

  lemma {:induction false} SkipSkip(s: CString)
    ensures Skip(Skip(s)) == Skip(s)
  {
  }

  lemma {:induction false} WordLengthOf(w: CString, k: CString)
    requires (forall i :: 0 <= i < |w| ==> InWord(w[i])) && (k == "" || !InWord(k[0]))
    ensures WordLength(w + k) == |w|
  {
    if w == "" {
      assert w + k == k;
    } else {
      WordLengthOf(w[1..], k);
      assert (w + k)[1..] == w[1..] + k && (w + k)[0] == w[0];
    }
  }

  /** A printed word is one token. */
  lemma WordToken(w: CString, k: CString)
    requires WordOk(w)
    ensures Gettoken(w + (" " + k)) == (Word(w), Skip(k))
    ensures Skip(w + (" " + k)) == w + (" " + k)
    ensures !Peek(w + (" " + k), {'|', ')', '&', ';'}) && !Peek(w + (" " + k), {'<', '>'})
    ensures !Peek(w + (" " + k), {'('})
  {
    var s := w + (" " + k);
    assert s[0] == w[0] && InWord(w[0]);
    WordLengthOf(w, " " + k);
    assert s[..|w|] == w && s[|w|..] == " " + k;
    assert (" " + k)[1..] == k;
  }

  lemma SymbolToken(c: char, k: CString)
    requires IsSymbol(c) && c != '>'
    ensures Gettoken([c] + k) == (Symbol(c), Skip(k)) && Skip([c] + k) == [c] + k
  {
    assert ([c] + k)[1..] == k;
  }

  lemma ArrowToken(m: Mode, w: CString, k: CString)
    requires WordOk(w)
    ensures Gettoken(Arrow(m) + (w + k)).1 == w + k && ModeOf(Gettoken(Arrow(m) + (w + k)).0) == m
    ensures Skip(Arrow(m) + (w + k)) == Arrow(m) + (w + k) && Peek(Arrow(m) + (w + k), {'<', '>'})
    ensures !Peek(Arrow(m) + (w + k), {'|', ')', '&', ';'}) && !Peek(Arrow(m) + (w + k), {'('})
  {
    var s := Arrow(m) + (w + k);
    assert InWord(w[0]) && (w + k)[0] == w[0];
    if m == Append {
      assert s[2..] == w + k && s[0] == s[1] == '>';
    } else {
      assert s[1..] == w + k && s[1] == w[0];
    }
  }

  // Parsing what has been printed.

  /** k goes on with none of the given characters, nor with a word. */
  predicate Follows(k: CString, toks: set<char>) {
    var t := Skip(k);
    t == "" || t[0] in toks
  }

  lemma {:induction false} RedirsParse(rs: seq<Redirection>, k: CString)
    requires (forall i :: 0 <= i < |rs| ==> WordOk(rs[i].file)) && !Peek(k, {'<', '>'})
    ensures ParseRedirs(PrintRedirs(rs, k)) == Ok(rs, Skip(k))
  {
    if rs != [] {
      var tail := " " + PrintRedirs(rs[1..], k);
      ArrowToken(rs[0].mode, rs[0].file, tail);
      WordToken(rs[0].file, PrintRedirs(rs[1..], k));
      RedirsParse(rs[1..], k);
      RedirsSkip(PrintRedirs(rs[1..], k));
      assert [To(rs[0].mode, rs[0].file)] + rs[1..] == rs;
    }
  }

  lemma RedirsSkip(s: CString)
    ensures ParseRedirs(Skip(s)) == ParseRedirs(s)
  {
    SkipSkip(s);
  }

  lemma ArgsEnd(k: CString, a: Args)
    requires Follows(k, {'|', ')', '&', ';'})
    ensures ParseArgs(Skip(k), a) == Ok(a, Skip(k))
  {
    SkipSkip(k);
  }

  lemma {:induction false} ArgsParse(argv: seq<CString>, rs: seq<Redirection>, k: CString, a: Args)
    requires argv != [] && (forall i :: 0 <= i < |argv| ==> WordOk(argv[i])) && |a.argv| + |argv| < MAXARGS
    requires (forall i :: 0 <= i < |rs| ==> WordOk(rs[i].file)) && Follows(k, {'|', ')', '&', ';'})
    ensures ParseArgs(PrintWords(argv, PrintRedirs(rs, k)), a) == Ok(Args(a.argv + argv, a.rs + rs), Skip(k))
    decreases |argv|
  {
    hide Gettoken, Skip;
    var rest := PrintWords(argv[1..], PrintRedirs(rs, k));
    WordToken(argv[0], rest);
    RedirsSkip(rest);
    if |argv| == 1 {
      NoArrow(k);
      RedirsParse(rs, k);
      ArgsEnd(k, Args(a.argv + [argv[0]], a.rs + rs));
      assert a.argv + [argv[0]] == a.argv + argv;
    } else {
      var b := Args(a.argv + [argv[0]], a.rs);
      WordToken(argv[1], PrintWords(argv[2..], PrintRedirs(rs, k)));
      assert argv[1..][1..] == argv[2..];
      assert a.rs + [] == a.rs;
      ArgsParse(argv[1..], rs, k, b);
      assert b.argv + argv[1..] == a.argv + argv;
    }
  }

  lemma NoArrow(k: CString)
    requires Follows(k, {'|', ')', '&', ';'})
    ensures !Peek(k, {'<', '>'}) && !Peek(k, {'('})
  {
  }

  lemma {:induction false} WrapFirst(c: Cmd, m: Mode, f: CString, rs: seq<Redirection>)
    ensures Wrap(c, [To(m, f)] + rs) == Wrap(Redir(c, m, f), rs)
  {
    var all := [To(m, f)] + rs;
    if rs == [] {
      assert all[..0] == [];
    } else {
      WrapFirst(c, m, f, rs[..|rs| - 1]);
      assert all[..|all| - 1] == [To(m, f)] + rs[..|rs| - 1];
    }
  }

  lemma PrintFirst(m: Mode, f: CString, rs: seq<Redirection>, k: CString)
    ensures PrintRedirs([To(m, f)], PrintRedirs(rs, k)) == PrintRedirs([To(m, f)] + rs, k)
  {
    assert ([To(m, f)] + rs)[1..] == rs;
  }

  // The parsers do not care about white space in front.

  lemma ExecSkip(s: CString)
    ensures ParseExec(Skip(s)) == ParseExec(s)
  {
    SkipSkip(s);
    RedirsSkip(s);
  }

  lemma PipeSkip(s: CString)
    ensures ParsePipe(Skip(s)) == ParsePipe(s)
  {
    ExecSkip(s);
  }

  lemma BacksSkip(c: Cmd, s: CString)
    ensures ParseBacks(c, Skip(s)) == ParseBacks(c, s)
  {
    SkipSkip(s);
  }

  lemma LineSkip(s: CString)
    ensures ParseLine(Skip(s)) == ParseLine(s)
  {
    PipeSkip(s);
  }

  lemma {:induction false} ExecParse(argv: seq<CString>, rs: seq<Redirection>, k: CString)
    requires |argv| < MAXARGS && (forall i :: 0 <= i < |argv| ==> WordOk(argv[i]))
    requires (forall i :: 0 <= i < |rs| ==> WordOk(rs[i].file)) && Follows(k, {'|', ')', '&', ';'})
    ensures ParseExec(PrintWords(argv, PrintRedirs(rs, k))) == Ok(Wrap(Exec(argv), rs), Skip(k))
  {
    hide Gettoken, Skip, ParseArgs, ParseBlock, ParseRedirs, Peek, Wrap;
    NoArrow(k);
    if argv == [] {
      RedirsParse(rs, k);
      ArgsEnd(k, Args([], rs));
      NoBlock(rs, k);
    } else {
      var s := PrintWords(argv, PrintRedirs(rs, k));
      WordToken(argv[0], PrintWords(argv[1..], PrintRedirs(rs, k)));
      NoRedirsYet(s);
      ArgsParse(argv, rs, k, Args([], []));
      assert [] + argv == argv && [] + rs == rs;
    }
  }

  lemma NoBlock(rs: seq<Redirection>, k: CString)
    requires (forall i :: 0 <= i < |rs| ==> WordOk(rs[i].file)) && !Peek(k, {'('})
    ensures !Peek(PrintRedirs(rs, k), {'('})
  {
    if rs != [] {
      ArrowToken(rs[0].mode, rs[0].file, " " + PrintRedirs(rs[1..], k));
    }
  }

  lemma NoRedirsYet(s: CString)
    requires !Peek(s, {'<', '>'}) && Skip(s) == s
    ensures ParseRedirs(s) == Ok([], s)
  {
  }

  lemma BlockParse(c: Cmd, rs: seq<Redirection>, k: CString)
    requires ParseLine(PrintLine(c, ")" + PrintRedirs(rs, k))) == Ok(c, ")" + PrintRedirs(rs, k))
    requires (forall i :: 0 <= i < |rs| ==> WordOk(rs[i].file)) && Follows(k, {'|', ')', '&', ';'})
    ensures ParseExec("(" + PrintLine(c, ")" + PrintRedirs(rs, k))) == Ok(Wrap(c, rs), Skip(k))
  {
    hide ParseLine, ParseRedirs, PrintLine;
    var inner := PrintLine(c, ")" + PrintRedirs(rs, k));
    SymbolToken('(', inner);
    LineSkip(inner);
    SymbolToken(')', PrintRedirs(rs, k));
    NoArrow(k);
    RedirsParse(rs, k);
    RedirsSkip(PrintRedirs(rs, k));
  }

  lemma {:induction false} AtomParse(c: Cmd, rs: seq<Redirection>, k: CString)
    requires WellFormed(c) && (forall i :: 0 <= i < |rs| ==> WordOk(rs[i].file)) && Follows(k, {'|', ')', '&', ';'})
    ensures ParseExec(PrintAtom(c, PrintRedirs(rs, k))) == Ok(Wrap(c, rs), Skip(k))
    decreases c, (0 - Home(c)) % 4
  {
    hide ParseExec, PrintRedirs, PrintWords, PrintLine, Skip, Follows;
    match c
    case Exec(argv) =>
      ExecParse(argv, rs, k);
    case Redir(b, m, f) =>
      PrintFirst(m, f, rs, k);
      AtomParse(b, [To(m, f)] + rs, k);
      WrapFirst(b, m, f, rs);
    case _ =>
      SymbolToken(')', PrintRedirs(rs, k));
      FollowsSymbol(')', PrintRedirs(rs, k));
      LineParse(c, ")" + PrintRedirs(rs, k));
      BlockParse(c, rs, k);
  }

  lemma FollowsSymbol(c: char, k: CString)
    requires IsSymbol(c) && c != '>'
    ensures Skip([c] + k) == [c] + k && forall toks :: c in toks ==> Follows([c] + k, toks)
  {
    SymbolToken(c, k);
  }

  lemma NoRedirs(k: CString)
    ensures PrintRedirs([], k) == k
  {
  }

  lemma FollowsMore(k: CString, a: set<char>, b: set<char>)
    requires Follows(k, a) && a <= b
    ensures Follows(k, b)
  {
  }

  lemma {:induction false} PipeParse(c: Cmd, k: CString)
    requires WellFormed(c) && Follows(k, {')', '&', ';'})
    ensures ParsePipe(PrintPipe(c, k)) == Ok(c, Skip(k))
    decreases c, (1 - Home(c)) % 4
  {
    hide ParseExec, PrintRedirs, PrintAtom, Skip, Gettoken, Follows, Peek;
    if c.Pipe? {
      var p := PrintPipe(c.right, k);
      FollowsSymbol('|', p);
      SymbolToken('|', p);
      NoRedirs("|" + p);
      AtomParse(c.left, [], "|" + p);
      PipeSkip(p);
      PipeParse(c.right, k);
      PeekSymbol('|', p);
    } else {
      FollowsMore(k, {')', '&', ';'}, {'|', ')', '&', ';'});
      NoRedirs(k);
      AtomParse(c, [], k);
      SkipSkip(k);
      FollowsNot(k, {')', '&', ';'}, {'|'});
    }
  }

  lemma PeekSymbol(c: char, k: CString)
    requires IsSymbol(c) && c != '>'
    ensures forall toks :: Peek([c] + k, toks) <==> c in toks
  {
    SymbolToken(c, k);
  }

  lemma FollowsNot(k: CString, toks: set<char>, others: set<char>)
    requires Follows(k, toks) && toks !! others
    ensures !Peek(k, others) && !Peek(Skip(k), others)
  {
    SkipSkip(k);
  }

  /** What the `&` loop makes of a printed command. */
  lemma {:induction false} BacksParse(c: Cmd, k: CString)
    requires WellFormed(c) && Follows(k, {')', '&', ';'})
    ensures var p := ParsePipe(PrintBacks(c, k)); p.Ok? && ParseBacks(p.value, p.rest) == ParseBacks(c, k)
    decreases c, (2 - Home(c)) % 4
  {
    hide ParsePipe, PrintPipe, Skip, Gettoken, Follows, Peek;
    if c.Back? {
      FollowsSymbol('&', k);
      SymbolToken('&', k);
      BacksParse(c.cmd, "&" + k);
      PeekSymbol('&', k);
      BacksSkip(c, k);
    } else {
      PipeParse(c, k);
      BacksSkip(c, k);
    }
  }

  lemma {:induction false} LineParse(c: Cmd, k: CString)
    requires WellFormed(c) && Follows(k, {')'})
    ensures ParseLine(PrintLine(c, k)) == Ok(c, Skip(k))
    decreases c, (3 - Home(c)) % 4
  {
    hide ParsePipe, PrintBacks, Skip, Gettoken, Follows, Peek;
    SkipSkip(k);
    if c.List? {
      var l := PrintLine(c.right, k);
      FollowsSymbol(';', l);
      SymbolToken(';', l);
      PeekSymbol(';', l);
      BacksParse(c.left, ";" + l);
      LineSkip(l);
      LineParse(c.right, k);
    } else {
      FollowsMore(k, {')'}, {')', '&', ';'});
      BacksParse(c, k);
      FollowsNot(k, {')'}, {'&'});
      FollowsNot(k, {')'}, {';'});
    }
  }

  /** The parser undoes the printer. */
  lemma ParsePrint(c: Cmd)
    requires WellFormed(c)
    ensures ParseCmd(Print(c)) == Ok(c, "")
  {
    LineParse(c, "");
  }

  // What the parser can produce.

  lemma {:induction false} WordPrefix(s: CString, i: nat)
    requires i < WordLength(s)
    ensures InWord(s[i])
  {
    if i > 0 {
      WordPrefix(s[1..], i - 1);
    }
  }

  lemma TokenOk(s: CString)
    ensures Gettoken(s).0.Word? ==> WordOk(Gettoken(s).0.w)
  {
    var t := Skip(s);
    forall i: nat | i < WordLength(t)
      ensures InWord(t[i])
    {
      WordPrefix(t, i);
    }
  }

  predicate RedirsOk(rs: seq<Redirection>) {
    forall i :: 0 <= i < |rs| ==> WordOk(rs[i].file)
  }

  lemma {:induction false} ParsedRedirs(s: CString)
    ensures ParseRedirs(s).Ok? ==> RedirsOk(ParseRedirs(s).value)
    decreases |s|
  {
    hide Gettoken;
    var (tok, s1) := Gettoken(s);
    TokenOk(s1);
    if Peek(s, {'<', '>'}) {
      PeekToken(s, {'<', '>'});
      ParsedRedirs(Gettoken(s1).1);
    }
  }

  lemma PeekToken(s: CString, toks: set<char>)
    requires Peek(s, toks)
    ensures |Gettoken(s).1| < |s|
  {
  }

  predicate ArgsOk(a: Args) {
    |a.argv| < MAXARGS && (forall i :: 0 <= i < |a.argv| ==> WordOk(a.argv[i])) && RedirsOk(a.rs)
  }

  lemma {:induction false} ParsedArgs(s: CString, a: Args)
    requires ArgsOk(a)
    ensures ParseArgs(s, a).Ok? ==> ArgsOk(ParseArgs(s, a).value)
    decreases |s|
  {
    hide Gettoken, ParseRedirs, Peek;
    var (tok, s1) := Gettoken(s);
    if !Peek(s, {'|', ')', '&', ';'}) && tok.Word? && |a.argv| + 1 < MAXARGS {
      TokenOk(s);
      ParsedRedirs(s1);
      var rr := ParseRedirs(s1);
      if rr.Ok? {
        ParsedArgs(rr.rest, Args(a.argv + [tok.w], a.rs + rr.value));
      }
    }
  }

  lemma {:induction false} WrapOk(c: Cmd, rs: seq<Redirection>)
    requires WellFormed(c) && RedirsOk(rs)
    ensures WellFormed(Wrap(c, rs))
  {
    if rs != [] {
      WrapOk(c, rs[..|rs| - 1]);
    }
  }

  lemma {:induction false} ParsedExec(s: CString)
    ensures ParseExec(s).Ok? ==> WellFormed(ParseExec(s).value)
    decreases |s|, 1
  {
    hide Gettoken, ParseRedirs, Peek, ParseArgs, ParseBlock;
    if Peek(s, {'('}) {
      ParsedBlock(s);
    } else {
      ParsedRedirs(s);
      var rr := ParseRedirs(s);
      if rr.Ok? {
        ParsedArgs(rr.rest, Args([], rr.value));
        var a := ParseArgs(rr.rest, Args([], rr.value));
        if a.Ok? {
          WrapOk(Exec(a.value.argv), a.value.rs);
        }
      }
    }
  }

  lemma {:induction false} ParsedBlock(s: CString)
    requires Peek(s, {'('})
    ensures ParseBlock(s).Ok? ==> WellFormed(ParseBlock(s).value)
    decreases |s|, 0
  {
    hide Gettoken, ParseRedirs, Peek, ParseLine;
    PeekToken(s, {'('});
    ParsedLine(Gettoken(s).1);
    var l := ParseLine(Gettoken(s).1);
    if l.Ok? && Peek(l.rest, {')'}) {
      ParsedRedirs(Gettoken(l.rest).1);
      var rr := ParseRedirs(Gettoken(l.rest).1);
      if rr.Ok? {
        WrapOk(l.value, rr.value);
      }
    }
  }

  lemma {:induction false} ParsedPipe(s: CString)
    ensures ParsePipe(s).Ok? ==> WellFormed(ParsePipe(s).value)
    decreases |s|, 2
  {
    hide Gettoken, Peek, ParseExec;
    ParsedExec(s);
    var e := ParseExec(s);
    if e.Ok? && Peek(e.rest, {'|'}) {
      PeekToken(e.rest, {'|'});
      ParsedPipe(Gettoken(e.rest).1);
    }
  }

  lemma {:induction false} ParsedBacks(c: Cmd, s: CString)
    requires WellFormed(c)
    ensures WellFormed(ParseBacks(c, s).value)
    decreases |s|
  {
    hide Gettoken, Peek;
    if Peek(s, {'&'}) {
      PeekToken(s, {'&'});
      ParsedBacks(Back(c), Gettoken(s).1);
    }
  }

  lemma {:induction false} ParsedLine(s: CString)
    ensures ParseLine(s).Ok? ==> WellFormed(ParseLine(s).value)
    decreases |s|, 3
  {
    hide Gettoken, Peek, ParsePipe, ParseBacks;
    ParsedPipe(s);
    var p := ParsePipe(s);
    if p.Ok? {
      ParsedBacks(p.value, p.rest);
      var b := ParseBacks(p.value, p.rest);
      if Peek(b.rest, {';'}) {
        PeekToken(b.rest, {';'});
        ParsedLine(Gettoken(b.rest).1);
      }
    }
  }

  /** The trees that some input parses to are exactly the well-formed ones. */
  lemma Image(c: Cmd)
    ensures WellFormed(c) <==> exists s :: ParseCmd(s) == Ok(c, "")
  {
    hide WellFormed, ParseLine;
    if WellFormed(c) {
      ParsePrint(c);
    }
    if s :| ParseCmd(s) == Ok(c, "") {
      ParsedLine(s);
    }
  }
}
