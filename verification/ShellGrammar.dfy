/** The grammar of user/sh.c's command language, as derivation trees over tokens, and the lexical rule,
    as spellings of tokens with white space between them. The parser accepts exactly what has a
    derivation, and returns the tree that the derivation stands for. */
module ShellGrammar {
  import opened Shell

  /** A command is words and redirections in any order. */
  datatype Item = Arg(w: CString) | Into(r: Redirection)

  datatype Atom = Plain(items: seq<Item>) | Group(body: Line, rs: seq<Redirection>)

  datatype Chain = Only(a: Atom) | Before(a: Atom, rest: Chain)

  datatype Line = Final(p: Chain, ands: nat) | Semi(p: Chain, ands: nat, rest: Line)

  // The tokens of a derivation.

  function ArrowOf(m: Mode): Token {
    match m
    case In => Symbol('<')
    case Out => Symbol('>')
    case Append => AppendTo
  }

  function RedirTokens(r: Redirection): seq<Token> {
    [ArrowOf(r.mode), Word(r.file)]
  }

  function RedirsYield(rs: seq<Redirection>): seq<Token> {
    if rs == [] then [] else RedirTokens(rs[0]) + RedirsYield(rs[1..])
  }

  function ItemTokens(i: Item): seq<Token> {
    if i.Arg? then [Word(i.w)] else RedirTokens(i.r)
  }

  function ItemsYield(items: seq<Item>): seq<Token> {
    if items == [] then [] else ItemTokens(items[0]) + ItemsYield(items[1..])
  }

  function Ands(n: nat): seq<Token> {
    seq(n, _ => Symbol('&'))
  }

  function AtomYield(a: Atom): seq<Token> {
    match a
    case Plain(items) => ItemsYield(items)
    case Group(body, rs) => [Symbol('(')] + (LineYield(body) + ([Symbol(')')] + RedirsYield(rs)))
  }

  function ChainYield(p: Chain): seq<Token> {
    match p
    case Only(a) => AtomYield(a)
    case Before(a, rest) => AtomYield(a) + ([Symbol('|')] + ChainYield(rest))
  }

  function LineYield(l: Line): seq<Token> {
    match l
    case Final(p, n) => ChainYield(p) + Ands(n)
    case Semi(p, n, rest) => ChainYield(p) + (Ands(n) + ([Symbol(';')] + LineYield(rest)))
  }

  // The tree that a derivation stands for.

  function ArgsOf(items: seq<Item>): seq<CString> {
    if items == [] then [] else (if items[0].Arg? then [items[0].w] else []) + ArgsOf(items[1..])
  }

  function RedirsOf(items: seq<Item>): seq<Redirection> {
    if items == [] then [] else (if items[0].Into? then [items[0].r] else []) + RedirsOf(items[1..])
  }

  function Backed(c: Cmd, n: nat): Cmd {
    if n == 0 then c else Back(Backed(c, n - 1))
  }

  function AtomTree(a: Atom): Cmd {
    match a
    case Plain(items) => Wrap(Exec(ArgsOf(items)), RedirsOf(items))
    case Group(body, rs) => Wrap(LineTree(body), rs)
  }

  function ChainTree(p: Chain): Cmd {
    match p
    case Only(a) => AtomTree(a)
    case Before(a, rest) => Pipe(AtomTree(a), ChainTree(rest))
  }

  function LineTree(l: Line): Cmd {
    match l
    case Final(p, n) => Backed(ChainTree(p), n)
    case Semi(p, n, rest) => List(Backed(ChainTree(p), n), LineTree(rest))
  }

  /** No command has more arguments than argv has room for. */
  predicate AtomFits(a: Atom) {
    match a
    case Plain(items) => |ArgsOf(items)| < MAXARGS
    case Group(body, _) => LineFits(body)
  }

  predicate ChainFits(p: Chain) {
    AtomFits(p.a) && (p.Before? ==> ChainFits(p.rest))
  }

  predicate LineFits(l: Line) {
    ChainFits(l.p) && (l.Semi? ==> LineFits(l.rest))
  }

  ghost predicate Derives(ts: seq<Token>, c: Cmd) {
    exists l :: LineYield(l) == ts && LineFits(l) && LineTree(l) == c
  }

  /** The tokens of an input. */
  function Tokens(s: CString): seq<Token>
    decreases |s|
  {
    var (t, rest) := Gettoken(s);
    if t == End then [] else [t] + Tokens(rest)
  }

  lemma TokensSkip(s: CString)
    ensures Tokens(Skip(s)) == Tokens(s)
  {
    SkipSkip(s);
  }

  /** The character that a token begins with. */
  function Head(t: Token): char
    requires t != End && (t.Word? ==> t.w != "")
  {
    match t
    case Symbol(c) => c
    case AppendTo => '>'
    case Word(w) => w[0]
  }

  /** What gettoken takes is the first token. */
  lemma FirstToken(s: CString)
    ensures Gettoken(s).0 == End <==> Tokens(s) == []
    ensures Tokens(s) != [] ==> Tokens(s)[0] == Gettoken(s).0 && Tokens(s)[1..] == Tokens(Gettoken(s).1)
    ensures Tokens(s) != [] && Tokens(s)[0].Symbol? ==> IsSymbol(Tokens(s)[0].c)
    ensures Tokens(s) != [] && Tokens(s)[0].Word? ==> WordOk(Tokens(s)[0].w)
  {
    TokenOk(s);
  }

  /** What peek sees is how the first token begins. */
  lemma PeekFirst(s: CString, toks: set<char>)
    ensures Tokens(s) != [] ==> Tokens(s)[0] != End && (Tokens(s)[0].Word? ==> Tokens(s)[0].w != "")
    ensures Peek(s, toks) <==> Tokens(s) != [] && Head(Tokens(s)[0]) in toks
  {
    FirstToken(s);
    var t := Skip(s);
    if t != "" && !IsSymbol(t[0]) {
      assert InWord(t[0]);
    }
  }

  // Whatever the parser accepts has a derivation.

  function Intos(rs: seq<Redirection>): seq<Item> {
    seq(|rs|, i requires 0 <= i < |rs| => Into(rs[i]))
  }

  lemma {:induction false} ItemsAppend(a: seq<Item>, b: seq<Item>)
    ensures ItemsYield(a + b) == ItemsYield(a) + ItemsYield(b)
    ensures ArgsOf(a + b) == ArgsOf(a) + ArgsOf(b) && RedirsOf(a + b) == RedirsOf(a) + RedirsOf(b)
  {
    hide ItemTokens, ItemsYield, ArgsOf, RedirsOf;
    if a == [] {
      NoItems();
      assert a + b == b;
    } else {
      ItemsAppend(a[1..], b);
      ItemsCons(a[0], a[1..]);
      ItemsCons(a[0], a[1..] + b);
      assert a == [a[0]] + a[1..] && a + b == [a[0]] + (a[1..] + b);
    }
  }

  lemma ItemsCons(i: Item, items: seq<Item>)
    ensures ItemsYield([i] + items) == ItemTokens(i) + ItemsYield(items)
    ensures ArgsOf([i] + items) == (if i.Arg? then [i.w] else []) + ArgsOf(items)
    ensures RedirsOf([i] + items) == (if i.Into? then [i.r] else []) + RedirsOf(items)
  {
    assert ([i] + items)[1..] == items;
  }

  lemma {:induction false} IntosAre(rs: seq<Redirection>)
    ensures ItemsYield(Intos(rs)) == RedirsYield(rs) && ArgsOf(Intos(rs)) == [] && RedirsOf(Intos(rs)) == rs
  {
    if rs != [] {
      IntosAre(rs[1..]);
      assert Intos(rs)[1..] == Intos(rs[1..]) && Intos(rs)[0] == Into(rs[0]);
      assert [rs[0]] + rs[1..] == rs;
    }
  }

  lemma {:induction false} RedirsSound(s: CString)
    requires ParseRedirs(s).Ok?
    ensures Tokens(s) == RedirsYield(ParseRedirs(s).value) + Tokens(ParseRedirs(s).rest)
    decreases |s|
  {
    hide Gettoken, Skip, Peek, Tokens;
    PeekFirst(s, {'<', '>'});
    FirstToken(s);
    var r := ParseRedirs(s);
    if Peek(s, {'<', '>'}) {
      var (tok, s1) := Gettoken(s);
      var (file, s2) := Gettoken(s1);
      PeekToken(s, {'<', '>'});
      FirstToken(s1);
      RedirsSound(s2);
      assert r.value[1..] == ParseRedirs(s2).value;
      assert Tokens(s) == [tok] + ([file] + Tokens(s2));
    } else {
      TokensSkip(s);
    }
  }

  /** The items of a word, the redirections behind it, and the items behind these. */
  function OneMore(w: CString, rs: seq<Redirection>, items: seq<Item>): seq<Item> {
    [Arg(w)] + (Intos(rs) + items)
  }

  lemma OneMoreIs(w: CString, rs: seq<Redirection>, items: seq<Item>)
    ensures ItemsYield(OneMore(w, rs, items)) == [Word(w)] + (RedirsYield(rs) + ItemsYield(items))
    ensures ArgsOf(OneMore(w, rs, items)) == [w] + ArgsOf(items)
    ensures RedirsOf(OneMore(w, rs, items)) == rs + RedirsOf(items)
  {
    var all := OneMore(w, rs, items);
    assert all[0] == Arg(w) && all[1..] == Intos(rs) + items;
    ItemsAppend(Intos(rs), items);
    IntosAre(rs);
  }

  lemma {:induction false} ArgsSound(s: CString, a: Args) returns (items: seq<Item>)
    requires ParseArgs(s, a).Ok? && |a.argv| < MAXARGS
    ensures Tokens(s) == ItemsYield(items) + Tokens(ParseArgs(s, a).rest)
    ensures ParseArgs(s, a).value == Args(a.argv + ArgsOf(items), a.rs + RedirsOf(items))
    ensures |a.argv| + |ArgsOf(items)| < MAXARGS
    decreases |s|
  {
    hide Gettoken, Skip, Peek, Tokens, ParseRedirs, ItemsYield, OneMore, RedirsYield, ArgsOf, RedirsOf;
    FirstToken(s);
    TokensSkip(s);
    var (tok, s1) := Gettoken(s);
    if Peek(s, {'|', ')', '&', ';'}) || tok == End {
      items := [];
      NoItems();
      FirstToken(s1);
      assert a.argv + [] == a.argv && a.rs + [] == a.rs;
      return;
    }
    var rr := ParseRedirs(s1);
    RedirsSound(s1);
    var b := Args(a.argv + [tok.w], a.rs + rr.value);
    var more := ArgsSound(rr.rest, b);
    items := OneMore(tok.w, rr.value, more);
    OneMoreIs(tok.w, rr.value, more);
    var rest := Tokens(ParseArgs(s, a).rest);
    assert Tokens(s) == [tok] + (RedirsYield(rr.value) + (ItemsYield(more) + rest));
    assert b.argv + ArgsOf(more) == a.argv + ([tok.w] + ArgsOf(more));
    assert b.rs + RedirsOf(more) == a.rs + (rr.value + RedirsOf(more));
  }

  lemma NoItems()
    ensures ItemsYield([]) == [] && ArgsOf([]) == [] && RedirsOf([]) == [] && Tokens("") == []
  {
  }

  lemma {:induction false} AtomSound(s: CString) returns (a: Atom)
    requires ParseExec(s).Ok?
    ensures Tokens(s) == AtomYield(a) + Tokens(ParseExec(s).rest)
    ensures AtomFits(a) && AtomTree(a) == ParseExec(s).value
    decreases |s|, 1
  {
    hide Gettoken, Skip, Peek, Tokens, ParseRedirs, ParseArgs, ParseLine, ItemsYield, RedirsYield, ArgsOf, RedirsOf;
    if Peek(s, {'('}) {
      a := GroupSound(s);
    } else {
      var rr := ParseRedirs(s);
      RedirsSound(s);
      var items := ArgsSound(rr.rest, Args([], rr.value));
      IntosAre(rr.value);
      ItemsAppend(Intos(rr.value), items);
      a := Plain(Intos(rr.value) + items);
      assert [] + ArgsOf(items) == ArgsOf(items);
    }
  }

  lemma {:induction false} GroupSound(s: CString) returns (a: Atom)
    requires Peek(s, {'('}) && ParseBlock(s).Ok?
    ensures Tokens(s) == AtomYield(a) + Tokens(ParseBlock(s).rest)
    ensures AtomFits(a) && AtomTree(a) == ParseBlock(s).value
    decreases |s|, 0
  {
    hide Gettoken, Skip, Peek, Tokens, ParseRedirs, ParseLine, RedirsYield, LineYield;
    PeekToken(s, {'('});
    var s1 := Gettoken(s).1;
    var l := ParseLine(s1);
    var body := LineSound(s1);
    var s2 := Gettoken(l.rest).1;
    var rr := ParseRedirs(s2);
    RedirsSound(s2);
    Opens(s, '(');
    Opens(l.rest, ')');
    a := Group(body, rr.value);
    var rest := Tokens(ParseBlock(s).rest);
    assert Tokens(s) == [Symbol('(')] + (LineYield(body) + ([Symbol(')')] + (RedirsYield(rr.value) + rest)));
  }

  /** The token that peek has announced. */
  lemma Opens(s: CString, c: char)
    requires IsSymbol(c) && c != '>'
    ensures Peek(s, {c}) <==> Tokens(s) != [] && Tokens(s)[0] == Symbol(c)
    ensures Peek(s, {c}) ==> Tokens(s) == [Symbol(c)] + Tokens(Gettoken(s).1)
  {
    PeekFirst(s, {c});
    FirstToken(s);
  }

  lemma {:induction false} ChainSound(s: CString) returns (p: Chain)
    requires ParsePipe(s).Ok?
    ensures Tokens(s) == ChainYield(p) + Tokens(ParsePipe(s).rest)
    ensures ChainFits(p) && ChainTree(p) == ParsePipe(s).value
    decreases |s|, 2
  {
    hide Gettoken, Skip, Peek, Tokens, ParseExec, AtomYield, AtomTree, AtomFits;
    var a := AtomSound(s);
    var e := ParseExec(s);
    if Peek(e.rest, {'|'}) {
      PeekToken(e.rest, {'|'});
      Opens(e.rest, '|');
      var more := ChainSound(Gettoken(e.rest).1);
      p := Before(a, more);
      assert Tokens(s) == AtomYield(a) + ([Symbol('|')] + (ChainYield(more) + Tokens(ParsePipe(s).rest)));
    } else {
      TokensSkip(e.rest);
      p := Only(a);
    }
  }

  lemma {:induction false} BackedMore(c: Cmd, n: nat)
    ensures Backed(Back(c), n) == Backed(c, n + 1)
  {
    if n > 0 {
      BackedMore(c, n - 1);
    }
  }

  lemma {:induction false} BacksSound(c: Cmd, s: CString) returns (n: nat)
    ensures Tokens(s) == Ands(n) + Tokens(ParseBacks(c, s).rest) && ParseBacks(c, s).value == Backed(c, n)
    decreases |s|
  {
    hide Gettoken, Skip, Peek, Tokens;
    Opens(s, '&');
    if Peek(s, {'&'}) {
      PeekToken(s, {'&'});
      var m := BacksSound(Back(c), Gettoken(s).1);
      n := m + 1;
      BackedMore(c, m);
      assert Ands(n) == [Symbol('&')] + Ands(m);
    } else {
      TokensSkip(s);
      n := 0;
    }
  }

  lemma {:induction false} LineSound(s: CString) returns (l: Line)
    requires ParseLine(s).Ok?
    ensures Tokens(s) == LineYield(l) + Tokens(ParseLine(s).rest)
    ensures LineFits(l) && LineTree(l) == ParseLine(s).value
    decreases |s|, 3
  {
    hide Gettoken, Skip, Peek, Tokens, ParsePipe, ParseBacks, ChainYield, ChainTree, ChainFits, Ands, Backed;
    var c := ParsePipe(s);
    var p := ChainSound(s);
    var n := BacksSound(c.value, c.rest);
    var b := ParseBacks(c.value, c.rest);
    var rest := Tokens(ParseLine(s).rest);
    if Peek(b.rest, {';'}) {
      PeekToken(b.rest, {';'});
      Opens(b.rest, ';');
      var more := LineSound(Gettoken(b.rest).1);
      l := Semi(p, n, more);
      assert Tokens(s) == ChainYield(p) + (Ands(n) + ([Symbol(';')] + (LineYield(more) + rest)));
    } else {
      TokensSkip(b.rest);
      l := Final(p, n);
      assert Tokens(s) == ChainYield(p) + (Ands(n) + rest);
    }
  }

  // Whatever has a derivation is accepted, with the tree that the derivation stands for.

  predicate Continues(ts: seq<Token>, toks: set<char>) {
    ts == [] || (ts[0].Symbol? && ts[0].c in toks)
  }

  predicate IsArrow(t: Token) {
    t == Symbol('<') || t == Symbol('>') || t == AppendTo
  }

  lemma PeekArrow(s: CString)
    ensures Peek(s, {'<', '>'}) <==> Tokens(s) != [] && IsArrow(Tokens(s)[0])
  {
    PeekFirst(s, {'<', '>'});
    FirstToken(s);
  }

  /** peek for some of the symbols that end a command. */
  lemma PeekStop(s: CString, toks: set<char>)
    requires toks <= {'|', ')', '&', ';', '('}
    ensures Peek(s, toks) <==> Tokens(s) != [] && Tokens(s)[0].Symbol? && Tokens(s)[0].c in toks
  {
    PeekFirst(s, toks);
    FirstToken(s);
  }

  /** The token after which ts goes on. */
  lemma TakeToken(s: CString, t: Token, ts: seq<Token>)
    requires Tokens(s) == [t] + ts
    ensures Gettoken(s).0 == t && Tokens(Gettoken(s).1) == ts && |Gettoken(s).1| < |s|
  {
    FirstToken(s);
    assert Tokens(s)[1..] == ts;
  }

  lemma {:induction false} RedirsComplete(rs: seq<Redirection>, s: CString, k: seq<Token>)
    requires Tokens(s) == RedirsYield(rs) + k && (k != [] ==> !IsArrow(k[0]))
    ensures ParseRedirs(s).Ok? && ParseRedirs(s).value == rs && Tokens(ParseRedirs(s).rest) == k
    decreases |rs|
  {
    hide Gettoken, Skip, Peek, Tokens;
    PeekArrow(s);
    if rs == [] {
      TokensSkip(s);
    } else {
      var more := RedirsYield(rs[1..]) + k;
      assert Tokens(s) == [ArrowOf(rs[0].mode)] + ([Word(rs[0].file)] + more);
      TakeToken(s, ArrowOf(rs[0].mode), [Word(rs[0].file)] + more);
      var s1 := Gettoken(s).1;
      TakeToken(s1, Word(rs[0].file), more);
      RedirsComplete(rs[1..], Gettoken(s1).1, k);
      assert [To(rs[0].mode, rs[0].file)] + rs[1..] == rs;
    }
  }

  /** The redirections in front of the first word, and the items from there on. */
  function Lead(items: seq<Item>): seq<Redirection> {
    if items == [] || items[0].Arg? then [] else [items[0].r] + Lead(items[1..])
  }

  function After(items: seq<Item>): (rest: seq<Item>)
    ensures |rest| <= |items| && (rest != [] ==> rest[0].Arg?)
  {
    if items == [] || items[0].Arg? then items else After(items[1..])
  }

  lemma {:induction false} LeadAfter(items: seq<Item>)
    ensures ItemsYield(items) == RedirsYield(Lead(items)) + ItemsYield(After(items))
    ensures ArgsOf(items) == ArgsOf(After(items)) && RedirsOf(items) == Lead(items) + RedirsOf(After(items))
  {
    if items != [] && items[0].Into? {
      LeadAfter(items[1..]);
      assert Lead(items)[1..] == Lead(items[1..]);
    }
  }

  lemma {:induction false} ArgsComplete(items: seq<Item>, s: CString, k: seq<Token>, a: Args)
    requires Tokens(s) == ItemsYield(items) + k && Continues(k, {'|', ')', '&', ';'})
    requires (items != [] ==> items[0].Arg?) && |a.argv| + |ArgsOf(items)| < MAXARGS
    ensures ParseArgs(s, a).Ok? && Tokens(ParseArgs(s, a).rest) == k
    ensures ParseArgs(s, a).value == Args(a.argv + ArgsOf(items), a.rs + RedirsOf(items))
    decreases |items|
  {
    hide Gettoken, Skip, Peek, Tokens, ParseRedirs, RedirsYield, ItemsYield, ArgsOf, RedirsOf;
    PeekStop(s, {'|', ')', '&', ';'});
    FirstToken(s);
    TokensSkip(s);
    if items == [] {
      NoItems();
      FirstToken(Gettoken(s).1);
      assert a.argv + [] == a.argv && a.rs + [] == a.rs;
    } else {
      var w, more := items[0].w, items[1..];
      assert items == [Arg(w)] + more;
      ItemsCons(Arg(w), more);
      LeadAfter(more);
      var rest := ItemsYield(After(more)) + k;
      assert Tokens(s) == [Word(w)] + (RedirsYield(Lead(more)) + rest);
      TakeToken(s, Word(w), RedirsYield(Lead(more)) + rest);
      WordFirst(After(more), k);
      RedirsComplete(Lead(more), Gettoken(s).1, rest);
      var b := Args(a.argv + [w], a.rs + Lead(more));
      ArgsComplete(After(more), ParseRedirs(Gettoken(s).1).rest, k, b);
      assert b.argv + ArgsOf(After(more)) == a.argv + ArgsOf(items);
      assert b.rs + RedirsOf(After(more)) == a.rs + RedirsOf(items);
    }
  }

  lemma WordFirst(items: seq<Item>, k: seq<Token>)
    requires (items != [] ==> items[0].Arg?) && Continues(k, {'|', ')', '&', ';'})
    ensures var ts := ItemsYield(items) + k; ts != [] ==> !IsArrow(ts[0]) && ts[0] != Symbol('(')
  {
  }

  lemma {:induction false} AtomComplete(a: Atom, s: CString, k: seq<Token>)
    requires Tokens(s) == AtomYield(a) + k && AtomFits(a) && Continues(k, {'|', ')', '&', ';'})
    ensures ParseExec(s).Ok? && ParseExec(s).value == AtomTree(a) && Tokens(ParseExec(s).rest) == k
    decreases a
  {
    hide Gettoken, Skip, Peek, Tokens, ParseRedirs, ParseArgs, ParseBlock, ItemsYield, RedirsYield, ArgsOf, RedirsOf;
    hide LineYield, LineTree;
    PeekStop(s, {'('});
    match a
    case Plain(items) =>
      LeadAfter(items);
      WordFirst(After(items), k);
      NotGroup(items, k);
      var rest := ItemsYield(After(items)) + k;
      assert Tokens(s) == RedirsYield(Lead(items)) + rest;
      RedirsComplete(Lead(items), s, rest);
      ArgsComplete(After(items), ParseRedirs(s).rest, k, Args([], Lead(items)));
      assert [] + ArgsOf(items) == ArgsOf(items);
    case Group(body, rs) =>
      var end := [Symbol(')')] + (RedirsYield(rs) + k);
      assert Tokens(s) == [Symbol('(')] + (LineYield(body) + end);
      TakeToken(s, Symbol('('), LineYield(body) + end);
      LineComplete(body, Gettoken(s).1, end);
      GroupComplete(s, body, rs, k);
  }

  lemma NotGroup(items: seq<Item>, k: seq<Token>)
    requires Continues(k, {'|', ')', '&', ';'})
    ensures var ts := ItemsYield(items) + k; ts != [] ==> ts[0] != Symbol('(')
  {
  }

  lemma GroupComplete(s: CString, body: Line, rs: seq<Redirection>, k: seq<Token>)
    requires Peek(s, {'('}) && Continues(k, {'|', ')', '&', ';'})
    requires var l := ParseLine(Gettoken(s).1);
             l.Ok? && l.value == LineTree(body) && Tokens(l.rest) == [Symbol(')')] + (RedirsYield(rs) + k)
    ensures ParseBlock(s).Ok? && ParseBlock(s).value == Wrap(LineTree(body), rs) && Tokens(ParseBlock(s).rest) == k
  {
    hide Gettoken, Skip, Peek, Tokens, ParseRedirs, ParseLine, RedirsYield, LineTree;
    var l := ParseLine(Gettoken(s).1);
    PeekStop(l.rest, {')'});
    TakeToken(l.rest, Symbol(')'), RedirsYield(rs) + k);
    RedirsComplete(rs, Gettoken(l.rest).1, k);
  }

  lemma {:induction false} ChainComplete(p: Chain, s: CString, k: seq<Token>)
    requires Tokens(s) == ChainYield(p) + k && ChainFits(p) && Continues(k, {')', '&', ';'})
    ensures ParsePipe(s).Ok? && ParsePipe(s).value == ChainTree(p) && Tokens(ParsePipe(s).rest) == k
    decreases p
  {
    hide Gettoken, Skip, Peek, Tokens, ParseExec, AtomYield, AtomTree, AtomFits;
    if p.Only? {
      AtomComplete(p.a, s, k);
      PeekStop(ParseExec(s).rest, {'|'});
      TokensSkip(ParseExec(s).rest);
    } else {
      var more := ChainYield(p.rest) + k;
      assert Tokens(s) == AtomYield(p.a) + ([Symbol('|')] + more);
      AtomComplete(p.a, s, [Symbol('|')] + more);
      var rest := ParseExec(s).rest;
      PeekStop(rest, {'|'});
      TakeToken(rest, Symbol('|'), more);
      ChainComplete(p.rest, Gettoken(rest).1, k);
    }
  }

  lemma {:induction false} BacksComplete(c: Cmd, n: nat, s: CString, k: seq<Token>)
    requires Tokens(s) == Ands(n) + k && Continues(k, {')', ';'})
    ensures ParseBacks(c, s).value == Backed(c, n) && Tokens(ParseBacks(c, s).rest) == k
    decreases n
  {
    hide Gettoken, Skip, Peek, Tokens;
    PeekStop(s, {'&'});
    if n == 0 {
      TokensSkip(s);
    } else {
      assert Tokens(s) == [Symbol('&')] + (Ands(n - 1) + k);
      TakeToken(s, Symbol('&'), Ands(n - 1) + k);
      BacksComplete(Back(c), n - 1, Gettoken(s).1, k);
      BackedMore(c, n - 1);
    }
  }

  lemma AndsContinue(n: nat, k: seq<Token>)
    requires Continues(k, {')', ';'})
    ensures Continues(Ands(n) + k, {')', '&', ';'})
  {
  }

  lemma {:induction false} LineComplete(l: Line, s: CString, k: seq<Token>)
    requires Tokens(s) == LineYield(l) + k && LineFits(l) && Continues(k, {')'})
    ensures ParseLine(s).Ok? && ParseLine(s).value == LineTree(l) && Tokens(ParseLine(s).rest) == k
    decreases l
  {
    hide Gettoken, Skip, Peek, Tokens, ParsePipe, ParseBacks, ChainYield, ChainTree, ChainFits, Ands, Backed;
    var end := if l.Final? then k else [Symbol(';')] + (LineYield(l.rest) + k);
    assert Tokens(s) == ChainYield(l.p) + (Ands(l.ands) + end);
    AndsContinue(l.ands, end);
    ChainComplete(l.p, s, Ands(l.ands) + end);
    var p := ParsePipe(s);
    BacksComplete(p.value, l.ands, p.rest, end);
    var rest := ParseBacks(p.value, p.rest).rest;
    PeekStop(rest, {';'});
    if l.Final? {
      TokensSkip(rest);
    } else {
      TakeToken(rest, Symbol(';'), LineYield(l.rest) + k);
      LineComplete(l.rest, Gettoken(rest).1, k);
    }
  }

  /** parsecmd returns c for exactly those inputs whose tokens derive c. */
  lemma ParsesExactly(s: CString, c: Cmd)
    ensures ParseCmd(s) == Ok(c, "") <==> Derives(Tokens(s), c)
  {
    hide ParseLine, LineYield, LineTree, LineFits, Tokens, Gettoken;
    if ParseCmd(s) == Ok(c, "") {
      var l := LineSound(s);
      AllRead(ParseLine(s).rest);
      assert LineYield(l) + [] == LineYield(l);
    }
    if Derives(Tokens(s), c) {
      var l :| LineYield(l) == Tokens(s) && LineFits(l) && LineTree(l) == c;
      assert LineYield(l) + [] == LineYield(l);
      LineComplete(l, s, []);
      AllRead(ParseLine(s).rest);
    }
  }

  lemma AllRead(s: CString)
    ensures Tokens(s) == [] <==> Skip(s) == ""
  {
  }

  /** It panics for exactly those that derive nothing. */
  lemma PanicsExactly(s: CString)
    ensures ParseCmd(s).Panic? <==> forall c :: !Derives(Tokens(s), c)
  {
    hide Derives, Tokens, ParseLine, Skip;
    forall c
      ensures ParseCmd(s) == Ok(c, "") <==> Derives(Tokens(s), c)
    {
      ParsesExactly(s, c);
    }
    if ParseCmd(s).Ok? {
      assert Derives(Tokens(s), ParseCmd(s).value);
    }
  }

  // The lexical rule.

  const WHITESPACE: set<char> := {' ', '\t', '\r', '\n', '\U{000B}'}
  const SYMBOLS: set<char> := {'<', '|', '>', '&', ';', '(', ')'}

  /** A token as it is written. */
  predicate Written(t: Token) {
    match t
    case End => false
    case AppendTo => true
    case Symbol(c) => c in SYMBOLS
    case Word(w) => w != "" && forall i :: 0 <= i < |w| ==> w[i] !in WHITESPACE + SYMBOLS
  }

  function Spelling(t: Token): (w: CString)
    requires Written(t)
    ensures w != "" && w[0] == Head(t) && w[0] !in WHITESPACE
  {
    match t
    case Symbol(c) => [c]
    case AppendTo => ">>"
    case Word(w) => w
  }

  predicate Blank(g: CString) {
    forall i :: 0 <= i < |g| ==> g[i] in WHITESPACE
  }

  /** Two tokens that may be written with g between them: without white space two words would be one, and
      `>` before another one would be `>>`. */
  predicate Apart(t: Token, g: CString, u: Token) {
    g == "" ==> !(t.Word? && u.Word?) && !(t == Symbol('>') && (u == Symbol('>') || u == AppendTo))
  }

  predicate Proper(ts: seq<Token>, gaps: seq<CString>) {
    && |gaps| == |ts| + 1 && Blank(gaps[0])
    && (ts != [] ==> Written(ts[0]) && (|ts| > 1 ==> Apart(ts[0], gaps[1], ts[1])) && Proper(ts[1..], gaps[1..]))
  }

  /** The tokens with white space in front of, between and behind them. */
  function Spell(ts: seq<Token>, gaps: seq<CString>): CString
    requires Proper(ts, gaps)
  {
    gaps[0] + if ts == [] then "" else Spelling(ts[0]) + Spell(ts[1..], gaps[1..])
  }

  lemma {:induction false} SkipBlank(g: CString, t: CString)
    requires Blank(g) && (t != "" ==> !IsSpace(t[0]))
    ensures Skip(g + t) == t
  {
    if g == "" {
      assert g + t == t;
    } else {
      assert (g + t)[0] == g[0] && (g + t)[1..] == g[1..] + t;
      SkipBlank(g[1..], t);
    }
  }

  /** A word ends where it is followed by anything else. */
  predicate EndsBefore(t: Token, rest: CString) {
    rest == "" || ((t.Word? ==> !InWord(rest[0])) && (t == Symbol('>') ==> rest[0] != '>'))
  }

  lemma TokenSpelled(t: Token, rest: CString)
    requires Written(t) && EndsBefore(t, rest)
    ensures Gettoken(Spelling(t) + rest) == (t, Skip(rest))
  {
    var s := Spelling(t) + rest;
    assert s[0] == Head(t) && Skip(s) == s && s[|Spelling(t)|..] == rest;
    match t
    case Symbol(c) =>
      assert |s| > 1 ==> s[1] == rest[0];
    case AppendTo =>
      assert s[1] == '>';
    case Word(w) =>
      WordLengthOf(w, rest);
      assert s[..|w|] == w;
  }

  lemma SpelledApart(t: Token, ts: seq<Token>, gaps: seq<CString>)
    requires Written(t) && Proper(ts, gaps) && (ts != [] ==> Apart(t, gaps[0], ts[0]))
    ensures EndsBefore(t, Spell(ts, gaps))
  {
    if gaps[0] == "" && ts != [] {
      assert Spell(ts, gaps)[0] == Spelling(ts[0])[0];
    }
  }

  lemma {:induction false} TokensSpelled(ts: seq<Token>, gaps: seq<CString>)
    requires Proper(ts, gaps)
    ensures Tokens(Spell(ts, gaps)) == ts
    decreases |ts|
  {
    hide Gettoken, Spelling, Written, Apart;
    if ts == [] {
      SkipBlank(gaps[0], "");
      assert gaps[0] + "" == gaps[0];
      AllRead(gaps[0]);
    } else {
      var rest := Spell(ts[1..], gaps[1..]);
      var out := Spelling(ts[0]) + rest;
      SkipBlank(gaps[0], out);
      SpelledApart(ts[0], ts[1..], gaps[1..]);
      TokenSpelled(ts[0], rest);
      TokensSpelled(ts[1..], gaps[1..]);
      TokensSkip(rest);
      TokensSkip(gaps[0] + out);
      WrittenToken(ts[0]);
      assert Tokens(out) == [ts[0]] + Tokens(Skip(rest));
    }
  }

  lemma WrittenToken(t: Token)
    requires Written(t)
    ensures t != End
  {
  }

  lemma {:induction false} SkipSplits(s: CString)
    ensures Blank(s[..|s| - |Skip(s)|]) && s == s[..|s| - |Skip(s)|] + Skip(s)
  {
    if s != "" && IsSpace(s[0]) {
      SkipSplits(s[1..]);
      var n := |s| - |Skip(s)|;
      assert s[..n] == [s[0]] + s[1..][..n - 1];
      assert s == [s[0]] + s[1..];
    }
  }

  /** What the token leaves, before the white space behind it is skipped. */
  lemma TokenSplits(t: CString) returns (rest: CString)
    requires t != "" && !IsSpace(t[0])
    ensures Written(Gettoken(t).0) && t == Spelling(Gettoken(t).0) + rest && Gettoken(t).1 == Skip(rest)
    ensures EndsBefore(Gettoken(t).0, rest) && |rest| < |t|
  {
    TokenOk(t);
    if t[0] == '>' {
      rest := if |t| > 1 && t[1] == '>' then t[2..] else t[1..];
    } else if IsSymbol(t[0]) {
      rest := t[1..];
    } else {
      rest := t[WordLength(t)..];
      WordEnds(t);
    }
  }

  lemma {:induction false} WordEnds(s: CString)
    ensures WordLength(s) < |s| ==> !InWord(s[WordLength(s)])
  {
    if s != "" && InWord(s[0]) {
      WordEnds(s[1..]);
    }
  }

  lemma {:induction false} SpellOut(s: CString) returns (gaps: seq<CString>)
    ensures Proper(Tokens(s), gaps) && Spell(Tokens(s), gaps) == s
    decreases |s|
  {
    hide Gettoken, Skip, Spelling, Written, EndsBefore, Apart;
    SkipSplits(s);
    AllRead(s);
    FirstToken(s);
    TokensSkip(s);
    var t := Skip(s);
    var g := s[..|s| - |t|];
    if t == "" {
      gaps := [g];
    } else {
      FirstToken(t);
      SkipFirst(s);
      var rest := TokenSplits(t);
      TokensSkip(rest);
      var more := SpellOut(rest);
      gaps := [g] + more;
      var ts := Tokens(s);
      assert ts[1..] == Tokens(rest) && gaps[1..] == more;
      if |ts| > 1 {
        EndsApart(ts[0], ts[1..], more);
      }
    }
  }

  lemma SkipFirst(s: CString)
    ensures Skip(s) != "" ==> !IsSpace(Skip(s)[0])
  {
  }

  lemma EndsApart(t: Token, ts: seq<Token>, gaps: seq<CString>)
    requires Written(t) && ts != [] && Proper(ts, gaps) && EndsBefore(t, Spell(ts, gaps))
    ensures Apart(t, gaps[0], ts[0])
  {
    if gaps[0] == "" {
      assert Spell(ts, gaps)[0] == Spelling(ts[0])[0];
    }
  }

  /** gettoken cuts s into ts if and only if s is a spelling of ts, with white space of any of the five
      kinds between the tokens, and some wherever two tokens would run together. */
  lemma LexesExactly(s: CString, ts: seq<Token>)
    ensures Tokens(s) == ts <==> exists gaps :: Proper(ts, gaps) && Spell(ts, gaps) == s
  {
    hide Tokens, Proper, Spell;
    if Tokens(s) == ts {
      var gaps := SpellOut(s);
    }
    if gaps :| Proper(ts, gaps) && Spell(ts, gaps) == s {
      TokensSpelled(ts, gaps);
    }
  }

  function Spaces(n: nat): seq<CString> {
    seq(n, _ => " ")
  }

  lemma {:induction false} SpacesProper(ts: seq<Token>)
    requires forall i :: 0 <= i < |ts| ==> Written(ts[i])
    ensures Proper(ts, Spaces(|ts| + 1))
    decreases |ts|
  {
    if ts != [] {
      SpacesProper(ts[1..]);
      assert Spaces(|ts| + 1)[1..] == Spaces(|ts|);
    }
  }

  /** The grammar is unambiguous: one token list, one tree. */
  lemma Unambiguous(l: Line, m: Line)
    requires LineYield(l) == LineYield(m) && LineFits(l) && LineFits(m)
    requires forall i :: 0 <= i < |LineYield(l)| ==> Written(LineYield(l)[i])
    ensures LineTree(l) == LineTree(m)
  {
    hide LineYield, LineFits, LineTree, Proper, Spell, ParseCmd, Tokens;
    var ts := LineYield(l);
    SpacesProper(ts);
    var s := Spell(ts, Spaces(|ts| + 1));
    TokensSpelled(ts, Spaces(|ts| + 1));
    ParsesExactly(s, LineTree(l));
    ParsesExactly(s, LineTree(m));
  }
}
