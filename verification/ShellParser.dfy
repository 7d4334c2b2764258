/** The parser of user/sh.c as it runs: a cursor `ps` moves over the buffer, with loops over white
    space, words, redirections, arguments and `&`s. Each method computes its function in `Shell`. */
module ShellParser {
  import opened Shell
  import opened ShellGrammar

  /** panic, or a value. */
  datatype Outcome<T> = Fail | Done(value: T)

  class Parser {
    const s: CString
    var ps: nat

    constructor (s: CString)
      ensures this.s == s && Valid() && Rest() == s
    {
      this.s := s;
      ps := 0;
    }

    predicate Valid()
      reads this
    {
      ps <= |s|
    }

    /** What is left of the input. */
    function Rest(): CString
      reads this
      requires Valid()
    {
      s[ps..]
    }

    method SkipSpace()
      requires Valid()
      modifies this`ps
      ensures Valid() && Rest() == Skip(old(Rest())) && ps >= old(ps)
    {
      while ps < |s| && IsSpace(s[ps])
        invariant Valid() && Skip(Rest()) == Skip(old(Rest())) && ps >= old(ps)
      {
        assert s[ps..][1..] == s[ps + 1..];
        ps := ps + 1;
      }
    }

    /** `peek`. */
    method PeekAt(toks: set<char>) returns (b: bool)
      requires Valid()
      modifies this`ps
      ensures Valid() && Rest() == Skip(old(Rest())) && b == Peek(old(Rest()), toks)
    {
      SkipSpace();
      b := ps < |s| && s[ps] in toks;
    }

    /** `gettoken`. */
    method GettokenAt() returns (tok: Token)
      requires Valid()
      modifies this`ps
      ensures Valid() && (tok, Rest()) == Gettoken(old(Rest()))
    {
      SkipSpace();
      ghost var t := Rest();
      if ps == |s| {
        return End;
      }
      var c := s[ps];
      if c == '>' {
        ps := ps + 1;
        tok := Symbol('>');
        if ps < |s| && s[ps] == '>' {
          tok := AppendTo;
          ps := ps + 1;
          assert Rest() == t[2..];
        } else {
          assert Rest() == t[1..];
        }
      } else if IsSymbol(c) {
        tok := Symbol(c);
        ps := ps + 1;
        assert Rest() == t[1..];
      } else {
        tok := WordAt();
      }
      SkipSpace();
    }

    method WordAt() returns (tok: Token)
      requires Valid()
      modifies this`ps
      ensures Valid() && var n := WordLength(old(Rest())); tok == Word(old(Rest())[..n]) && Rest() == old(Rest())[n..]
    {
      hide WordLength;
      var q := ps;
      ghost var t := Rest();
      while ps < |s| && !IsSpace(s[ps]) && !IsSymbol(s[ps])
        invariant q <= ps <= |s| && WordLength(t) == (ps - q) + WordLength(Rest())
      {
        WordGoesOn(Rest());
        assert s[ps..][1..] == s[ps + 1..];
        ps := ps + 1;
      }
      WordStops(Rest());
      tok := Word(s[q..ps]);
      assert Rest() == t[ps - q..] && s[q..ps] == t[..ps - q];
    }

    /** `parseredirs`. */
    method ParseredirsAt() returns (r: Outcome<seq<Redirection>>)
      requires Valid()
      modifies this`ps
      ensures Valid() && Agrees(r, ParseRedirs(old(Rest())), Rest())
    {
      hide Gettoken, Skip, RedirsFrom;
      var rs: seq<Redirection> := [];
      ghost var all := ParseRedirs(Rest());
      var more := PeekAt({'<', '>'});
      RedirsStart(old(Rest()));
      while more
        invariant Valid() && more == Peek(Rest(), {'<', '>'}) && Skip(Rest()) == Rest() && RedirsFrom(all, rs, Rest())
        decreases |Rest()|
      {
        RedirsStep(all, rs, Rest());
        var tok := GettokenAt();
        var file := GettokenAt();
        if !file.Word? {
          return Fail;
        }
        rs := rs + [To(ModeOf(tok), file.w)];
        SkipSkip(Rest());
        PeekSkip(Rest(), {'<', '>'});
        more := PeekAt({'<', '>'});
      }
      RedirsEnd(all, rs, Rest());
      r := Done(rs);
    }

    /** The loop of `parseexec`. */
    method ParseargsAt(rs0: seq<Redirection>) returns (r: Outcome<Args>)
      requires Valid()
      modifies this`ps
      ensures Valid() && Agrees(r, ParseArgs(old(Rest()), Args([], rs0)), Rest())
    {
      hide Gettoken, Skip, ParseRedirs;
      var a := Args([], rs0);
      var stop := PeekAt({'|', ')', '&', ';'});
      ghost var all := ParseArgs(old(Rest()), a);
      ArgsSkip(old(Rest()), a);
      SkipSkip(old(Rest()));
      PeekSkip(old(Rest()), {'|', ')', '&', ';'});
      while !stop
        invariant Valid()
        invariant stop == Peek(Rest(), {'|', ')', '&', ';'}) && Skip(Rest()) == Rest() && all == ParseArgs(Rest(), a)
        decreases |Rest()|
      {
        var tok := GettokenAt();
        if tok == End {
          break;
        }
        if !tok.Word? {
          return Fail;
        }
        if |a.argv| + 1 >= MAXARGS {
          return Fail;
        }
        var rr := ParseredirsAt();
        if rr.Fail? {
          return Fail;
        }
        a := Args(a.argv + [tok.w], a.rs + rr.value);
        ArgsSkip(Rest(), a);
        SkipSkip(Rest());
        PeekSkip(Rest(), {'|', ')', '&', ';'});
        stop := PeekAt({'|', ')', '&', ';'});
      }
      r := Done(a);
    }

    /** `parseexec`. */
    method ParseexecAt() returns (r: Outcome<Cmd>)
      requires Valid()
      modifies this`ps
      ensures Valid() && Agrees(r, ParseExec(old(Rest())), Rest())
      decreases |Rest()|, 1
    {
      hide Gettoken, Skip, ParseRedirs, ParseArgs, ParseBlock;
      ghost var s0 := Rest();
      PeekSkip(s0, {'('});
      ExecSkip(s0);
      var block := PeekAt({'('});
      if block {
        r := ParseblockAt();
        return;
      }
      var rr := ParseredirsAt();
      if rr.Fail? {
        return Fail;
      }
      var a := ParseargsAt(rr.value);
      if a.Fail? {
        return Fail;
      }
      r := Done(Wrap(Exec(a.value.argv), a.value.rs));
    }

    /** `parseblock`. */
    method ParseblockAt() returns (r: Outcome<Cmd>)
      requires Valid() && Peek(Rest(), {'('})
      modifies this`ps
      ensures Valid() && Agrees(r, ParseBlock(old(Rest())), Rest())
      decreases |Rest()|, 0
    {
      hide Gettoken, Skip, ParseRedirs, ParseLine;
      PeekToken(Rest(), {'('});
      var open := GettokenAt();
      var l := ParselineAt();
      if l.Fail? {
        return Fail;
      }
      ghost var s1 := Rest();
      PeekSkip(s1, {')'});
      TokenSkip(s1);
      var close := PeekAt({')'});
      if !close {
        return Fail;
      }
      open := GettokenAt();
      var rr := ParseredirsAt();
      if rr.Fail? {
        return Fail;
      }
      r := Done(Wrap(l.value, rr.value));
    }

    /** `parsepipe`. */
    method ParsepipeAt() returns (r: Outcome<Cmd>)
      requires Valid()
      modifies this`ps
      ensures Valid() && Agrees(r, ParsePipe(old(Rest())), Rest())
      decreases |Rest()|, 2
    {
      hide Gettoken, Skip, ParseExec, Peek;
      r := ParseexecAt();
      if r.Fail? {
        return;
      }
      ghost var s1 := Rest();
      TokenSkip(s1);
      var bar := PeekAt({'|'});
      if bar {
        PeekToken(s1, {'|'});
        var tok := GettokenAt();
        var p := ParsepipeAt();
        r := if p.Fail? then Fail else Done(Pipe(r.value, p.value));
      }
    }

    /** `parseline`. */
    method ParselineAt() returns (r: Outcome<Cmd>)
      requires Valid()
      modifies this`ps
      ensures Valid() && Agrees(r, ParseLine(old(Rest())), Rest())
      decreases |Rest()|, 3
    {
      hide Gettoken, Skip, ParsePipe, Peek;
      r := ParsepipeAt();
      if r.Fail? {
        return;
      }
      var b := ParsebacksAt(r.value);
      ghost var s1 := Rest();
      TokenSkip(s1);
      var semi := PeekAt({';'});
      r := Done(b);
      if semi {
        PeekToken(s1, {';'});
        var tok := GettokenAt();
        var l := ParselineAt();
        r := if l.Fail? then Fail else Done(List(b, l.value));
      }
    }

    /** The `&` loop of `parseline`. */
    method ParsebacksAt(c: Cmd) returns (b: Cmd)
      requires Valid()
      modifies this`ps
      ensures Valid() && Ok(b, Rest()) == ParseBacks(c, old(Rest()))
    {
      hide Gettoken, Skip, Peek;
      b := c;
      ghost var all := ParseBacks(c, Rest());
      BacksSkip(b, Rest());
      SkipSkip(Rest());
      PeekSkip(Rest(), {'&'});
      var more := PeekAt({'&'});
      while more
        invariant Valid() && more == Peek(Rest(), {'&'}) && Skip(Rest()) == Rest() && all == ParseBacks(b, Rest())
        decreases |Rest()|
      {
        PeekToken(Rest(), {'&'});
        var tok := GettokenAt();
        b := Back(b);
        BacksSkip(b, Rest());
        SkipSkip(Rest());
        PeekSkip(Rest(), {'&'});
        more := PeekAt({'&'});
      }
    }

    /** `parsecmd`. */
    method Parsecmd() returns (r: Outcome<Cmd>)
      requires Valid()
      modifies this`ps
      ensures Valid() && Agrees(r, ParseCmd(old(Rest())), "")
      ensures r.Done? ==> Derives(Tokens(old(Rest())), r.value)
      ensures r.Fail? ==> forall c :: !Derives(Tokens(old(Rest())), c)
    {
      hide ParseLine, Derives, Tokens;
      PanicsExactly(Rest());
      r := ParselineAt();
      if r.Done? {
        SkipSpace();
        if ps != |s| {
          r := Fail;
        } else {
          ParsesExactly(old(Rest()), r.value);
        }
      }
    }
  }

  /** A method's outcome and the input it leaves are what the function says. */
  predicate Agrees<T(==)>(r: Outcome<T>, f: Result<T>, rest: CString) {
    if r.Fail? then f.Panic? else f == Ok(r.value, rest)
  }

  /** Of the redirections that `all` stands for, rs have been read and t is what is left. */
  predicate RedirsFrom(all: Result<seq<Redirection>>, rs: seq<Redirection>, t: CString) {
    var rest := ParseRedirs(t);
    all == if rest.Panic? then Panic else Ok(rs + rest.value, rest.rest)
  }

  lemma RedirsStart(t: CString)
    ensures RedirsFrom(ParseRedirs(t), [], Skip(t)) && Skip(Skip(t)) == Skip(t)
    ensures Peek(Skip(t), {'<', '>'}) == Peek(t, {'<', '>'})
  {
    SkipSkip(t);
    RedirsSkip(t);
    var rest := ParseRedirs(t);
    assert rest.Ok? ==> [] + rest.value == rest.value;
  }

  lemma RedirsStep(all: Result<seq<Redirection>>, rs: seq<Redirection>, t: CString)
    requires RedirsFrom(all, rs, t) && Peek(t, {'<', '>'})
    ensures var (tok, s1) := Gettoken(t); var (file, s2) := Gettoken(s1);
            && |s2| < |t| && (!file.Word? ==> all.Panic?)
            && (file.Word? ==> RedirsFrom(all, rs + [To(ModeOf(tok), file.w)], Skip(s2)))
  {
    hide Gettoken;
    PeekToken(t, {'<', '>'});
    var (tok, s1) := Gettoken(t);
    var (file, s2) := Gettoken(s1);
    if file.Word? {
      RedirsSkip(s2);
      var rest := ParseRedirs(s2);
      var one := [To(ModeOf(tok), file.w)];
      assert rest.Ok? ==> rs + (one + rest.value) == rs + one + rest.value;
    }
  }

  lemma RedirsEnd(all: Result<seq<Redirection>>, rs: seq<Redirection>, t: CString)
    requires RedirsFrom(all, rs, t) && !Peek(t, {'<', '>'}) && Skip(t) == t
    ensures all == Ok(rs, t)
  {
    assert rs + [] == rs;
  }

  lemma WordGoesOn(t: CString)
    requires t != "" && InWord(t[0])
    ensures WordLength(t) == 1 + WordLength(t[1..])
  {
  }

  lemma WordStops(t: CString)
    requires t == "" || !InWord(t[0])
    ensures WordLength(t) == 0
  {
  }

  lemma PeekSkip(t: CString, toks: set<char>)
    ensures Peek(Skip(t), toks) == Peek(t, toks)
  {
    SkipSkip(t);
  }

  lemma TokenSkip(t: CString)
    ensures Gettoken(Skip(t)) == Gettoken(t) && Skip(Skip(t)) == Skip(t)
  {
    SkipSkip(t);
  }

  lemma ArgsSkip(t: CString, a: Args)
    ensures ParseArgs(Skip(t), a) == ParseArgs(t, a)
  {
    TokenSkip(t);
    PeekSkip(t, {'|', ')', '&', ';'});
  }
}
