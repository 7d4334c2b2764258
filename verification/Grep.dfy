/** The matcher of user/grep.c against a declarative meaning of its patterns. Patterns and texts are
    C strings: no NUL in them. */
module Grep {
  /** One character, "." for any; any number of them; the end of the text. */
  datatype Item = One(c: char) | Star(c: char) | Eol

  predicate Fits(c: char, x: char) {
    c == '.' || c == x
  }

  /** "c*" anywhere, "$" at the end, and everything else itself. */
  function Parse(re: string): seq<Item> {
    if re == "" then []
    else if |re| > 1 && re[1] == '*' then [Star(re[0])] + Parse(re[2..])
    else if re == "$" then [Eol]
    else [One(re[0])] + Parse(re[1..])
  }

  // The meaning: the text can be cut up to fit the items.

  ghost predicate Denotes(item: Item, piece: string, rest: string) {
    match item
    case One(c) => |piece| == 1 && Fits(c, piece[0])
    case Star(c) => forall i :: 0 <= i < |piece| ==> Fits(c, piece[i])
    case Eol => piece == "" && rest == ""
  }

  function Join(pieces: seq<string>): string {
    if pieces == [] then "" else pieces[0] + Join(pieces[1..])
  }

  /** The pieces fit the items one by one and begin the text. */
  ghost predicate Cut(items: seq<Item>, pieces: seq<string>, text: string, rest: string) {
    && |pieces| == |items| && text == Join(pieces) + rest
    && forall i :: 0 <= i < |items| ==> Denotes(items[i], pieces[i], Join(pieces[i + 1..]) + rest)
  }

  ghost predicate MatchesHere(items: seq<Item>, text: string) {
    exists pieces, rest :: Cut(items, pieces, text, rest)
  }

  /** A leading "^" ties the match to the beginning; otherwise it may begin anywhere. */
  ghost predicate Matches(re: string, text: string) {
    if re != "" && re[0] == '^' then MatchesHere(Parse(re[1..]), text)
    else exists i :: 0 <= i <= |text| && MatchesHere(Parse(re), text[i..])
  }

  // What one item contributes.

  lemma EmptyMatches(text: string)
    ensures MatchesHere([], text)
  {
    assert Cut([], [], text, text);
  }

  lemma CutFirst(items: seq<Item>, pieces: seq<string>, text: string, rest: string)
    requires items != [] && Cut(items, pieces, text, rest)
    ensures |pieces[0]| <= |text| && pieces[0] == text[..|pieces[0]|]
    ensures Denotes(items[0], pieces[0], text[|pieces[0]|..])
    ensures Cut(items[1..], pieces[1..], text[|pieces[0]|..], rest)
  {
    var n := |pieces[0]|;
    var tail := Join(pieces[1..]) + rest;
    assert text == pieces[0] + tail;
    assert text[n..] == tail && text[..n] == pieces[0];
    forall i | 0 <= i < |items| - 1
      ensures Denotes(items[1..][i], pieces[1..][i], Join(pieces[1..][i + 1..]) + rest)
    {
      assert pieces[1..][i + 1..] == pieces[i + 2..];
      assert Denotes(items[i + 1], pieces[i + 1], Join(pieces[i + 2..]) + rest);
    }
  }

  lemma CutMore(item: Item, items: seq<Item>, n: nat, pieces: seq<string>, text: string, rest: string)
    requires n <= |text| && Denotes(item, text[..n], text[n..]) && Cut(items, pieces, text[n..], rest)
    ensures Cut([item] + items, [text[..n]] + pieces, text, rest)
  {
    var all, ps := [item] + items, [text[..n]] + pieces;
    assert ps[1..] == pieces;
    assert Join(ps) == text[..n] + Join(pieces);
    assert text == text[..n] + text[n..];
    forall i | 0 <= i < |all|
      ensures Denotes(all[i], ps[i], Join(ps[i + 1..]) + rest)
    {
      if i > 0 {
        assert ps[i + 1..] == pieces[i..];
        assert Denotes(items[i - 1], pieces[i - 1], Join(pieces[i - 1 + 1..]) + rest);
      }
    }
  }

  /** The text matches if some beginning of it fits the first item and what is left matches. */
  lemma MatchFirst(item: Item, items: seq<Item>, text: string)
    ensures MatchesHere([item] + items, text) <==>
            exists n :: 0 <= n <= |text| && Denotes(item, text[..n], text[n..]) && MatchesHere(items, text[n..])
  {
    var all := [item] + items;
    assert all[1..] == items;
    if MatchesHere(all, text) {
      var pieces, rest :| Cut(all, pieces, text, rest);
      CutFirst(all, pieces, text, rest);
      assert MatchesHere(items, text[|pieces[0]|..]);
    }
    if n :| 0 <= n <= |text| && Denotes(item, text[..n], text[n..]) && MatchesHere(items, text[n..]) {
      var pieces, rest :| Cut(items, pieces, text[n..], rest);
      CutMore(item, items, n, pieces, text, rest);
    }
  }

  lemma MatchOne(c: char, items: seq<Item>, text: string)
    ensures MatchesHere([One(c)] + items, text) <==> text != "" && Fits(c, text[0]) && MatchesHere(items, text[1..])
  {
    hide MatchesHere;
    MatchFirst(One(c), items, text);
    if text != "" && Fits(c, text[0]) && MatchesHere(items, text[1..]) {
      assert Denotes(One(c), text[..1], text[1..]);
    }
  }

  lemma MatchEol(text: string)
    ensures MatchesHere([Eol], text) <==> text == ""
  {
    MatchFirst(Eol, [], text);
    assert [Eol] + [] == [Eol];
    if text == "" {
      EmptyMatches(text[0..]);
      assert Denotes(Eol, text[..0], text[0..]);
    }
  }

  /** Zero or more characters that fit c, and then the rest. */
  ghost predicate Runs(c: char, items: seq<Item>, text: string, n: nat) {
    n <= |text| && (forall i :: 0 <= i < n ==> Fits(c, text[i])) && MatchesHere(items, text[n..])
  }

  lemma MatchStar(c: char, items: seq<Item>, text: string)
    ensures MatchesHere([Star(c)] + items, text) <==> exists n: nat :: Runs(c, items, text, n)
  {
    hide MatchesHere;
    MatchFirst(Star(c), items, text);
    if n :| 0 <= n <= |text| && Denotes(Star(c), text[..n], text[n..]) && MatchesHere(items, text[n..]) {
      forall i | 0 <= i < n
        ensures Fits(c, text[i])
      {
        assert text[..n][i] == text[i];
      }
      assert Runs(c, items, text, n);
    }
    if n: nat :| Runs(c, items, text, n) {
      assert Denotes(Star(c), text[..n], text[n..]);
    }
  }

  // The code.

  /** `matchhere`. */
  method Matchhere(re: string, text: string) returns (b: bool)
    ensures b <==> MatchesHere(Parse(re), text)
    decreases |re|, |text|, 1
  {
    hide MatchesHere;
    if re == "" {
      EmptyMatches(text);
      return true;
    }
    if |re| > 1 && re[1] == '*' {
      assert Parse(re) == [Star(re[0])] + Parse(re[2..]);
      MatchStar(re[0], Parse(re[2..]), text);
      b := Matchstar(re[0], re[2..], text);
      return;
    }
    if re == "$" {
      MatchEol(text);
      return text == "";
    }
    MatchOne(re[0], Parse(re[1..]), text);
    if text != "" && (re[0] == '.' || re[0] == text[0]) {
      b := Matchhere(re[1..], text[1..]);
      return;
    }
    return false;
  }

  /** `matchstar`: the shortest run first, and no match is lost by that. */
  method Matchstar(c: char, re: string, text: string) returns (b: bool)
    ensures b <==> exists n: nat :: Runs(c, Parse(re), text, n)
    decreases |re|, |text|, 2
  {
    hide MatchesHere;
    var k := 0;
    while true
      invariant 0 <= k <= |text| && (forall i :: 0 <= i < k ==> Fits(c, text[i]))
      invariant forall n: nat :: n < k ==> !Runs(c, Parse(re), text, n)
      decreases |text| - k
    {
      b := Matchhere(re, text[k..]);
      if b {
        assert Runs(c, Parse(re), text, k);
        return;
      }
      if k < |text| && (text[k] == c || c == '.') {
        k := k + 1;
      } else {
        return false;
      }
    }
  }

  /** `match`. */
  method Match(re: string, text: string) returns (b: bool)
    ensures b <==> Matches(re, text)
  {
    hide MatchesHere;
    if re != "" && re[0] == '^' {
      b := Matchhere(re[1..], text);
      return;
    }
    var k := 0;
    while true
      invariant 0 <= k <= |text| && forall i :: 0 <= i < k ==> !MatchesHere(Parse(re), text[i..])
      decreases |text| - k
    {
      b := Matchhere(re, text[k..]);
      if b || k == |text| {
        return;
      }
      k := k + 1;
    }
  }
}
