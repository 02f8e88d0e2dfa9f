// The string sanitiser applied to every column name and every literal before
// it is written into a WHERE clause. In order it drops control characters,
// removes "--", then "/*", then "*/" until none is left, and finally doubles
// every single quote.
module Sanitizer {
  import opened Wrappers

  predicate IsControl(c: char) {
    (c as int) < 32
  }

  /** No control character occurs in s. */
  predicate NoControl(s: string) {
    forall c :: c in s ==> !IsControl(c)
  }

  /** The two characters a b start at index i of s. */
  predicate PairAt(s: string, i: int, a: char, b: char) {
    0 <= i < |s| - 1 && s[i] == a && s[i + 1] == b
  }

  /** The two-character sequence a b occurs nowhere in s. */
  predicate NoPair(s: string, a: char, b: char) {
    forall i | 0 <= i < |s| - 1 :: !PairAt(s, i, a, b)
  }

  /** The first pass: keeps, in order, every character of code 32 or more. */
  function StripControl(s: string): (r: string)
    ensures NoControl(r)
    ensures NoControl(s) ==> r == s
    decreases |s|
  {
    if s == [] then []
    else
      var init, last := s[..|s| - 1], s[|s| - 1];
      assert s == init + [last];
      StripControl(init) + (if IsControl(last) then [] else [last])
  }

  /** Every character other than a control character keeps its number of occurrences. */
  lemma {:induction false} StripControlCounts(s: string)
    ensures forall c :: multiset(StripControl(s))[c] == if IsControl(c) then 0 else multiset(s)[c]
    decreases |s|
  {
    if s != [] {
      var init, last := s[..|s| - 1], s[|s| - 1];
      assert s == init + [last];
      StripControlCounts(init);
    }
  }

  /** Ordinal search for the two-character string a b: its first index, or -1. */
  function IndexOfPair(s: string, a: char, b: char): (i: int)
    ensures i == -1 || PairAt(s, i, a, b)
    ensures i == -1 <==> NoPair(s, a, b)
    ensures forall j :: 0 <= j < i ==> !PairAt(s, j, a, b)
    decreases |s|
  {
    if |s| < 2 then -1
    else if s[0] == a && s[1] == b then 0
    else
      var k := IndexOfPair(s[1..], a, b);
      assert forall j :: 1 <= j < |s| - 1 ==> (PairAt(s, j, a, b) <==> PairAt(s[1..], j - 1, a, b));
      if k < 0 then -1 else k + 1
  }

  /** The string with the two characters at i taken out. */
  function RemoveTwo(s: string, i: int): (r: string)
    requires 0 <= i <= |s| - 2
    ensures |r| == |s| - 2
  {
    s[..i] + s[i + 2..]
  }

  /**
   * One of the three comment loops: remove the first a b until none is left.
   * Every step removes two characters.
   */
  function RemovePairs(s: string, a: char, b: char): (r: string)
    ensures NoPair(r, a, b)
    ensures |r| <= |s|
    ensures NoPair(s, a, b) ==> r == s
    decreases |s|
  {
    var i := IndexOfPair(s, a, b);
    if i < 0 then s else RemovePairs(RemoveTwo(s, i), a, b)
  }

  /** Removal introduces no character: everything left was in the input. */
  lemma {:induction false} RemovePairsWithin(s: string, a: char, b: char)
    ensures forall c :: c in RemovePairs(s, a, b) ==> c in s
    decreases |s|
  {
    var i := IndexOfPair(s, a, b);
    if i >= 0 {
      var shorter := RemoveTwo(s, i);
      assert forall c :: c in shorter ==> c in s[..i] || c in s[i + 2..];
      RemovePairsWithin(shorter, a, b);
    }
  }

  /** The last step: every single quote becomes two. */
  function EscapeQuotes(s: string): (r: string)
    ensures |r| >= |s|
    ensures s != [] ==> r != [] && r[0] == s[0]
    decreases |s|
  {
    if s == [] then []
    else (if s[0] == '\'' then "''" else [s[0]]) + EscapeQuotes(s[1..])
  }

  /** The only character escaping adds is the quote. */
  lemma {:induction false} EscapeWithin(s: string)
    ensures forall c :: c in EscapeQuotes(s) ==> c in s || c == '\''
    decreases |s|
  {
    if s != [] {
      EscapeWithin(s[1..]);
      assert forall c :: c in s[1..] ==> c in s;
    }
  }

  /** The text after the control-character and comment passes, before quotes are doubled. */
  function CommentStripped(s: string): string {
    var noDash := RemovePairs(StripControl(s), '-', '-');
    var noOpen := RemovePairs(noDash, '/', '*');
    RemovePairs(noOpen, '*', '/')
  }

  /** What the sanitiser returns. */
  function Sanitized(s: string): string {
    EscapeQuotes(CommentStripped(s))
  }

  /** The comment passes leave no control character and neither comment delimiter. */
  lemma CommentStrippedSafe(s: string)
    ensures var r := CommentStripped(s); NoControl(r) && NoPair(r, '/', '*') && NoPair(r, '*', '/')
  {
    var noDash := RemovePairs(StripControl(s), '-', '-');
    var noOpen := RemovePairs(noDash, '/', '*');
    RemovePairsWithin(StripControl(s), '-', '-');
    RemovePairsWithin(noDash, '/', '*');
    RemovePairsWithin(noOpen, '*', '/');
    RemovePairsKeepsNoPair(noOpen, '*', '/', '/', '*');
  }

  /** Doubling the quotes keeps that: no control character, no comment delimiter. */
  lemma SanitizedSafe(s: string)
    ensures var r := Sanitized(s); NoControl(r) && NoPair(r, '/', '*') && NoPair(r, '*', '/')
  {
    var t := CommentStripped(s);
    CommentStrippedSafe(s);
    EscapeWithin(t);
    EscapeKeepsNoPair(t, '/', '*');
    EscapeKeepsNoPair(t, '*', '/');
  }

  /** The sanitiser as the source runs it: a character loop, then the three remove-until-absent loops. */
  method SanitizeString(s: string) returns (ret: string)
    ensures ret == Sanitized(s)
  {
    if |s| == 0 {
      return "";
    }
    ret := DropControl(s);
    ret := RemoveEvery(ret, '-', '-');
    ret := RemoveEvery(ret, '/', '*');
    ret := RemoveEvery(ret, '*', '/');
    ret := EscapeQuotes(ret);
  }

  /** The character loop: copies every character except those below 32. */
  method DropControl(s: string) returns (ret: string)
    ensures ret == StripControl(s)
  {
    ret := "";
    var i := 0;
    while i < |s|
      invariant 0 <= i <= |s|
      invariant ret == StripControl(s[..i])
    {
      StripControlStep(s, i);
      if (s[i] as int) == 0 || (s[i] as int) < 32 {
      } else {
        ret := ret + [s[i]];
      }
      i := i + 1;
    }
    assert s[..|s|] == s;
  }

  lemma StripControlStep(s: string, i: int)
    requires 0 <= i < |s|
    ensures StripControl(s[..i + 1]) == StripControl(s[..i]) + (if IsControl(s[i]) then [] else [s[i]])
  {
    assert s[..i + 1][..i] == s[..i];
  }

  /** One remove-until-absent loop: search for a b, take it out, search again. */
  method RemoveEvery(s: string, a: char, b: char) returns (ret: string)
    ensures ret == RemovePairs(s, a, b)
  {
    ret := s;
    while true
      invariant RemovePairs(ret, a, b) == RemovePairs(s, a, b)
      decreases |ret|
    {
      var found := IndexOfPair(ret, a, b);
      if found < 0 {
        break;
      }
      ret := RemoveTwo(ret, found);
    }
  }

  /**
   * Removing one a b cannot create a c d when a == d or b == c: the two
   * characters that become neighbours would already have formed one.
   */
  lemma RemoveTwoKeepsNoPair(s: string, i: int, a: char, b: char, c: char, d: char)
    requires PairAt(s, i, a, b) && NoPair(s, c, d) && (a == d || b == c)
    ensures NoPair(RemoveTwo(s, i), c, d)
  {
    var t := RemoveTwo(s, i);
    forall j | 0 <= j < |t| - 1
      ensures !PairAt(t, j, c, d)
    {
      if j + 1 < i {
        assert t[j] == s[j] && t[j + 1] == s[j + 1];
        assert !PairAt(s, j, c, d);
      } else if j + 1 == i {
        assert t[j] == s[i - 1] && t[j + 1] == s[i + 2];
        assert !PairAt(s, i - 1, c, d) && !PairAt(s, i + 1, c, d);
      } else {
        assert t[j] == s[j + 2] && t[j + 1] == s[j + 3];
        assert !PairAt(s, j + 2, c, d);
      }
    }
  }

  // The "*/" loop cannot bring back a "/*" the previous loop removed.
  lemma {:induction false} RemovePairsKeepsNoPair(s: string, a: char, b: char, c: char, d: char)
    requires NoPair(s, c, d) && (a == d || b == c)
    ensures NoPair(RemovePairs(s, a, b), c, d)
    decreases |s|
  {
    var i := IndexOfPair(s, a, b);
    if i >= 0 {
      RemoveTwoKeepsNoPair(s, i, a, b, c, d);
      RemovePairsKeepsNoPair(RemoveTwo(s, i), a, b, c, d);
    }
  }

  lemma NoPairConcat(x: string, y: string, c: char, d: char)
    requires NoPair(x, c, d) && NoPair(y, c, d)
    requires x != [] && y != [] ==> !(x[|x| - 1] == c && y[0] == d)
    ensures NoPair(x + y, c, d)
  {
    var t := x + y;
    forall j | 0 <= j < |t| - 1
      ensures !PairAt(t, j, c, d)
    {
      if j + 1 < |x| {
        assert t[j] == x[j] && t[j + 1] == x[j + 1];
        assert !PairAt(x, j, c, d);
      } else if j + 1 == |x| {
        assert t[j] == x[|x| - 1] && t[j + 1] == y[0];
      } else {
        assert t[j] == y[j - |x|] && t[j + 1] == y[j + 1 - |x|];
        assert !PairAt(y, j - |x|, c, d);
      }
    }
  }

  /** Doubling quotes creates no pair of two non-quote characters. */
  lemma {:induction false} EscapeKeepsNoPair(s: string, c: char, d: char)
    requires NoPair(s, c, d) && c != '\'' && d != '\''
    ensures NoPair(EscapeQuotes(s), c, d)
    decreases |s|
  {
    if s != [] {
      var head := if s[0] == '\'' then "''" else [s[0]];
      assert NoPair(s[1..], c, d) by {
        forall j | 0 <= j < |s[1..]| - 1
          ensures !PairAt(s[1..], j, c, d)
        {
          assert s[1..][j] == s[j + 1] && s[1..][j + 1] == s[j + 2];
          assert !PairAt(s, j + 1, c, d);
        }
      }
      EscapeKeepsNoPair(s[1..], c, d);
      if s[1..] != [] {
        assert head[|head| - 1] == s[0] && EscapeQuotes(s[1..])[0] == s[1];
        assert !PairAt(s, 0, c, d);
      }
      NoPairConcat(head, EscapeQuotes(s[1..]), c, d);
    }
  }

  lemma {:induction false} EscapeWithoutQuotes(s: string)
    requires '\'' !in s
    ensures EscapeQuotes(s) == s
    decreases |s|
  {
    if s != [] {
      assert '\'' !in s[1..] by {
        assert forall c :: c in s[1..] ==> c in s;
      }
      EscapeWithoutQuotes(s[1..]);
    }
  }

  lemma {:induction false} EscapeAppend(x: string, y: string)
    ensures EscapeQuotes(x + y) == EscapeQuotes(x) + EscapeQuotes(y)
    decreases |x|
  {
    if x != [] {
      assert (x + y)[1..] == x[1..] + y;
      EscapeAppend(x[1..], y);
    } else {
      assert x + y == y;
    }
  }

  /**
   * How SQL reads the body of a single-quoted character literal: two
   * adjacent quotes stand for one quote, a lone quote ends the literal.
   * Yields the literal's value and the text after the closing quote, or
   * None when the literal is not terminated.
   */
  function ReadQuoted(t: string): (r: Option<(string, string)>)
    ensures r.Some? ==> |r.value.1| < |t|
    decreases |t|
  {
    if t == [] then None
    else if t[0] == '\'' then
      if |t| >= 2 && t[1] == '\'' then
        match ReadQuoted(t[2..])
        case Some((v, rest)) => Some(("'" + v, rest))
        case None => None
      else Some(("", t[1..]))
    else
      match ReadQuoted(t[1..])
      case Some((v, rest)) => Some(([t[0]] + v, rest))
      case None => None
  }

  /**
   * Escaping is undone exactly by SQL's reading of a literal: the literal
   * ends at the quote the compiler writes, never earlier.
   */
  lemma {:induction false} EscapeThenRead(v: string, rest: string)
    requires rest == [] || rest[0] != '\''
    ensures ReadQuoted(EscapeQuotes(v) + "'" + rest) == Some((v, rest))
    decreases |v|
  {
    var t := EscapeQuotes(v) + "'" + rest;
    if v == [] {
      assert t == "'" + rest;
    } else if v[0] == '\'' {
      var tail := EscapeQuotes(v[1..]) + "'" + rest;
      assert t == "''" + tail;
      assert t[2..] == tail;
      EscapeThenRead(v[1..], rest);
      assert v == "'" + v[1..];
    } else {
      var tail := EscapeQuotes(v[1..]) + "'" + rest;
      assert t == [v[0]] + tail;
      assert t[1..] == tail;
      EscapeThenRead(v[1..], rest);
      assert v == [v[0]] + v[1..];
    }
  }

  /**
   * A sanitised value placed between quotes reads back as its
   * comment-stripped text, and the literal closes where it was meant to.
   */
  lemma SanitizedLiteral(s: string, rest: string)
    requires rest == [] || rest[0] != '\''
    ensures ReadQuoted(Sanitized(s) + "'" + rest) == Some((CommentStripped(s), rest))
  {
    EscapeThenRead(CommentStripped(s), rest);
  }

  /** Text with nothing to strip or escape passes through unchanged. */
  lemma CleanUnchanged(s: string)
    requires NoControl(s) && NoPair(s, '-', '-') && NoPair(s, '/', '*') && NoPair(s, '*', '/')
    requires '\'' !in s
    ensures Sanitized(s) == s
  {
    EscapeWithoutQuotes(s);
  }

  /** Pinning down the search result: the first pair is at i. */
  lemma FirstPairAt(s: string, i: int, a: char, b: char)
    requires PairAt(s, i, a, b)
    requires forall j :: 0 <= j < i ==> !PairAt(s, j, a, b)
    ensures IndexOfPair(s, a, b) == i
    ensures RemovePairs(s, a, b) == RemovePairs(RemoveTwo(s, i), a, b)
  {
  }

  // Worked examples, one pipeline stage at a time (one fact per lemma keeps
  // the evaluation of each stage on a literal cheap).

  /** Removal shifts text left, so the dash loop also removes the pairs it creates. */
  lemma DashLoopJoinsPairs()
    ensures RemovePairs("a--b--c", '-', '-') == "abc"
  {
    FirstPairAt("a--b--c", 1, '-', '-');
    assert RemoveTwo("a--b--c", 1) == "ab--c";
    FirstPairAt("ab--c", 2, '-', '-');
    assert RemoveTwo("ab--c", 2) == "abc";
    assert IndexOfPair("abc", '-', '-') == -1;
  }

  lemma DashLoopOddRun()
    ensures RemovePairs("---", '-', '-') == "-"
  {
  }

  lemma NoControlIn(s: string)
    requires s == "a--b--c" || s == "---" || s == "-/*-" || s == "it's"
    ensures StripControl(s) == s
  {
    assert NoControl(s) by {
      forall c | c in s ensures !IsControl(c) {
        assert c == 'a' || c == '-' || c == 'b' || c == 'c' || c == '/' || c == '*' || c == 'i' || c == 't' || c == '\'' || c == 's';
      }
    }
  }

  lemma NoCommentIn(s: string)
    requires s == "abc" || s == "-" || s == "--" || s == "it's"
    ensures RemovePairs(s, '/', '*') == s && RemovePairs(s, '*', '/') == s
  {
  }

  lemma NoQuoteIn(s: string)
    requires s == "abc" || s == "-" || s == "--"
    ensures EscapeQuotes(s) == s
  {
    EscapeWithoutQuotes(s);
  }

  lemma DashRunsCollapse()
    ensures Sanitized("a--b--c") == "abc"
    ensures Sanitized("---") == "-"
  {
    NoControlIn("a--b--c");
    DashLoopJoinsPairs();
    NoCommentIn("abc");
    NoQuoteIn("abc");
    NoControlIn("---");
    DashLoopOddRun();
    NoCommentIn("-");
    NoQuoteIn("-");
  }

  lemma OpenCommentJoinsDashes()
    ensures RemovePairs("-/*-", '/', '*') == "--"
  {
  }

  lemma NoDashPairIn()
    ensures RemovePairs("-/*-", '-', '-') == "-/*-"
  {
  }

  // The comment loops run after the dash loop, so they can join two dashes back into "--".
  lemma DashPairCanReappear()
    ensures Sanitized("-/*-") == "--"
  {
    NoControlIn("-/*-");
    NoDashPairIn();
    OpenCommentJoinsDashes();
    NoCommentIn("--");
    NoQuoteIn("--");
  }

  lemma EscapeItS()
    ensures EscapeQuotes("it's") == "it''s"
  {
  }

  lemma QuoteDoubled()
    ensures Sanitized("it's") == "it''s"
  {
    NoControlIn("it's");
    assert RemovePairs("it's", '-', '-') == "it's";
    NoCommentIn("it's");
    EscapeItS();
  }
}
