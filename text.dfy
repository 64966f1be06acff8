/** The string operations of Rust's `str` that the parsers rely on: `trim`, `split` on a
    character and `split_whitespace`. Rust's `char::is_whitespace` is the Unicode
    White_Space property, and both `trim` and `split_whitespace` use it. */
module Text {

  /** The Unicode White_Space property. */
  predicate IsWhitespace(c: char) {
    || '\U{9}' <= c <= '\U{D}'
    || c == ' '
    || c == '\U{85}'
    || c == '\U{A0}'
    || c == '\U{1680}'
    || '\U{2000}' <= c <= '\U{200A}'
    || c == '\U{2028}'
    || c == '\U{2029}'
    || c == '\U{202F}'
    || c == '\U{205F}'
    || c == '\U{3000}'
  }

  predicate AllWhitespace(s: string) {
    forall i :: 0 <= i < |s| ==> IsWhitespace(s[i])
  }

  predicate NoWhitespace(s: string) {
    forall i :: 0 <= i < |s| ==> !IsWhitespace(s[i])
  }

  /** No whitespace at either end: what `trim` leaves behind. */
  predicate IsTrimmed(s: string) {
    s == [] || (!IsWhitespace(s[0]) && !IsWhitespace(s[|s| - 1]))
  }

  /** `str::trim_start`: the suffix left after dropping the leading whitespace. */
  function TrimStart(s: string): (r: string)
    ensures |r| <= |s| && r == s[|s| - |r|..]
    ensures AllWhitespace(s[..|s| - |r|])
    ensures r == [] || !IsWhitespace(r[0])
    decreases |s|
  {
    if s != [] && IsWhitespace(s[0]) then
      var r := TrimStart(s[1..]);
      assert r == s[1..][|s| - 1 - |r|..] == s[|s| - |r|..];
      assert s[..|s| - |r|] == [s[0]] + s[1..][..|s| - 1 - |r|];
      r
    else s
  }

  /** `str::trim_end`: the prefix left after dropping the trailing whitespace. */
  function TrimEnd(s: string): (r: string)
    ensures |r| <= |s| && r == s[..|r|]
    ensures AllWhitespace(s[|r|..])
    ensures r == [] || !IsWhitespace(r[|r| - 1])
    decreases |s|
  {
    if s != [] && IsWhitespace(s[|s| - 1]) then
      var r := TrimEnd(s[..|s| - 1]);
      assert r == s[..|s| - 1][..|r|] == s[..|r|];
      assert s[|r|..] == s[..|s| - 1][|r|..] + [s[|s| - 1]];
      r
    else s
  }

  /** `str::trim`: empty exactly when the input is all whitespace, trimmed, and the
      middle slice of the input between a whitespace prefix and a whitespace suffix. */
  function Trim(s: string): (r: string)
    ensures r == [] <==> AllWhitespace(s)
    ensures IsTrimmed(r)
    ensures forall c :: c in r ==> c in s
    ensures IsMiddle(r, s)
  {
    var t := TrimStart(s);
    var r := TrimEnd(t);
    MiddleSlice(s, |s| - |t|, t, r);
    r
  }

  /** `r` is a slice of `s` with only whitespace before it and after it. */
  predicate IsMiddle(r: string, s: string) {
    exists k :: 0 <= k && k + |r| <= |s| && r == s[k..k + |r|]
                && AllWhitespace(s[..k]) && AllWhitespace(s[k + |r|..])
  }

  /** A prefix `r` of the suffix `t == s[k..]`, with whitespace in front of `t` and after
      `r` in `t`, and no whitespace at the start of `t` nor at the end of `r`, is the
      trimmed middle slice `s[k..k + |r|]`. */
  lemma MiddleSlice(s: string, k: nat, t: string, r: string)
    requires k <= |s| && t == s[k..] && |r| <= |t| && r == t[..|r|]
    requires AllWhitespace(s[..k]) && AllWhitespace(t[|r|..])
    requires t == [] || !IsWhitespace(t[0])
    requires r == [] || !IsWhitespace(r[|r| - 1])
    ensures IsMiddle(r, s)
    ensures r == [] <==> AllWhitespace(s)
    ensures IsTrimmed(r)
    ensures forall c :: c in r ==> c in s
  {
    assert s[k + |r|..] == t[|r|..];
    assert r == s[k..k + |r|];
    assert r == [] ==> s == s[..k] + t;
    assert r != [] ==> r[|r| - 1] == s[k + |r| - 1];
    assert r != [] ==> r[0] == t[0];
  }

  /** Leading whitespace makes no difference to `trim_start`. */
  lemma {:induction false} TrimStartSkip(ws: string, t: string)
    requires AllWhitespace(ws)
    ensures TrimStart(ws + t) == TrimStart(t)
    decreases |ws|
  {
    if ws != [] {
      assert (ws + t)[1..] == ws[1..] + t;
      TrimStartSkip(ws[1..], t);
    } else {
      assert ws + t == t;
    }
  }

  /** Trailing whitespace makes no difference to `trim_end`. */
  lemma {:induction false} TrimEndSkip(t: string, ws: string)
    requires AllWhitespace(ws)
    ensures TrimEnd(t + ws) == TrimEnd(t)
    decreases |ws|
  {
    if ws != [] {
      assert (t + ws)[..|t + ws| - 1] == t + ws[..|ws| - 1];
      TrimEndSkip(t, ws[..|ws| - 1]);
    } else {
      assert t + ws == t;
    }
  }

  /** The converse of `Trim`'s contract: a trimmed string between two whitespace runs is
      what `trim` returns. */
  lemma TrimUnique(ws1: string, t: string, ws2: string)
    requires AllWhitespace(ws1) && AllWhitespace(ws2) && IsTrimmed(t)
    ensures Trim(ws1 + t + ws2) == t
  {
    assert ws1 + t + ws2 == ws1 + (t + ws2);
    TrimStartSkip(ws1, t + ws2);
    assert t != [] ==> TrimStart(t + ws2) == t + ws2;
    if t == [] {
      assert t + ws2 == ws2;
      assert TrimStart(ws2) == [];
    }
    TrimEndSkip(t, ws2);
  }

  /** `trim` characterised: it returns `r` exactly when `r` is trimmed and sits between
      a whitespace prefix and a whitespace suffix of `s`. */
  lemma TrimCharacterised(s: string, r: string)
    ensures Trim(s) == r <==> IsMiddle(r, s) && IsTrimmed(r)
  {
    if IsMiddle(r, s) && IsTrimmed(r) {
      var k :| 0 <= k && k + |r| <= |s| && r == s[k..k + |r|]
               && AllWhitespace(s[..k]) && AllWhitespace(s[k + |r|..]);
      TrimOfMiddle(s, k, r);
    }
  }

  lemma TrimOfMiddle(s: string, k: nat, r: string)
    requires k + |r| <= |s| && r == s[k..k + |r|] && IsTrimmed(r)
    requires AllWhitespace(s[..k]) && AllWhitespace(s[k + |r|..])
    ensures Trim(s) == r
  {
    assert s == s[..k] + r + s[k + |r|..];
    TrimUnique(s[..k], r, s[k + |r|..]);
  }

  /** Trimming changes nothing in a string that has no whitespace at either end. */
  lemma TrimIdentity(s: string)
    requires IsTrimmed(s)
    ensures Trim(s) == s
  {
    assert [] + s + [] == s;
    TrimUnique([], s, []);
  }

  /** `trim` is idempotent. */
  lemma TrimIdempotent(s: string)
    ensures Trim(Trim(s)) == Trim(s)
  {
    TrimIdentity(Trim(s));
  }

  /** Number of occurrences of `c` in `s`. */
  function Count(s: string, c: char): nat
    decreases |s|
  {
    if s == [] then 0 else (if s[0] == c then 1 else 0) + Count(s[1..], c)
  }

  lemma {:induction false} CountZero(s: string, c: char)
    ensures Count(s, c) == 0 <==> c !in s
    decreases |s|
  {
    if s != [] {
      CountZero(s[1..], c);
      assert s == [s[0]] + s[1..];
    }
  }

  lemma {:induction false} CountAppend(a: string, b: string, c: char)
    ensures Count(a + b, c) == Count(a, c) + Count(b, c)
    decreases |a|
  {
    if a != [] {
      CountAppend(a[1..], b, c);
      assert (a + b)[0] == a[0];
      assert (a + b)[1..] == a[1..] + b;
    } else {
      assert a + b == b;
    }
  }

  /** Index of the first occurrence of `c` in `s`, or |s| when there is none. */
  function IndexOf(s: string, c: char): (i: nat)
    ensures i <= |s|
    ensures i < |s| ==> s[i] == c
    ensures forall k :: 0 <= k < i ==> s[k] != c
    ensures c in s <==> i < |s|
    decreases |s|
  {
    if s == [] || s[0] == c then 0
    else
      assert c in s <==> c in s[1..] by { assert s == [s[0]] + s[1..]; }
      IndexOf(s[1..], c) + 1
  }

  /** The first separator after a separator-free prefix is the one right after it. */
  lemma {:induction false} IndexOfAfter(u: string, rest: string, c: char)
    requires c !in u
    ensures IndexOf(u + [c] + rest, c) == |u|
    decreases |u|
  {
    if u != [] {
      assert (u + [c] + rest)[1..] == u[1..] + [c] + rest;
      IndexOfAfter(u[1..], rest, c);
    }
  }

  /** The text before and after the first occurrence of `sep`. */
  function Halves(s: string, sep: char): (h: (string, string))
    requires sep in s
    ensures s == h.0 + [sep] + h.1
    ensures sep !in h.0
  {
    var i := IndexOf(s, sep);
    assert s == s[..i] + [sep] + s[i + 1..];
    (s[..i], s[i + 1..])
  }

  /** With exactly one separator, neither half holds a separator. */
  lemma HalvesOfOne(s: string, sep: char)
    requires Count(s, sep) == 1
    ensures sep in s
    ensures sep !in Halves(s, sep).0 && sep !in Halves(s, sep).1
  {
    CountZero(s, sep);
    var h := Halves(s, sep);
    var before, after := h.0, h.1;
    CountZero(before, sep);
    assert s == before + ([sep] + after);
    CountAppend(before, [sep] + after, sep);
    assert Count([sep], sep) == 1 by {
      assert [sep][1..] == [];
    }
    CountAppend([sep], after, sep);
    assert Count(after, sep) == 0;
    CountZero(after, sep);
  }

  /** `str::split` on a character: one more piece than there are separators, and no
      piece holds a separator. */
  function Split(s: string, sep: char): (r: seq<string>)
    ensures |r| == Count(s, sep) + 1
    ensures forall i :: 0 <= i < |r| ==> sep !in r[i]
    decreases |s|
  {
    if s == [] then [[]]
    else
      var rest := Split(s[1..], sep);
      if s[0] == sep then [[]] + rest else [[s[0]] + rest[0]] + rest[1..]
  }

  /** Joining the pieces of a split with the separator gives back the input. */
  lemma {:induction false} SplitJoin(s: string, sep: char)
    ensures Join(Split(s, sep), sep) == s
    decreases |s|
  {
    if s != [] {
      SplitJoin(s[1..], sep);
      var rest := Split(s[1..], sep);
      if s[0] == sep {
        assert Split(s, sep) == [[]] + rest;
      } else {
        assert Split(s, sep) == [[s[0]] + rest[0]] + rest[1..];
        if |rest| > 1 {
          assert Join(rest, sep) == rest[0] + [sep] + Join(rest[1..], sep);
        }
      }
    }
  }

  /** The pieces joined with the separator between consecutive ones. */
  function Join(pieces: seq<string>, sep: char): string
    decreases |pieces|
  {
    if pieces == [] then []
    else if |pieces| == 1 then pieces[0]
    else pieces[0] + [sep] + Join(pieces[1..], sep)
  }

  /** With exactly one separator the two pieces are the text before and after it. */
  lemma SplitOnce(s: string, sep: char)
    requires Count(s, sep) == 1
    ensures sep in s
    ensures Split(s, sep) == [Halves(s, sep).0, Halves(s, sep).1]
  {
    CountZero(s, sep);
    var r := Split(s, sep);
    var u, p := r[0], r[1];
    assert sep !in u;
    SplitJoin(s, sep);
    assert r[1..] == [p];
    assert Join(r, sep) == u + [sep] + p;
    assert s == u + [sep] + p;
    IndexOfAfter(u, p, sep);
    assert s[..|u|] == u;
    assert s[|u| + 1..] == p;
  }

  /** A string with one separator between two separator-free pieces splits back into them. */
  lemma SplitPair(u: string, p: string, sep: char)
    requires sep !in u && sep !in p
    ensures Split(u + [sep] + p, sep) == [u, p]
  {
    var s := u + [sep] + p;
    CountZero(u, sep);
    CountZero(p, sep);
    CountAppend(u, [sep] + p, sep);
    CountAppend([sep], p, sep);
    assert s == u + ([sep] + p);
    SplitOnce(s, sep);
    IndexOfAfter(u, p, sep);
  }

  /** The length of the longest whitespace-free prefix. */
  function TokenEnd(s: string): (n: nat)
    ensures n <= |s|
    ensures NoWhitespace(s[..n])
    ensures n < |s| ==> IsWhitespace(s[n])
    decreases |s|
  {
    if s == [] || IsWhitespace(s[0]) then 0
    else
      var n := TokenEnd(s[1..]);
      assert s[..n + 1] == [s[0]] + s[1..][..n];
      n + 1
  }

  /** The whitespace-free prefix of a string stops at the first whitespace after it. */
  lemma {:induction false} TokenEndAfter(a: string, rest: string)
    requires NoWhitespace(a)
    requires rest == [] || IsWhitespace(rest[0])
    ensures TokenEnd(a + rest) == |a|
    decreases |a|
  {
    if a != [] {
      assert (a + rest)[1..] == a[1..] + rest;
      TokenEndAfter(a[1..], rest);
    }
  }

  /** A token of `split_whitespace`: non-empty and free of whitespace. */
  predicate IsToken(w: string) {
    w != [] && NoWhitespace(w)
  }

  /** `str::split_whitespace`: the maximal runs of non-whitespace, in order; every one
      of them is a token. */
  function SplitWhitespace(s: string): (r: seq<string>)
    ensures forall w :: w in r ==> IsToken(w)
    decreases |s|
  {
    var t := TrimStart(s);
    if t == [] then []
    else
      var n := TokenEnd(t);
      assert n > 0;
      var w := t[..n];
      assert IsToken(w);
      [w] + SplitWhitespace(t[n..])
  }

  /** Leading whitespace before a single token is dropped. */
  lemma SplitWhitespaceSingle(b: string)
    requires IsToken(b)
    ensures SplitWhitespace(" " + b) == [b]
  {
    var s := " " + b;
    assert s[1..] == b;
    assert TrimStart(b) == b;
    assert TrimStart(s) == b;
    TokenEndAfter(b, []);
    assert b + [] == b;
    assert b[..|b|] == b;
    assert b[|b|..] == [];
  }

  /** A token followed by whitespace, or by nothing, is the first token of the split. */
  lemma SplitWhitespaceCons(a: string, rest: string)
    requires IsToken(a)
    requires rest == [] || IsWhitespace(rest[0])
    ensures SplitWhitespace(a + rest) == [a] + SplitWhitespace(rest)
  {
    var s := a + rest;
    assert s[0] == a[0];
    assert TrimStart(s) == s;
    TokenEndAfter(a, rest);
    assert s[..|a|] == a;
    assert s[|a|..] == rest;
  }

  /** A token, one space and a second token split into exactly those two tokens. */
  lemma SplitWhitespacePair(a: string, b: string)
    requires IsToken(a) && IsToken(b)
    ensures SplitWhitespace(a + " " + b) == [a, b]
  {
    assert a + " " + b == a + (" " + b);
    SplitWhitespaceCons(a, " " + b);
    SplitWhitespaceSingle(b);
  }

  /** Whitespace runs `seps` put back around the tokens `words`:
      `seps[0] + words[0] + seps[1] + ... + words[|words| - 1] + seps[|words|]`. */
  function Interleave(seps: seq<string>, words: seq<string>): string
    requires |seps| == |words| + 1
    decreases |words|
  {
    if words == [] then seps[0]
    else seps[0] + (words[0] + Interleave(seps[1..], words[1..]))
  }

  /** `seps` can separate `words`: one whitespace run more than there are tokens, and
      every run between two tokens non-empty. */
  predicate Separates(seps: seq<string>, words: seq<string>) {
    && |seps| == |words| + 1
    && (forall i :: 0 <= i < |seps| ==> AllWhitespace(seps[i]))
    && (forall i :: 0 < i < |words| ==> seps[i] != [])
    && (forall w :: w in words ==> IsToken(w))
  }

  /** A string built by `Interleave` starts with whitespace exactly when its first
      separator is non-empty (and is empty only when it has no tokens). */
  lemma InterleaveStart(seps: seq<string>, words: seq<string>)
    requires Separates(seps, words)
    ensures var s := Interleave(seps, words);
            (s == [] || IsWhitespace(s[0])) <==> (words == [] || seps[0] != [])
  {
    var s := Interleave(seps, words);
    if words != [] {
      var tail := words[0] + Interleave(seps[1..], words[1..]);
      assert words[0] in words;
      assert s == seps[0] + tail;
      assert seps[0] == [] ==> s[0] == words[0][0];
    }
  }

  /** A separation taken apart at its first token: the rest is separated again and
      starts with whitespace or is empty. */
  lemma SeparatesTail(seps: seq<string>, words: seq<string>)
    requires Separates(seps, words) && words != []
    ensures Separates(seps[1..], words[1..])
    ensures AllWhitespace(seps[0]) && IsToken(words[0])
    ensures var rest := Interleave(seps[1..], words[1..]);
            Interleave(seps, words) == seps[0] + (words[0] + rest)
            && (rest == [] || IsWhitespace(rest[0]))
  {
    forall i | 0 < i < |words| - 1
      ensures seps[1..][i] != []
    {
      assert seps[1..][i] == seps[i + 1];
    }
    assert words[0] in words;
    assert words[1..] != [] ==> seps[1..][0] == seps[1] != [];
    InterleaveStart(seps[1..], words[1..]);
  }

  /** Whitespace, then a token, then whitespace or nothing: the token comes first. */
  lemma SplitWhitespaceStep(ws: string, w: string, rest: string)
    requires AllWhitespace(ws) && IsToken(w)
    requires rest == [] || IsWhitespace(rest[0])
    ensures SplitWhitespace(ws + (w + rest)) == [w] + SplitWhitespace(rest)
  {
    TrimStartSkip(ws, w + rest);
    assert (w + rest)[0] == w[0];
    assert TrimStart(w + rest) == w + rest;
    SplitWhitespaceCons(w, rest);
  }

  /** Splitting a string put together from a separation gives back its tokens. */
  lemma {:induction false} SplitWhitespaceInterleave(seps: seq<string>, words: seq<string>)
    requires Separates(seps, words)
    ensures SplitWhitespace(Interleave(seps, words)) == words
    decreases |words|
  {
    if words == [] {
      TrimStartSkip(seps[0], []);
      assert seps[0] + [] == seps[0];
    } else {
      SeparatesTail(seps, words);
      var rest := Interleave(seps[1..], words[1..]);
      SplitWhitespaceInterleave(seps[1..], words[1..]);
      SplitWhitespaceStep(seps[0], words[0], rest);
      HeadTail(words);
    }
  }

  /** A non-empty sequence is its head followed by its tail. */
  lemma HeadTail<T>(xs: seq<T>)
    requires xs != []
    ensures [xs[0]] + xs[1..] == xs
  {
  }

  /** One more token and the whitespace before it extend a separation. */
  lemma SeparatesCons(ws: string, w: string, rest: string, seps: seq<string>, words: seq<string>)
    requires AllWhitespace(ws) && IsToken(w)
    requires rest == [] || IsWhitespace(rest[0])
    requires Separates(seps, words) && Interleave(seps, words) == rest
    ensures Separates([ws] + seps, [w] + words)
    ensures Interleave([ws] + seps, [w] + words) == ws + (w + rest)
  {
    InterleaveStart(seps, words);
    var seps', words' := [ws] + seps, [w] + words;
    assert seps'[1..] == seps && words'[1..] == words;
    assert forall i :: 0 < i < |words'| ==> seps'[i] == seps[i - 1];
  }

  /** A string that starts with a token is that token and what follows it. */
  lemma TokenPrefix(t: string) returns (w: string, rest: string)
    requires t != [] && !IsWhitespace(t[0])
    ensures t == w + rest && w == t[..TokenEnd(t)] && rest == t[TokenEnd(t)..]
    ensures IsToken(w) && (rest == [] || IsWhitespace(rest[0]))
  {
    var n := TokenEnd(t);
    assert n > 0;
    w, rest := t[..n], t[n..];
  }

  /** The first token of a string that is not all whitespace, with what lies around it. */
  lemma SplitWhitespaceFirst(s: string) returns (ws: string, w: string, rest: string)
    requires TrimStart(s) != []
    ensures s == ws + (w + rest)
    ensures AllWhitespace(ws) && IsToken(w) && (rest == [] || IsWhitespace(rest[0]))
    ensures SplitWhitespace(s) == [w] + SplitWhitespace(rest)
    ensures |rest| < |s|
  {
    var t := TrimStart(s);
    ws := s[..|s| - |t|];
    assert s == ws + t;
    w, rest := TokenPrefix(t);
    assert SplitWhitespace(s) == [w] + SplitWhitespace(rest);
  }

  /** Every string is its own tokens under `split_whitespace` interleaved with a
      separation. */
  lemma {:induction false} SplitWhitespaceSeparated(s: string)
    ensures exists seps :: Separates(seps, SplitWhitespace(s)) && Interleave(seps, SplitWhitespace(s)) == s
    decreases |s|
  {
    if TrimStart(s) == [] {
      SplitWhitespaceBlank(s);
    } else {
      var ws, w, rest := SplitWhitespaceFirst(s);
      SplitWhitespaceSeparated(rest);
      var tail := SplitWhitespace(rest);
      var seps :| Separates(seps, tail) && Interleave(seps, tail) == rest;
      SeparatesCons(ws, w, rest, seps, tail);
      var seps' := [ws] + seps;
      assert Separates(seps', SplitWhitespace(s)) && Interleave(seps', SplitWhitespace(s)) == s;
    }
  }

  /** A blank string has no tokens and is its own single separator. */
  lemma SplitWhitespaceBlank(s: string)
    requires TrimStart(s) == []
    ensures SplitWhitespace(s) == []
    ensures Separates([s], []) && Interleave([s], []) == s
  {
    assert s[..|s|] == s;
  }

  /** `split_whitespace` characterised: it yields `words` exactly when the string is
      `words` interleaved with a separation. */
  lemma SplitWhitespaceCharacterised(s: string, words: seq<string>)
    ensures SplitWhitespace(s) == words <==>
            exists seps :: Separates(seps, words) && Interleave(seps, words) == s
  {
    if SplitWhitespace(s) == words {
      SplitWhitespaceSeparated(s);
    }
    if exists seps :: Separates(seps, words) && Interleave(seps, words) == s {
      var seps :| Separates(seps, words) && Interleave(seps, words) == s;
      SplitWhitespaceInterleave(seps, words);
    }
  }
}
