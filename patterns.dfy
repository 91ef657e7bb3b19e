/** The regular expressions of the converter that scan without backtracking,
    each written out as the scan the JavaScript engine performs for a global
    (`/g`) match: at each position try the pattern, on success continue after
    the match, otherwise move one character on. */
module Patterns {
  import opened TextOps

  /** The class `[∀∃]`. */
  predicate IsQuantifier(c: char) {
    c == '∀' || c == '∃'
  }

  /** A match of `[∀∃][a-zA-Z]+` starts at index `i` of `s`. */
  predicate TokenAt(s: string, i: int) {
    0 <= i && i + 1 < |s| && IsQuantifier(s[i]) && IsLetter(s[i + 1])
  }

  /** No match of `[∀∃][a-zA-Z]+` starts anywhere in `s`. */
  predicate NoToken(s: string) {
    forall i :: 0 <= i < |s| ==> !TokenAt(s, i)
  }

  /** A string that `[∀∃][a-zA-Z]+` matches in full. */
  predicate IsToken(m: string) {
    |m| >= 2 && IsQuantifier(m[0]) && forall k :: 1 <= k < |m| ==> IsLetter(m[k])
  }

  /** The length of the run of letters `[a-zA-Z]*` at the start of `s`
      (greedy). */
  function LetterRun(s: string): (n: nat)
    ensures n <= |s|
    ensures forall k :: 0 <= k < n ==> IsLetter(s[k])
    ensures n == |s| || !IsLetter(s[n])
    decreases |s|
  {
    if s != [] && IsLetter(s[0]) then 1 + LetterRun(s[1..]) else 0
  }

  /** The end of the greedy match of `[∀∃][a-zA-Z]+` that starts at index 0. */
  function TokenEnd(s: string): (n: nat)
    requires TokenAt(s, 0)
    ensures 2 <= n <= |s| && IsToken(s[..n])
    ensures n == |s| || !IsLetter(s[n])
  {
    1 + LetterRun(s[1..])
  }

  /** A match at index `i > 0` is a match at `i - 1` after the first
      character. */
  lemma TokenShift(s: string, i: int)
    requires 1 <= i && s != []
    ensures TokenAt(s, i) <==> TokenAt(s[1..], i - 1)
  {
  }

  /** `s.match(/[∀∃][a-zA-Z]+/g) || []`: the quantifier tokens of `s`, left to
      right. */
  function QuantifierMatches(s: string): (ms: seq<string>)
    ensures forall k :: 0 <= k < |ms| ==> IsToken(ms[k])
    ensures ms == [] <==> NoToken(s)
    decreases |s|
  {
    if |s| < 2 then
      []
    else if TokenAt(s, 0) then
      var n := TokenEnd(s);
      [s[..n]] + QuantifierMatches(s[n..])
    else
      var rest := QuantifierMatches(s[1..]);
      assert NoToken(s) <==> NoToken(s[1..]) by {
        forall i | 1 <= i < |s| ensures TokenAt(s, i) <==> TokenAt(s[1..], i - 1) {
          TokenShift(s, i);
        }
        forall j | 0 <= j < |s| - 1 ensures TokenAt(s[1..], j) <==> TokenAt(s, j + 1) {
          TokenShift(s, j + 1);
        }
      }
      rest
  }

  /** Every position moved `n` further right. */
  function Shift(ps: seq<nat>, n: nat): (r: seq<nat>)
    ensures |r| == |ps| && forall k :: 0 <= k < |r| ==> r[k] == ps[k] + n
  {
    seq(|ps|, k requires 0 <= k < |ps| => ps[k] + n)
  }

  /** `m` is the text of `s` at `p` and is not followed by a letter. */
  predicate LocatedAt(s: string, m: string, p: nat)
  {
    p + |m| <= |s| && s[p..p + |m|] == m && (p + |m| == |s| || !IsLetter(s[p + |m|]))
  }

  /** The k-th string of `ms` is located at `starts[k]`, and the strings
      come left to right without overlap. */
  predicate Located(s: string, ms: seq<string>, starts: seq<nat>)
  {
    |starts| == |ms|
    && (forall k :: 0 <= k < |ms| ==> LocatedAt(s, ms[k], starts[k]))
    && (forall k :: 0 <= k < |ms| - 1 ==> starts[k] + |ms[k]| <= starts[k + 1])
  }

  /** A string located in a suffix is located in the whole text. */
  lemma LocatedAtShift(s: string, n: nat, m: string, p: nat)
    requires n <= |s| && LocatedAt(s[n..], m, p)
    ensures LocatedAt(s, m, p + n)
  {
    assert s[n..][p..p + |m|] == s[n + p..n + p + |m|];
    if p + |m| < |s| - n {
      assert s[n..][p + |m|] == s[n + p + |m|];
    }
  }

  /** Strings located in a suffix are located in the whole text. */
  lemma LocatedShift(s: string, n: nat, ms: seq<string>, ps: seq<nat>)
    requires n <= |s| && Located(s[n..], ms, ps)
    ensures Located(s, ms, Shift(ps, n))
  {
    var qs := Shift(ps, n);
    forall k | 0 <= k < |ms| ensures LocatedAt(s, ms[k], qs[k]) {
      LocatedAtShift(s, n, ms[k], ps[k]);
    }
  }

  /** A token at the start, not followed by a letter, goes in front of the
      strings located after it. */
  lemma LocatedCons(s: string, n: nat, ms: seq<string>, ps: seq<nat>)
    requires 0 < n <= |s| && (n == |s| || !IsLetter(s[n]))
    requires Located(s, ms, ps) && (ps == [] || n <= ps[0])
    ensures Located(s, [s[..n]] + ms, [0] + ps)
  {
    var ms2 := [s[..n]] + ms;
    var ps2 := [0] + ps;
    assert LocatedAt(s, s[..n], 0);
    forall k | 0 <= k < |ms2| ensures LocatedAt(s, ms2[k], ps2[k]) {
      if k > 0 { assert ms2[k] == ms[k - 1] && ps2[k] == ps[k - 1]; }
    }
    forall k | 0 <= k < |ms2| - 1 ensures ps2[k] + |ms2[k]| <= ps2[k + 1] {
      if k > 0 { assert ms2[k] == ms[k - 1] && ps2[k] == ps[k - 1] && ps2[k + 1] == ps[k]; }
    }
  }

  /** Every token start lies at the first token or among the token starts
      after it. */
  lemma CompleteAfterToken(s: string, tail: seq<nat>)
    requires TokenAt(s, 0)
    requires forall i :: TokenAt(s[TokenEnd(s)..], i) ==> i in tail
    ensures forall i :: TokenAt(s, i) ==> i in [0] + Shift(tail, TokenEnd(s))
  {
    var n := TokenEnd(s);
    var starts := [0] + Shift(tail, n);
    forall i | TokenAt(s, i) ensures i in starts {
      if i >= n {
        assert TokenAt(s[n..], i - n);
        var j :| 0 <= j < |tail| && tail[j] == i - n;
        assert starts[j + 1] == i;
      }
    }
  }

  /** Without a token at index 0, every token start lies among the token
      starts of the rest. */
  lemma CompleteAfterSkip(s: string, tail: seq<nat>)
    requires s != [] && !TokenAt(s, 0)
    requires forall i :: TokenAt(s[1..], i) ==> i in tail
    ensures forall i :: TokenAt(s, i) ==> i in Shift(tail, 1)
  {
    var starts := Shift(tail, 1);
    forall i | TokenAt(s, i) ensures i in starts {
      TokenShift(s, i);
      var j :| 0 <= j < |tail| && tail[j] == i - 1;
      assert starts[j] == i;
    }
  }

  /** The matches of `[∀∃][a-zA-Z]+` are where the tokens of `s` are: the
      k-th match is the text at the k-th returned position, it is not
      followed by a letter, the matches do not overlap and come left to
      right, and every position where a token starts is one of them. */
  lemma {:induction false} QuantifierMatchesAt(s: string) returns (starts: seq<nat>)
    ensures Located(s, QuantifierMatches(s), starts)
    ensures forall i :: TokenAt(s, i) ==> i in starts
    decreases |s|
  {
    if |s| < 2 {
      starts := [];
    } else if TokenAt(s, 0) {
      var n := TokenEnd(s);
      var tail := QuantifierMatchesAt(s[n..]);
      LocatedShift(s, n, QuantifierMatches(s[n..]), tail);
      LocatedCons(s, n, QuantifierMatches(s[n..]), Shift(tail, n));
      CompleteAfterToken(s, tail);
      starts := [0] + Shift(tail, n);
    } else {
      var tail := QuantifierMatchesAt(s[1..]);
      LocatedShift(s, 1, QuantifierMatches(s[1..]), tail);
      CompleteAfterSkip(s, tail);
      starts := Shift(tail, 1);
    }
  }

  /** The names bound by the quantifier tokens: `match.substring(1)` of each
      match of `[∀∃]([a-zA-Z]+)`. */
  function BoundNames(s: string): (names: seq<string>)
    ensures var ms := QuantifierMatches(s);
      |names| == |ms| && forall k :: 0 <= k < |names| ==> [ms[k][0]] + names[k] == ms[k]
    ensures forall k :: 0 <= k < |names| ==> names[k] != [] && forall j :: 0 <= j < |names[k]| ==> IsLetter(names[k][j])
  {
    var ms := QuantifierMatches(s);
    seq(|ms|, k requires 0 <= k < |ms| => ms[k][1..])
  }

  /** Removing a piece that has none of `c` keeps the number of `c`. */
  lemma CountAfterDrop(s: string, n: int, c: char)
    requires 0 <= n <= |s| && c !in s[..n]
    ensures multiset(s[n..])[c] == multiset(s)[c]
  {
    assert s == s[..n] + s[n..];
  }

  // `s.replace(/[∀∃][a-zA-Z]+\s*/g, '')`: every quantifier token is
  // deleted together with the whitespace after it.
  function RemoveQuantifierTokens(s: string): (r: string)
    ensures |r| <= |s|
    decreases |s|
  {
    if |s| < 2 then
      s
    else if TokenAt(s, 0) then
      var rest := TrimStart(s[TokenEnd(s)..]);
      RemoveQuantifierTokens(rest)
    else
      [s[0]] + RemoveQuantifierTokens(s[1..])
  }

  /** A slice of a text without tokens has none. */
  lemma NoTokenSlice(s: string, i: int, j: int)
    requires NoToken(s) && 0 <= i <= j <= |s|
    ensures NoToken(s[i..j])
  {
    forall k | 0 <= k < j - i ensures !TokenAt(s[i..j], k) {
      assert TokenAt(s[i..j], k) ==> TokenAt(s, i + k);
    }
  }

  /** A text without tokens is left as it is. */
  lemma {:induction false} RemoveTokensIdentity(s: string)
    requires NoToken(s)
    ensures RemoveQuantifierTokens(s) == s
    decreases |s|
  {
    if |s| >= 2 {
      assert !TokenAt(s, 0);
      NoTokenSlice(s, 1, |s|);
      assert s[1..|s|] == s[1..];
      RemoveTokensIdentity(s[1..]);
      assert s == [s[0]] + s[1..];
    }
  }

  /** A token and the whitespace after it hold only quantifiers, letters and
      whitespace. */
  lemma TokenAndSpaces(s: string)
    requires TokenAt(s, 0)
    ensures var w := |s| - |TrimStart(s[TokenEnd(s)..])|;
      forall k :: 0 <= k < w ==> IsQuantifier(s[k]) || IsLetter(s[k]) || IsSpace(s[k])
  {
    var n := TokenEnd(s);
    var w := |s| - |TrimStart(s[n..])|;
    TrimStartDropsSpaces(s[n..]);
    forall k | 0 <= k < w
      ensures IsQuantifier(s[k]) || IsLetter(s[k]) || IsSpace(s[k])
    {
      if k < n {
        assert s[k] == s[..n][k];
      } else {
        assert s[k] == s[n..][k - n];
      }
    }
  }

  /** A suffix of a suffix is a suffix. */
  lemma SuffixOfSuffix(s: string, n: nat, r: string)
    requires n <= |s| && |r| <= |s| - n && r == s[n..][|s| - n - |r|..]
    ensures r == s[|s| - |r|..]
  {
  }

  /** The text left after a token and its whitespace holds as many of such
      a character as the whole. */
  lemma KeepsAfterToken(s: string, c: char)
    requires TokenAt(s, 0) && !IsLetter(c) && !IsSpace(c) && !IsQuantifier(c)
    ensures var rest := TrimStart(s[TokenEnd(s)..]);
      multiset(rest)[c] == multiset(s)[c]
  {
    var rest := TrimStart(s[TokenEnd(s)..]);
    var w := |s| - |rest|;
    assert rest == s[w..] by { SuffixOfSuffix(s, TokenEnd(s), rest); }
    assert multiset(s[w..])[c] == multiset(s)[c] by {
      assert c !in s[..w] by {
        TokenAndSpaces(s);
        assert forall k :: 0 <= k < w ==> s[..w][k] == s[k];
      }
      CountAfterDrop(s, w, c);
    }
  }


  /** A character kept in front of the rest adds its own count. */
  lemma KeepsFirst(s: string, r: string, c: char)
    requires s != [] && multiset(r)[c] == multiset(s[1..])[c]
    ensures multiset([s[0]] + r)[c] == multiset(s)[c]
  {
    assert s == [s[0]] + s[1..];
  }

  /** Deleting the tokens keeps every character that is not a letter,
      whitespace or a quantifier, as many times as it occurs. */
  lemma {:induction false} RemoveQuantifierTokensKeeps(s: string, c: char)
    requires !IsLetter(c) && !IsSpace(c) && !IsQuantifier(c)
    ensures multiset(RemoveQuantifierTokens(s))[c] == multiset(s)[c]
    decreases |s|
  {
    if |s| >= 2 {
      if TokenAt(s, 0) {
        var rest := TrimStart(s[TokenEnd(s)..]);
        KeepsAfterToken(s, c);
        RemoveQuantifierTokensKeeps(rest, c);
      } else {
        RemoveQuantifierTokensKeeps(s[1..], c);
        KeepsFirst(s, RemoveQuantifierTokens(s[1..]), c);
      }
    }
  }

  /** The length of the match of `^([∀∃][a-zA-Z]+\s*)+`, or 0 when there is
      none. Every repetition takes a whole token and all the whitespace after
      it, and the repetition stops at the first position where no token
      starts, so the greedy match is the one the engine returns. */
  function PrefixMatchLength(s: string): (n: nat)
    ensures n <= |s|
    ensures n > 0 <==> TokenAt(s, 0)
    decreases |s|
  {
    if TokenAt(s, 0) then
      var t := TokenEnd(s);
      var w := |s| - |TrimStart(s[t..])|;
      w + PrefixMatchLength(s[w..])
    else 0
  }

  /** The first letter of each match of `[a-zA-Z]\([^)]*\)`, left to right:
      `match.split('(')[0]` is that letter, since a match holds one letter
      before its `(`. */
  function CallHeads(s: string): (heads: seq<char>)
    ensures forall k :: 0 <= k < |heads| ==> IsLetter(heads[k])
    ensures '(' !in s ==> heads == []
    decreases |s|
  {
    if |s| < 2 then
      []
    else if IsLetter(s[0]) && s[1] == '(' && Contains(s[2..], ")") then
      [s[0]] + CallHeads(s[2 + IndexOf(s[2..], ")") + 1..])
    else
      assert '(' !in s ==> '(' !in s[1..] by {
        assert forall k :: 0 <= k < |s| - 1 ==> s[1..][k] == s[k + 1];
      }
      CallHeads(s[1..])
  }

  /** `[a-zA-Z]\([^)]*\)` can match at index `i`: a letter, then `(`, then a
      `)` somewhere after. */
  predicate CallAt(s: string, i: int) {
    0 <= i && i + 1 < |s| && IsLetter(s[i]) && s[i + 1] == '(' && ')' in s[i + 2..]
  }

  lemma CallShift(s: string, i: int)
    requires 1 <= i && s != []
    ensures CallAt(s, i) <==> CallAt(s[1..], i - 1)
  {
    if i + 1 < |s| { assert s[1..][i + 1..] == s[i + 2..]; }
  }

  /** Where the pattern cannot match at index 0, the scan moves on by one. */
  lemma CallHeadsSkip(s: string)
    requires |s| >= 2 && !CallAt(s, 0)
    ensures CallHeads(s) == CallHeads(s[1..])
  {
    ContainsChar(s[2..], ')');
  }

  /** Where the pattern matches at index 0, its letter is taken and the scan
      goes on after the closing `)`. */
  lemma CallHeadsTake(s: string)
    requires CallAt(s, 0)
    ensures var close := 2 + IndexOf(s[2..], ")");
      close < |s| && CallHeads(s) == [s[0]] + CallHeads(s[close + 1..])
  {
    ContainsChar(s[2..], ')');
  }

  /** A place where the pattern matches yields a head. */
  lemma {:induction false} CallFound(s: string, i: int)
    requires CallAt(s, i)
    ensures CallHeads(s) != []
    decreases i
  {
    if CallAt(s, 0) {
      CallHeadsTake(s);
    } else {
      CallHeadsSkip(s);
      CallShift(s, i);
      CallFound(s[1..], i - 1);
    }
  }

  /** A head comes from a place where the pattern matches. */
  lemma {:induction false} CallWitness(s: string) returns (i: int)
    requires CallHeads(s) != []
    ensures CallAt(s, i)
    decreases |s|
  {
    if CallAt(s, 0) {
      i := 0;
    } else {
      CallHeadsSkip(s);
      var j := CallWitness(s[1..]);
      CallShift(s, j + 1);
      i := j + 1;
    }
  }

  /** No head is found exactly when the pattern matches nowhere. */
  lemma CallHeadsNone(s: string)
    ensures CallHeads(s) == [] <==> forall i :: !CallAt(s, i)
  {
    if CallHeads(s) != [] {
      var i := CallWitness(s);
    }
    forall i | CallAt(s, i) ensures CallHeads(s) != [] { CallFound(s, i); }
  }

  lemma NoCallBefore(s: string, i: int)
    requires 1 <= i && s != [] && forall j :: 0 <= j < i ==> !CallAt(s, j)
    ensures forall j :: 0 <= j < i - 1 ==> !CallAt(s[1..], j)
  {
    forall j | 0 <= j < i - 1 ensures !CallAt(s[1..], j) { CallShift(s, j + 1); }
  }

  /** Places where the pattern does not match are skipped one by one. */
  lemma {:induction false} CallHeadsDrop(s: string, i: int)
    requires 0 <= i <= |s| && forall j :: 0 <= j < i ==> !CallAt(s, j)
    ensures CallHeads(s) == CallHeads(s[i..])
    decreases i
  {
    if i == 0 {
      assert s[i..] == s;
    } else {
      var t := s[1..];
      assert CallHeads(t) == CallHeads(t[i - 1..]) by {
        NoCallBefore(s, i);
        CallHeadsDrop(t, i - 1);
      }
      assert t[i - 1..] == s[i..];
      assert CallHeads(s) == CallHeads(t) by {
        if |s| >= 2 {
          CallHeadsSkip(s);
        }
      }
    }
  }

  /** From a place where the pattern matches, the scan takes its letter and
      goes on after the `)` that closes the match. */
  lemma CallHeadsAt(s: string, i: int)
    requires CallAt(s, i)
    ensures i + 2 + IndexOf(s[i + 2..], ")") < |s|
    ensures CallHeads(s[i..]) == [s[i]] + CallHeads(s[i + 2 + IndexOf(s[i + 2..], ")") + 1..])
  {
    var u := s[i..];
    assert CallAt(u, 0);
    CallHeadsTake(u);
    var c := 2 + IndexOf(u[2..], ")");
    assert u[2..] == s[i + 2..];
    assert u[c + 1..] == s[i + c + 1..];
  }

  /** The scan finds the first place where the pattern matches, takes its
      letter, and goes on after the `)` that closes the match. */
  lemma CallHeadsFirst(s: string, i: int)
    requires CallAt(s, i) && forall j :: 0 <= j < i ==> !CallAt(s, j)
    ensures i + 2 + IndexOf(s[i + 2..], ")") < |s|
    ensures CallHeads(s) == [s[i]] + CallHeads(s[i + 2 + IndexOf(s[i + 2..], ")") + 1..])
  {
    CallHeadsDrop(s, i);
    CallHeadsAt(s, i);
  }

  /** Each match consumes its own `(`: there are at most as many heads as
      opening parentheses. */
  lemma {:induction false} CallHeadsCount(s: string)
    ensures |CallHeads(s)| <= multiset(s)['(']
    decreases |s|
  {
    if |s| >= 2 {
      if IsLetter(s[0]) && s[1] == '(' && Contains(s[2..], ")") {
        var close := 2 + IndexOf(s[2..], ")");
        CallHeadsCount(s[close + 1..]);
        assert s == s[..close + 1] + s[close + 1..];
        assert s[1] in s[..close + 1];
      } else {
        CallHeadsCount(s[1..]);
        assert s == [s[0]] + s[1..];
      }
    }
  }
}
