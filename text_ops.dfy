/** The JavaScript string built-ins the converter relies on, stated over
    `seq<char>`: `indexOf`, `replace` of a literal (first occurrence and
    global), `split` on one character, `Array.prototype.join`, `trim`, the
    `\s+` collapse and the `/^\(|\)$/g` strip. Every character the converter
    handles lies in the Basic Multilingual Plane, so one `char` stands for one
    UTF-16 code unit. */
module TextOps {

  /** The characters matched by `\s` in a JavaScript regular expression and
      removed by `String.prototype.trim` (WhiteSpace and LineTerminator). */
  predicate IsSpace(c: char) {
    c == ' ' || c == '\t' || c == '\n' || c == '\r' || c == '\U{000B}' || c == '\U{000C}'
    || c == '\U{00A0}' || c == '\U{1680}' || ('\U{2000}' <= c <= '\U{200A}')
    || c == '\U{2028}' || c == '\U{2029}' || c == '\U{202F}' || c == '\U{205F}'
    || c == '\U{3000}' || c == '\U{FEFF}'
  }

  /** The class `[a-zA-Z]`. */
  predicate IsLetter(c: char) {
    ('a' <= c <= 'z') || ('A' <= c <= 'Z')
  }

  /** `t` occurs in `s` starting at index `k`. */
  predicate OccursAt(s: string, t: string, k: int) {
    0 <= k && k + |t| <= |s| && s[k..k + |t|] == t
  }

  /** `s.includes(t)` */
  predicate Contains(s: string, t: string) {
    exists k :: 0 <= k <= |s| - |t| && OccursAt(s, t, k)
  }

  /** A one-character string occurs exactly when the character does. */
  lemma ContainsChar(s: string, c: char)
    ensures Contains(s, [c]) <==> c in s
  {
    if c in s {
      var k :| 0 <= k < |s| && s[k] == c;
      assert OccursAt(s, [c], k);
    }
    if Contains(s, [c]) {
      var k :| 0 <= k <= |s| - 1 && OccursAt(s, [c], k);
      assert OccursAt(s, [c], k);
      assert s[k] == s[k..k + 1][0];
    }
  }

  /** `s.indexOf(t)`: the first index at which `t` occurs, or -1. */
  function IndexOf(s: string, t: string): (k: int)
    ensures -1 <= k <= |s|
    ensures k == -1 <==> !Contains(s, t)
    ensures k >= 0 ==> OccursAt(s, t, k) && forall j :: 0 <= j < k ==> !OccursAt(s, t, j)
  {
    IndexFrom(s, t, 0)
  }

  /** The scan behind `indexOf`: the first index from `i` on at which `t`
      occurs, or -1. */
  function IndexFrom(s: string, t: string, i: nat): (k: int)
    ensures k == -1 || (i <= k <= |s| && OccursAt(s, t, k))
    ensures forall j :: i <= j && (k == -1 || j < k) ==> !OccursAt(s, t, j)
    decreases |s| - i
  {
    if i + |t| > |s| then -1
    else if OccursAt(s, t, i) then i
    else IndexFrom(s, t, i + 1)
  }

  /** An occurrence after the first character is an occurrence in the rest. */
  lemma OccursShift(s: string, t: string, j: int)
    requires 1 <= j && s != []
    ensures OccursAt(s, t, j) <==> OccursAt(s[1..], t, j - 1)
  {
    if j + |t| <= |s| {
      var a, b := s[j..j + |t|], s[1..][j - 1..j - 1 + |t|];
      assert |a| == |b|;
      forall i | 0 <= i < |a| ensures a[i] == b[i] {
        assert a[i] == s[j + i] && b[i] == s[1..][j - 1 + i];
      }
      assert a == b;
    }
  }

  /** `s.replace(p, r)` with a string pattern: only the first occurrence of
      `p` is replaced. */
  function ReplaceFirst(s: string, p: string, r: string): (res: string)
    ensures !Contains(s, p) ==> res == s
    ensures Contains(s, p) ==>
      exists k :: (OccursAt(s, p, k) && (forall j :: 0 <= j < k ==> !OccursAt(s, p, j)) && res == s[..k] + r + s[k + |p|..])
  {
    var k := IndexOf(s, p);
    if k < 0 then s else s[..k] + r + s[k + |p|..]
  }

  /** Where the first occurrence is known, the replace cuts there. */
  lemma ReplaceFirstAt(s: string, p: string, r: string, k: int)
    requires OccursAt(s, p, k) && forall j :: 0 <= j < k ==> !OccursAt(s, p, j)
    ensures ReplaceFirst(s, p, r) == s[..k] + r + s[k + |p|..]
  {
    assert IndexOf(s, p) == k;
  }

  /** `s.replace(/p/g, r)` for a pattern `p` with no special characters: every
      occurrence, scanned left to right without overlap, becomes `r`. */
  function ReplaceAll(s: string, p: string, r: string): string
    requires |p| > 0
    decreases |s|
  {
    var k := IndexOf(s, p);
    if k < 0 then s else s[..k] + r + ReplaceAll(s[k + |p|..], p, r)
  }

  /** A global replace changes nothing when the pattern does not occur. */
  lemma ReplaceAllAbsent(s: string, p: string, r: string)
    requires |p| > 0 && !Contains(s, p)
    ensures ReplaceAll(s, p, r) == s
  {
  }

  /** A global replace keeps every character that is in neither the
      pattern nor the replacement. */
  lemma {:induction false} ReplaceAllKeeps(s: string, p: string, r: string, c: char)
    requires |p| > 0 && c !in p && c !in r
    ensures multiset(ReplaceAll(s, p, r))[c] == multiset(s)[c]
    decreases |s|
  {
    var k := IndexOf(s, p);
    if k >= 0 {
      var rest := s[k + |p|..];
      ReplaceAllKeeps(rest, p, r, c);
      KeepsAcrossReplacement(s, k, p, r, ReplaceAll(rest, p, r), c);
    }
  }

  /** Putting `r` in place of an occurrence of `p` and a text with the same
      count of `c` in place of what follows keeps the count of `c`. */
  lemma KeepsAcrossReplacement(s: string, k: int, p: string, r: string, u: string, c: char)
    requires OccursAt(s, p, k) && c !in p && c !in r
    requires multiset(u)[c] == multiset(s[k + |p|..])[c]
    ensures multiset(s[..k] + r + u)[c] == multiset(s)[c]
  {
    assert s == s[..k] + p + s[k + |p|..];
    assert multiset(s) == multiset(s[..k]) + multiset(p) + multiset(s[k + |p|..]);
    assert multiset(s[..k] + r + u) == multiset(s[..k]) + multiset(r) + multiset(u);
  }

  /** A substring of a string without `t` has no `t` either. */
  lemma NoOccurrenceInSlice(s: string, t: string, i: int, j: int)
    requires 0 <= i <= j <= |s| && !Contains(s, t)
    ensures !Contains(s[i..j], t)
  {
    if Contains(s[i..j], t) {
      var k :| 0 <= k <= j - i - |t| && OccursAt(s[i..j], t, k);
      assert OccursAt(s[i..j], t, k);
      assert forall n :: 0 <= n < |t| ==> t[n] == s[i + k + n];
      assert s[i + k..i + k + |t|] == t;
      assert OccursAt(s, t, i + k);
    }
  }

  /** Each character of an occurrence is a character of the pattern. */
  lemma OccurrenceChar(s: string, t: string, k: int, n: int)
    requires OccursAt(s, t, k) && 0 <= n < |t|
    ensures s[k + n] == t[n] && s[k + n] in t
  {
    assert s[k..k + |t|][n] == s[k + n];
  }

  /** A non-empty separator none of whose characters belongs to `t` keeps two
      pieces without `t` from forming one across the seam. */
  lemma NoOccurrenceAcross(a: string, r: string, b: string, t: string)
    requires |t| > 0 && |r| > 0 && forall c :: c in r ==> c !in t
    requires !Contains(a, t) && !Contains(b, t)
    ensures !Contains(a + r + b, t)
  {
    var s := a + r + b;
    forall k | 0 <= k <= |s| - |t|
      ensures !OccursAt(s, t, k)
    {
      if k + |t| <= |a| {
        assert s[k..k + |t|] == a[k..k + |t|];
        assert !OccursAt(a, t, k);
      } else if k >= |a| + |r| {
        assert s[k..k + |t|] == b[k - |a| - |r|..k - |a| - |r| + |t|];
        assert !OccursAt(b, t, k - |a| - |r|);
      } else {
        var m := if k < |a| then |a| else k;
        assert s[m] in r;
        assert s[k..k + |t|][m - k] == s[m];
      }
    }
  }

  /** A global replacement whose replacement text shares no character with
      `t` leaves no occurrence of `t` behind when `t` is the pattern itself,
      and creates none when the input had none. */
  lemma {:induction false} ReplaceAllLeavesNo(s: string, p: string, r: string, t: string)
    requires |p| > 0 && |t| > 0 && |r| > 0
    requires forall c :: c in r ==> c !in t
    requires t == p || !Contains(s, t)
    ensures !Contains(ReplaceAll(s, p, r), t)
    decreases |s|
  {
    var k := IndexOf(s, p);
    if k >= 0 {
      var rest := s[k + |p|..];
      if t == p {
        NoneBeforeFirst(s, p);
      } else {
        NoOccurrenceInSlice(s, t, 0, k);
        NoOccurrenceInSlice(s, t, k + |p|, |s|);
        assert s[k + |p|..|s|] == rest;
      }
      ReplaceAllLeavesNo(rest, p, r, t);
      NoOccurrenceAcross(s[..k], r, ReplaceAll(rest, p, r), t);
    }
  }

  /** The text before the first occurrence of a non-empty `p` holds no `p`. */
  lemma NoneBeforeFirst(s: string, p: string)
    requires |p| > 0 && IndexOf(s, p) >= 0
    ensures !Contains(s[..IndexOf(s, p)], p)
  {
    var k := IndexOf(s, p);
    forall j | 0 <= j <= k - |p| ensures !OccursAt(s[..k], p, j) {
      assert j < k && !OccursAt(s, p, j);
      assert s[..k][j..j + |p|] == s[j..j + |p|];
    }
  }

  /** Pieces and a separator without `c` join into a text without `c`. */
  lemma {:induction false} JoinFreeOf(parts: seq<string>, sep: string, c: char)
    requires c !in sep && forall k :: 0 <= k < |parts| ==> c !in parts[k]
    ensures c !in Join(parts, sep)
    decreases |parts|
  {
    if |parts| > 1 {
      JoinFreeOf(parts[1..], sep, c);
    }
  }

  /** `s.split(c)` for a one-character separator. */
  function Split(s: string, c: char): (parts: seq<string>)
    ensures |parts| >= 1
    ensures forall i :: 0 <= i < |parts| ==> c !in parts[i]
    decreases |s|
  {
    if s == [] then [[]]
    else
      var rest := Split(s[1..], c);
      if s[0] == c then [[]] + rest
      else [[s[0]] + rest[0]] + rest[1..]
  }

  /** One piece more than there are separators. */
  lemma {:induction false} SplitCount(s: string, c: char)
    ensures |Split(s, c)| == 1 + multiset(s)[c]
    decreases |s|
  {
    if s != [] {
      SplitCount(s[1..], c);
      assert s == [s[0]] + s[1..];
    }
  }

  /** How often `x` occurs in all the pieces together. */
  function CountAll(parts: seq<string>, x: char): nat
  {
    if parts == [] then 0 else multiset(parts[0])[x] + CountAll(parts[1..], x)
  }

  /** Lists whose pieces hold `x` equally often, piece by piece, hold it
      equally often in total. */
  lemma {:induction false} CountAllPointwise(a: seq<string>, b: seq<string>, x: char)
    requires |a| == |b| && forall k :: 0 <= k < |a| ==> multiset(a[k])[x] == multiset(b[k])[x]
    ensures CountAll(a, x) == CountAll(b, x)
    decreases |a|
  {
    if a != [] {
      assert multiset(a[0])[x] == multiset(b[0])[x];
      CountAllPointwise(a[1..], b[1..], x);
    }
  }

  /** Splitting loses only the separators: every other character occurs in
      the pieces together as often as in the input. */
  lemma {:induction false} SplitKeeps(s: string, c: char, x: char)
    requires x != c
    ensures CountAll(Split(s, c), x) == multiset(s)[x]
    decreases |s|
  {
    if s != [] {
      var rest := Split(s[1..], c);
      SplitKeeps(s[1..], c, x);
      assert s == [s[0]] + s[1..];
      if s[0] == c {
        assert ([[]] + rest)[1..] == rest;
      } else {
        var parts := [[s[0]] + rest[0]] + rest[1..];
        assert parts[1..] == rest[1..];
        assert multiset([s[0]] + rest[0]) == multiset([s[0]]) + multiset(rest[0]);
      }
    }
  }

  /** Every piece of a split is made of characters of the input. */
  lemma {:induction false} SplitPartsWithin(s: string, c: char)
    ensures forall i :: 0 <= i < |Split(s, c)| ==> multiset(Split(s, c)[i]) <= multiset(s)
    decreases |s|
  {
    if s != [] {
      SplitPartsWithin(s[1..], c);
      assert s == [s[0]] + s[1..];
    }
  }

  /** A string without the separator is not split. */
  lemma SplitWithout(a: string, c: char)
    requires c !in a
    ensures Split(a, c) == [a]
  {
    assert multiset(a)[c] == 0;
    SplitCount(a, c);
    JoinSplit(a, c);
  }

  /** A separator after a piece without it ends that piece. */
  lemma {:induction false} SplitAfter(a: string, c: char, b: string)
    requires c !in a
    ensures Split(a + [c] + b, c) == [a] + Split(b, c)
    decreases |a|
  {
    if a != [] {
      var s := a + [c] + b;
      assert s[1..] == a[1..] + [c] + b;
      SplitAfter(a[1..], c, b);
      var rest := Split(s[1..], c);
      assert s[0] == a[0] && s[0] != c;
      assert Split(s, c) == [[s[0]] + rest[0]] + rest[1..];
      assert rest[1..] == Split(b, c);
      assert [a[0]] + a[1..] == a;
    } else {
      assert a + [c] + b == [c] + b;
      assert ([c] + b)[1..] == b;
    }
  }

  /** `parts.join(sep)` */
  function Join(parts: seq<string>, sep: string): string
  {
    if |parts| == 0 then []
    else if |parts| == 1 then parts[0]
    else parts[0] + sep + Join(parts[1..], sep)
  }

  /** A step for the verifier: the join of two or more pieces starts with
      the first piece and the separator. */
  lemma JoinCons(parts: seq<string>, sep: string)
    requires |parts| > 1
    ensures Join(parts, sep) == parts[0] + sep + Join(parts[1..], sep)
  {
  }

  /** Splitting and joining again with the same separator gives the input
      back, so `Split` loses no character. */
  lemma {:induction false} JoinSplit(s: string, c: char)
    ensures Join(Split(s, c), [c]) == s
    decreases |s|
  {
    if s != [] {
      var rest := Split(s[1..], c);
      JoinSplit(s[1..], c);
      assert |rest| >= 1;
      if s[0] == c {
        assert Split(s, c) == [[]] + rest;
        assert Join([[]] + rest, [c]) == [] + [c] + Join(rest, [c]);
      } else {
        var head := [s[0]] + rest[0];
        assert Split(s, c) == [head] + rest[1..];
        if |rest| == 1 {
          assert Join(rest, [c]) == rest[0];
        } else {
          assert Join(rest, [c]) == rest[0] + [c] + Join(rest[1..], [c]);
          assert ([head] + rest[1..])[1..] == rest[1..];
        }
      }
    }
  }

  /** `String.prototype.trimStart`: a suffix of `s` that does not start
      with whitespace. */
  function TrimStart(s: string): (r: string)
    ensures |r| <= |s| && r == s[|s| - |r|..]
    ensures r == [] || !IsSpace(r[0])
    decreases |s|
  {
    if s != [] && IsSpace(s[0]) then TrimStart(s[1..]) else s
  }

  /** What `trimStart` drops is whitespace. */
  lemma {:induction false} TrimStartDropsSpaces(s: string)
    ensures forall k :: 0 <= k < |s| - |TrimStart(s)| ==> IsSpace(s[k])
    decreases |s|
  {
    if s != [] && IsSpace(s[0]) {
      TrimStartDropsSpaces(s[1..]);
      assert forall k :: 1 <= k < |s| ==> s[k] == s[1..][k - 1];
    }
  }

  /** `String.prototype.trimEnd`: a prefix of `s` that does not end with
      whitespace. */
  function TrimEnd(s: string): (r: string)
    ensures |r| <= |s| && r == s[..|r|]
    ensures r == [] || !IsSpace(r[|r| - 1])
    decreases |s|
  {
    if s != [] && IsSpace(s[|s| - 1]) then TrimEnd(s[..|s| - 1]) else s
  }

  /** What `trimEnd` drops is whitespace. */
  lemma {:induction false} TrimEndDropsSpaces(s: string)
    ensures forall k :: |TrimEnd(s)| <= k < |s| ==> IsSpace(s[k])
    decreases |s|
  {
    if s != [] && IsSpace(s[|s| - 1]) {
      TrimEndDropsSpaces(s[..|s| - 1]);
    }
  }

  /** `String.prototype.trim`: the slice of `s` left once the whitespace at
      both ends is removed; it neither starts nor ends with whitespace. */
  function Trim(s: string): (r: string)
    ensures var i := |s| - |TrimStart(s)|; i + |r| <= |s| && r == s[i..i + |r|]
    ensures r == [] || (!IsSpace(r[0]) && !IsSpace(r[|r| - 1]))
  {
    var a := TrimStart(s);
    var r := TrimEnd(a);
    TrimSlice(s, a, r);
    TrimEndStart(a);
    r
  }

  /** A prefix of a suffix is a slice. */
  lemma TrimSlice(s: string, a: string, r: string)
    requires |a| <= |s| && a == s[|s| - |a|..]
    requires |r| <= |a| && r == a[..|r|]
    ensures |s| - |a| + |r| <= |s| && r == s[|s| - |a|..|s| - |a| + |r|]
  {
  }

  /** Trimming the end of a text that starts with a non-space keeps that
      first character. */
  lemma TrimEndStart(a: string)
    requires a == [] || !IsSpace(a[0])
    ensures var r := TrimEnd(a); r == [] || (!IsSpace(r[0]) && !IsSpace(r[|r| - 1]))
  {
    var r := TrimEnd(a);
    if r != [] {
      assert r[0] == a[0];
    }
  }

  /** What `trim` drops at either end is whitespace. */
  lemma TrimDropsSpaces(s: string)
    ensures forall k :: 0 <= k < |s| - |TrimStart(s)| ==> IsSpace(s[k])
    ensures forall k :: |s| - |TrimStart(s)| + |Trim(s)| <= k < |s| ==> IsSpace(s[k])
  {
    var a := TrimStart(s);
    var i := |s| - |a|;
    TrimStartDropsSpaces(s);
    TrimEndDropsSpaces(a);
    assert forall k :: i + |Trim(s)| <= k < |s| ==> s[k] == a[k - i];
  }

  /** The characters of a slice are characters of the whole. */
  lemma SliceMultiset(s: string, i: int, j: int)
    requires 0 <= i <= j <= |s|
    ensures multiset(s[i..j]) <= multiset(s)
  {
    assert s == s[..i] + s[i..j] + s[j..];
  }

  /** Leading whitespace before a text that starts with a non-space is
      all that `trimStart` removes. */
  lemma {:induction false} TrimStartSpaces(pre: string, x: string)
    requires forall k :: 0 <= k < |pre| ==> IsSpace(pre[k])
    requires x == [] || !IsSpace(x[0])
    ensures TrimStart(pre + x) == x
    decreases |pre|
  {
    if pre != [] {
      assert (pre + x)[1..] == pre[1..] + x;
      TrimStartSpaces(pre[1..], x);
    }
  }

  /** Trailing whitespace after a text that ends in a non-space is all that
      `trimEnd` removes. */
  lemma {:induction false} TrimEndSpaces(x: string, post: string)
    requires forall k :: 0 <= k < |post| ==> IsSpace(post[k])
    requires x == [] || !IsSpace(x[|x| - 1])
    ensures TrimEnd(x + post) == x
    decreases |post|
  {
    if post != [] {
      assert (x + post)[..|x + post| - 1] == x + post[..|post| - 1];
      TrimEndSpaces(x, post[..|post| - 1]);
    }
  }

  /** Whitespace around a trimmed string is all that `trim` removes. */
  lemma TrimPadded(pre: string, m: string, post: string)
    requires forall k :: 0 <= k < |pre| ==> IsSpace(pre[k])
    requires forall k :: 0 <= k < |post| ==> IsSpace(post[k])
    requires m == [] || (!IsSpace(m[0]) && !IsSpace(m[|m| - 1]))
    ensures Trim(pre + m + post) == m
  {
    if m == [] {
      assert pre + m + post == (pre + post) + [];
      assert forall k :: 0 <= k < |pre + post| ==> IsSpace((pre + post)[k]);
      TrimStartSpaces(pre + post, []);
      TrimEndSpaces([], []);
    } else {
      assert pre + m + post == pre + (m + post);
      TrimStartSpaces(pre, m + post);
      TrimEndSpaces(m, post);
    }
  }

  /** A string already without surrounding whitespace is its own trim. */
  lemma TrimUnchanged(s: string)
    requires s == [] || (!IsSpace(s[0]) && !IsSpace(s[|s| - 1]))
    ensures Trim(s) == s
  {
  }

  /** Trailing whitespace after a string that ends in a non-space character
      is all that `trim` removes. */
  lemma {:induction false} TrimTrailingSpaces(s: string, w: string)
    requires s != [] && !IsSpace(s[0]) && !IsSpace(s[|s| - 1])
    requires forall k :: 0 <= k < |w| ==> IsSpace(w[k])
    ensures Trim(s + w) == s
    decreases |w|
  {
    assert TrimStart(s + w) == s + w;
    if w != [] {
      assert (s + w)[..|s + w| - 1] == s + w[..|w| - 1];
      TrimTrailingSpaces(s, w[..|w| - 1]);
    }
  }

  /** `s.replace(/\s+/g, ' ')`: every maximal run of whitespace becomes one
      space. */
  function CollapseSpaces(s: string): (r: string)
    ensures |r| <= |s|
    ensures r == [] <==> s == []
    ensures r != [] ==> r[0] == if IsSpace(s[0]) then ' ' else s[0]
    ensures forall k :: 0 <= k < |r| && IsSpace(r[k]) ==> r[k] == ' '
    decreases |s|
  {
    if s == [] then []
    else if IsSpace(s[0]) then " " + CollapseSpaces(TrimStart(s))
    else [s[0]] + CollapseSpaces(s[1..])
  }

  /** No two adjacent characters of a collapsed string are both whitespace. */
  lemma {:induction false} CollapseHasNoDoubleSpace(s: string)
    ensures var r := CollapseSpaces(s);
      forall k :: 0 <= k < |r| - 1 ==> !(IsSpace(r[k]) && IsSpace(r[k + 1]))
    decreases |s|
  {
    if s != [] {
      if IsSpace(s[0]) {
        var t := TrimStart(s);
        CollapseHasNoDoubleSpace(t);
        assert CollapseSpaces(s) == " " + CollapseSpaces(t);
      } else {
        CollapseHasNoDoubleSpace(s[1..]);
        assert CollapseSpaces(s) == [s[0]] + CollapseSpaces(s[1..]);
      }
    }
  }

  /** A prefix without `c` adds nothing to the count of `c`. */
  lemma CountWithout(a: string, b: string, c: char)
    requires c !in a
    ensures multiset(a + b)[c] == multiset(b)[c]
  {
    assert multiset(a + b) == multiset(a) + multiset(b);
  }

  /** `trim` keeps every character that is not whitespace. */
  lemma TrimKeeps(s: string, c: char)
    requires !IsSpace(c)
    ensures multiset(Trim(s))[c] == multiset(s)[c]
  {
    var i, n := |s| - |TrimStart(s)|, |Trim(s)|;
    assert multiset(s[i..i + n])[c] == multiset(s)[c] by {
      TrimDropsSpaces(s);
      KeepsBetween(s, i, n, c, IsSpace);
    }
  }

  /** Dropping from both ends of `s` only characters of a class that `c`
      is not in keeps the count of `c`. */
  lemma KeepsBetween(s: string, i: nat, n: nat, c: char, dropped: char -> bool)
    requires i + n <= |s|
    requires forall k :: 0 <= k < i ==> dropped(s[k])
    requires forall k :: i + n <= k < |s| ==> dropped(s[k])
    requires !dropped(c)
    ensures multiset(s[i..i + n])[c] == multiset(s)[c]
  {
    var pre, mid, post := s[..i], s[i..i + n], s[i + n..];
    assert c !in pre by {
      assert forall k :: 0 <= k < |pre| ==> pre[k] == s[k];
    }
    assert c !in post by {
      assert forall k :: 0 <= k < |post| ==> post[k] == s[i + n + k];
    }
    assert s == pre + mid + post;
    assert multiset(s) == multiset(pre) + multiset(mid) + multiset(post);
  }

  /** The collapse keeps every character that is not whitespace. */
  lemma {:induction false} CollapseSpacesKeeps(s: string, c: char)
    requires !IsSpace(c)
    ensures multiset(CollapseSpaces(s))[c] == multiset(s)[c]
    decreases |s|
  {
    if s != [] {
      if IsSpace(s[0]) {
        var t := TrimStart(s);
        CollapseSpacesKeeps(t, c);
        TrimStartDropsSpaces(s);
        KeepsAfterSpaces(s, t, CollapseSpaces(t), c);
      } else {
        CollapseSpacesKeeps(s[1..], c);
        KeepsAfterHead(s, CollapseSpaces(s[1..]), c);
      }
    }
  }

  /** One space in place of the leading whitespace keeps the count of a
      character that is not whitespace. */
  lemma KeepsAfterSpaces(s: string, t: string, u: string, c: char)
    requires !IsSpace(c)
    requires |t| <= |s| && t == s[|s| - |t|..]
    requires forall k :: 0 <= k < |s| - |t| ==> IsSpace(s[k])
    requires multiset(u)[c] == multiset(t)[c]
    ensures multiset(" " + u)[c] == multiset(s)[c]
  {
    KeepsBetween(s, |s| - |t|, |t|, c, IsSpace);
    assert s[|s| - |t|..|s|] == t;
    CountWithout(" ", u, c);
  }

  /** Keeping the first character and the count of the rest keeps the
      count of the whole. */
  lemma KeepsAfterHead(s: string, u: string, c: char)
    requires s != [] && multiset(u)[c] == multiset(s[1..])[c]
    ensures multiset([s[0]] + u)[c] == multiset(s)[c]
  {
    assert s == [s[0]] + s[1..];
    assert multiset([s[0]] + u) == multiset([s[0]]) + multiset(u);
    assert multiset(s) == multiset([s[0]]) + multiset(s[1..]);
  }

  /** `s.replace(/^\(|\)$/g, '')`: a leading `(` and a trailing `)` are
      removed independently of each other; a lone `(` or `)` vanishes. */
  function StripOuterParens(s: string): (r: string)
    ensures |r| <= |s|
    ensures r == s[..|r|] || (1 + |r| <= |s| && r == s[1..1 + |r|])
  {
    var a := if s != [] && s[0] == '(' then s[1..] else s;
    if a != [] && a[|a| - 1] == ')' then a[..|a| - 1] else a
  }

  /** What the strip leaves, case by case: the first character goes exactly
      when it is `(`, the last exactly when it is a `)` still there after
      that, and nothing else changes. */
  lemma StripOuterParensCases(s: string)
    ensures s == [] ==> StripOuterParens(s) == []
    ensures |s| >= 2 && s[0] == '(' && s[|s| - 1] == ')' ==> StripOuterParens(s) == s[1..|s| - 1]
    ensures s != [] && s[0] == '(' && s[|s| - 1] != ')' ==> StripOuterParens(s) == s[1..]
    ensures s != [] && s[0] != '(' && s[|s| - 1] == ')' ==> StripOuterParens(s) == s[..|s| - 1]
    ensures s != [] && s[0] != '(' && s[|s| - 1] != ')' ==> StripOuterParens(s) == s
  {
  }

  /** `trim` keeps only characters of its input. */
  lemma TrimWithin(s: string)
    ensures multiset(Trim(s)) <= multiset(s)
  {
    var i := |s| - |TrimStart(s)|;
    SliceMultiset(s, i, i + |Trim(s)|);
  }

  /** The strip keeps only characters of its input. */
  lemma StripOuterParensWithin(s: string)
    ensures multiset(StripOuterParens(s)) <= multiset(s)
  {
    var r := StripOuterParens(s);
    if r == s[..|r|] { SliceMultiset(s, 0, |r|); } else { SliceMultiset(s, 1, 1 + |r|); }
  }

  /** Stripping the outer parentheses keeps every other character. */
  lemma StripOuterParensKeeps(s: string, c: char)
    requires c != '(' && c != ')'
    ensures multiset(StripOuterParens(s))[c] == multiset(s)[c]
  {
    var a := if s != [] && s[0] == '(' then s[1..] else s;
    if s != [] && s[0] == '(' { assert s == [s[0]] + a; }
    if a != [] && a[|a| - 1] == ')' { assert a == a[..|a| - 1] + [a[|a| - 1]]; }
  }

  /** Stripping a parenthesised string gives back what is between the
      parentheses. */
  lemma StripParenthesised(m: string)
    ensures StripOuterParens("(" + m + ")") == m
  {
    var s := "(" + m + ")";
    assert s[1..] == m + ")";
    assert (m + ")")[..|m|] == m;
  }

  /** `String(n)` for a natural number: its decimal digits. */
  function DecimalString(n: nat): (r: string)
    ensures r != []
    ensures forall k :: 0 <= k < |r| ==> '0' <= r[k] <= '9'
  {
    var d := ['0' + (n % 10) as char];
    if n < 10 then d else DecimalString(n / 10) + d
  }

  /** The number a string of decimal digits denotes. */
  function DigitsValue(r: string): nat
    requires forall k :: 0 <= k < |r| ==> '0' <= r[k] <= '9'
  {
    if r == [] then 0 else 10 * DigitsValue(r[..|r| - 1]) + (r[|r| - 1] as int - '0' as int)
  }

  /** The digits of `String(n)` denote `n`. */
  lemma {:induction false} DecimalStringValue(n: nat)
    ensures DigitsValue(DecimalString(n)) == n
  {
    var d := ['0' + (n % 10) as char];
    if n >= 10 {
      DecimalStringValue(n / 10);
      var r := DecimalString(n);
      assert r == DecimalString(n / 10) + d;
      assert r[..|r| - 1] == DecimalString(n / 10);
    }
  }

  /** Different counters give different suffixes. */
  lemma DecimalStringInjective(m: nat, n: nat)
    requires DecimalString(m) == DecimalString(n)
    ensures m == n
  {
    DecimalStringValue(m);
    DecimalStringValue(n);
  }
}
