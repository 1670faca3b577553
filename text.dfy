/**
 * The .NET string operations the name-sorting core relies on, written out:
 * `char.IsWhiteSpace`, `string.IsNullOrWhiteSpace`, `Trim`, `Split(' ')` with
 * `RemoveEmptyEntries`, `string.Join(" ", …)` and ordinal string comparison.
 */
module Text {

  /** `char.IsWhiteSpace`: the Unicode space, line and paragraph separators
      together with U+0009..U+000D, U+0085 and U+00A0. */
  predicate IsWhite(c: char) {
    var n := c as int;
    || (0x09 <= n <= 0x0D) || n == 0x20 || n == 0x85 || n == 0xA0 || n == 0x1680
    || (0x2000 <= n <= 0x200A) || n == 0x2028 || n == 0x2029
    || n == 0x202F || n == 0x205F || n == 0x3000
  }

  /** Spaces, tabs and line breaks are white; the letters, digits, hyphens and
      apostrophes that names are made of are not. */
  lemma WhiteAndNameCharacters(c: char)
    ensures c == ' ' || c == '\t' || c == '\n' || c == '\r' ==> IsWhite(c)
    ensures 'a' <= c <= 'z' || 'A' <= c <= 'Z' || '0' <= c <= '9' || c == '-' || c == '\'' ==> !IsWhite(c)
  {
  }

  /** `string.IsNullOrWhiteSpace` on a string that is not null. */
  predicate AllWhite(s: string) {
    forall i | 0 <= i < |s| :: IsWhite(s[i])
  }

  /** `s[i..j]` is what remains of `s` once a white prefix and a white suffix are cut off. */
  predicate TrimmedAt(s: string, i: int, j: int) {
    0 <= i <= j <= |s| && AllWhite(s[..i]) && AllWhite(s[j..])
  }

  /** `string.TrimStart()`. */
  function TrimStart(s: string): string
    decreases |s|
  {
    if s != [] && IsWhite(s[0]) then TrimStart(s[1..]) else s
  }

  /** `string.TrimEnd()`. */
  function TrimEnd(s: string): string
    decreases |s|
  {
    if s != [] && IsWhite(s[|s| - 1]) then TrimEnd(s[..|s| - 1]) else s
  }

  /** `TrimStart` cuts a white prefix and stops at the first character that is not white. */
  lemma {:induction false} TrimStartCutsWhitePrefix(s: string)
    ensures var r := TrimStart(s);
      && |r| <= |s| && r == s[|s| - |r|..]
      && AllWhite(s[..|s| - |r|])
      && (r == [] || !IsWhite(r[0]))
    decreases |s|
  {
    if s != [] && IsWhite(s[0]) {
      TrimStartCutsWhitePrefix(s[1..]);
      var r := TrimStart(s[1..]);
      assert s[..|s| - |r|] == [s[0]] + s[1..][..|s| - 1 - |r|];
    }
  }

  /** `TrimEnd` cuts a white suffix and stops at the last character that is not white. */
  lemma {:induction false} TrimEndCutsWhiteSuffix(s: string)
    ensures var r := TrimEnd(s);
      && |r| <= |s| && r == s[..|r|]
      && AllWhite(s[|r|..])
      && (r == [] || !IsWhite(r[|r| - 1]))
    decreases |s|
  {
    if s != [] && IsWhite(s[|s| - 1]) {
      TrimEndCutsWhiteSuffix(s[..|s| - 1]);
      var r := TrimEnd(s[..|s| - 1]);
      assert s[|r|..] == s[..|s| - 1][|r|..] + [s[|s| - 1]];
    }
  }

  /** `string.Trim()`: cuts every leading and every trailing white character. */
  function Trim(s: string): (r: string)
    ensures exists i, j :: TrimmedAt(s, i, j) && r == s[i..j]
    ensures r == [] <==> AllWhite(s)
    ensures r != [] ==> !IsWhite(r[0]) && !IsWhite(r[|r| - 1])
  {
    TrimSlice(s);
    TrimEmpty(s);
    TrimEdges(s);
    TrimEnd(TrimStart(s))
  }

  lemma TrimSlice(s: string)
    ensures var r := TrimEnd(TrimStart(s));
      exists i, j :: TrimmedAt(s, i, j) && r == s[i..j]
  {
    var t := TrimStart(s);
    var r := TrimEnd(t);
    var i := |s| - |t|;
    TrimStartCutsWhitePrefix(s);
    TrimEndCutsWhiteSuffix(t);
    assert r == s[i..i + |r|] by {
      assert t == s[i..];
    }
    assert TrimmedAt(s, i, i + |r|) by {
      assert s[i + |r|..] == t[|r|..];
    }
  }

  lemma TrimEmpty(s: string)
    ensures TrimEnd(TrimStart(s)) == [] <==> AllWhite(s)
  {
    var t := TrimStart(s);
    var r := TrimEnd(t);
    var i := |s| - |t|;
    TrimStartCutsWhitePrefix(s);
    TrimEndCutsWhiteSuffix(t);
    if r == [] {
      assert t[|r|..] == t;
      AllWhiteConcat(s[..i], t);
      assert s == s[..i] + t;
    } else {
      assert r[0] == t[0] == s[i];
    }
  }

  lemma TrimEdges(s: string)
    ensures var r := TrimEnd(TrimStart(s));
      r != [] ==> !IsWhite(r[0]) && !IsWhite(r[|r| - 1])
  {
    TrimStartCutsWhitePrefix(s);
    TrimEndCutsWhiteSuffix(TrimStart(s));
  }

  lemma AllWhiteConcat(a: string, b: string)
    requires AllWhite(a) && AllWhite(b)
    ensures AllWhite(a + b)
  {
    forall k | 0 <= k < |a + b|
      ensures IsWhite((a + b)[k])
    {
      if k < |a| {
        assert (a + b)[k] == a[k];
      } else {
        assert (a + b)[k] == b[k - |a|];
      }
    }
  }

  lemma TrimUnchanged(s: string)
    requires s == [] || (!IsWhite(s[0]) && !IsWhite(s[|s| - 1]))
    ensures Trim(s) == s
  {
  }

  /** Trimming ignores one extra leading space. */
  lemma TrimLeadingSpace(s: string)
    ensures Trim(" " + s) == Trim(s)
  {
    assert (" " + s)[1..] == s;
  }

  /** No character of `s` is the space `' '` itself. */
  predicate NoSpace(s: string) {
    forall i | 0 <= i < |s| :: s[i] != ' '
  }

  /** A piece that `Split` with `RemoveEmptyEntries` can produce. */
  predicate IsWord(t: string) {
    t != [] && NoSpace(t)
  }

  function Last<T>(s: seq<T>): T
    requires s != []
  {
    s[|s| - 1]
  }

  /** The length of the run of non-space characters that `s` starts with. */
  function TokenEnd(s: string): (n: nat)
    ensures n <= |s| && NoSpace(s[..n]) && (n == |s| || s[n] == ' ')
  {
    if s == [] || s[0] == ' ' then 0
    else
      var m := TokenEnd(s[1..]);
      assert s[..m + 1] == [s[0]] + s[1..][..m];
      m + 1
  }

  /** `s.Split(new[] { ' ' }, StringSplitOptions.RemoveEmptyEntries)`: the maximal
      runs of characters other than `' '`, in order. Only `' '` separates: a tab
      or any other white character stays inside a piece. */
  function SplitOnSpace(s: string): (ws: seq<string>)
    ensures forall k | 0 <= k < |ws| :: IsWord(ws[k])
    decreases |s|
  {
    if s == [] then []
    else if s[0] == ' ' then SplitOnSpace(s[1..])
    else
      var n := TokenEnd(s);
      [s[..n]] + SplitOnSpace(s[n..])
  }

  /** `s.Split(' ')` without options: every piece between two spaces, empty pieces included. */
  function SplitEvery(s: string): (ps: seq<string>)
    decreases |s|
  {
    var n := TokenEnd(s);
    if n == |s| then [s] else [s[..n]] + SplitEvery(s[n + 1..])
  }

  /** What `StringSplitOptions.RemoveEmptyEntries` does to the pieces. */
  function RemoveEmpty(ps: seq<string>): (qs: seq<string>)
  {
    if ps == [] then []
    else (if ps[0] == [] then [] else [ps[0]]) + RemoveEmpty(ps[1..])
  }

  /** `SplitOnSpace` is the plain split with the empty pieces dropped. */
  lemma {:induction false} SplitOnSpaceIsSplitWithoutEmpties(s: string)
    ensures SplitOnSpace(s) == RemoveEmpty(SplitEvery(s))
    decreases |s|
  {
    var n := TokenEnd(s);
    if s == [] {
    } else if n == |s| {
      assert s[0] != ' ' && s[..n] == s && s[n..] == [];
      assert SplitOnSpace(s) == [s];
    } else {
      SplitOnSpaceIsSplitWithoutEmpties(s[n + 1..]);
      var rest := SplitEvery(s[n + 1..]);
      assert SplitEvery(s) == [s[..n]] + rest;
      assert RemoveEmpty(SplitEvery(s)) == (if s[..n] == [] then [] else [s[..n]]) + RemoveEmpty(rest);
      if s[0] == ' ' {
        assert n == 0 && s[1..] == s[n + 1..];
      } else {
        assert s[n..][1..] == s[n + 1..];
        assert SplitOnSpace(s[n..]) == SplitOnSpace(s[n + 1..]);
      }
    }
  }

  /** `string.Join(" ", ts)`. */
  function Join(ts: seq<string>): (r: string)
  {
    if |ts| == 0 then ""
    else if |ts| == 1 then ts[0]
    else ts[0] + " " + Join(ts[1..])
  }

  lemma {:induction false} JoinSnoc(ts: seq<string>, t: string)
    requires |ts| >= 1
    ensures Join(ts + [t]) == Join(ts) + " " + t
    decreases |ts|
  {
    if |ts| > 1 {
      assert (ts + [t])[1..] == ts[1..] + [t];
      JoinSnoc(ts[1..], t);
    }
  }

  lemma {:induction false} JoinBoundaries(ts: seq<string>)
    requires |ts| >= 1 && forall k | 0 <= k < |ts| :: ts[k] != []
    ensures |Join(ts)| > 0 && Join(ts)[0] == ts[0][0]
    ensures Join(ts)[|Join(ts)| - 1] == ts[|ts| - 1][|ts[|ts| - 1]| - 1]
    decreases |ts|
  {
    if |ts| > 1 {
      if |ts| > 2 {
        JoinBoundaries(ts[1..]);
      }
    }
  }

  lemma {:induction false} TokenEndOfWord(t: string, rest: string)
    requires IsWord(t) && (rest == [] || rest[0] == ' ')
    ensures TokenEnd(t + rest) == |t|
    decreases |t|
  {
    assert (t + rest)[1..] == t[1..] + rest;
    if |t| > 1 {
      TokenEndOfWord(t[1..], rest);
    }
  }

  /** A string without `' '` splits into at most one piece: two parts need a space between them. */
  lemma SplitOnSpaceWithoutSpace(s: string)
    requires ' ' !in s
    ensures |SplitOnSpace(s)| <= 1
  {
    if s != [] {
      var n := TokenEnd(s);
      assert s[n..] == [];
    }
  }

  /** Splitting words joined by single spaces gives the words back. */
  lemma {:induction false} SplitOnSpaceOfJoin(ts: seq<string>)
    requires forall k | 0 <= k < |ts| :: IsWord(ts[k])
    ensures SplitOnSpace(Join(ts)) == ts
    decreases |ts|
  {
    if |ts| == 1 {
      TokenEndOfWord(ts[0], "");
      assert ts[0] + "" == ts[0];
      assert ts[0][..|ts[0]|] == ts[0] && ts[0][|ts[0]|..] == [];
    } else if |ts| > 1 {
      var t, rest := ts[0], " " + Join(ts[1..]);
      assert Join(ts) == t + rest;
      TokenEndOfWord(t, rest);
      assert (t + rest)[..|t|] == t && (t + rest)[|t|..] == rest;
      assert rest[1..] == Join(ts[1..]);
      SplitOnSpaceOfJoin(ts[1..]);
    }
  }

  lemma {:induction false} SplitOnSpaceLast(s: string)
    requires s != [] && s[|s| - 1] != ' '
    ensures SplitOnSpace(s) != [] && Last(Last(SplitOnSpace(s))) == s[|s| - 1]
    decreases |s|
  {
    if s[0] == ' ' {
      SplitOnSpaceLast(s[1..]);
    } else {
      var n := TokenEnd(s);
      if n < |s| {
        SplitOnSpaceLast(s[n..]);
      } else {
        assert s[n..] == [];
      }
    }
  }

  lemma {:induction false} TrimStartWhitePrefix(a: string, x: string)
    requires AllWhite(a)
    ensures TrimStart(a + x) == TrimStart(x)
    decreases |a|
  {
    if a == [] {
      assert a + x == x;
    } else {
      assert (a + x)[0] == a[0] && (a + x)[1..] == a[1..] + x;
      TrimStartWhitePrefix(a[1..], x);
    }
  }

  lemma {:induction false} TrimEndWhiteSuffix(x: string, b: string)
    requires AllWhite(b)
    ensures TrimEnd(x + b) == TrimEnd(x)
    decreases |b|
  {
    if b == [] {
      assert x + b == x;
    } else {
      var b' := b[..|b| - 1];
      assert (x + b)[|x + b| - 1] == b[|b| - 1] && (x + b)[..|x + b| - 1] == x + b';
      TrimEndWhiteSuffix(x, b');
    }
  }

  /** Trimming cuts exactly the white padding around a core that starts and ends
      with a character that is not white. */
  lemma TrimPadded(a: string, c: string, b: string)
    requires AllWhite(a) && AllWhite(b)
    requires c != [] && !IsWhite(c[0]) && !IsWhite(c[|c| - 1])
    ensures Trim(a + c + b) == c
  {
    assert a + c + b == a + (c + b);
    TrimStartWhitePrefix(a, c + b);
    assert TrimStart(c + b) == c + b;
    TrimEndWhiteSuffix(c, b);
  }

  /** A run of spaces in front of a string adds no part. */
  lemma {:induction false} SplitOnSpaceSkipsSpaces(sp: string, x: string)
    requires forall i | 0 <= i < |sp| :: sp[i] == ' '
    ensures SplitOnSpace(sp + x) == SplitOnSpace(x)
    decreases |sp|
  {
    if sp == [] {
      assert sp + x == x;
    } else {
      assert (sp + x)[0] == ' ' && (sp + x)[1..] == sp[1..] + x;
      SplitOnSpaceSkipsSpaces(sp[1..], x);
    }
  }

  /** A word followed by a space or by nothing is split off as one part. */
  lemma SplitOnSpaceWordFirst(w: string, x: string)
    requires IsWord(w) && (x == [] || x[0] == ' ')
    ensures SplitOnSpace(w + x) == [w] + SplitOnSpace(x)
  {
    TokenEndOfWord(w, x);
    assert (w + x)[..|w|] == w && (w + x)[|w|..] == x;
  }

  /** Two words with a run of spaces between them split into those two words. */
  lemma SplitOnSpaceOfSpacedWords(a: string, sp: string, b: string)
    requires IsWord(a) && IsWord(b) && forall i | 0 <= i < |sp| :: sp[i] == ' '
    requires sp != []
    ensures SplitOnSpace(a + sp + b) == [a, b]
  {
    assert a + sp + b == a + (sp + b);
    SplitOnSpaceWordFirst(a, sp + b);
    SplitOnSpaceSkipsSpaces(sp, b);
    SplitOnSpaceWordFirst(b, "");
    assert b + "" == b;
  }

  /** A word followed by a run of spaces is split off, whatever comes after. */
  lemma SplitOnSpaceWordThenSpaces(a: string, sp: string, rest: string)
    requires IsWord(a) && sp != [] && forall i | 0 <= i < |sp| :: sp[i] == ' '
    ensures SplitOnSpace(a + sp + rest) == [a] + SplitOnSpace(rest)
  {
    assert a + sp + rest == a + (sp + rest);
    SplitOnSpaceWordFirst(a, sp + rest);
    SplitOnSpaceSkipsSpaces(sp, rest);
  }

  /** `name.Trim().Split(new[] { ' ' }, StringSplitOptions.RemoveEmptyEntries)`:
      the name parts that both the validator and the parser work on. */
  function Tokens(s: string): (ws: seq<string>)
    ensures ws == [] <==> AllWhite(s)
    ensures forall k | 0 <= k < |ws| :: IsWord(ws[k])
  {
    var t := Trim(s);
    assert t != [] ==> t[0] != ' ';
    SplitOnSpace(t)
  }

  /** The first and the last part of a name start and end with a character that is not white. */
  lemma TokensBoundaries(s: string)
    requires Tokens(s) != []
    ensures !IsWhite(Tokens(s)[0][0]) && !IsWhite(Last(Last(Tokens(s))))
  {
    var t := Trim(s);
    SplitOnSpaceLast(t);
  }

  /** Words joined by single spaces, with no white character at either end,
      split back into the same parts. */
  lemma TokensOfJoin(ts: seq<string>)
    requires forall k | 0 <= k < |ts| :: IsWord(ts[k])
    requires ts != [] ==> ts[0] != [] && !IsWhite(ts[0][0])
    requires ts != [] ==> Last(ts) != [] && !IsWhite(Last(Last(ts)))
    ensures Tokens(Join(ts)) == ts
  {
    if ts != [] {
      JoinBoundaries(ts);
    }
    TrimUnchanged(Join(ts));
    SplitOnSpaceOfJoin(ts);
  }

  /** The name with outer white cut and inner runs of spaces collapsed to one space. */
  function Normalize(s: string): string
  {
    Join(Tokens(s))
  }

  /** Normalizing keeps the parts: validator and parser see the same parts in
      `s` and in `Normalize(s)`. */
  lemma NormalizeKeepsTokens(s: string)
    ensures Tokens(Normalize(s)) == Tokens(s)
  {
    if Tokens(s) != [] {
      TokensBoundaries(s);
    }
    TokensOfJoin(Tokens(s));
  }

  /** Ordinal comparison, `string.CompareOrdinal(a, b) <= 0`: the first differing
      character decides, and a proper prefix comes first. */
  predicate LexLe(a: string, b: string): (le: bool)
    ensures a <= b ==> le
    ensures le && a != [] ==> b != [] && a[0] <= b[0]
  {
    a == [] || (b != [] && (a[0] < b[0] || (a[0] == b[0] && LexLe(a[1..], b[1..]))))
  }

  lemma {:induction false} LexLeReflexive(a: string)
    ensures LexLe(a, a)
    decreases |a|
  {
    if a != [] {
      LexLeReflexive(a[1..]);
    }
  }

  lemma {:induction false} LexLeTotal(a: string, b: string)
    ensures LexLe(a, b) || LexLe(b, a)
    decreases |a|
  {
    if a != [] && b != [] && a[0] == b[0] {
      LexLeTotal(a[1..], b[1..]);
    }
  }

  lemma {:induction false} LexLeTransitive(a: string, b: string, c: string)
    requires LexLe(a, b) && LexLe(b, c)
    ensures LexLe(a, c)
    decreases |a|
  {
    if a != [] && a[0] == b[0] && b[0] == c[0] {
      LexLeTransitive(a[1..], b[1..], c[1..]);
    }
  }

  /** `a` differs from `b` first at index `k`, where `a` has the smaller character. */
  predicate FirstDifferenceBelow(a: string, b: string, k: int) {
    0 <= k < |a| && k < |b| && a[..k] == b[..k] && a[k] < b[k]
  }

  /** The order is the textbook ordinal one: `a` comes first iff it is a prefix of
      `b`, or at the first index where they differ `a` has the smaller character. */
  lemma {:induction false} LexLeAtFirstDifference(a: string, b: string)
    ensures LexLe(a, b) <==> (a <= b || exists k :: FirstDifferenceBelow(a, b, k))
    decreases |a|
  {
    if a == [] || b == [] {
    } else if a[0] < b[0] {
      assert FirstDifferenceBelow(a, b, 0);
    } else if a[0] > b[0] {
      assert !exists k :: FirstDifferenceBelow(a, b, k);
    } else {
      LexLeAtFirstDifference(a[1..], b[1..]);
      assert a == [a[0]] + a[1..] && b == [b[0]] + b[1..];
      assert a <= b <==> a[1..] <= b[1..];
      if exists k :: FirstDifferenceBelow(a[1..], b[1..], k) {
        var k :| FirstDifferenceBelow(a[1..], b[1..], k);
        assert a[..k + 1] == [a[0]] + a[1..][..k];
        assert b[..k + 1] == [b[0]] + b[1..][..k];
        assert FirstDifferenceBelow(a, b, k + 1);
      }
      if exists k :: FirstDifferenceBelow(a, b, k) {
        var k :| FirstDifferenceBelow(a, b, k);
        assert k > 0;
        assert a[1..][..k - 1] == a[..k][1..] && b[1..][..k - 1] == b[..k][1..];
        assert FirstDifferenceBelow(a[1..], b[1..], k - 1);
      }
    }
  }

  lemma {:induction false} LexLeAntisymmetric(a: string, b: string)
    requires LexLe(a, b) && LexLe(b, a)
    ensures a == b
    decreases |a|
  {
    if a != [] {
      LexLeAntisymmetric(a[1..], b[1..]);
      assert a == [a[0]] + a[1..] && b == [b[0]] + b[1..];
    }
  }
}
