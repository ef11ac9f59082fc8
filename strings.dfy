/** The .NET string operations the extractor relies on: `Char.IsWhiteSpace`, `Trim`,
    `Split` with `StringSplitOptions.RemoveEmptyEntries`, `String.Join`, and an ordinal
    ordering of strings. */
module Strings {
  import opened Seqs

  /** `Char.IsWhiteSpace`: U+0009..U+000D, U+0085, and the Unicode space, line and
      paragraph separators. */
  predicate IsWhiteSpace(c: char) {
    c == ' ' || '\t' <= c <= '\r' || c == '\U{85}' || c == '\U{A0}' || c == '\U{1680}'
    || '\U{2000}' <= c <= '\U{200A}' || c == '\U{2028}' || c == '\U{2029}'
    || c == '\U{202F}' || c == '\U{205F}' || c == '\U{3000}'
  }

  /** `String.IsNullOrWhiteSpace` on a non-null string. */
  predicate IsBlank(s: string) {
    forall i :: 0 <= i < |s| ==> IsWhiteSpace(s[i])
  }

  /** Two blank strings make a blank string. */
  lemma BlankConcat(a: string, b: string)
    requires IsBlank(a) && IsBlank(b)
    ensures IsBlank(a + b)
  {
    forall i | 0 <= i < |a + b| ensures IsWhiteSpace((a + b)[i]) {
      if i < |a| {
        assert (a + b)[i] == a[i];
      } else {
        assert (a + b)[i] == b[i - |a|];
      }
    }
  }

  /** No character of `s` is in `chars`. */
  predicate NoneOf(s: string, chars: set<char>) {
    forall i :: 0 <= i < |s| ==> s[i] !in chars
  }

  function TrimStart(s: string): (r: string)
    ensures |r| <= |s| && r == s[|s| - |r|..]
    ensures IsBlank(s[..|s| - |r|])
    ensures r != [] ==> !IsWhiteSpace(r[0])
  {
    LeadingBlanksSpec(s);
    s[LeadingBlanks(s)..]
  }

  /** The number of white-space characters at the front of `s`. */
  function LeadingBlanks(s: string): (k: nat)
    ensures k <= |s|
  {
    if s != [] && IsWhiteSpace(s[0]) then 1 + LeadingBlanks(s[1..]) else 0
  }

  /** The leading blanks are white space, and the character after them is not. */
  lemma {:induction false} LeadingBlanksSpec(s: string)
    ensures IsBlank(s[..LeadingBlanks(s)])
    ensures LeadingBlanks(s) < |s| ==> !IsWhiteSpace(s[LeadingBlanks(s)])
  {
    if s != [] && IsWhiteSpace(s[0]) {
      var k := LeadingBlanks(s[1..]);
      LeadingBlanksSpec(s[1..]);
      assert s[..k + 1] == [s[0]] + s[1..][..k];
      BlankConcat([s[0]], s[1..][..k]);
      assert k < |s[1..]| ==> s[1..][k] == s[k + 1];
    }
  }

  function TrimEnd(s: string): (r: string)
    ensures |r| <= |s| && r == s[..|r|]
    ensures IsBlank(s[|r|..])
    ensures r != [] ==> !IsWhiteSpace(r[|r| - 1])
  {
    if s != [] && IsWhiteSpace(s[|s| - 1]) then
      var r := TrimEnd(s[..|s| - 1]);
      assert s[|r|..] == s[..|s| - 1][|r|..] + [s[|s| - 1]];
      BlankConcat(s[..|s| - 1][|r|..], [s[|s| - 1]]);
      r
    else s
  }

  /** White space only ever leaves the front. */
  lemma {:induction false} TrimStartKeeps(s: string)
    ensures forall c :: c in TrimStart(s) ==> c in s
    ensures forall c :: c in s && !IsWhiteSpace(c) ==> c in TrimStart(s)
  {
    var t := TrimStart(s);
    var i := |s| - |t|;
    forall c | c in t ensures c in s {
      var k :| 0 <= k < |t| && t[k] == c;
      assert s[i + k] == c;
    }
    forall c | c in s && !IsWhiteSpace(c) ensures c in t {
      var k :| 0 <= k < |s| && s[k] == c;
      BlankPrefixBefore(s, i, k);
      assert t[k - i] == c;
    }
  }

  /** A character that is not white space lies after any blank prefix. */
  lemma BlankPrefixBefore(s: string, i: nat, k: nat)
    requires i <= |s| && IsBlank(s[..i]) && k < |s| && !IsWhiteSpace(s[k])
    ensures i <= k
  {
    var prefix := s[..i];
    assert forall j :: 0 <= j < |prefix| ==> prefix[j] == s[j];
  }

  /** White space only ever leaves the back. */
  lemma {:induction false} TrimEndKeeps(s: string)
    ensures forall c :: c in TrimEnd(s) ==> c in s
    ensures forall c :: c in s && !IsWhiteSpace(c) ==> c in TrimEnd(s)
  {
    var t := TrimEnd(s);
    forall c | c in t ensures c in s {
      var k :| 0 <= k < |t| && t[k] == c;
      assert s[k] == c;
    }
    forall c | c in s && !IsWhiteSpace(c) ensures c in t {
      var k :| 0 <= k < |s| && s[k] == c;
      assert k < |t|;
      assert t[k] == c;
    }
  }

  /** Cutting white space from both ends leaves nothing exactly when `s` is blank. */
  lemma TrimEmptyIffBlank(s: string)
    ensures TrimEnd(TrimStart(s)) == [] <==> IsBlank(s)
  {
    var t := TrimStart(s);
    assert TrimEnd(t) == [] <==> t == [] by {
      assert t != [] ==> t[0..] == t;
    }
    assert t == [] ==> s[..|s|] == s;
  }

  /** `String.Trim()`: `s` with the white space cut from both ends. */
  function Trim(s: string): (r: string)
    ensures |r| <= |s|
  {
    TrimEnd(TrimStart(s))
  }

  /** What `Trim` promises: the result is an infix of `s` reached by cutting only white space,
      it neither starts nor ends with white space, and it is empty exactly when `s` is blank. */
  lemma TrimSpec(s: string)
    ensures var r := Trim(s);
      && (exists i :: CutFrom(r, s, i))
      && (r != [] ==> !IsWhiteSpace(r[0]) && !IsWhiteSpace(r[|r| - 1]))
      && (r == [] <==> IsBlank(s))
  {
    TrimInfix(s);
    TrimEnds(s);
  }

  /** `r` is `s[i..i + |r|]`, and only white space lies outside it. */
  predicate CutFrom(r: string, s: string, i: int) {
    0 <= i <= |s| - |r| && r == s[i..i + |r|] && IsBlank(s[..i]) && IsBlank(s[i + |r|..])
  }

  lemma TrimInfix(s: string)
    ensures exists i :: CutFrom(Trim(s), s, i)
  {
    var t := TrimStart(s);
    var r := TrimEnd(t);
    var i := |s| - |t|;
    assert t == s[i..];
    assert r == s[i..i + |r|];
    assert s[i + |r|..] == t[|r|..];
    assert CutFrom(r, s, i);
    assert Trim(s) == r;
  }

  lemma TrimEnds(s: string)
    ensures var r := Trim(s);
      && (r != [] ==> !IsWhiteSpace(r[0]) && !IsWhiteSpace(r[|r| - 1]))
      && (r == [] <==> IsBlank(s))
  {
    var t := TrimStart(s);
    var r := TrimEnd(t);
    TrimEmptyIffBlank(s);
    if r != [] {
      assert r[0] == t[0];
    }
  }

  /** Trimming keeps the characters that are not white space and adds none. */
  lemma TrimChars(s: string)
    ensures forall c :: c in Trim(s) ==> c in s
    ensures forall c :: c in s && !IsWhiteSpace(c) ==> c in Trim(s)
  {
    TrimStartKeeps(s);
    TrimEndKeeps(TrimStart(s));
  }

  /** Index of the first character of `s` that is in `seps`, or |s| when there is none. */
  function IndexOfAny(s: string, seps: set<char>): (k: nat)
    ensures k <= |s|
  {
    if s == [] || s[0] in seps then 0 else 1 + IndexOfAny(s[1..], seps)
  }

  /** `IndexOfAny` finds the first separator, or the end when there is none. */
  lemma {:induction false} IndexOfAnySpec(s: string, seps: set<char>)
    ensures NoneOf(s[..IndexOfAny(s, seps)], seps)
    ensures IndexOfAny(s, seps) < |s| ==> s[IndexOfAny(s, seps)] in seps
  {
    if s != [] && s[0] !in seps {
      IndexOfAnySpec(s[1..], seps);
      var k := IndexOfAny(s, seps);
      forall i | 0 <= i < k ensures s[i] !in seps {
        if i > 0 { assert s[i] == s[1..][..k - 1][i - 1]; }
      }
    }
  }

  /** `String.Split(separators, StringSplitOptions.RemoveEmptyEntries)` where every separator is
      a single character: the maximal runs of non-separator characters, left to right. */
  function Split(s: string, seps: set<char>): seq<string>
    decreases |s|
  {
    var k := IndexOfAny(s, seps);
    var head := if k == 0 then [] else [s[..k]];
    if k == |s| then head else head + Split(s[k + 1..], seps)
  }

  /** Every piece is non-empty and holds no separator. */
  lemma {:induction false} SplitPieces(s: string, seps: set<char>)
    ensures forall i :: 0 <= i < |Split(s, seps)| ==> Split(s, seps)[i] != [] && NoneOf(Split(s, seps)[i], seps)
    decreases |s|
  {
    var k := IndexOfAny(s, seps);
    IndexOfAnySpec(s, seps);
    if k < |s| {
      SplitPieces(s[k + 1..], seps);
    }
  }

  /** The concatenation of a sequence of strings. */
  function Concat(ss: seq<string>): string {
    if ss == [] then [] else ss[0] + Concat(ss[1..])
  }

  /** Splitting loses exactly the separator characters: gluing the pieces back together gives
      `s` with its separators removed. */
  lemma {:induction false} SplitConcat(s: string, seps: set<char>)
    ensures Concat(Split(s, seps)) == Filter(s, c => c !in seps)
    decreases |s|
  {
    var p := c => c !in seps;
    var k := IndexOfAny(s, seps);
    IndexOfAnySpec(s, seps);
    assert s[..k] + s[k..] == s;
    FilterAll(s[..k], p);
    if k < |s| {
      assert s[k..] == [s[k]] + s[k + 1..];
      FilterAppend(s[..k], s[k..], p);
      FilterAppend([s[k]], s[k + 1..], p);
      SplitConcat(s[k + 1..], seps);
      var rest := Split(s[k + 1..], seps);
      if k == 0 {
        assert Split(s, seps) == rest;
      } else {
        assert Split(s, seps) == [s[..k]] + rest;
        assert ([s[..k]] + rest)[1..] == rest;
      }
    } else {
      assert s[..k] == s;
      if k > 0 {
        assert Split(s, seps) == [s];
        assert [s][1..] == [];
      }
    }
  }

  /** Splitting yields no piece exactly when every character is a separator. */
  lemma {:induction false} SplitEmpty(s: string, seps: set<char>)
    ensures Split(s, seps) == [] <==> forall i :: 0 <= i < |s| ==> s[i] in seps
    decreases |s|
  {
    var k := IndexOfAny(s, seps);
    IndexOfAnySpec(s, seps);
    if k < |s| && k == 0 {
      SplitEmpty(s[1..], seps);
      assert forall i :: 1 <= i < |s| ==> s[i] == s[1..][i - 1];
    } else if k > 0 {
      assert s[..k][0] == s[0];
    }
  }

  /** A string that holds no separator and is not empty splits into itself. */
  lemma SplitNoSeparator(s: string, seps: set<char>)
    requires s != [] && NoneOf(s, seps)
    ensures Split(s, seps) == [s]
  {
    IndexOfAnySpec(s, seps);
    assert IndexOfAny(s, seps) == |s|;
    assert s[..|s|] == s;
  }

  /** `String.Join(sep, toks)`. */
  function Join(sep: string, toks: seq<string>): string {
    if toks == [] then []
    else if |toks| == 1 then toks[0]
    else toks[0] + sep + Join(sep, toks[1..])
  }

  /** Splitting at a known first separator: the piece before it, if any, then the split of
      the rest. */
  lemma SplitAt(s: string, seps: set<char>, k: nat)
    requires k < |s| && NoneOf(s[..k], seps) && s[k] in seps
    ensures Split(s, seps) == (if k == 0 then [] else [s[..k]]) + Split(s[k + 1..], seps)
  {
    IndexOfAnyPrefix(s, k, seps);
  }

  lemma {:induction false} IndexOfAnyPrefix(s: string, k: nat, seps: set<char>)
    requires k < |s| && NoneOf(s[..k], seps) && s[k] in seps
    ensures IndexOfAny(s, seps) == k
  {
    if k > 0 {
      assert s[1..][..k - 1] == s[..k][1..];
      IndexOfAnyPrefix(s[1..], k - 1, seps);
      assert s[..k][0] == s[0];
    }
  }

  /** No leading, trailing or doubled space. */
  predicate WellSpaced(s: string) {
    && (s != [] ==> s[0] != ' ' && s[|s| - 1] != ' ')
    && forall i :: 0 <= i < |s| - 1 ==> !(s[i] == ' ' && s[i + 1] == ' ')
  }

  /** Joining non-empty, space-free tokens with single spaces gives a well-spaced string
      whose characters are the tokens' and the space. */
  lemma {:induction false} JoinWellSpaced(toks: seq<string>, chars: set<char>)
    requires ' ' !in chars
    requires forall i :: 0 <= i < |toks| ==> toks[i] != [] && NoneOf(toks[i], chars + {' '})
    ensures WellSpaced(Join(" ", toks))
    ensures NoneOf(Join(" ", toks), chars)
  {
    if |toks| > 1 {
      JoinWellSpaced(toks[1..], chars);
      var t := toks[0];
      var rest := Join(" ", toks[1..]);
      var s := t + " " + rest;
      assert Join(" ", toks) == s;
      assert rest != [] by { JoinNonEmpty(toks[1..]); }
      forall i | 0 <= i < |s| - 1 ensures !(s[i] == ' ' && s[i + 1] == ' ') {
        if i < |t| {
          assert s[i] == t[i];
        } else if i > |t| {
          assert s[i] == rest[i - |t| - 1] && s[i + 1] == rest[i - |t|];
        } else {
          assert s[i + 1] == rest[0];
        }
      }
      assert s[|s| - 1] == rest[|rest| - 1];
      forall i | 0 <= i < |s| ensures s[i] !in chars {
        if i < |t| { assert s[i] == t[i]; }
        else if i > |t| { assert s[i] == rest[i - |t| - 1]; }
      }
    }
  }

  lemma {:induction false} JoinNonEmpty(toks: seq<string>)
    requires toks != [] && toks[0] != []
    ensures Join(" ", toks) != []
  {
  }

  /** Ordinal ordering of strings: lexicographic on characters, a proper prefix first. */
  predicate StrLe(a: string, b: string) {
    a == [] || (b != [] && (a[0] < b[0] || (a[0] == b[0] && StrLe(a[1..], b[1..]))))
  }

  lemma {:induction false} StrLeReflexive(a: string)
    ensures StrLe(a, a)
  {
    if a != [] {
      StrLeReflexive(a[1..]);
    }
  }

  lemma {:induction false} StrLeTotal(a: string, b: string)
    ensures StrLe(a, b) || StrLe(b, a)
  {
    if a != [] && b != [] && a[0] == b[0] {
      StrLeTotal(a[1..], b[1..]);
    }
  }

  lemma {:induction false} StrLeAntisymmetric(a: string, b: string)
    requires StrLe(a, b) && StrLe(b, a)
    ensures a == b
  {
    if a != [] && b != [] {
      StrLeAntisymmetric(a[1..], b[1..]);
      assert a == [a[0]] + a[1..] && b == [b[0]] + b[1..];
    }
  }

  lemma {:induction false} StrLeTransitive(a: string, b: string, c: string)
    requires StrLe(a, b) && StrLe(b, c)
    ensures StrLe(a, c)
  {
    if a != [] && b != [] && c != [] && a[0] == b[0] == c[0] {
      StrLeTransitive(a[1..], b[1..], c[1..]);
    }
  }
}

/** How `Split` behaves on a string that is cut in two by a separator. */
module SplitLaws {
  import opened Strings

  /** A separator cuts the string in two that split independently. */
  lemma {:induction false} SplitAppend(a: string, x: char, b: string, seps: set<char>)
    requires x in seps
    ensures Split(a + [x] + b, seps) == Split(a, seps) + Split(b, seps)
    decreases |a|
  {
    var k := IndexOfAny(a, seps);
    IndexOfAnySpec(a, seps);
    if k == |a| {
      assert a[..k] == a;
      SplitAppendPiece(a, x, b, seps);
    } else {
      SplitAppend(a[k + 1..], x, b, seps);
      SplitAppendStep(a, x, b, seps, k);
    }
  }

  lemma {:induction false} SplitAppendPiece(a: string, x: char, b: string, seps: set<char>)
    requires x in seps && NoneOf(a, seps)
    ensures Split(a + [x] + b, seps) == Split(a, seps) + Split(b, seps)
  {
    var s := a + [x] + b;
    assert s[..|a|] == a;
    SplitAt(s, seps, |a|);
    assert s[|a| + 1..] == b;
    if a != [] {
      SplitNoSeparator(a, seps);
    }
  }

  lemma {:induction false} SplitAppendStep(a: string, x: char, b: string, seps: set<char>, k: nat)
    requires x in seps && k < |a| && NoneOf(a[..k], seps) && a[k] in seps
    requires Split(a[k + 1..] + [x] + b, seps) == Split(a[k + 1..], seps) + Split(b, seps)
    ensures Split(a + [x] + b, seps) == Split(a, seps) + Split(b, seps)
  {
    SplitPrefixAt(a, x, b, seps, k);
    SplitAt(a, seps, k);
  }

  /** The first separator of `a`, at `k`, also cuts `a + [x] + b` there. */
  lemma SplitPrefixAt(a: string, x: char, b: string, seps: set<char>, k: nat)
    requires k < |a| && NoneOf(a[..k], seps) && a[k] in seps
    ensures Split(a + [x] + b, seps) == (if k == 0 then [] else [a[..k]]) + Split(a[k + 1..] + [x] + b, seps)
  {
    var s := a + [x] + b;
    assert s[..k] == a[..k] && s[k] == a[k];
    assert s[k + 1..] == a[k + 1..] + [x] + b;
    SplitAt(s, seps, k);
  }

  /** Splitting a space-joined list of separator-free, non-empty tokens on a separator set that
      contains the space gives the tokens back. */
  lemma {:induction false} SplitJoin(toks: seq<string>, seps: set<char>)
    requires ' ' in seps
    requires forall i :: 0 <= i < |toks| ==> toks[i] != [] && NoneOf(toks[i], seps)
    ensures Split(Join(" ", toks), seps) == toks
  {
    if |toks| == 1 {
      SplitNoSeparator(toks[0], seps);
    } else if |toks| > 1 {
      var t := toks[0];
      var rest := Join(" ", toks[1..]);
      assert Join(" ", toks) == t + [' '] + rest;
      SplitAppendPiece(t, ' ', rest, seps);
      SplitNoSeparator(t, seps);
      SplitJoin(toks[1..], seps);
      assert toks == [t] + toks[1..];
    }
  }
}
