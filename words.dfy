/** Splitting the cells' text into words (`GetWords`): bullet-separated fragments, then the
    expansion of slash groups such as `A/B (pron)` into one word per non-empty `/`-piece. */
module WordTokenizer {
  import opened Results
  import opened Failures
  import opened Seqs
  import opened Strings
  import opened SplitLaws
  import opened Html

  /** The bullet U+2022 that separates entries within a cell. */
  const Bullet: set<char> := {'\U{2022}'}

  /** The slash that groups several characters sharing one annotation. */
  const Slash: set<char> := {'/'}

  /** The bullet-separated fragments of the cells, cell after cell: the non-empty pieces of each
      cell's trimmed inner text. */
  function Fragments(cells: seq<Node>): seq<string> {
    FlatMap(cells, CellFragments)
  }

  /** The bullet-separated pieces of one cell's trimmed inner text. */
  function CellFragments(cell: Node): seq<string> {
    Split(Trim(InnerText(cell)), Bullet)
  }

  function TrimAll(ss: seq<string>): (r: seq<string>)
    ensures |r| == |ss| && forall i :: 0 <= i < |ss| ==> r[i] == Trim(ss[i])
  {
    seq(|ss|, i requires 0 <= i < |ss| => Trim(ss[i]))
  }

  predicate HasSlash(s: string) {
    '/' in s
  }

  predicate NoSlash(s: string) {
    '/' !in s
  }

  /** The words of the first group: the slash-free fragments, trimmed, in encounter order. */
  function PlainWords(fragments: seq<string>): (r: seq<string>)
    ensures forall i :: 0 <= i < |r| ==>
      NoSlash(r[i]) && exists f :: f in fragments && NoSlash(f) && r[i] == Trim(f)
  {
    var plain := Filter(fragments, NoSlash);
    FilterMembers(fragments, NoSlash);
    forall i | 0 <= i < |plain| ensures NoSlash(Trim(plain[i])) && plain[i] in fragments && NoSlash(plain[i]) {
      TrimKeepsNoSlash(plain[i]);
    }
    TrimAll(plain)
  }

  /** The slash groups, trimmed, in encounter order. */
  function SlashGroups(fragments: seq<string>): (r: seq<string>)
    ensures forall i :: 0 <= i < |r| ==>
      HasSlash(r[i]) && exists f :: f in fragments && HasSlash(f) && r[i] == Trim(f)
  {
    var groups := Filter(fragments, HasSlash);
    FilterMembers(fragments, HasSlash);
    forall i | 0 <= i < |groups| ensures HasSlash(Trim(groups[i])) && groups[i] in fragments && HasSlash(groups[i]) {
      TrimChars(groups[i]);
    }
    TrimAll(groups)
  }

  /** `Where(!Contains("/"))` and `Where(Contains("/"))` partition the fragments: each one
      lands in exactly one of the two groups. */
  lemma {:induction false} FragmentsPartition(fragments: seq<string>)
    ensures |PlainWords(fragments)| + |SlashGroups(fragments)| == |fragments|
  {
    if fragments != [] {
      FragmentsPartition(fragments[1..]);
    }
  }

  /** Where `(?<Translation>\(.+\)?)` can start in `s`: an opening parenthesis followed by at
      least one character that `.` matches, that is, anything but a line feed. */
  predicate MatchStartsAt(s: string, i: int) {
    0 <= i && i + 1 < |s| && s[i] == '(' && s[i + 1] != '\n'
  }

  /** The first line feed at or after `i`, or the end of `s`. */
  function LineEnd(s: string, i: nat): (e: nat)
    requires i <= |s|
    ensures i <= e <= |s|
    ensures forall k :: i <= k < e ==> s[k] != '\n'
    ensures e < |s| ==> s[e] == '\n'
    decreases |s| - i
  {
    if i == |s| || s[i] == '\n' then i else LineEnd(s, i + 1)
  }

  /** The half-open range `s[start..end]` that a match covers. */
  datatype Span = Span(start: nat, end: nat)

  /** The leftmost match of the pattern at or after `i`. */
  function FindMatch(s: string, i: nat): (r: Option<Span>)
    requires i <= |s|
    ensures r.None? <==> forall k :: i <= k < |s| ==> !MatchStartsAt(s, k)
    ensures r.Some? ==> i <= r.value.start && MatchStartsAt(s, r.value.start)
    ensures r.Some? ==> forall k :: i <= k < r.value.start ==> !MatchStartsAt(s, k)
    ensures r.Some? ==> r.value.end == LineEnd(s, r.value.start + 1)
    decreases |s| - i
  {
    if i + 1 >= |s| then None
    else if MatchStartsAt(s, i) then Some(Span(i, LineEnd(s, i + 1)))
    else FindMatch(s, i + 1)
  }

  /** `Regex.Match(s, @"(?<Translation>\(.+\)?)")`. The match starts at the leftmost parenthesis
      that is followed by a character other than a line feed; the greedy `.+` then runs to the
      end of the line, after which the optional `\)` matches the empty string. */
  function RegexMatch(s: string): (r: Option<Span>)
    ensures r.Some? ==> r.value.start + 2 <= r.value.end <= |s|
  {
    FindMatch(s, 0)
  }

  /** The match is the leftmost place the pattern can start, and it runs from that parenthesis
      to the end of its line; there is no match exactly when the pattern can start nowhere. */
  lemma RegexMatchSpec(s: string)
    ensures var r := RegexMatch(s);
      && (r.None? <==> forall k :: 0 <= k < |s| ==> !MatchStartsAt(s, k))
      && (r.Some? ==> MatchStartsAt(s, r.value.start) && forall k :: 0 <= k < r.value.start ==> !MatchStartsAt(s, k))
      && (r.Some? ==> forall k :: r.value.start < k < r.value.end ==> s[k] != '\n')
      && (r.Some? ==> r.value.end == |s| || s[r.value.end] == '\n')
  {
  }

  /** The trimmed `Translation` group of a match. */
  function Translation(s: string, m: Span): string
    requires m.start <= m.end <= |s|
  {
    Trim(s[m.start..m.end])
  }

  /** The words one slash group expands to: its trimmed non-empty `/`-pieces, each but the last
      followed by a space and the last piece's translation when the pattern matches there. A
      group made only of slashes has no last piece, and indexing it throws. */
  function ExpandGroup(group: string): Result<seq<string>, Error> {
    var segments := TrimAll(Split(group, Slash));
    if segments == [] then Err(NoSegments(group)) else Ok(ExpandPieces(segments))
  }

  /** The segments of a group, each but the last followed by a space and the last one's
      translation when the pattern matches there. */
  function ExpandPieces(segments: seq<string>): seq<string>
    requires segments != []
  {
    var last := segments[|segments| - 1];
    match RegexMatch(last)
    case None => segments
    case Some(m) => Annotate(segments, Translation(last, m))
  }

  /** The segments with a space and `t` appended to every one but the last. */
  function Annotate(segments: seq<string>, t: string): (r: seq<string>)
    ensures |r| == |segments|
    ensures forall i :: 0 <= i < |r| - 1 ==> r[i] == segments[i] + " " + t
    ensures r != [] ==> r[|r| - 1] == segments[|r| - 1]
  {
    seq(|segments|, i requires 0 <= i < |segments| =>
          if i < |segments| - 1 then segments[i] + " " + t else segments[i])
  }

  /** The expansions of the groups, in order; the first failing group fails them all. */
  function ExpandAll(groups: seq<string>): Result<seq<string>, Error> {
    if groups == [] then Ok([])
    else
      match ExpandAll(groups[..|groups| - 1])
      case Err(e) => Err(e)
      case Ok(init) =>
        match ExpandGroup(groups[|groups| - 1])
        case Err(e) => Err(e)
        case Ok(words) => Ok(init + words)
  }

  /** What `GetWords` returns: the plain words, then the expanded slash groups. */
  function Words(cells: seq<Node>): Result<seq<string>, Error> {
    var fragments := Fragments(cells);
    match ExpandAll(SlashGroups(fragments))
    case Err(e) => Err(e)
    case Ok(expanded) => Ok(PlainWords(fragments) + expanded)
  }

  /** Once a prefix of the groups fails, all of them fail with the same error. */
  lemma {:induction false} ExpandAllFailsEarly(groups: seq<string>, k: nat)
    requires k <= |groups| && ExpandAll(groups[..k]).Err?
    ensures ExpandAll(groups) == ExpandAll(groups[..k])
    decreases |groups| - k
  {
    if k < |groups| {
      var init := groups[..|groups| - 1];
      assert init[..k] == groups[..k];
      ExpandAllFailsEarly(init, k);
    } else {
      assert groups[..k] == groups;
    }
  }

  lemma ExpandAllStep(groups: seq<string>, j: nat)
    requires j < |groups| && ExpandAll(groups[..j]).Ok? && ExpandGroup(groups[j]).Ok?
    ensures ExpandAll(groups[..j + 1]) == Ok(ExpandAll(groups[..j]).value + ExpandGroup(groups[j]).value)
  {
    assert groups[..j + 1][..j] == groups[..j];
  }

  /** A group fails exactly when it is made of slashes only, and then with its own error;
      otherwise it gives one word per non-empty `/`-piece. */
  lemma ExpandGroupFails(group: string)
    ensures ExpandGroup(group).Err? <==> forall i :: 0 <= i < |group| ==> group[i] == '/'
    ensures ExpandGroup(group).Err? ==> ExpandGroup(group).error == NoSegments(group)
    ensures ExpandGroup(group).Ok? ==> |ExpandGroup(group).value| == |Split(group, Slash)|
  {
    SplitEmpty(group, Slash);
  }

  /** A slash-free string has no character of the separator set `Slash`. */
  lemma NoSlashNoneOf(s: string)
    requires NoSlash(s)
    ensures NoneOf(s, Slash)
  {
    forall i | 0 <= i < |s| ensures s[i] !in Slash {
      assert s[i] in s;
    }
  }

  /** A slash inside the parenthesised annotation also separates pieces: `a/b (p/q)` gives
      the three pieces `a`, `b (p` and `q)`, so the group expands to three words and its
      annotation is cut apart. */
  lemma SlashInsideAnnotation(a: string, b: string, p: string, q: string)
    requires a != [] && b != [] && p != [] && q != []
    requires NoSlash(a) && NoSlash(b) && NoSlash(p) && NoSlash(q)
    ensures Split(a + "/" + (b + " (" + p) + "/" + (q + ")"), Slash) == [a, b + " (" + p, q + ")"]
    ensures ExpandGroup(a + "/" + (b + " (" + p) + "/" + (q + ")")).Ok?
    ensures |ExpandGroup(a + "/" + (b + " (" + p) + "/" + (q + ")")).value| == 3
  {
    SlashInsidePieces(a, b + " (" + p, q + ")");
    ExpandGroupByPieces(a + "/" + (b + " (" + p) + "/" + (q + ")"));
  }

  /** A group expands to one word per `/`-piece, and fails only when there is none. */
  lemma ExpandGroupByPieces(group: string)
    ensures ExpandGroup(group).Ok? <==> Split(group, Slash) != []
    ensures ExpandGroup(group).Ok? ==> |ExpandGroup(group).value| == |Split(group, Slash)|
  {
  }

  /** Two slashes between three non-empty slash-free strings give exactly those three pieces. */
  lemma SlashInsidePieces(a: string, m: string, l: string)
    requires a != [] && m != [] && l != []
    requires NoSlash(a) && NoSlash(m) && NoSlash(l)
    ensures Split(a + "/" + m + "/" + l, Slash) == [a, m, l]
  {
    NoSlashNoneOf(a);
    NoSlashNoneOf(m);
    NoSlashNoneOf(l);
    assert a + "/" + m + "/" + l == a + ['/'] + (m + ['/'] + l);
    SplitAppend(a, '/', m + ['/'] + l, Slash);
    SplitNoSeparator(a, Slash);
    SplitAppend(m, '/', l, Slash);
    SplitNoSeparator(m, Slash);
    SplitNoSeparator(l, Slash);
  }

  /** The loop of `GetWords` that overwrites, in place, every segment but the last with the
      segment followed by a space and the translation. */
  method AppendTranslation(segments: array<string>, translation: string)
    modifies segments
    ensures segments[..] == Annotate(old(segments[..]), translation)
  {
    ghost var pieces := segments[..];
    ghost var expanded := Annotate(pieces, translation);
    var n := segments.Length;
    if n == 0 {
      return;
    }
    for k := 0 to n - 1
      invariant forall x :: 0 <= x < k ==> segments[x] == expanded[x]
      invariant forall x :: k <= x < n ==> segments[x] == pieces[x]
    {
      segments[k] := segments[k] + " " + translation;
    }
    assert segments[..] == expanded;
  }

  /** A group that fails after a successful prefix fails the whole expansion with its error. */
  lemma ExpandAllStepFails(groups: seq<string>, j: nat)
    requires j < |groups| && ExpandAll(groups[..j]).Ok? && ExpandGroup(groups[j]).Err?
    ensures ExpandAll(groups) == Err(ExpandGroup(groups[j]).error)
  {
    assert groups[..j + 1][..j] == groups[..j];
    ExpandAllFailsEarly(groups, j + 1);
  }

  /** The body of `GetWords`'s loop over the slash groups: splits the group into an array of
      trimmed segments and, when the last segment carries a translation, annotates the others
      in place. */
  method SplitGroup(group: string) returns (r: Result<seq<string>, Error>)
    ensures r == ExpandGroup(group)
  {
    var pieces := TrimAll(Split(group, Slash));
    if |pieces| == 0 {
      return Err(NoSegments(group));
    }
    var words := AnnotateSegments(pieces);
    r := Ok(words);
  }

  /** Copies the segments into a mutable list and, when the last one matches the pattern,
      appends its translation in place to every other one. */
  method AnnotateSegments(pieces: seq<string>) returns (words: seq<string>)
    requires pieces != []
    ensures words == ExpandPieces(pieces)
  {
    var segments := new string[|pieces|](k requires 0 <= k < |pieces| => pieces[k]);
    assert segments[..] == pieces;
    var last := segments[segments.Length - 1];
    var m := RegexMatch(last);
    if m.Some? {
      AppendTranslation(segments, Translation(last, m.value));
    }
    words := segments[..];
  }

  /** The first loop of `GetWords`: the bullet-separated pieces of every cell's trimmed text,
      gathered cell after cell. */
  method CollectFragments(cells: seq<Node>) returns (collection: seq<string>)
    ensures collection == Fragments(cells)
  {
    collection := [];
    for i := 0 to |cells|
      invariant collection == Fragments(cells[..i])
    {
      FlatMapStep(cells, CellFragments, i);
      collection := collection + Split(Trim(InnerText(cells[i])), Bullet);
    }
    assert cells[..|cells|] == cells;
  }

  /** The second loop of `GetWords`: the slash groups expanded one after another; the first
      group that fails ends the loop with its error. */
  method ExpandGroups(groups: seq<string>) returns (r: Result<seq<string>, Error>)
    ensures r == ExpandAll(groups)
  {
    var words: seq<string> := [];
    for j := 0 to |groups|
      invariant ExpandAll(groups[..j]) == Ok(words)
    {
      var segments := SplitGroup(groups[j]);
      if segments.Err? {
        ExpandAllStepFails(groups, j);
        return segments;
      }
      ExpandAllStep(groups, j);
      words := words + segments.value;
    }
    assert groups[..|groups|] == groups;
    r := Ok(words);
  }

  /** `GetWords`: the slash-free fragments, trimmed, followed by the expansions of the slash
      groups; no word it returns contains a slash. */
  method GetWords(cells: seq<Node>) returns (r: Result<seq<string>, Error>)
    ensures r == Words(cells)
    ensures r.Ok? ==> forall i :: 0 <= i < |r.value| ==> '/' !in r.value[i]
  {
    var collection := CollectFragments(cells);
    var expanded := ExpandGroups(SlashGroups(collection));
    if expanded.Err? {
      return Err(expanded.error);
    }
    r := Ok(PlainWords(collection) + expanded.value);
    WordsHaveNoSlash(cells);
  }

  lemma TrimKeepsNoSlash(s: string)
    requires '/' !in s
    ensures '/' !in Trim(s)
  {
    TrimChars(s);
  }

  /** The trimmed pieces of a slash group hold no slash. */
  lemma SegmentsHaveNoSlash(group: string)
    ensures forall i :: 0 <= i < |TrimAll(Split(group, Slash))| ==> '/' !in TrimAll(Split(group, Slash))[i]
  {
    var pieces := Split(group, Slash);
    SplitPieces(group, Slash);
    forall i | 0 <= i < |pieces| ensures '/' !in Trim(pieces[i]) {
      assert NoneOf(pieces[i], Slash);
      TrimKeepsNoSlash(pieces[i]);
    }
  }

  lemma TranslationHasNoSlash(s: string, m: Span)
    requires m.start <= m.end <= |s| && '/' !in s
    ensures '/' !in Translation(s, m)
  {
    var cut := s[m.start..m.end];
    TrimKeepsNoSlash(cut);
  }

  lemma AnnotateHasNoSlash(segments: seq<string>, t: string)
    requires forall i :: 0 <= i < |segments| ==> '/' !in segments[i]
    requires '/' !in t
    ensures forall i :: 0 <= i < |Annotate(segments, t)| ==> '/' !in Annotate(segments, t)[i]
  {
    var r := Annotate(segments, t);
    forall i | 0 <= i < |r| ensures '/' !in r[i] {
      if i < |r| - 1 {
        assert r[i] == segments[i] + " " + t;
      }
    }
  }

  /** No piece of a slash group, and nothing cut from one, holds a slash. */
  lemma ExpandGroupHasNoSlash(group: string)
    ensures ExpandGroup(group).Ok? ==> forall i :: 0 <= i < |ExpandGroup(group).value| ==> '/' !in ExpandGroup(group).value[i]
  {
    var segments := TrimAll(Split(group, Slash));
    SegmentsHaveNoSlash(group);
    if segments != [] {
      var last := segments[|segments| - 1];
      match RegexMatch(last)
      case None =>
      case Some(m) =>
        TranslationHasNoSlash(last, m);
        AnnotateHasNoSlash(segments, Translation(last, m));
    }
  }

  lemma {:induction false} ExpandAllHasNoSlash(groups: seq<string>)
    ensures ExpandAll(groups).Ok? ==> forall i :: 0 <= i < |ExpandAll(groups).value| ==> '/' !in ExpandAll(groups).value[i]
  {
    if groups != [] {
      ExpandAllHasNoSlash(groups[..|groups| - 1]);
      ExpandGroupHasNoSlash(groups[|groups| - 1]);
    }
  }

  /** No word that `GetWords` returns contains a slash. */
  lemma WordsHaveNoSlash(cells: seq<Node>)
    ensures Words(cells).Ok? ==> forall i :: 0 <= i < |Words(cells).value| ==> '/' !in Words(cells).value[i]
  {
    var fragments := Fragments(cells);
    var plain := Filter(fragments, NoSlash);
    FilterMembers(fragments, NoSlash);
    forall i | 0 <= i < |plain| ensures '/' !in Trim(plain[i]) {
      TrimKeepsNoSlash(plain[i]);
    }
    ExpandAllHasNoSlash(SlashGroups(fragments));
  }
}
