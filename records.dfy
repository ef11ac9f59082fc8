/** Turning the extracted words into `Hanja` records (`ConvertWords`): each word is split into
    tokens on spaces and parentheses; the first token is the character, the last the
    pronunciation and the ones between, joined by single spaces, the meaning. The records are
    then ordered by pronunciation, then meaning, then character. */
module HanjaConversion {
  import opened Results
  import opened Failures
  import opened Strings
  import opened SplitLaws
  import opened Sorting

  /** The record `ConvertWords` produces for one word. */
  datatype Hanja = Hanja(character: string, meaning: string, pronunciation: string)

  /** The separators `" "`, `"("` and `")"` of `word.Split(…, RemoveEmptyEntries)`. */
  const TokenSeparators: set<char> := {' ', '(', ')'}

  /** The non-empty pieces of a word between separators. */
  function Tokens(word: string): seq<string> {
    Split(word, TokenSeparators)
  }

  /** `segments.Take(segments.Length - 1).Skip(1)`: the tokens strictly between the first and
      the last, and none when there is a single token. */
  function MiddleTokens(t: seq<string>): seq<string> {
    if |t| >= 2 then t[1..|t| - 1] else []
  }

  /** The record for one word; a word with no token makes `segments[0]` throw. */
  function ParseWord(word: string): Result<Hanja, Error> {
    var t := Tokens(word);
    if t == [] then Err(NoTokens(word))
    else Ok(Hanja(t[0], Join(" ", MiddleTokens(t)), t[|t| - 1]))
  }

  /** A word fails exactly when it is made of separators only, and then with its own error. */
  lemma ParseWordFails(word: string)
    ensures ParseWord(word).Err? <==> forall i :: 0 <= i < |word| ==> word[i] in TokenSeparators
    ensures ParseWord(word).Err? ==> ParseWord(word).error == NoTokens(word)
  {
    SplitEmpty(word, TokenSeparators);
  }

  /** The character and the pronunciation are single non-empty tokens; the meaning has no
      parenthesis and its words are separated by single spaces. */
  lemma ParseWordFields(word: string)
    requires ParseWord(word).Ok?
    ensures var h := ParseWord(word).value;
      && h.character != [] && NoneOf(h.character, TokenSeparators)
      && h.pronunciation != [] && NoneOf(h.pronunciation, TokenSeparators)
      && NoneOf(h.meaning, {'(', ')'}) && WellSpaced(h.meaning)
  {
    var t := Tokens(word);
    SplitPieces(word, TokenSeparators);
    assert {'(', ')'} + {' '} == TokenSeparators;
    JoinWellSpaced(MiddleTokens(t), {'(', ')'});
  }

  /** A word with a single token gives that token as both character and pronunciation, and an
      empty meaning. */
  lemma ParseWordSingleToken(word: string)
    requires |Tokens(word)| == 1
    ensures ParseWord(word) == Ok(Hanja(Tokens(word)[0], "", Tokens(word)[0]))
  {
  }

  /** With two tokens or more nothing is lost: the word's tokens are the character, the tokens
      of the meaning and the pronunciation, in this order. */
  lemma ParseWordKeepsTokens(word: string)
    requires |Tokens(word)| >= 2
    ensures var h := ParseWord(word).value;
      Tokens(word) == [h.character] + Tokens(h.meaning) + [h.pronunciation]
  {
    var t := Tokens(word);
    assert ParseWord(word).value == Hanja(t[0], Join(" ", t[1..|t| - 1]), t[|t| - 1]);
    SplitPieces(word, TokenSeparators);
    MiddleRoundTrip(t);
  }

  /** Joining the middle tokens and splitting them again gives them back, so the first, middle
      and last tokens make up the whole sequence. */
  lemma MiddleRoundTrip(t: seq<string>)
    requires |t| >= 2
    requires forall i :: 0 <= i < |t| ==> t[i] != [] && NoneOf(t[i], TokenSeparators)
    ensures t == [t[0]] + Tokens(Join(" ", t[1..|t| - 1])) + [t[|t| - 1]]
  {
    var middle := t[1..|t| - 1];
    assert forall i :: 0 <= i < |middle| ==> middle[i] == t[i + 1];
    SplitJoin(middle, TokenSeparators);
    assert t == [t[0]] + middle + [t[|t| - 1]];
  }

  /** A word in the shape the dictionary page writes it: the character, the words of the
      meaning and the pronunciation in parentheses, as in `水 물 (수)`. */
  function Entry(character: string, meaning: seq<string>, pronunciation: string): string {
    character + " " + (Join(" ", meaning) + " " + ("(" + pronunciation + ")"))
  }

  /** Parsing recovers the fields of an entry whose parts hold no separator. */
  lemma ParseEntry(character: string, meaning: seq<string>, pronunciation: string)
    requires character != [] && NoneOf(character, TokenSeparators)
    requires pronunciation != [] && NoneOf(pronunciation, TokenSeparators)
    requires forall i :: 0 <= i < |meaning| ==> meaning[i] != [] && NoneOf(meaning[i], TokenSeparators)
    ensures ParseWord(Entry(character, meaning, pronunciation))
         == Ok(Hanja(character, Join(" ", meaning), pronunciation))
  {
    var t := [character] + meaning + [pronunciation];
    EntryTokens(character, meaning, pronunciation);
    assert MiddleTokens(t) == meaning;
  }

  lemma EntryTokens(character: string, meaning: seq<string>, pronunciation: string)
    requires character != [] && NoneOf(character, TokenSeparators)
    requires pronunciation != [] && NoneOf(pronunciation, TokenSeparators)
    requires forall i :: 0 <= i < |meaning| ==> meaning[i] != [] && NoneOf(meaning[i], TokenSeparators)
    ensures Tokens(Entry(character, meaning, pronunciation)) == [character] + meaning + [pronunciation]
  {
    var rest := Join(" ", meaning) + " " + ("(" + pronunciation + ")");
    ParenthesisedTokens(pronunciation);
    MeaningTokens(meaning, "(" + pronunciation + ")");
    SplitAppend(character, ' ', rest, TokenSeparators);
    SplitNoSeparator(character, TokenSeparators);
  }

  lemma ParenthesisedTokens(pronunciation: string)
    requires pronunciation != [] && NoneOf(pronunciation, TokenSeparators)
    ensures Split("(" + pronunciation + ")", TokenSeparators) == [pronunciation]
  {
    assert "(" + pronunciation + ")" == [] + ['('] + (pronunciation + [')'] + []);
    SplitAppend([], '(', pronunciation + [')'] + [], TokenSeparators);
    SplitAppend(pronunciation, ')', [], TokenSeparators);
    SplitNoSeparator(pronunciation, TokenSeparators);
  }

  lemma MeaningTokens(meaning: seq<string>, tail: string)
    requires forall i :: 0 <= i < |meaning| ==> meaning[i] != [] && NoneOf(meaning[i], TokenSeparators)
    ensures Split(Join(" ", meaning) + [' '] + tail, TokenSeparators) == meaning + Split(tail, TokenSeparators)
  {
    SplitAppend(Join(" ", meaning), ' ', tail, TokenSeparators);
    SplitJoin(meaning, TokenSeparators);
  }

  /** The records of all the words, in order; the first word that fails fails them all. */
  function ParseWords(words: seq<string>): (r: Result<seq<Hanja>, Error>)
    ensures r.Ok? ==> |r.value| == |words|
    ensures r.Err? ==> exists i :: 0 <= i < |words| && ParseWord(words[i]) == Err(r.error)
  {
    if words == [] then Ok([])
    else
      match ParseWord(words[0])
      case Err(e) => Err(e)
      case Ok(h) =>
        match ParseWords(words[1..])
        case Err(e) => Err(e)
        case Ok(rest) => Ok([h] + rest)
  }

  /** Word `i` is the first word that fails. */
  predicate FailsFirstAt(words: seq<string>, i: int) {
    && 0 <= i < |words| && ParseWord(words[i]).Err?
    && forall k :: 0 <= k < i ==> ParseWord(words[k]).Ok?
  }

  /** One record per word, at the word's position; otherwise the error of the first word that
      fails. */
  lemma {:induction false} ParseWordsSpec(words: seq<string>)
    ensures ParseWords(words).Ok? <==> forall i :: 0 <= i < |words| ==> ParseWord(words[i]).Ok?
    ensures ParseWords(words).Ok? ==> |ParseWords(words).value| == |words|
    ensures ParseWords(words).Ok? ==>
      forall i :: 0 <= i < |words| ==> ParseWords(words).value[i] == ParseWord(words[i]).value
    ensures ParseWords(words).Err? ==>
      exists i :: FailsFirstAt(words, i) && ParseWords(words).error == ParseWord(words[i]).error
  {
    if words != [] {
      ParseWordsSpec(words[1..]);
      if ParseWord(words[0]).Err? {
        assert FailsFirstAt(words, 0);
      } else if ParseWords(words[1..]).Err? {
        var i :| FailsFirstAt(words[1..], i) && ParseWords(words[1..]).error == ParseWord(words[1..][i]).error;
        assert FailsFirstAt(words, i + 1);
      } else {
        forall i | 0 <= i < |words| ensures ParseWord(words[i]).Ok? {
          if i > 0 { assert words[i] == words[1..][i - 1]; }
        }
      }
    }
  }

  /** Strict ordinal order of strings. */
  predicate StrLt(a: string, b: string) {
    StrLe(a, b) && a != b
  }

  /** The order of `OrderBy(Pronunciation).ThenBy(Meaning).ThenBy(Character)`. */
  predicate KeyLe(a: Hanja, b: Hanja): (r: bool)
    ensures r ==> StrLe(a.pronunciation, b.pronunciation)
    ensures r && a.pronunciation == b.pronunciation ==> StrLe(a.meaning, b.meaning)
    ensures r && a.pronunciation == b.pronunciation && a.meaning == b.meaning ==> StrLe(a.character, b.character)
  {
    StrLeReflexive(a.pronunciation);
    StrLeReflexive(a.meaning);
    || StrLt(a.pronunciation, b.pronunciation)
    || (a.pronunciation == b.pronunciation && StrLt(a.meaning, b.meaning))
    || (a.pronunciation == b.pronunciation && a.meaning == b.meaning && StrLe(a.character, b.character))
  }

  /** The key order is a total order: any two records compare, records of equal rank are
      identical (the key covers every field), and the order is transitive. */
  lemma KeyLeTotalOrder()
    ensures TotalOrder(KeyLe)
  {
    forall a, b ensures KeyLe(a, b) || KeyLe(b, a) {
      StrLeTotal(a.pronunciation, b.pronunciation);
      StrLeTotal(a.meaning, b.meaning);
      StrLeTotal(a.character, b.character);
    }
    forall a, b | KeyLe(a, b) && KeyLe(b, a) ensures a == b {
      StrLeFacts(a.pronunciation, b.pronunciation, a.pronunciation);
      StrLeFacts(a.meaning, b.meaning, a.meaning);
      StrLeFacts(a.character, b.character, a.character);
    }
    forall a, b, c | KeyLe(a, b) && KeyLe(b, c) ensures KeyLe(a, c) {
      StrLeFacts(a.pronunciation, b.pronunciation, c.pronunciation);
      StrLeFacts(a.meaning, b.meaning, c.meaning);
      StrLeFacts(a.character, b.character, c.character);
    }
  }

  lemma StrLeFacts(a: string, b: string, c: string)
    ensures StrLe(a, b) && StrLe(b, c) ==> StrLe(a, c)
    ensures StrLe(a, b) && StrLe(b, a) ==> a == b
  {
    if StrLe(a, b) && StrLe(b, c) { StrLeTransitive(a, b, c); }
    if StrLe(a, b) && StrLe(b, a) { StrLeAntisymmetric(a, b); }
  }

  /** The sort `OrderBy(Pronunciation).ThenBy(Meaning).ThenBy(Character)`, as an insertion sort
      by the key order. */
  function SortRecords(s: seq<Hanja>): seq<Hanja> {
    SortBy(s, KeyLe)
  }

  /** `ConvertWords`: one record per word, ordered by pronunciation, meaning and character. */
  function ConvertWords(words: seq<string>): Result<seq<Hanja>, Error> {
    match ParseWords(words)
    case Err(e) => Err(e)
    case Ok(records) => Ok(SortRecords(records))
  }

  /** The conversion succeeds exactly when every word has a token; it then returns, ordered, a
      permutation of the words' records, one per word, and otherwise fails with the error of
      the first word that has none. */
  lemma ConvertWordsSpec(words: seq<string>)
    ensures var r := ConvertWords(words);
      && (r.Ok? <==> forall i :: 0 <= i < |words| ==> Tokens(words[i]) != [])
      && (r.Err? ==> exists i :: FailsFirstAt(words, i) && r.error == NoTokens(words[i]))
      && (r.Ok? ==> |r.value| == |words| && SortedBy(r.value, KeyLe))
      && (r.Ok? ==> multiset(r.value) == multiset(ParseWords(words).value))
  {
    ParseWordsSpec(words);
    if ParseWords(words).Ok? {
      KeyLeTotalOrder();
      SortBySpec(ParseWords(words).value, KeyLe);
    }
  }

  /** Any ordered permutation of the words' records is the conversion's output, so every
      stable sort by this key gives the same list. */
  lemma ConvertWordsDeterminate(words: seq<string>, out: seq<Hanja>)
    requires ParseWords(words).Ok?
    requires SortedBy(out, KeyLe) && multiset(out) == multiset(ParseWords(words).value)
    ensures ConvertWords(words) == Ok(out)
  {
    KeyLeTotalOrder();
    SortBySpec(ParseWords(words).value, KeyLe);
    SortedUnique(SortRecords(ParseWords(words).value), out, KeyLe);
  }
}
