/** What the repair does to any text at all: where it quotes, and that it does so once. */
module BareKeyLaws {
  import opened BareKeys

  // --- where a key is quoted, without the machine ----------------------------------------------

  datatype Lex = Lex(inString: bool, escaped: bool)

  /** Whether position `i` stands inside a JSON string, reading `text` from its start. */
  function LexAt(text: string, i: nat): Lex
    requires i <= |text|
  {
    if i == 0 then Lex(false, false)
    else
      var before, c := LexAt(text, i - 1), text[i - 1];
      if !before.inString then Lex(c == '"', false)
      else if before.escaped then Lex(true, false)
      else Lex(c != '"', c == '\\')
  }

  /** The last character before `i` that is not white space is an opening brace or a comma
      outside every string. */
  ghost predicate KeyExpectedAt(text: string, i: nat)
    requires i <= |text|
  {
    exists j {:trigger LexAt(text, j)} :: 0 <= j < i && !LexAt(text, j).inString && (text[j] == '{' || text[j] == ',')
      && forall k :: j < k < i ==> IsSpace(text[k])
  }

  /** A bare grammar key stands at `i`: outside every string, where a key is expected, whole,
      and followed by its colon. */
  ghost predicate BareKeyAt(grammar: set<string>, text: string, i: nat) {
    && i < |text| && !LexAt(text, i).inString && KeyExpectedAt(text, i)
    && IsKeyChar(text[i]) && StartsWithKey(grammar, text[i..])
  }

  /** `text` from `i` with exactly its bare keys quoted. */
  ghost function Repaired(grammar: set<string>, text: string, i: nat): Quoted
    requires i <= |text|
    decreases |text| - i
  {
    if i == |text| then Quoted("", [])
    else if BareKeyAt(grammar, text, i) then
      Repaired(grammar, text, i + WordLength(text[i..])).AfterKey(text[i..][..WordLength(text[i..])])
    else Repaired(grammar, text, i + 1).After([text[i]])
  }

  /** The machine's mode says what the text before it says. */
  ghost predicate Tracks(mode: Mode, text: string, i: nat) {
    && i <= |text|
    && mode.inString == LexAt(text, i).inString && mode.escaped == LexAt(text, i).escaped
    && (mode.inString ==> !mode.expecting)
    && (mode.expecting <==> !mode.inString && KeyExpectedAt(text, i))
  }

  lemma {:induction false} ExpectedNext(text: string, i: nat)
    requires i < |text|
    ensures KeyExpectedAt(text, i + 1) <==>
              if IsSpace(text[i]) then KeyExpectedAt(text, i)
              else !LexAt(text, i).inString && (text[i] == '{' || text[i] == ',')
  {
    if IsSpace(text[i]) {
      if KeyExpectedAt(text, i) {
        var j :| 0 <= j < i && !LexAt(text, j).inString
        && (text[j] == '{' || text[j] == ',') && forall k :: j < k < i ==> IsSpace(text[k]);
        assert !LexAt(text, j).inString;
      }
    } else if !LexAt(text, i).inString && (text[i] == '{' || text[i] == ',') {
      assert !LexAt(text, i).inString;
    }
  }

  /** White space inside a string keeps nothing expected: the string's own quote came last. */
  lemma {:induction false} InStringExpectsNothing(text: string, i: nat)
    requires i <= |text| && LexAt(text, i).inString
    ensures !KeyExpectedAt(text, i)
  {
    if i > 0 {
      ExpectedNext(text, i - 1);
      if LexAt(text, i - 1).inString { InStringExpectsNothing(text, i - 1); }
    }
  }

  lemma {:induction false} TracksNext(mode: Mode, text: string, i: nat)
    requires Tracks(mode, text, i) && i < |text|
    ensures Tracks(if mode.inString then InsideString(mode, text[i]) else OutsideString(mode, text[i]), text, i + 1)
  {
    ExpectedNext(text, i);
    if LexAt(text, i).inString { InStringExpectsNothing(text, i); }
    if LexAt(text, i + 1).inString { InStringExpectsNothing(text, i + 1); }
  }

  /** Past a word of key characters nothing is expected and no string is open. */
  lemma {:induction false} TracksPastWord(text: string, i: nat, n: nat)
    requires i + n <= |text| && 0 < n && !LexAt(text, i).inString && !LexAt(text, i).escaped
    requires forall k :: i <= k < i + n ==> IsKeyChar(text[k])
    ensures Tracks(OUTSIDE, text, i + n)
    decreases n
  {
    ExpectedNext(text, i + n - 1);
    if n > 1 { TracksPastWord(text, i, n - 1); }
  }

  lemma {:induction false} LexNotEscaped(text: string, i: nat)
    requires i <= |text| && !LexAt(text, i).inString
    ensures !LexAt(text, i).escaped
  {
  }

  lemma OneIn(text: string, i: nat)
    requires i < |text|
    ensures text[i..][0] == text[i] && text[i..][..1] == [text[i]] && text[i..][1..] == text[i + 1..]
  {
  }

  lemma {:induction false} QuoteIsRepaired(grammar: set<string>, mode: Mode, text: string, i: nat)
    requires Tracks(mode, text, i)
    ensures Quote(grammar, mode, text[i..]) == Repaired(grammar, text, i)
    decreases |text| - i
  {
    var s := text[i..];
    if i < |text| {
      OneIn(text, i);
      if TakesKey(grammar, mode, s) {
        RepairsKey(grammar, mode, text, i);
        QuoteKey(grammar, mode, s);
        QuoteIsRepaired(grammar, OUTSIDE, text, i + WordLength(s));
        RepairedStep(grammar, text, i);
      } else {
        assert !BareKeyAt(grammar, text, i);
        TracksNext(mode, text, i);
        QuoteChar(grammar, mode, s);
        QuoteIsRepaired(grammar, NextMode(mode, text[i]), text, i + 1);
        RepairedStep(grammar, text, i);
      }
    }
  }

  lemma RepairedStep(grammar: set<string>, text: string, i: nat)
    requires i < |text|
    ensures var n := WordLength(text[i..]);
            if BareKeyAt(grammar, text, i) then Repaired(grammar, text, i)
                 == Repaired(grammar, text, i + n).AfterKey(text[i..][..n])
            else Repaired(grammar, text, i) == Repaired(grammar, text, i + 1).After([text[i]])
  {
  }

  /** Where the scan takes a key, a bare key stands, and the scan goes on outside. */
  lemma {:induction false} RepairsKey(grammar: set<string>, mode: Mode, text: string, i: nat)
    requires Tracks(mode, text, i) && i < |text| && TakesKey(grammar, mode, text[i..])
    ensures BareKeyAt(grammar, text, i) && mode.(expecting := false) == OUTSIDE
    ensures var n := WordLength(text[i..]);
            i + n <= |text| && text[i..][n..] == text[i + n..]
            && Tracks(OUTSIDE, text, i + n)
  {
    var s := text[i..];
    LexNotEscaped(text, i);
    assert forall k :: i <= k < i + WordLength(s) ==> text[k] == s[k - i];
    TracksPastWord(text, i, WordLength(s));
  }

  /** On any text the repair quotes exactly the bare grammar keys standing where a key is
      expected outside every string, and copies every other character. */
  lemma {:induction false} QuotesExactlyBareKeys(grammar: set<string>, text: string)
    ensures Quote(grammar, OUTSIDE, text) == Repaired(grammar, text, 0)
  {
    assert text[0..] == text;
    QuoteIsRepaired(grammar, OUTSIDE, text, 0);
  }

  /** So many quotes. */
  function Quotes(n: nat): multiset<char> {
    multiset{'"'}['"' := n]
  }

  lemma QuotedWordAdds(word: string, tail: string, out: string, n: nat)
    requires multiset(out) == multiset(tail) + Quotes(n)
    ensures multiset("\"" + word + "\"" + out) == multiset(word + tail) + Quotes(n + 2)
  {
    assert multiset("\"" + word + "\"" + out) == multiset("\"") + multiset(word) + multiset("\"") + multiset(out);
  }

  lemma CopyAdds(head: string, tail: string, out: string, n: nat)
    requires multiset(out) == multiset(tail) + Quotes(n)
    ensures multiset(head + out) == multiset(head + tail) + Quotes(n)
  {
  }

  lemma CutAt(s: string, n: nat)
    requires n <= |s|
    ensures s == s[..n] + s[n..]
  {
  }

  /** `q` is `text` with two quotes added for each of its keys. */
  predicate AddsOnlyQuotes(q: Quoted, text: string) {
    multiset(q.out) == multiset(text) + Quotes(2 * |q.keys|)
  }

  lemma KeyAddsOnlyQuotes(rest: Quoted, word: string, tail: string)
    requires AddsOnlyQuotes(rest, tail)
    ensures AddsOnlyQuotes(rest.AfterKey(word), word + tail)
  {
    QuotedWordAdds(word, tail, rest.out, 2 * |rest.keys|);
  }

  lemma CharAddsOnlyQuotes(rest: Quoted, head: string, tail: string)
    requires AddsOnlyQuotes(rest, tail)
    ensures AddsOnlyQuotes(rest.After(head), head + tail)
  {
    CopyAdds(head, tail, rest.out, 2 * |rest.keys|);
  }

  /** Two quotes a key, and no other character, are added. */
  lemma {:induction false} OnlyQuotesAreAdded(grammar: set<string>, mode: Mode, text: string)
    ensures AddsOnlyQuotes(Quote(grammar, mode, text), text)
    decreases |text|
  {
    if |text| > 0 {
      if TakesKey(grammar, mode, text) {
        var n, next := WordLength(text), mode.(expecting := false);
        OnlyQuotesAreAdded(grammar, next, text[n..]);
        QuoteKey(grammar, mode, text);
        KeyAddsOnlyQuotes(Quote(grammar, next, text[n..]), text[..n], text[n..]);
        CutAt(text, n);
      } else {
        var next := NextMode(mode, text[0]);
        OnlyQuotesAreAdded(grammar, next, text[1..]);
        QuoteChar(grammar, mode, text);
        CharAddsOnlyQuotes(Quote(grammar, next, text[1..]), text[..1], text[1..]);
        CutAt(text, 1);
      }
    }
  }

  // --- a second application -----------------------------------------------------------------------

  /** While nothing is expected outside strings, key characters and white space pass as they are. */
  lemma {:induction false} CopiesHead(grammar: set<string>, head: string, tail: string)
    requires forall k :: 0 <= k < |head| ==> IsKeyChar(head[k]) || IsSpace(head[k])
    ensures Quote(grammar, OUTSIDE, head + tail).out == head + Quote(grammar, OUTSIDE, tail).out
    decreases |head|
  {
    if |head| == 0 {
      assert head + tail == tail;
    } else {
      CopiesHead(grammar, head[1..], tail);
      FirstOf(head, tail);
      FirstOf(head, Quote(grammar, OUTSIDE, tail).out);
    }
  }

  lemma FirstOf(head: string, tail: string)
    requires |head| > 0
    ensures var s := head + tail;
            && |s| > 0 && s[0] == head[0] && s[..1] == [head[0]] && s[1..] == head[1..] + tail
            && [head[0]] + (head[1..] + tail) == s
  {
  }

  lemma CopiesFirst(grammar: set<string>, tail: string)
    ensures |tail| == 0 <==> |Quote(grammar, OUTSIDE, tail).out| == 0
    ensures |tail| > 0 ==> Quote(grammar, OUTSIDE, tail).out[0] == tail[0]
  {
  }

  /** `tail` ends the white space before it, and the word before that. */
  predicate EndsHead(space: string, tail: string) {
    |tail| > 0 ==> !IsSpace(tail[0]) && (|space| == 0 ==> !IsKeyChar(tail[0]))
  }

  /** Whether a key stands here depends on the word and on what follows its white space. */
  lemma {:induction false} KeyByHead(grammar: set<string>, word: string, space: string, tail: string)
    requires (forall k :: 0 <= k < |word| ==> IsKeyChar(word[k]))
             && (forall k :: 0 <= k < |space| ==> IsSpace(space[k]))
    requires EndsHead(space, tail)
    ensures StartsWithKey(grammar, word + (space + tail)) <==> word in grammar && |tail| > 0 && tail[0] == ':'
  {
    var s, rest := word + (space + tail), space + tail;
    assert |rest| > 0 ==> rest[0] == if |space| > 0 then space[0] else tail[0];
    WordIs(s, 0, |word|);
    assert s[0..] == s && s[..|word|] == word && s[|word|..] == rest;
    SpaceIs(rest, 0, |space|);
    assert rest[0..] == rest;
    assert |tail| > 0 ==> rest[|space|] == tail[0];
  }

  /** `text` as its first word, the white space after it, and the rest. */
  lemma {:induction false} SplitHead(text: string) returns (word: string, space: string, tail: string)
    requires |text| > 0 && IsKeyChar(text[0])
    ensures text == word + (space + tail) && |word| > 0 && word[0] == text[0]
    ensures (forall k :: 0 <= k < |word| ==> IsKeyChar(word[k])) && (forall k :: 0 <= k < |space| ==> IsSpace(space[k]))
    ensures EndsHead(space, tail)
  {
    var n := WordLength(text);
    word := text[..n];
    var rest := text[n..];
    var m := SpaceLength(rest);
    space, tail := rest[..m], rest[m..];
  }

  lemma Regroup(word: string, space: string, tail: string)
    requires |word| > 0
    ensures var s := word + (space + tail);
            s[..1] == word[..1] && s[1..] == word[1..] + space + tail
            && s[..1] + s[1..] == s
  {
    var s := word + (space + tail);
    assert s[1..] == word[1..] + space + tail;
  }

  /** A word that is no key before the repair is none after it. */
  lemma {:induction false} StillNoKey(grammar: set<string>, text: string)
    requires |text| > 0 && IsKeyChar(text[0]) && !StartsWithKey(grammar, text)
    ensures !StartsWithKey(grammar, text[..1] + Quote(grammar, OUTSIDE, text[1..]).out)
  {
    var word, space, tail := SplitHead(text);
    KeyByHead(grammar, word, space, tail);
    var head, tail' := word[1..] + space, Quote(grammar, OUTSIDE, tail).out;
    Regroup(word, space, tail);
    Regroup(word, space, tail');
    CopiesHead(grammar, head, tail);
    CopiesFirst(grammar, tail);
    KeyByHead(grammar, word, space, tail');
  }

  lemma {:induction false} QuotingTwice(grammar: set<string>, mode: Mode, text: string)
    requires !(mode.inString && mode.expecting) && (mode.escaped ==> mode.inString)
    ensures Quote(grammar, mode, Quote(grammar, mode, text).out) == Quoted(Quote(grammar, mode, text).out, [])
    decreases |text|
  {
    var q := Quote(grammar, mode, text);
    if |text| == 0 {
    } else if TakesKey(grammar, mode, text) {
      var n := WordLength(text);
      var rest := Quote(grammar, OUTSIDE, text[n..]);
      assert mode == EXPECTING && mode.(expecting := false) == OUTSIDE;
      QuotingTwice(grammar, OUTSIDE, text[n..]);
      QuotedWordPasses(grammar, text[..n], rest.out);
      assert q.out == "\"" + text[..n] + "\"" + rest.out;
    } else {
      var next := if mode.inString then InsideString(mode, text[0]) else OutsideString(mode, text[0]);
      var rest := Quote(grammar, next, text[1..]);
      QuotingTwice(grammar, next, text[1..]);
      assert q == rest.After(text[..1]);
      assert q.out[..1] == text[..1] && q.out[1..] == rest.out && q.out[0] == text[0];
      if !mode.inString && mode.expecting && IsKeyChar(text[0]) {
        assert next == OUTSIDE;
        StillNoKey(grammar, text);
      }
      assert !TakesKey(grammar, mode, q.out);
    }
  }

  lemma {:induction false} WordInString(grammar: set<string>, word: string, rest: string)
    requires forall k :: 0 <= k < |word| ==> IsKeyChar(word[k])
    ensures Quote(grammar, Mode(true, false, false), word + "\"" + rest)
              == Quote(grammar, OUTSIDE, rest).After(word + "\"")
    decreases |word|
  {
    var s, inside := word + "\"" + rest, Mode(true, false, false);
    if |word| == 0 {
      assert s[1..] == rest && s[..1] == "\"";
      assert word + "\"" == "\"";
    } else {
      WordInString(grammar, word[1..], rest);
      OneOfWord(word, rest);
      assert InsideString(inside, word[0]) == inside;
      OneOfWord(word, Quote(grammar, OUTSIDE, rest).out);
    }
  }

  lemma OneOfWord(word: string, rest: string)
    requires |word| > 0
    ensures var s := word + "\"" + rest;
            && |s| > 0 && s[0] == word[0] && s[..1] == [word[0]] && s[1..] == word[1..] + "\"" + rest
            && [word[0]] + (word[1..] + "\"" + rest) == s
  {
  }

  lemma {:induction false} QuotedWordPasses(grammar: set<string>, word: string, rest: string)
    requires forall k :: 0 <= k < |word| ==> IsKeyChar(word[k])
    ensures Quote(grammar, EXPECTING, "\"" + word + "\"" + rest)
              == Quote(grammar, OUTSIDE, rest).After("\"" + word + "\"")
  {
    var s := "\"" + word + "\"" + rest;
    WordInString(grammar, word, rest);
    assert s[1..] == word + "\"" + rest && s[..1] == "\"" && s[0] == '"';
    assert "\"" + (word + "\"" + Quote(grammar, OUTSIDE, rest).out)
             == "\"" + word + "\"" + Quote(grammar, OUTSIDE, rest).out;
  }

  /** A second application changes nothing and quotes nothing. */
  lemma {:induction false} RepairIsIdempotent(grammar: set<string>, text: string)
    ensures Quote(grammar, OUTSIDE, Quote(grammar, OUTSIDE, text).out) == Quoted(Quote(grammar, OUTSIDE, text).out, [])
  {
    QuotingTwice(grammar, OUTSIDE, text);
  }
}
