/** Quoting the grammar keys a reply left bare, and nothing else. */
module BareKeys {

  predicate IsSpace(c: char) {
    c == ' ' || c == '\t' || c == '\n' || c == '\r'
  }

  predicate IsKeyChar(c: char) {
    'a' <= c <= 'z' || c == '_'
  }

  /** How many key characters `text` starts with. */
  function WordLength(text: string): (n: nat)
    ensures n <= |text| && (forall k :: 0 <= k < n ==> IsKeyChar(text[k])) && (n < |text| ==> !IsKeyChar(text[n]))
  {
    if |text| == 0 || !IsKeyChar(text[0]) then 0
    else
      assert forall k :: 1 <= k < |text| ==> text[k] == text[1..][k - 1];
      WordLength(text[1..]) + 1
  }

  /** How much white space `text` starts with. */
  function SpaceLength(text: string): (n: nat)
    ensures n <= |text| && (forall k :: 0 <= k < n ==> IsSpace(text[k])) && (n < |text| ==> !IsSpace(text[n]))
  {
    if |text| == 0 || !IsSpace(text[0]) then 0
    else
      assert forall k :: 1 <= k < |text| ==> text[k] == text[1..][k - 1];
      SpaceLength(text[1..]) + 1
  }

  /** White space, if any, and then a colon. */
  predicate ColonFollows(text: string) {
    var n := SpaceLength(text);
    n < |text| && text[n] == ':'
  }

  /** `text` starts with a grammar key, as a whole word, and its colon. */
  predicate StartsWithKey(grammar: set<string>, text: string) {
    var n := WordLength(text);
    text[..n] in grammar && ColonFollows(text[n..])
  }

  // --- the state machine -----------------------------------------------------------------------

  datatype Mode = Mode(inString: bool, escaped: bool, expecting: bool)

  datatype Quoted = Quoted(out: string, keys: seq<string>) {
    function After(prefix: string): Quoted {
      Quoted(prefix + out, keys)
    }

    function AfterKey(key: string): Quoted {
      Quoted("\"" + key + "\"" + out, [key] + keys)
    }
  }

  const OUTSIDE := Mode(false, false, false)
  const EXPECTING := Mode(false, false, true)

  function InsideString(mode: Mode, c: char): Mode {
    if mode.escaped then mode.(escaped := false)
    else if c == '\\' then mode.(escaped := true)
    else if c == '"' then mode.(inString := false)
    else mode
  }

  function OutsideString(mode: Mode, c: char): Mode {
    mode.(inString := c == '"', expecting := if IsSpace(c) then mode.expecting else c == '{' || c == ',')
  }

  predicate TakesKey(grammar: set<string>, mode: Mode, text: string) {
    !mode.inString && mode.expecting && |text| > 0 && IsKeyChar(text[0]) && StartsWithKey(grammar, text)
  }

  /** What the scan writes from here on. */
  function Quote(grammar: set<string>, mode: Mode, text: string): Quoted
    decreases |text|
  {
    if |text| == 0 then Quoted("", [])
    else if mode.inString then Quote(grammar, InsideString(mode, text[0]), text[1..]).After(text[..1])
    else if TakesKey(grammar, mode, text) then
      Quote(grammar, mode.(expecting := false), text[WordLength(text)..]).AfterKey(text[..WordLength(text)])
    else Quote(grammar, OutsideString(mode, text[0]), text[1..]).After(text[..1])
  }

  lemma QuoteKey(grammar: set<string>, mode: Mode, text: string)
    requires TakesKey(grammar, mode, text)
    ensures var n := WordLength(text);
            Quote(grammar, mode, text)
            == Quote(grammar, mode.(expecting := false), text[n..]).AfterKey(text[..n])
  {
  }

  function NextMode(mode: Mode, c: char): Mode {
    if mode.inString then InsideString(mode, c) else OutsideString(mode, c)
  }

  lemma QuoteChar(grammar: set<string>, mode: Mode, text: string)
    requires |text| > 0 && !TakesKey(grammar, mode, text)
    ensures Quote(grammar, mode, text) == Quote(grammar, NextMode(mode, text[0]), text[1..]).After(text[..1])
  {
  }

  /** What is written so far, with what the scan writes from `index` on, is the whole answer. */
  ghost predicate IsProgress(
      grammar: set<string>, text: string, out: string, quoted: seq<string>, mode: Mode, index: nat)
  {
    index <= |text| &&
    var rest := Quote(grammar, mode, text[index..]);
    Quote(grammar, OUTSIDE, text) == Quoted(out + rest.out, quoted + rest.keys)
  }

  lemma {:induction false} TakeChar(
      grammar: set<string>, text: string, out: string, quoted: seq<string>, mode: Mode, index: nat)
    requires IsProgress(grammar, text, out, quoted, mode, index) && index < |text|
             && !TakesKey(grammar, mode, text[index..])
    ensures IsProgress(grammar, text, out + [text[index]], quoted,
              if mode.inString then InsideString(mode, text[index]) else OutsideString(mode, text[index]), index + 1)
  {
    var c, s := text[index], text[index..];
    var next := if mode.inString then InsideString(mode, c) else OutsideString(mode, c);
    assert s[0] == c && s[1..] == text[index + 1..] && s[..1] == [c];
    var rest := Quote(grammar, next, text[index + 1..]);
    assert Quote(grammar, mode, s) == rest.After([c]);
    assert out + ([c] + rest.out) == out + [c] + rest.out;
  }

  lemma {:induction false} TakeKey(
      grammar: set<string>, text: string, out: string, quoted: seq<string>, mode: Mode, index: nat, end: nat)
    requires IsProgress(grammar, text, out, quoted, mode, index) && index < |text|
             && TakesKey(grammar, mode, text[index..])
    requires end == index + WordLength(text[index..])
    ensures end <= |text|
    ensures IsProgress(grammar, text, out + "\"" + text[index..end] + "\"", quoted + [text[index..end]],
              mode.(expecting := false), end)
  {
    var s, word := text[index..], text[index..end];
    assert s[..end - index] == word && s[end - index..] == text[end..];
    var rest := Quote(grammar, mode.(expecting := false), text[end..]);
    QuoteKey(grammar, mode, s);
    Regroup4(out, "\"", word, "\"", rest.out);
    assert quoted + ([word] + rest.keys) == quoted + [word] + rest.keys;
  }

  lemma Regroup4<T>(a: seq<T>, b: seq<T>, c: seq<T>, d: seq<T>, e: seq<T>)
    ensures a + (b + c + d + e) == a + b + c + d + e
  {
  }

  /** Where the word at `index` ends, and whether it is a bare key there. */
  method ScanKey(grammar: set<string>, text: string, index: nat) returns (end: nat, isKey: bool)
    requires index < |text|
    ensures end == index + WordLength(text[index..]) && isKey == StartsWithKey(grammar, text[index..])
  {
    end := index;
    while end < |text| && IsKeyChar(text[end])
      invariant index <= end <= |text| && forall k :: index <= k < end ==> IsKeyChar(text[k])
    {
      end := end + 1;
    }
    var after := end;
    while after < |text| && IsSpace(text[after])
      invariant end <= after <= |text| && forall k :: end <= k < after ==> IsSpace(text[k])
    {
      after := after + 1;
    }
    KeyIs(grammar, text, index, end, after);
    isKey := text[index..end] in grammar && after < |text| && text[after] == ':';
  }

  /** One pass over the text, quoting the bare keys it meets and noting them. */
  method QuoteBareKeys(grammar: set<string>, text: string) returns (out: string, quoted: seq<string>)
    ensures Quoted(out, quoted) == Quote(grammar, OUTSIDE, text)
  {
    out, quoted := "", [];
    var mode := OUTSIDE;
    var index: nat := 0;
    assert text[0..] == text;
    while index < |text|
      invariant IsProgress(grammar, text, out, quoted, mode, index)
      decreases |text| - index
    {
      var c := text[index];
      if !mode.inString && mode.expecting && IsKeyChar(c) {
        var end, isKey := ScanKey(grammar, text, index);
        if isKey {
          TakeKey(grammar, text, out, quoted, mode, index, end);
          out, quoted := out + "\"" + text[index..end] + "\"", quoted + [text[index..end]];
          mode, index := mode.(expecting := false), end;
          continue;
        }
      }
      TakeChar(grammar, text, out, quoted, mode, index);
      out := out + [c];
      mode, index := if mode.inString then InsideString(mode, c) else OutsideString(mode, c), index + 1;
    }
    assert text[index..] == "";
  }

  lemma {:induction false} WordIs(text: string, index: nat, end: nat)
    requires index <= end <= |text| && (forall k :: index <= k < end ==> IsKeyChar(text[k]))
    requires end < |text| ==> !IsKeyChar(text[end])
    ensures WordLength(text[index..]) == end - index
  {
    assert forall k :: index <= k < |text| ==> text[k] == text[index..][k - index];
  }

  lemma {:induction false} SpaceIs(text: string, index: nat, end: nat)
    requires index <= end <= |text| && (forall k :: index <= k < end ==> IsSpace(text[k]))
    requires end < |text| ==> !IsSpace(text[end])
    ensures SpaceLength(text[index..]) == end - index
  {
    assert forall k :: index <= k < |text| ==> text[k] == text[index..][k - index];
  }

  /** A key is read off where its word and the white space after it end. */
  lemma {:induction false} KeyIs(grammar: set<string>, text: string, index: nat, end: nat, after: nat)
    requires index <= end <= after <= |text|
    requires (forall k :: index <= k < end ==> IsKeyChar(text[k])) && (end < |text| ==> !IsKeyChar(text[end]))
    requires (forall k :: end <= k < after ==> IsSpace(text[k])) && (after < |text| ==> !IsSpace(text[after]))
    ensures WordLength(text[index..]) == end - index
    ensures StartsWithKey(grammar, text[index..])
            <==> text[index..end] in grammar && after < |text| && text[after] == ':'
  {
    WordIs(text, index, end);
    SpaceIs(text, end, after);
    assert text[index..][..end - index] == text[index..end] && text[index..][end - index..] == text[end..];
    assert after < |text| ==> text[end..][after - end] == text[after];
  }
}
