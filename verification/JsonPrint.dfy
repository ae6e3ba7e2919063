/** JSON values as printed text, with chosen grammar keys left bare, and their repair. */
module JsonPrint {
  import opened BareKeys

  predicate IsBlank(s: string) {
    forall k :: 0 <= k < |s| ==> s[k] in " \t\n\r"
  }

  /** The characters of a JSON string between its quotes: every quote and backslash escaped. */
  predicate IsStringBody(s: string) {
    if |s| == 0 then true
    else if s[0] == '\\' then |s| >= 2 && IsStringBody(s[2..])
    else s[0] != '"' && IsStringBody(s[1..])
  }

  predicate IsNumberChar(c: char) {
    '0' <= c <= '9' || c == '+' || c == '-' || c == '.' || c == 'e' || c == 'E'
  }

  predicate IsLiteral(s: string) {
    s in {"true", "false", "null"}
  }

  /** Keys made of key characters, none of which reads as a literal. */
  ghost predicate AreKeyWords(grammar: set<string>) {
    forall key :: key in grammar ==> IsWord(key) && !IsLiteral(key)
  }

  predicate IsWord(key: string) {
    |key| > 0 && forall k :: 0 <= k < |key| ==> IsKeyChar(key[k])
  }

  /** A literal or a number. */
  predicate IsAtom(s: string) {
    || IsLiteral(s)
    || (|s| > 0 && ('0' <= s[0] <= '9' || s[0] == '-') && forall k :: 0 <= k < |s| ==> IsNumberChar(s[k]))
  }

  /** A JSON value as laid out: `pre` and the other blanks are the white space written there,
      and `bare` says whether a key lost its quotes. */
  datatype Value =
    | Text(body: string)
    | Atom(chars: string)
    | Empty(open: char, inner: string, close: char)
    | Array(items: Items)
    | Object(members: Members)

  datatype Items =
    | LastItem(pre: string, value: Value, post: string)
    | Item(pre: string, value: Value, post: string, rest: Items)

  datatype Members =
    | LastMember(pre: string, key: string, bare: bool, mid: string, gap: string, value: Value, post: string)
    | Member(pre: string, key: string, bare: bool, mid: string, gap: string, value: Value, post: string, rest: Members)

  predicate IsMember(
      grammar: set<string>, pre: string, key: string, bare: bool, mid: string, gap: string, post: string)
  {
    IsBlank(pre) && IsBlank(mid) && IsBlank(gap) && IsBlank(post) && if bare then key in grammar else IsStringBody(key)
  }

  predicate IsValue(grammar: set<string>, v: Value) {
    match v
    case Text(body) => IsStringBody(body)
    case Atom(chars) => IsAtom(chars)
    case Empty(open, inner, close) => ((open == '[' && close == ']') || (open == '{' && close == '}')) && IsBlank(inner)
    case Array(items) => AreItems(grammar, items)
    case Object(members) => AreMembers(grammar, members)
  }

  predicate AreItems(grammar: set<string>, items: Items) {
    match items
    case LastItem(pre, v, post) => IsBlank(pre) && IsValue(grammar, v) && IsBlank(post)
    case Item(pre, v, post, rest) => IsBlank(pre) && IsValue(grammar, v) && IsBlank(post) && AreItems(grammar, rest)
  }

  predicate AreMembers(grammar: set<string>, members: Members) {
    match members
    case LastMember(pre, key, bare, mid, gap, v, post) =>
      && IsMember(grammar, pre, key, bare, mid, gap, post)
      && IsValue(grammar, v)
    case Member(pre, key, bare, mid, gap, v, post, rest) =>
      && IsMember(grammar, pre, key, bare, mid, gap, post)
      && IsValue(grammar, v) && AreMembers(grammar, rest)
  }

  function InQuotes(s: string): string {
    "\"" + s + "\""
  }

  /** The text as the reply wrote it (`asSent`), or with every key quoted. */
  function Print(v: Value, asSent: bool): string {
    match v
    case Text(body) => InQuotes(body)
    case Atom(chars) => chars
    case Empty(open, inner, close) => [open] + inner + [close]
    case Array(items) => "[" + PrintItems(items, asSent) + "]"
    case Object(members) => "{" + PrintMembers(members, asSent) + "}"
  }

  function PrintItems(items: Items, asSent: bool): string {
    match items
    case LastItem(pre, v, post) => pre + Print(v, asSent) + post
    case Item(pre, v, post, rest) => pre + Print(v, asSent) + post + ("," + PrintItems(rest, asSent))
  }

  function PrintKey(key: string, bare: bool, asSent: bool): string {
    if bare && asSent then key else InQuotes(key)
  }

  function PrintMembers(members: Members, asSent: bool): string {
    match members
    case LastMember(pre, key, bare, mid, gap, v, post) =>
      pre + PrintKey(key, bare, asSent) + (mid + ":" + (gap + Print(v, asSent) + post))
    case Member(pre, key, bare, mid, gap, v, post, rest) =>
      pre + PrintKey(key, bare,
        asSent) + (mid + ":" + (gap + Print(v, asSent) + post)) + ("," + PrintMembers(rest, asSent))
  }

  /** The bared keys, in the order they stand. */
  function BareKeysOf(v: Value): seq<string> {
    match v
    case Array(items) => BareKeysOfItems(items)
    case Object(members) => BareKeysOfMembers(members)
    case _ => []
  }

  function BareKeysOfItems(items: Items): seq<string> {
    match items
    case LastItem(_, v, _) => BareKeysOf(v)
    case Item(_, v, _, rest) => BareKeysOf(v) + BareKeysOfItems(rest)
  }

  function KeyOf(key: string, bare: bool): seq<string> {
    if bare then [key] else []
  }

  function BareKeysOfMembers(members: Members): seq<string> {
    match members
    case LastMember(_, key, bare, _, _, v, _) => KeyOf(key, bare) + BareKeysOf(v)
    case Member(_, key, bare, _, _, v, _, rest) => KeyOf(key, bare) + BareKeysOf(v) + BareKeysOfMembers(rest)
  }

  // --- how the scan passes over one piece of text ------------------------------------------

  /** The scan of `sent` before `rest` writes `out`, notes `keys`, and goes on expecting
      a key or not as `after` says. */
  ghost predicate Passes(
      grammar: set<string>, mode: Mode, sent: string, out: string, keys: seq<string>, after: Mode, rest: string)
  {
    Quote(grammar, mode, sent + rest)
      == Quoted(out + Quote(grammar, after, rest).out, keys + Quote(grammar, after, rest).keys)
  }

  lemma {:induction false} PassesThen(
      grammar: set<string>, mode: Mode, a: string, aOut: string, aKeys: seq<string>, middle: Mode, b: string,
      bOut: string, bKeys: seq<string>, after: Mode, rest: string)
    requires Passes(grammar, mode, a, aOut, aKeys, middle, b + rest)
    requires Passes(grammar, middle, b, bOut, bKeys, after, rest)
    ensures Passes(grammar, mode, a + b, aOut + bOut, aKeys + bKeys, after, rest)
  {
    assert a + b + rest == a + (b + rest);
    var q := Quote(grammar, after, rest);
    assert aOut + (bOut + q.out) == aOut + bOut + q.out;
    assert aKeys + (bKeys + q.keys) == aKeys + bKeys + q.keys;
  }

  /** A character no key starts at. */
  lemma {:induction false} PassChar(grammar: set<string>, mode: Mode, c: char, rest: string)
    requires !TakesKey(grammar, mode, [c] + rest)
    ensures Passes(grammar, mode, [c], [c], [],
              if mode.inString then InsideString(mode, c) else OutsideString(mode, c), rest)
  {
    var s := [c] + rest;
    assert s[1..] == rest && s[..1] == [c];
  }

  lemma {:induction false} PassBlank(grammar: set<string>, mode: Mode, blank: string, rest: string)
    requires IsBlank(blank) && !mode.inString
    ensures Passes(grammar, mode, blank, blank, [], mode, rest)
    decreases |blank|
  {
    if |blank| == 0 {
      assert blank + rest == rest;
    } else {
      PassChar(grammar, mode, blank[0], blank[1..] + rest);
      PassBlank(grammar, mode, blank[1..], rest);
      PassesThen(grammar, mode, [blank[0]], [blank[0]], [], mode, blank[1..], blank[1..], [], mode, rest);
      assert [blank[0]] + blank[1..] == blank;
    }
  }

  lemma {:induction false} PassBody(grammar: set<string>, mode: Mode, body: string, rest: string)
    requires IsStringBody(body) && mode.inString && !mode.escaped
    ensures Passes(grammar, mode, body, body, [], mode, rest)
    decreases |body|
  {
    if |body| == 0 {
      assert body + rest == rest;
    } else if body[0] == '\\' {
      var two := body[2..];
      PassChar(grammar, mode, body[0], body[1..] + rest);
      var escaped := mode.(escaped := true);
      PassChar(grammar, escaped, body[1], two + rest);
      PassBody(grammar, mode, two, rest);
      PassesThen(grammar, escaped, [body[1]], [body[1]], [], mode, two, two, [], mode, rest);
      assert [body[1]] + two == body[1..];
      PassesThen(grammar, mode, [body[0]], [body[0]], [], escaped, body[1..], body[1..], [], mode, rest);
      assert [body[0]] + body[1..] == body;
    } else {
      PassChar(grammar, mode, body[0], body[1..] + rest);
      PassBody(grammar, mode, body[1..], rest);
      PassesThen(grammar, mode, [body[0]], [body[0]], [], mode, body[1..], body[1..], [], mode, rest);
      assert [body[0]] + body[1..] == body;
    }
  }

  lemma {:induction false} PassQuoted(grammar: set<string>, mode: Mode, body: string, rest: string)
    requires IsStringBody(body) && !mode.inString && !mode.escaped
    ensures Passes(grammar, mode, InQuotes(body), InQuotes(body), [], OUTSIDE, rest)
  {
    var inside := Mode(true, false, false);
    PassChar(grammar, mode, '"', body + "\"" + rest);
    PassBody(grammar, inside, body, "\"" + rest);
    PassChar(grammar, inside, '"', rest);
    PassesThen(grammar, inside, body, body, [], inside, "\"", "\"", [], OUTSIDE, rest);
    assert body + "\"" + rest == (body + "\"") + rest;
    PassesThen(grammar, mode, "\"", "\"", [], inside, body + "\"", body + "\"", [], OUTSIDE, rest);
    assert "\"" + (body + "\"") == InQuotes(body);
  }

  /** Punctuation: only an opening brace and a comma make the scan expect a key. */
  lemma {:induction false} PassMark(grammar: set<string>, mode: Mode, c: char, rest: string)
    requires !mode.inString && !mode.escaped && c in {'[', ']', '{', '}', ',', ':'}
    ensures Passes(grammar, mode, [c], [c], [], if c == '{' || c == ',' then EXPECTING else OUTSIDE, rest)
  {
    PassChar(grammar, mode, c, rest);
  }

  /** What may follow a value: nothing that could lengthen its last word. */
  predicate EndsWord(rest: string) {
    |rest| == 0 || !IsKeyChar(rest[0])
  }

  /** Characters with no quote, brace or comma, once no key is expected. */
  lemma {:induction false} PassPlain(grammar: set<string>, s: string, rest: string)
    requires forall k :: 0 <= k < |s| ==> s[k] != '"' && s[k] != '{' && s[k] != ','
    ensures Passes(grammar, OUTSIDE, s, s, [], OUTSIDE, rest)
    decreases |s|
  {
    if |s| == 0 {
      assert s + rest == rest;
    } else {
      PassChar(grammar, OUTSIDE, s[0], s[1..] + rest);
      PassPlain(grammar, s[1..], rest);
      PassesThen(grammar, OUTSIDE, [s[0]], [s[0]], [], OUTSIDE, s[1..], s[1..], [], OUTSIDE, rest);
      assert [s[0]] + s[1..] == s;
    }
  }

  lemma {:induction false} WordOf(word: string, rest: string)
    requires (forall k :: 0 <= k < |word| ==> IsKeyChar(word[k])) && EndsWord(rest)
    ensures WordLength(word + rest) == |word| && (word + rest)[..|word|] == word && (word + rest)[|word|..] == rest
  {
    WordIs(word + rest, 0, |word|);
    assert (word + rest)[0..] == word + rest;
  }

  lemma LiteralsAreWords(chars: string)
    requires IsLiteral(chars)
    ensures IsWord(chars)
  {
    assert |chars| == 4 || |chars| == 5;
    assert chars[0] in {'t', 'f', 'n'} && chars[1] in {'r', 'a', 'u'};
  }

  lemma {:induction false} AtomIsPlain(grammar: set<string>, mode: Mode, chars: string, rest: string)
    requires AreKeyWords(grammar)
    requires IsAtom(chars) && EndsWord(rest)
    ensures |chars| > 0 && !TakesKey(grammar, mode, chars + rest)
    ensures forall k :: 0 <= k < |chars| ==> chars[k] != '"' && chars[k] != '{' && chars[k] != ',' && !IsSpace(chars[k])
  {
    assert (chars + rest)[0] == chars[0];
    if IsLiteral(chars) {
      LiteralsAreWords(chars);
      WordOf(chars, rest);
    }
  }

  lemma {:induction false} PassAtom(grammar: set<string>, mode: Mode, chars: string, rest: string)
    requires AreKeyWords(grammar)
    requires IsAtom(chars) && !mode.inString && !mode.escaped && EndsWord(rest)
    ensures Passes(grammar, mode, chars, chars, [], OUTSIDE, rest)
  {
    AtomIsPlain(grammar, mode, chars, rest);
    assert [chars[0]] + (chars[1..] + rest) == chars + rest;
    PassChar(grammar, mode, chars[0], chars[1..] + rest);
    PassPlain(grammar, chars[1..], rest);
    PassesThen(grammar, mode, [chars[0]], [chars[0]], [], OUTSIDE, chars[1..], chars[1..], [], OUTSIDE, rest);
    assert [chars[0]] + chars[1..] == chars;
  }

  lemma {:induction false} PassBareKey(grammar: set<string>, key: string, mid: string, rest: string)
    requires AreKeyWords(grammar)
    requires key in grammar && IsBlank(mid)
    ensures Passes(grammar, EXPECTING, key, InQuotes(key), [key], OUTSIDE, mid + ":" + rest)
  {
    var tail := mid + ":" + rest;
    assert IsWord(key);
    assert tail[0] == if |mid| > 0 then mid[0] else ':';
    WordOf(key, tail);
    SpaceIs(tail, 0, |mid|);
    assert tail[0..] == tail && tail[|mid|] == ':';
    assert (key + tail)[0] == key[0];
    assert TakesKey(grammar, EXPECTING, key + tail);
  }

  // --- values ------------------------------------------------------------------------------

  lemma {:induction false} PassKey(grammar: set<string>, key: string, bare: bool, mid: string, rest: string)
    requires AreKeyWords(grammar)
    requires (if bare then key in grammar else IsStringBody(key)) && IsBlank(mid)
    ensures Passes(grammar, EXPECTING, PrintKey(key, bare, true), PrintKey(key, bare, false), KeyOf(key, bare),
              OUTSIDE, mid + ":" + rest)
  {
    if bare { PassBareKey(grammar, key, mid, rest); } else { PassQuoted(grammar, EXPECTING, key, mid + ":" + rest); }
  }

  /** A blank, a value and a blank, as an item or after a colon. */
  lemma {:induction false} PassPadded(
      grammar: set<string>, mode: Mode, pre: string, v: Value, post: string, rest: string)
    requires AreKeyWords(grammar)
    requires !mode.inString && !mode.escaped && IsBlank(pre) && IsValue(grammar, v) && IsBlank(post) && EndsWord(rest)
    ensures Passes(grammar, mode, pre + Print(v, true) + post, pre + Print(v, false) + post, BareKeysOf(v),
              OUTSIDE, rest)
    decreases v, 1
  {
    var tail := post + rest;
    assert EndsWord(tail) by { if |post| > 0 { assert tail[0] == post[0] && IsSpace(post[0]); } }
    PassBlank(grammar, mode, pre, Print(v, true) + tail);
    PassValue(grammar, mode, v, tail);
    PassBlank(grammar, OUTSIDE, post, rest);
    PassesThen(grammar, mode, pre, pre, [], mode, Print(v, true), Print(v, false), BareKeysOf(v), OUTSIDE, tail);
    PassesThen(grammar, mode, pre + Print(v, true), pre + Print(v, false), [] + BareKeysOf(v), OUTSIDE, post,
      post, [], OUTSIDE, rest);
    assert [] + BareKeysOf(v) + [] == BareKeysOf(v);
  }

  /** From the blank after a key to the end of its value. */
  lemma {:induction false} PassAfterKey(
      grammar: set<string>, mid: string, gap: string, v: Value, post: string, rest: string)
    requires AreKeyWords(grammar)
    requires IsBlank(mid) && IsBlank(gap) && IsBlank(post) && IsValue(grammar, v) && EndsWord(rest)
    ensures Passes(grammar, OUTSIDE, mid + ":" + (gap + Print(v, true) + post),
              mid + ":" + (gap + Print(v, false) + post), BareKeysOf(v), OUTSIDE, rest)
    decreases v, 2
  {
    var sent, out := gap + Print(v, true) + post, gap + Print(v, false) + post;
    PassPadded(grammar, OUTSIDE, gap, v, post, rest);
    PassMark(grammar, OUTSIDE, ':', sent + rest);
    PassBlank(grammar, OUTSIDE, mid, ":" + (sent + rest));
    PassesThen(grammar, OUTSIDE, mid, mid, [], OUTSIDE, ":", ":", [], OUTSIDE, sent + rest);
    PassesThen(grammar, OUTSIDE, mid + ":", mid + ":", [] + [], OUTSIDE, sent, out, BareKeysOf(v), OUTSIDE, rest);
    assert [] + [] + BareKeysOf(v) == BareKeysOf(v);
  }

  /** A member: its key quoted, its value passed. */
  lemma {:induction false} PassMember(
      grammar: set<string>, pre: string, key: string, bare: bool, mid: string, gap: string, v: Value,
      post: string, rest: string)
    requires AreKeyWords(grammar)
    requires IsMember(grammar, pre, key, bare, mid, gap, post) && IsValue(grammar, v) && EndsWord(rest)
    ensures Passes(grammar, EXPECTING,
              pre + PrintKey(key, bare, true) + (mid + ":" + (gap + Print(v, true) + post)),
              pre + PrintKey(key, bare, false) + (mid + ":" + (gap + Print(v, false) + post)),
              KeyOf(key, bare) + BareKeysOf(v), OUTSIDE, rest)
    decreases v, 3
  {
    var sent, out := gap + Print(v, true) + post, gap + Print(v, false) + post;
    var key1, key0 := PrintKey(key, bare, true), PrintKey(key, bare, false);
    var tail1, tail0 := mid + ":" + sent, mid + ":" + out;
    PassAfterKey(grammar, mid, gap, v, post, rest);
    PassKey(grammar, key, bare, mid, sent + rest);
    assert mid + ":" + (sent + rest) == tail1 + rest;
    PassBlank(grammar, EXPECTING, pre, key1 + (tail1 + rest));
    PassesThen(grammar, EXPECTING, pre, pre, [], EXPECTING, key1, key0, KeyOf(key, bare), OUTSIDE, tail1 + rest);
    PassesThen(grammar, EXPECTING, pre + key1, pre + key0, [] + KeyOf(key, bare), OUTSIDE, tail1, tail0,
      BareKeysOf(v), OUTSIDE, rest);
    assert [] + KeyOf(key, bare) == KeyOf(key, bare);
  }

  lemma {:induction false} PassMembers(grammar: set<string>, members: Members, rest: string)
    requires AreKeyWords(grammar)
    requires AreMembers(grammar, members) && EndsWord(rest)
    ensures Passes(grammar, EXPECTING, PrintMembers(members, true), PrintMembers(members, false),
              BareKeysOfMembers(members), OUTSIDE, rest)
    decreases members, 4
  {
    match members
    case LastMember(pre, key, bare, mid, gap, v, post) =>
      PassMember(grammar, pre, key, bare, mid, gap, v, post, rest);
    case Member(pre, key, bare, mid, gap, v, post, more) =>
      var more1, more0 := PrintMembers(more, true), PrintMembers(more, false);
      var sent := pre + PrintKey(key, bare, true) + (mid + ":" + (gap + Print(v, true) + post));
      var out := pre + PrintKey(key, bare, false) + (mid + ":" + (gap + Print(v, false) + post));
      var keys := KeyOf(key, bare) + BareKeysOf(v);
      PassMember(grammar, pre, key, bare, mid, gap, v, post, ("," + more1) + rest);
      PassMembers(grammar, more, rest);
      PassMark(grammar, OUTSIDE, ',', more1 + rest);
      PassesThen(grammar, OUTSIDE, ",", ",", [], EXPECTING, more1, more0, BareKeysOfMembers(more), OUTSIDE, rest);
      PassesThen(grammar, EXPECTING, sent, out, keys, OUTSIDE, "," + more1, "," + more0,
        [] + BareKeysOfMembers(more), OUTSIDE, rest);
      assert sent + ("," + more1) == PrintMembers(members, true) && out + ("," + more0) == PrintMembers(members, false);
      assert keys + ([] + BareKeysOfMembers(more)) == BareKeysOfMembers(members);
  }

  /** Items: after a comma a key is expected here too, and no value is taken for one. */
  lemma {:induction false} PassItems(grammar: set<string>, mode: Mode, items: Items, rest: string)
    requires AreKeyWords(grammar)
    requires AreItems(grammar, items) && EndsWord(rest) && !mode.inString && !mode.escaped
    ensures Passes(grammar, mode, PrintItems(items, true), PrintItems(items, false), BareKeysOfItems(items),
              OUTSIDE, rest)
    decreases items, 4
  {
    match items
    case LastItem(pre, v, post) => PassPadded(grammar, mode, pre, v, post, rest);
    case Item(pre, v, post, more) =>
      var more1, more0 := PrintItems(more, true), PrintItems(more, false);
      var sent, out := pre + Print(v, true) + post, pre + Print(v, false) + post;
      PassPadded(grammar, mode, pre, v, post, ("," + more1) + rest);
      PassItems(grammar, EXPECTING, more, rest);
      PassMark(grammar, OUTSIDE, ',', more1 + rest);
      PassesThen(grammar, OUTSIDE, ",", ",", [], EXPECTING, more1, more0, BareKeysOfItems(more), OUTSIDE, rest);
      PassesThen(grammar, mode, sent, out, BareKeysOf(v), OUTSIDE, "," + more1, "," + more0,
        [] + BareKeysOfItems(more), OUTSIDE, rest);
      assert sent + ("," + more1) == PrintItems(items, true) && out + ("," + more0) == PrintItems(items, false);
      assert BareKeysOf(v) + ([] + BareKeysOfItems(more)) == BareKeysOfItems(items);
  }

  /** Text between two marks. */
  lemma {:induction false} PassBracketed(
      grammar: set<string>, mode: Mode, open: char, sent: string, out: string, keys: seq<string>, last: Mode,
      close: char, rest: string)
    requires !mode.inString && !mode.escaped && open in {'[', '{'} && close in {']', '}'}
    requires !last.inString && !last.escaped
    requires Passes(grammar, if open == '{' then EXPECTING else OUTSIDE, sent, out, keys, last, [close] + rest)
    ensures Passes(grammar, mode, [open] + sent + [close], [open] + out + [close], keys, OUTSIDE, rest)
  {
    var inner := if open == '{' then EXPECTING else OUTSIDE;
    PassMark(grammar, mode, open, (sent + [close]) + rest);
    PassMark(grammar, last, close, rest);
    PassesThen(grammar, inner, sent, out, keys, last, [close], [close], [], OUTSIDE, rest);
    PassesThen(grammar, mode, [open], [open], [], inner, sent + [close], out + [close], keys + [], OUTSIDE, rest);
    assert [open] + (sent + [close]) == [open] + sent + [close] && [open] + (out + [close]) == [open] + out + [close];
    assert [] + (keys + []) == keys;
  }

  lemma {:induction false} PassValue(grammar: set<string>, mode: Mode, v: Value, rest: string)
    requires AreKeyWords(grammar)
    requires IsValue(grammar, v) && EndsWord(rest) && !mode.inString && !mode.escaped
    ensures Passes(grammar, mode, Print(v, true), Print(v, false), BareKeysOf(v), OUTSIDE, rest)
    decreases v, 0
  {
    match v
    case Text(body) => PassQuoted(grammar, mode, body, rest);
    case Atom(chars) => PassAtom(grammar, mode, chars, rest);
    case Empty(open, inner, close) =>
      var inside := if open == '{' then EXPECTING else OUTSIDE;
      PassBlank(grammar, inside, inner, [close] + rest);
      PassBracketed(grammar, mode, open, inner, inner, [], inside, close, rest);
    case Array(items) =>
      PassItems(grammar, OUTSIDE, items, "]" + rest);
      PassBracketed(grammar, mode,
        '[', PrintItems(items, true), PrintItems(items, false), BareKeysOfItems(items), OUTSIDE, ']', rest);
    case Object(members) =>
      PassMembers(grammar, members, "}" + rest);
      PassBracketed(grammar, mode,
        '{', PrintMembers(members, true), PrintMembers(members, false), BareKeysOfMembers(members), OUTSIDE, '}', rest);
  }

  /** Any JSON value, laid out with any white space and with any of its grammar keys left
      bare, is repaired to exactly its fully quoted text, the bared keys noted in order. */
  lemma {:induction false} RepairUndoesBaring(grammar: set<string>, pre: string, v: Value, post: string)
    requires AreKeyWords(grammar)
    requires IsBlank(pre) && IsValue(grammar, v) && IsBlank(post)
    ensures Quote(grammar, OUTSIDE, pre + Print(v, true) + post) == Quoted(pre + Print(v, false) + post, BareKeysOf(v))
  {
    PassPadded(grammar, OUTSIDE, pre, v, post, "");
    assert pre + Print(v, true) + post + "" == pre + Print(v, true) + post;
    assert pre + Print(v, false) + post + "" == pre + Print(v, false) + post;
    assert BareKeysOf(v) + [] == BareKeysOf(v);
  }
}
