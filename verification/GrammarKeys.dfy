/** The one grammar the repair is used with: the keys of a page answer. */
module GrammarKeys {
  import opened BareKeys
  import opened JsonPrint

  const TOP_FIELDS: set<string> := {"page_type", "writing", "entries", "set_aside"}
  const ACT_FIELDS: set<string> := {"n", "kind", "cites", "text", "label"}
  const CONTINUATION_FLAGS: set<string> := {"continues_from" + "_previous_page", "continues_to" + "_next_page"}
  const SET_ASIDE_FIELDS: set<string> := {"id", "reason"}
  const GRAMMAR_KEYS := TOP_FIELDS + ACT_FIELDS + CONTINUATION_FLAGS + SET_ASIDE_FIELDS

  lemma TopFieldsAreWords()
    ensures AreKeyWords(TOP_FIELDS)
  {
  }

  lemma ActFieldsAreWords()
    ensures AreKeyWords(ACT_FIELDS)
  {
  }

  lemma WordsJoin(a: string, b: string)
    requires IsWord(a) && IsWord(b) && |a + b| > 5
    ensures IsWord(a + b) && !IsLiteral(a + b)
  {
  }

  lemma ContinuationFlagsAreWords()
    ensures AreKeyWords(CONTINUATION_FLAGS)
  {
    WordsJoin("continues_from", "_previous_page");
    WordsJoin("continues_to", "_next_page");
  }

  lemma SetAsideFieldsAreWords()
    ensures AreKeyWords(SET_ASIDE_FIELDS)
  {
  }

  lemma KeysAreWords()
    ensures AreKeyWords(GRAMMAR_KEYS)
  {
    TopFieldsAreWords();
    ActFieldsAreWords();
    ContinuationFlagsAreWords();
    SetAsideFieldsAreWords();
  }

  /** The repair of a page answer undoes the loss of any of its grammar keys' quotes. */
  method RepairAnswer(pre: string, v: Value, post: string) returns (out: string, quoted: seq<string>)
    requires IsBlank(pre) && IsValue(GRAMMAR_KEYS, v) && IsBlank(post)
    ensures out == pre + Print(v, false) + post && quoted == BareKeysOf(v)
  {
    KeysAreWords();
    RepairUndoesBaring(GRAMMAR_KEYS, pre, v, post);
    out, quoted := QuoteBareKeys(GRAMMAR_KEYS, pre + Print(v, true) + post);
  }
}
