/**
 * `getJailbreak` and the shared table `special_instructions` it updates in
 * place. Every key other than "default" first has the reserved suffix text
 * appended to the content of its first instruction message, and only then is
 * the key's entry returned; a key that is missing raises before any test of
 * membership, so an unknown persona is an error rather than "no override".
 */
module Personas {
  import opened Wrappers
  import opened Messages

  /** The key that means "no persona override". */
  const DefaultKey: string := "default"
  /** The reserved key whose text is appended to a persona's first message. */
  const SuffixKey: string := "two_responses_instruction"

  /** A value of the table: a persona's instruction turns, or a plain text (the suffix). */
  datatype Entry = Persona(messages: seq<Message>) | Text(text: string)

  /** The Python exceptions the update at backend.py:134 can raise. */
  datatype LookupError = KeyError(key: string) | IndexError | TypeError

  /**
   * The update `table[key][0]['content'] += table[SuffixKey]` succeeds: the
   * key holds at least one message and the suffix key holds text.
   */
  predicate Extensible(table: map<string, Entry>, key: string)
  {
    && key in table && table[key].Persona? && |table[key].messages| > 0
    && SuffixKey in table && table[SuffixKey].Text?
  }

  /**
   * The in-place update at backend.py:134, in Python's evaluation order: the
   * key, then index 0, then `['content']` (a text entry is a `str`, whose
   * first character cannot be indexed by a string), then the suffix key, then
   * `str + str` (a list as suffix cannot be added to a `str`).
   */
  function AppendSuffix(table: map<string, Entry>, key: string): (r: Result<map<string, Entry>, LookupError>)
    ensures r.Ok? <==> Extensible(table, key)
    ensures key !in table ==> r == Err(KeyError(key))
    ensures key in table && table[key].Persona? && |table[key].messages| > 0 && SuffixKey !in table
            ==> r == Err(KeyError(SuffixKey))
    ensures r.Ok? ==>
              && r.value.Keys == table.Keys
              && (forall k :: k in table && k != key ==> r.value[k] == table[k])
              && r.value[key].Persona?
    ensures r.Ok? ==>
              var old_ms, new_ms := table[key].messages, r.value[key].messages;
              && |new_ms| == |old_ms|
              && new_ms[0] == Message(old_ms[0].role, old_ms[0].content + table[SuffixKey].text)
              && new_ms[1..] == old_ms[1..]
  {
    if key !in table then Err(KeyError(key))
    else match table[key]
      case Text(t) => if |t| == 0 then Err(IndexError) else Err(TypeError)
      case Persona(ms) =>
        if |ms| == 0 then Err(IndexError)
        else if SuffixKey !in table then Err(KeyError(SuffixKey))
        else match table[SuffixKey]
          case Persona(_) => Err(TypeError)
          case Text(suffix) =>
            var first := ms[0].(content := ms[0].content + suffix);
            Ok(table[key := Persona(ms[0 := first])])
  }

  /**
   * What `getJailbreak` returns: `None` for "default", otherwise the key's
   * entry after the update (the membership test after it always holds, so its
   * `return None` branch is never taken), or the exception the update raised.
   */
  function Lookup(table: map<string, Entry>, key: string): (r: Result<Option<seq<Message>>, LookupError>)
    ensures r == Ok(None) <==> key == DefaultKey
    ensures r.Ok? && r.value.Some? ==> |r.value.value| > 0
    ensures key != DefaultKey ==> (r.Ok? <==> Extensible(table, key))
    ensures key != DefaultKey && Extensible(table, key) ==> r == Ok(Some(TableAfter(table, key)[key].messages))
    ensures key != DefaultKey && key !in table ==> r == Err(KeyError(key))
    ensures key != DefaultKey && key in table && table[key].Persona? && |table[key].messages| > 0 && SuffixKey !in table
            ==> r == Err(KeyError(SuffixKey))
  {
    if key == DefaultKey then Ok(None)
    else match AppendSuffix(table, key)
      case Err(e) => Err(e)
      case Ok(updated) => Ok(Some(updated[key].messages))
  }

  /** The table after `getJailbreak(key)`: updated, or as it was when the update raised or for "default". */
  function TableAfter(table: map<string, Entry>, key: string): (r: map<string, Entry>)
    ensures key == DefaultKey || !Extensible(table, key) ==> r == table
    ensures r.Keys == table.Keys
  {
    if key == DefaultKey then table
    else match AppendSuffix(table, key)
      case Err(_) => table
      case Ok(updated) => updated
  }

  /** `special_instructions`, shared by every request. */
  class PersonaTable {
    var entries: map<string, Entry>

    constructor (entries: map<string, Entry>)
      ensures this.entries == entries
    {
      this.entries := entries;
    }

    /** `getJailbreak(jailbreak)` */
    method GetJailbreak(jailbreak: string) returns (r: Result<Option<seq<Message>>, LookupError>)
      modifies this
      ensures r == Lookup(old(entries), jailbreak)
      ensures entries == TableAfter(old(entries), jailbreak)
    {
      if jailbreak != DefaultKey {
        var updated := AppendSuffix(entries, jailbreak);
        if updated.Err? {
          return Err(updated.error);
        }
        entries := updated.value;
        assert jailbreak in entries;
        r := Ok(Some(entries[jailbreak].messages));
      } else {
        r := Ok(None);
      }
    }
  }

  // ---------------------------------------------------------------------------
  // Repeated lookups

  /** `s` written `n` times. */
  function Repeat(s: string, n: nat): string
  {
    if n == 0 then "" else s + Repeat(s, n - 1)
  }

  /** The table after `n` successive lookups of `key`. */
  function LookupTimes(table: map<string, Entry>, key: string, n: nat): map<string, Entry>
  {
    if n == 0 then table else LookupTimes(TableAfter(table, key), key, n - 1)
  }

  /**
   * Every lookup of a persona appends the suffix once more: after `n` lookups
   * its first message carries the suffix `n` times, every lookup still
   * succeeds, and no other entry changes.
   */
  lemma {:induction false} SuffixAccumulates(table: map<string, Entry>, key: string, n: nat)
    requires key != DefaultKey && Extensible(table, key)
    ensures var after := LookupTimes(table, key, n);
            && Extensible(after, key)
            && after.Keys == table.Keys
            && (forall k :: k in table && k != key ==> after[k] == table[k])
            && |after[key].messages| == |table[key].messages|
            && after[key].messages[0].role == table[key].messages[0].role
            && after[key].messages[0].content
               == table[key].messages[0].content + Repeat(table[SuffixKey].text, n)
            && after[key].messages[1..] == table[key].messages[1..]
  {
    if n > 0 {
      var next := TableAfter(table, key);
      assert next[SuffixKey] == table[SuffixKey];
      SuffixAccumulates(next, key, n - 1);
      var suffix := table[SuffixKey].text;
      assert (table[key].messages[0].content + suffix) + Repeat(suffix, n - 1)
             == table[key].messages[0].content + Repeat(suffix, n);
    }
  }

  /** So two lookups of the same persona return different instructions whenever the suffix is not empty. */
  lemma RepeatedLookupsDiffer(table: map<string, Entry>, key: string)
    requires key != DefaultKey && Extensible(table, key) && table[SuffixKey].text != ""
    ensures Lookup(table, key) != Lookup(TableAfter(table, key), key)
  {
    var once := TableAfter(table, key);
    var twice := TableAfter(once, key);
    assert |twice[key].messages[0].content| > |once[key].messages[0].content|;
  }
}
