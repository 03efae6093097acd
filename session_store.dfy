/**
  Persisting the bot client's session string after start-up: the file is rewritten
  only when the live session differs from the saved one, and it holds one exported
  string constant that the next start imports as `savedSession`.
 */
module SessionStore {
  import opened Wrappers

  /** The generated source text around the session string. */
  const Prefix: string := "export const savedSession = \""
  const Suffix: string := "\";"

  /** The content template of `session.ts` for a session string. */
  function SessionFile(session: string): (content: string)
    ensures |content| == |Prefix| + |session| + |Suffix|
    ensures content[..|Prefix|] == Prefix
    ensures content[|Prefix|..|Prefix| + |session|] == session
    ensures content[|Prefix| + |session|..] == Suffix
  {
    Prefix + session + Suffix
  }

  /** The persist decision: the content to write when the live session differs
      from the saved one, and nothing otherwise. */
  function PersistSession(current: string, saved: string): (write: Option<string>)
    ensures write.Some? <==> current != saved
    ensures write.Some? ==> write.value == SessionFile(current)
  {
    if current != saved then Some(SessionFile(current)) else None
  }

  /** A string that stands in a double-quoted literal as it is: no quote, backslash or line end. */
  predicate PlainLiteral(s: string)
  {
    '"' !in s && '\\' !in s && '\n' !in s && '\r' !in s
  }

  /** What importing a file of the generated shape yields as `savedSession`:
      the literal's text, when it needs no escape; nothing for any other file. */
  function LoadSession(content: string): (saved: Option<string>)
    ensures saved.Some? ==> PlainLiteral(saved.value) && SessionFile(saved.value) == content
  {
    if |Prefix| + |Suffix| <= |content|
      && content[..|Prefix|] == Prefix
      && content[|content| - |Suffix|..] == Suffix
    then
      var body := content[|Prefix|..|content| - |Suffix|];
      assert Prefix + body + Suffix == content;
      if PlainLiteral(body) then Some(body) else None
    else None
  }

  /** The written file reads back as the session it was written for, and the next
      decision against it writes nothing: a session is persisted once per change. */
  lemma PersistThenLoad(current: string, saved: string)
    requires current != saved && PlainLiteral(current)
    ensures PersistSession(current, saved).Some?
    ensures LoadSession(PersistSession(current, saved).value) == Some(current)
    ensures PersistSession(current, LoadSession(PersistSession(current, saved).value).value) == None
  {
    var content := SessionFile(current);
    assert content[|Prefix|..|content| - |Suffix|] == current;
  }

  /** A file whose session needs escaping does not read back: the template writes
      the session between the quotes without escaping it. */
  lemma UnescapedQuoteDoesNotLoad(current: string)
    requires '"' in current
    ensures LoadSession(SessionFile(current)).None?
  {
    var content := SessionFile(current);
    assert content[|Prefix|..|content| - |Suffix|] == current;
  }
}
