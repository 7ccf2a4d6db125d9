/**
  Context assembly (the `/context/build` handler): the prompt messages built
  from the profile and a stored chat. An optional system message summarises
  traits and facts; the chat's messages follow verbatim; an optional new
  user message comes last.
*/
module Context {
  import opened Wrappers
  import opened Text
  import opened Types

  datatype ContextResult = NotFound | Built(messages: seq<ContextMessage>)

  /** The profile contributes a system message. */
  predicate HasSummary(profile: Profile)
  {
    |profile.traits| > 0 || |profile.facts| > 0
  }

  /** The non-empty summary lines, traits first. */
  function SummaryLines(profile: Profile): (lines: seq<string>)
    ensures |lines| > 0 <==> HasSummary(profile)
  {
    (if |profile.traits| > 0 then ["Traits: " + Join(profile.traits, ", ")] else [])
    + (if |profile.facts| > 0 then ["Facts: " + Join(profile.facts, ", ")] else [])
  }

  function SystemPart(profile: Profile): seq<ContextMessage>
  {
    var lines := SummaryLines(profile);
    if |lines| > 0 then [ContextMessage(System, Join(lines, "\n"))] else []
  }

  /** An absent or empty new message adds nothing. */
  function NewPart(newUserMessage: Option<string>): seq<ContextMessage>
  {
    if newUserMessage.Some? && newUserMessage.value != "" then [ContextMessage(User, newUserMessage.value)] else []
  }

  function Copied(m: Message): ContextMessage
  {
    ContextMessage(m.role, m.content)
  }

  function History(messages: seq<Message>): seq<ContextMessage>
  {
    seq(|messages|, i requires 0 <= i < |messages| => Copied(messages[i]))
  }

  /** The messages of the context, in order. */
  function ContextMessages(profile: Profile, messages: seq<Message>, newUserMessage: Option<string>): seq<ContextMessage>
  {
    SystemPart(profile) + History(messages) + NewPart(newUserMessage)
  }

  /** What the handler answers for a chat that may be missing. */
  function BuildContextSpec(profile: Profile, chat: Option<Chat>, newUserMessage: Option<string>): ContextResult
  {
    match chat
    case None => NotFound
    case Some(c) => Built(ContextMessages(profile, c.messages, newUserMessage))
  }

  // ---- the layout of the context ----

  /** The context is: a system message exactly when the profile has traits or
      facts, then every stored message with its role and content, then the
      new message exactly when it is present and non-empty. */
  lemma ContextLayout(profile: Profile, messages: seq<Message>, newUserMessage: Option<string>)
    ensures var r := ContextMessages(profile, messages, newUserMessage);
      var sys := if HasSummary(profile) then 1 else 0;
      var extra := if newUserMessage.Some? && newUserMessage.value != "" then 1 else 0;
      && |r| == sys + |messages| + extra
      && (HasSummary(profile) ==> r[0] == SystemPart(profile)[0] && r[0].role == System)
      && (forall i :: 0 <= i < |messages| ==>
            r[sys + i].role == messages[i].role && r[sys + i].content == messages[i].content)
      && (extra == 1 ==> r[|r| - 1] == ContextMessage(User, newUserMessage.value))
  {
    var sys, hist, last := SystemPart(profile), History(messages), NewPart(newUserMessage);
    var r := ContextMessages(profile, messages, newUserMessage);
    assert r == sys + hist + last;
    assert |sys| == if HasSummary(profile) then 1 else 0 by {
      assert |SummaryLines(profile)| > 0 <==> HasSummary(profile);
    }
    assert |hist| == |messages|;
    if HasSummary(profile) {
      assert r[0] == sys[0];
    }
    forall i | 0 <= i < |messages| ensures r[|sys| + i] == Copied(messages[i]) {
      assert r[|sys| + i] == hist[i];
    }
    if newUserMessage.Some? && newUserMessage.value != "" {
      assert r[|r| - 1] == last[0];
    }
  }

  /** The system message's text: one line per non-empty list, items joined
      by ", ", lines joined by a newline. */
  lemma SummaryText(profile: Profile)
    requires HasSummary(profile)
    ensures var text := SystemPart(profile)[0].content;
      && (|profile.traits| > 0 && |profile.facts| > 0 ==>
            text == "Traits: " + Join(profile.traits, ", ") + "\n" + "Facts: " + Join(profile.facts, ", "))
      && (|profile.traits| > 0 && |profile.facts| == 0 ==> text == "Traits: " + Join(profile.traits, ", "))
      && (|profile.traits| == 0 && |profile.facts| > 0 ==> text == "Facts: " + Join(profile.facts, ", "))
  {
    var lines := SummaryLines(profile);
    if |profile.traits| > 0 && |profile.facts| > 0 {
      assert lines == ["Traits: " + Join(profile.traits, ", "), "Facts: " + Join(profile.facts, ", ")];
      assert lines[1..] == ["Facts: " + Join(profile.facts, ", ")];
      assert Join(lines, "\n") == lines[0] + "\n" + lines[1];
    }
  }

  /** Performs the handler: a missing chat is reported; otherwise the
      messages are pushed one by one. */
  method BuildContext(profile: Profile, chat: Option<Chat>, newUserMessage: Option<string>) returns (r: ContextResult)
    ensures r == BuildContextSpec(profile, chat, newUserMessage)
  {
    if chat.None? {
      return NotFound;
    }
    var history := chat.value.messages;
    var lines: seq<string> := [];
    if |profile.traits| > 0 {
      lines := lines + ["Traits: " + Join(profile.traits, ", ")];
    }
    if |profile.facts| > 0 {
      lines := lines + ["Facts: " + Join(profile.facts, ", ")];
    }
    var messages: seq<ContextMessage> := [];
    if |lines| > 0 {
      messages := messages + [ContextMessage(System, Join(lines, "\n"))];
    }
    assert messages == SystemPart(profile);
    for i := 0 to |history|
      invariant messages == SystemPart(profile) + History(history[..i])
    {
      assert History(history[..i + 1]) == History(history[..i]) + [Copied(history[i])];
      messages := messages + [ContextMessage(history[i].role, history[i].content)];
    }
    assert history[..|history|] == history;
    if newUserMessage.Some? && newUserMessage.value != "" {
      messages := messages + [ContextMessage(User, newUserMessage.value)];
    }
    r := Built(messages);
  }

  // ---- the documented examples ----

  /** A profile with one trait and one fact, a chat holding "Hola", and a new
      message: system first, then the history, then the new message. */
  lemma ProfileAndHistoryExample(ts: int, updatedAt: int)
    ensures var profile := Profile("default", ["directo"], ["prefiere español"], updatedAt);
      var r := ContextMessages(profile, [Message("u1", User, "Hola", ts)], Some("¿Cómo estás?"));
      && |r| == 3
      && r[0] == ContextMessage(System, "Traits: directo\nFacts: prefiere español")
      && r[1].content == "Hola"
      && r[2].content == "¿Cómo estás?"
  {
    var profile := Profile("default", ["directo"], ["prefiere español"], updatedAt);
    var messages := [Message("u1", User, "Hola", ts)];
    var r := ContextMessages(profile, messages, Some("¿Cómo estás?"));
    assert HasSummary(profile);
    assert SystemPart(profile)[0] == ContextMessage(System, "Traits: directo\nFacts: prefiere español") by {
      SummaryText(profile);
      assert Join(profile.traits, ", ") == "directo";
      assert Join(profile.facts, ", ") == "prefiere español";
      ExampleSummaryLiteral();
    }
    ContextLayout(profile, messages, Some("¿Cómo estás?"));
    assert r[1].content == messages[0].content;
  }

  lemma ExampleSummaryLiteral()
    ensures "Traits: " + "directo" + "\n" + "Facts: " + "prefiere español" == "Traits: directo\nFacts: prefiere español"
  {
  }

  /** An empty profile adds no system message. */
  lemma EmptyProfileExample(ts: int, updatedAt: int)
    ensures ContextMessages(Profile("default", [], [], updatedAt), [Message("m", User, "Hi", ts)], None)
      == [ContextMessage(User, "Hi")]
  {
    assert History([Message("m", User, "Hi", ts)]) == [ContextMessage(User, "Hi")];
  }
}
