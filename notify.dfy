/**
 * The desktop-notification plugin: on "agent finished" it takes the text of
 * the last assistant message in the transcript, turns it into a short
 * title/body pair and frames that pair as an OSC 777 notify escape sequence
 * (the convention of rxvt-unicode, also read by Ghostty, iTerm2 and WezTerm).
 */
module Notify {
  import opened Wrappers
  import opened JsStrings

  /** One element of an array content: an object with optional `type` and `text` fields, or not an object at all. */
  datatype Part = PartObject(kind: Option<string>, text: Option<string>) | NonObject

  /** The `content` of a message: a string, an array of parts, or anything else (including absent). */
  datatype Content = Str(s: string) | Parts(parts: seq<Part>) | Other

  /** A transcript entry; `role` is absent when the entry has none. */
  datatype Message = Message(role: Option<string>, content: Content)

  datatype Notification = Notification(title: string, body: string)

  const AssistantRole: string := "assistant"
  const TextKind: string := "text"
  const PartSeparator: string := "\n"
  const ReadyTitle: string := "Ready for input"
  const AgentTitle: string := "\U{03C0}"
  const MaxBody: nat := 200
  const Ellipsis: char := '\U{2026}'

  /** `message?.role === "assistant"`: a message without a role is never the assistant's. */
  predicate IsAssistant(m: Message): (b: bool)
    ensures m.role.None? ==> !b
    ensures b ==> m.role.value == AssistantRole
  {
    m.role == Some(AssistantRole)
  }

  /** `isTextPart`: an object whose `type` is "text" and which has a `text` field. */
  predicate IsTextPart(p: Part): (b: bool)
    ensures p.NonObject? ==> !b
    // the type guard's promise `part is { type: "text"; text: string }`
    ensures b ==> p.kind == Some(TextKind) && p.text.Some?
  {
    p.PartObject? && p.kind == Some(TextKind) && p.text.Some?
  }

  /** `content.filter(isTextPart).map((part) => part.text)`. */
  function TextsOf(parts: seq<Part>): (texts: seq<string>)
    ensures |texts| <= |parts|
  {
    if parts == [] then []
    else (if IsTextPart(parts[0]) then [parts[0].text.value] else []) + TextsOf(parts[1..])
  }

  /** `s || null`: the empty string is falsy. */
  function OrNull(s: string): (r: Option<string>)
    ensures r.None? <==> s == []
    ensures r.Some? ==> r.value == s
  {
    if s == [] then None else Some(s)
  }

  /** What one assistant message yields: its trimmed text, or null. */
  function ContentText(c: Content): (r: Option<string>)
    ensures r.Some? ==> r.value != [] && Trimmed(r.value)
  {
    match c
    case Str(s) => OrNull(Trim(s))
    case Parts(parts) => OrNull(Trim(Join(TextsOf(parts), PartSeparator)))
    case Other => None
  }

  /**
   * The specification of the backwards search: the content text of the
   * last assistant message, or None when there is none.
   */
  function LastAssistantText(messages: seq<Message>): (r: Option<string>)
    ensures r.Some? ==> r.value != [] && Trimmed(r.value)
  {
    if messages == [] then None
    else if IsAssistant(messages[|messages| - 1]) then ContentText(messages[|messages| - 1].content)
    else LastAssistantText(messages[..|messages| - 1])
  }

  /**
   * `extractLastAssistantText`: counts down from the last message, skips
   * every message that is not the assistant's and returns on the first
   * assistant message it meets, whatever that message yields.
   */
  method ExtractLastAssistantText(messages: seq<Message>) returns (r: Option<string>)
    ensures r == LastAssistantText(messages)
  {
    var i := |messages| - 1;
    assert messages[..i + 1] == messages;
    while i >= 0
      invariant -1 <= i < |messages|
      invariant forall j :: i < j < |messages| ==> !IsAssistant(messages[j])
      invariant LastAssistantText(messages[..i + 1]) == LastAssistantText(messages)
    {
      var message := messages[i];
      if !IsAssistant(message) {
        assert messages[..i + 1][..i] == messages[..i];
        i := i - 1;
        continue;
      }
      return ContentText(message.content);
    }
    return None;
  }

  predicate HasAssistant(messages: seq<Message>) {
    exists j :: 0 <= j < |messages| && IsAssistant(messages[j])
  }

  /** A transcript without any assistant message yields null. */
  lemma {:induction false} NoAssistantGivesNull(messages: seq<Message>)
    requires !HasAssistant(messages)
    ensures LastAssistantText(messages) == None
  {
    if messages != [] {
      var front := messages[..|messages| - 1];
      assert !HasAssistant(front) by {
        assert forall j :: 0 <= j < |front| ==> front[j] == messages[j];
      }
      NoAssistantGivesNull(front);
    }
  }

  /** The last assistant message alone decides the result, even when it yields null. */
  lemma {:induction false} LastAssistantDecides(messages: seq<Message>, k: nat)
    requires k < |messages| && IsAssistant(messages[k])
    requires forall j :: k < j < |messages| ==> !IsAssistant(messages[j])
    ensures LastAssistantText(messages) == ContentText(messages[k].content)
  {
    if k < |messages| - 1 {
      var front := messages[..|messages| - 1];
      assert front[k] == messages[k];
      assert forall j :: k < j < |front| ==> front[j] == messages[j];
      LastAssistantDecides(front, k);
    }
  }

  /**
   * Messages before the last assistant message never matter: prepending
   * messages changes the result only when the original transcript had no
   * assistant message at all.
   */
  lemma {:induction false} EarlierMessagesIgnored(earlier: seq<Message>, later: seq<Message>)
    ensures LastAssistantText(earlier + later)
         == if HasAssistant(later) then LastAssistantText(later) else LastAssistantText(earlier)
  {
    if later == [] {
      assert earlier + later == earlier;
    } else {
      var all := earlier + later;
      var front := later[..|later| - 1];
      assert all[..|all| - 1] == earlier + front;
      assert all[|all| - 1] == later[|later| - 1];
      if !IsAssistant(later[|later| - 1]) {
        EarlierMessagesIgnored(earlier, front);
        assert HasAssistant(later) <==> HasAssistant(front) by {
          assert forall j :: 0 <= j < |front| ==> front[j] == later[j];
        }
      } else {
        assert HasAssistant(later);
      }
    }
  }

  /** String content yields null exactly when it is blank, and otherwise keeps all of its non-whitespace text. */
  lemma StringContentText(s: string)
    ensures ContentText(Str(s)) == None <==> AllWhitespace(s)
    ensures ContentText(Str(s)).Some? ==> NonWhitespace(ContentText(Str(s)).value) == NonWhitespace(s)
  {
    TrimEmpty(s);
    TrimKeepsContent(s);
  }

  lemma JoinedPartsBlank(parts: seq<Part>)
    ensures ContentText(Parts(parts)) == None <==> AllWhitespace(Join(TextsOf(parts), PartSeparator))
  {
    TrimEmpty(Join(TextsOf(parts), PartSeparator));
  }

  /** Array content yields null exactly when every text part is blank. */
  lemma PartsContentText(parts: seq<Part>)
    ensures ContentText(Parts(parts)) == None
        <==> forall k :: 0 <= k < |TextsOf(parts)| ==> AllWhitespace(TextsOf(parts)[k])
  {
    JoinedPartsBlank(parts);
    assert AllWhitespace(PartSeparator);
    JoinAllWhitespace(TextsOf(parts), PartSeparator);
  }

  /** The part filter keeps the texts in their original order. */
  lemma {:induction false} TextsOfAppend(a: seq<Part>, b: seq<Part>)
    ensures TextsOf(a + b) == TextsOf(a) + TextsOf(b)
  {
    if a == [] {
      assert a + b == b;
    } else {
      var head := if IsTextPart(a[0]) then [a[0].text.value] else [];
      assert (a + b)[0] == a[0] && (a + b)[1..] == a[1..] + b;
      assert TextsOf(a + b) == head + TextsOf(a[1..] + b);
      TextsOfAppend(a[1..], b);
      assert TextsOf(a) == head + TextsOf(a[1..]);
    }
  }

  /** Only text parts contribute, and every text part contributes its text. */
  lemma {:induction false} TextsOfMembers(parts: seq<Part>, t: string)
    ensures t in TextsOf(parts) <==> exists p :: p in parts && IsTextPart(p) && p.text.value == t
  {
    if parts != [] {
      TextsOfMembers(parts[1..], t);
      assert forall p :: p in parts <==> p == parts[0] || p in parts[1..];
    }
  }

  /** `text ? text.replace(/\s+/g, " ").trim() : ""`. */
  function Normalize(text: Option<string>): (n: string)
    ensures SingleSpaced(n) && Trimmed(n)
  {
    if text.None? || text.value == [] then []
    else
      var collapsed := CollapseWhitespace(text.value);
      TrimSingleSpaced(collapsed);
      Trim(collapsed)
  }

  /** Two words separated by any non-empty whitespace run normalise to the words with one space between them. */
  lemma NormalizeWords(u: string, w: string, v: string)
    requires u != [] && NoWhitespace(u) && v != [] && NoWhitespace(v)
    requires w != [] && AllWhitespace(w)
    ensures Normalize(Some(u + w + v)) == u + [' '] + v
  {
    var r := u + [' '] + v;
    CollapseBetweenWords(u, w, v);
    assert Trimmed(r) by {
      assert r[0] == u[0] && r[|r| - 1] == v[|v| - 1];
    }
    TrimmedUnchanged(r);
  }

  /** Normalisation changes whitespace only, and is empty exactly for null or blank input. */
  lemma NormalizeContent(text: Option<string>)
    ensures text.Some? ==> NonWhitespace(Normalize(text)) == NonWhitespace(text.value)
    ensures Normalize(text) == [] <==> text.None? || AllWhitespace(text.value)
  {
    if text.Some? {
      var t := text.value;
      CollapseKeepsContent(t);
      TrimKeepsContent(CollapseWhitespace(t));
      NonWhitespaceEmpty(t);
      NonWhitespaceEmpty(Normalize(text));
      if Normalize(text) != [] {
        assert !IsWhitespace(Normalize(text)[0]);
      }
    }
  }

  /**
   * The body cap: text is kept whole exactly when it has at most 200
   * characters; longer text keeps its first 199 and gains an ellipsis.
   */
  function Truncate(normalized: string): (body: string)
    ensures |body| <= MaxBody
    ensures body == normalized <==> |normalized| <= MaxBody
    ensures |normalized| > MaxBody ==>
              && |body| == MaxBody
              && body[..MaxBody - 1] == normalized[..MaxBody - 1]
              && body[MaxBody - 1] == Ellipsis
  {
    if |normalized| > MaxBody then normalized[..MaxBody - 1] + [Ellipsis] else normalized
  }

  /** Truncation keeps a body trimmed and single-spaced: the ellipsis is not whitespace. */
  lemma TruncateShape(normalized: string)
    requires Trimmed(normalized) && SingleSpaced(normalized)
    ensures Trimmed(Truncate(normalized)) && SingleSpaced(Truncate(normalized))
  {
    if |normalized| > MaxBody {
      assert !IsWhitespace(Ellipsis);
      CutAndMarkShape(normalized, MaxBody - 1, Ellipsis);
    }
  }

  /**
   * `formatNotification`: the placeholder title with an empty body, or the
   * agent title with a short, trimmed, single-spaced body.
   */
  function FormatNotification(text: Option<string>): (n: Notification)
    ensures n.title == ReadyTitle || n.title == AgentTitle
    ensures n.title == ReadyTitle <==> n.body == []
    ensures |n.body| <= MaxBody
    ensures Trimmed(n.body) && SingleSpaced(n.body)
  {
    var normalized := Normalize(text);
    if normalized == [] then Notification(ReadyTitle, [])
    else
      TruncateShape(normalized);
      Notification(AgentTitle, Truncate(normalized))
  }

  /** The placeholder appears exactly for null or blank text. */
  lemma FormatPlaceholder(text: Option<string>)
    ensures FormatNotification(text) == Notification(ReadyTitle, [])
        <==> text.None? || AllWhitespace(text.value)
  {
    NormalizeContent(text);
  }

  /** Text that is already trimmed, single-spaced and short is used as the body unchanged. */
  lemma FormatFixpoint(t: string)
    requires t != [] && |t| <= MaxBody && Trimmed(t) && SingleSpaced(t)
    ensures FormatNotification(Some(t)) == Notification(AgentTitle, t)
  {
    NormalizedFixpoint(t);
  }

  /** Formatting a body a second time gives back the same notification. */
  lemma FormatIdempotent(text: Option<string>)
    ensures FormatNotification(Some(FormatNotification(text).body)) == FormatNotification(text)
  {
    var n := FormatNotification(text);
    if n.body != [] {
      FormatFixpoint(n.body);
    }
  }

  const OscNotifyPrefix: string := "\U{1B}]777;notify;"
  const FieldSeparator: char := ';'
  const Bell: char := '\U{07}'

  /** The escape sequence `notify` writes: ESC ] 777 ; notify ; title ; body BEL, nothing escaped. */
  function Payload(title: string, body: string): (p: string)
    ensures |p| == |OscNotifyPrefix| + |title| + |body| + 2
    ensures p[..|OscNotifyPrefix|] == OscNotifyPrefix && p[|p| - 1] == Bell
    ensures p[|OscNotifyPrefix|..|OscNotifyPrefix| + |title|] == title
    ensures p[|OscNotifyPrefix| + |title|] == FieldSeparator
    ensures p[|OscNotifyPrefix| + |title| + 1..|p| - 1] == body
  {
    OscNotifyPrefix + title + [FieldSeparator] + body + [Bell]
  }

  /** The first index of `c` in `s`. */
  function IndexOf(s: string, c: char): (r: Option<nat>)
    ensures r.None? ==> c !in s
    ensures r.Some? ==> r.value < |s| && s[r.value] == c && c !in s[..r.value]
  {
    if s == [] then None
    else if s[0] == c then Some(0)
    else match IndexOf(s[1..], c)
      case None => None
      case Some(k) => Some(k + 1)
  }

  lemma IndexOfFirst(s: string, c: char, k: nat)
    requires k < |s| && s[k] == c && c !in s[..k]
    ensures IndexOf(s, c) == Some(k)
  {
  }

  /**
   * How a terminal reads an OSC 777 notify sequence: the sequence ends at
   * the first BEL, the title runs to the first `;` after the prefix and the
   * body is the rest.
   */
  function ParsePayload(p: string): (r: Option<Notification>)
    ensures r.Some? ==> FieldSeparator !in r.value.title && Bell !in r.value.title + r.value.body
  {
    if |p| < |OscNotifyPrefix| || p[..|OscNotifyPrefix|] != OscNotifyPrefix then None
    else
      var rest := p[|OscNotifyPrefix|..];
      match IndexOf(rest, Bell)
      case None => None
      case Some(end) =>
        if end != |rest| - 1 then None
        else
          var fields := rest[..end];
          match IndexOf(fields, FieldSeparator)
          case None => None
          case Some(k) => Some(Notification(fields[..k], fields[k + 1..]))
  }

  /** A title without `;` or BEL and a body without BEL come back unchanged from the sequence. */
  lemma PayloadRoundTrip(title: string, body: string)
    requires FieldSeparator !in title && Bell !in title && Bell !in body
    ensures ParsePayload(Payload(title, body)) == Some(Notification(title, body))
  {
    var p := Payload(title, body);
    var rest := p[|OscNotifyPrefix|..];
    assert rest == title + [FieldSeparator] + body + [Bell];
    assert Bell !in rest[..|rest| - 1] by {
      assert rest[..|rest| - 1] == title + [FieldSeparator] + body;
    }
    IndexOfFirst(rest, Bell, |rest| - 1);
    var fields := rest[..|rest| - 1];
    assert fields == title + [FieldSeparator] + body;
    assert fields[..|title|] == title;
    IndexOfFirst(fields, FieldSeparator, |title|);
    assert fields[|title| + 1..] == body;
  }

  /** Nothing is escaped: a `;` in the title makes two different notifications give the same sequence. */
  lemma SeparatorInTitleIsAmbiguous()
    ensures Payload("a;b", "c") == Payload("a", "b;c")
    ensures ParsePayload(Payload("a;b", "c")) == Some(Notification("a", "b;c"))
  {
    PayloadRoundTrip("a", "b;c");
  }

  /** Nothing is escaped: a BEL in the body ends the sequence early. */
  lemma BellInBodyEndsSequence()
    ensures ParsePayload(Payload(AgentTitle, "a\U{07}b")) == None
  {
    var rest := Payload(AgentTitle, "a\U{07}b")[|OscNotifyPrefix|..];
    assert rest[..3] == [AgentTitle[0], FieldSeparator, 'a'];
    IndexOfFirst(rest, Bell, 3);
  }

  /** The sequence the handler writes for an "agent finished" event whose message list may be absent. */
  function AgentEndPayload(messages: Option<seq<Message>>): (p: string)
    ensures |p| >= |OscNotifyPrefix| + 2
    ensures p[..|OscNotifyPrefix|] == OscNotifyPrefix && p[|p| - 1] == Bell
  {
    var n := FormatNotification(LastAssistantText(messages.GetOr([])));
    Payload(n.title, n.body)
  }

  /** The handler: extract, then format, then frame. */
  method OnAgentEnd(messages: Option<seq<Message>>) returns (payload: string)
    ensures payload == AgentEndPayload(messages)
  {
    var lastText := ExtractLastAssistantText(messages.GetOr([]));
    var notification := FormatNotification(lastText);
    payload := Payload(notification.title, notification.body);
  }

  /** Neither title contains the field separator or the terminating BEL. */
  lemma TitlesHaveNoDelimiters()
    ensures FieldSeparator !in ReadyTitle && Bell !in ReadyTitle
    ensures FieldSeparator !in AgentTitle && Bell !in AgentTitle
  {
    assert forall k :: 0 <= k < |ReadyTitle| ==> ReadyTitle[k] != FieldSeparator && ReadyTitle[k] != Bell;
  }

  /** Unless the assistant's text contains a BEL, the terminal reads back exactly the formatted notification. */
  lemma AgentEndRoundTrip(messages: Option<seq<Message>>)
    requires Bell !in FormatNotification(LastAssistantText(messages.GetOr([]))).body
    ensures ParsePayload(AgentEndPayload(messages)) == Some(FormatNotification(LastAssistantText(messages.GetOr([]))))
  {
    var n := FormatNotification(LastAssistantText(messages.GetOr([])));
    TitlesHaveNoDelimiters();
    PayloadRoundTrip(n.title, n.body);
  }

  /** An absent or empty transcript gives the placeholder notification. */
  lemma EmptyTranscriptScenario()
    ensures AgentEndPayload(None) == "\U{1B}]777;notify;Ready for input;\U{07}"
    ensures AgentEndPayload(Some([])) == "\U{1B}]777;notify;Ready for input;\U{07}"
  {
    assert FormatNotification(LastAssistantText([])) == Notification(ReadyTitle, []);
    PlaceholderPayload();
  }

  /** The placeholder notification framed as an escape sequence. */
  lemma PlaceholderPayload()
    ensures Payload(ReadyTitle, []) == "\U{1B}]777;notify;Ready for input;\U{07}"
  {
    assert Payload(ReadyTitle, []) == OscNotifyPrefix + ReadyTitle + [FieldSeparator, Bell];
  }

  /**
   * A lone assistant reply that is already trimmed, single-spaced and short
   * is written out verbatim under the agent title.
   */
  lemma SingleReplyPayload(reply: string)
    requires reply != [] && |reply| <= MaxBody && Trimmed(reply) && SingleSpaced(reply)
    ensures AgentEndPayload(Some([Message(Some(AssistantRole), Str(reply))]))
         == OscNotifyPrefix + AgentTitle + [FieldSeparator] + reply + [Bell]
  {
    TrimmedUnchanged(reply);
    assert LastAssistantText([Message(Some(AssistantRole), Str(reply))]) == Some(reply);
    FormatFixpoint(reply);
  }

  /**
   * The reply "Done!" gives ESC ] 777 ; notify ; π ; Done! BEL. The literal
   * is passed in as a parameter fixed by `requires` so that the solver sees
   * it as one term instead of unfolding the literal at every use.
   */
  lemma SingleReplyScenario(reply: string)
    requires reply == "Done!"
    ensures AgentEndPayload(Some([Message(Some(AssistantRole), Str(reply))]))
         == "\U{1B}]777;notify;\U{03C0};Done!\U{07}"
  {
    assert NoWhitespace(reply) by {
      assert forall k :: 0 <= k < |reply| ==> reply[k] in "Done!";
    }
    WordShape(reply);
    SingleReplyPayload(reply);
    DoneFrame(reply);
  }

  /** The frame around "Done!" under the agent title, spelled out. */
  lemma DoneFrame(reply: string)
    requires reply == "Done!"
    ensures OscNotifyPrefix + AgentTitle + [FieldSeparator] + reply + [Bell] == "\U{1B}]777;notify;\U{03C0};Done!\U{07}"
  {
  }

  /** Text `a`, a tool part and text `b` extract to "a\nb" (the parts are a parameter for the same reason as above). */
  lemma MixedPartsExtracted(parts: seq<Part>)
    requires parts == [PartObject(Some("text"), Some("a")), PartObject(Some("tool"), None), PartObject(Some("text"), Some("b"))]
    ensures ContentText(Parts(parts)) == Some("a\nb")
  {
    assert TextsOf(parts) == ["a", "b"] by {
      assert TextsOf(parts[2..]) == ["b"];
      assert TextsOf(parts[1..]) == ["b"];
    }
    assert Join(["a", "b"], PartSeparator) == "a\nb" by {
      assert ["a", "b"][1..] == ["b"];
    }
    assert Trimmed("a\nb");
    TrimmedUnchanged("a\nb");
  }

  /** "a\nb" formats to the body "a b" (the text is a parameter for the same reason as above). */
  lemma MixedPartsFormatted(text: string)
    requires text == "a\nb"
    ensures FormatNotification(Some(text)) == Notification(AgentTitle, "a b")
  {
    assert text == "a" + "\n" + "b";
    NormalizeWords("a", "\n", "b");
    assert "a" + [' '] + "b" == "a b";
  }

  /** Only the text parts are joined, with a newline, and the newline then collapses to a space. */
  lemma MixedPartsScenario()
    ensures LastAssistantText([Message(Some("assistant"), Parts([
              PartObject(Some("text"), Some("a")),
              PartObject(Some("tool"), None),
              PartObject(Some("text"), Some("b"))]))]) == Some("a\nb")
    ensures FormatNotification(Some("a\nb")) == Notification(AgentTitle, "a b")
  {
    MixedPartsExtracted([PartObject(Some("text"), Some("a")), PartObject(Some("tool"), None), PartObject(Some("text"), Some("b"))]);
    MixedPartsFormatted("a\nb");
  }

  /** A later user message does not hide the assistant message before it. */
  lemma UserMessageLastScenario()
    ensures LastAssistantText([Message(Some("assistant"), Str("hi")), Message(Some("user"), Str("x"))]) == Some("hi")
  {
  }

  /** A blank last assistant message yields null although an earlier one had text. */
  lemma BlankLastReplyScenario()
    ensures LastAssistantText([Message(Some("assistant"), Str("hi")), Message(Some("assistant"), Str(" "))]) == None
  {
  }
}
