/** The conversation of app/chat.tsx: the list of messages, the draft and the loading flag,
    changed by `sendMessage` and `clearChat`, and the canned reply `generateAIResponse`
    builds. The asynchronous send is cut into its steps: `Send` (up to the `await`),
    then `Receive` (the reply arrived) or `Fail` (the `catch`), each ending as the `finally`
    does. Clock readings and the random pick are parameters. */
module ChatScreen {
  import opened Wrappers
  import opened JsString

  /** A message; the `id` string is the decimal form of `id`, `timestamp` a clock reading. */
  datatype Message = Message(id: nat, text: string, isUser: bool, timestamp: nat)

  const Greeting: string := "Hello! I'm your offline AI assistant. How can I help you today?"
  const ClearedGreeting: string := "Chat cleared! How can I help you?"

  /** The canned openings of a reply. */
  const Responses: seq<string> := [
    "That's an interesting question! Let me think about that...",
    "I understand your point. Here's what I think...",
    "Based on what you've said, I'd suggest...",
    "That's a great topic to explore. Consider this perspective...",
    "I can help with that! Here's my recommendation..."
  ]

  const QuoteOpen: string := " (Responding to: \""
  const QuoteClose: string := "...\")"

  /** The cap on the draft's length set on the text field. */
  const InputMaxLength: nat := 10000

  /** `userMessage.slice(0, 30)`. */
  function Excerpt(userMessage: string): (e: string)
    ensures |e| == if |userMessage| < 30 then |userMessage| else 30
    ensures e <= userMessage
  {
    if |userMessage| < 30 then userMessage else userMessage[..30]
  }

  /** `generateAIResponse`: one of the canned openings, then the start of the user's message
      in quotes. `pick` stands for `Math.floor(Math.random() * responses.length)`. */
  function MockResponse(userMessage: string, pick: nat): (r: string)
    requires pick < |Responses|
    ensures Responses[pick] <= r
    ensures |r| >= |Responses[pick]| + |QuoteOpen| + |QuoteClose|
    ensures r[|r| - |QuoteClose|..] == QuoteClose
  {
    Responses[pick] + QuoteOpen + Excerpt(userMessage) + QuoteClose
  }

  /** The quoted part of a reply built from the opening `pick`. */
  function QuotedPart(response: string, pick: nat): string
    requires pick < |Responses|
    requires |Responses[pick]| + |QuoteOpen| + |QuoteClose| <= |response|
  {
    response[|Responses[pick]| + |QuoteOpen|..|response| - |QuoteClose|]
  }

  /** The reply begins with the chosen opening, then ` (Responding to: "`, and ends with the
      closing quote; what it quotes is the first thirty characters of the message, or all of
      it if it is shorter. */
  lemma MockResponseShape(userMessage: string, pick: nat)
    requires pick < |Responses|
    ensures var r := MockResponse(userMessage, pick);
            && Responses[pick] <= r
            && |r| == |Responses[pick]| + |QuoteOpen| + |Excerpt(userMessage)| + |QuoteClose|
            && r[|Responses[pick]|..|Responses[pick]| + |QuoteOpen|] == QuoteOpen
            && r[|r| - |QuoteClose|..] == QuoteClose
            && QuotedPart(r, pick) == Excerpt(userMessage)
    ensures |userMessage| <= 30 ==> QuotedPart(MockResponse(userMessage, pick), pick) == userMessage
  {
    var r := MockResponse(userMessage, pick);
    var a := |Responses[pick]| + |QuoteOpen|;
    var e := Excerpt(userMessage);
    assert r == (Responses[pick] + QuoteOpen) + e + QuoteClose;
    assert r[..|Responses[pick]|] == Responses[pick];
    assert r[|Responses[pick]|..a] == QuoteOpen;
    assert r[a..a + |e|] == e;
    assert r[|r| - |QuoteClose|..] == QuoteClose;
    if |userMessage| == 30 {
      assert userMessage[..30] == userMessage;
    }
  }

  /** Different messages that agree on their first thirty characters get the same reply. */
  lemma MockResponseSeesOnlyExcerpt(m1: string, m2: string, pick: nat)
    requires pick < |Responses| && Excerpt(m1) == Excerpt(m2)
    ensures MockResponse(m1, pick) == MockResponse(m2, pick)
  {
  }

  /** The send button's `disabled`: it is off exactly when the draft is blank or a reply is
      pending. */
  predicate SendButtonDisabled(inputText: string, isLoading: bool)
    ensures SendButtonDisabled(inputText, isLoading) <==> AllWhiteSpace(inputText) || isLoading
  {
    Trim(inputText) == [] || isLoading
  }

  /** Every message of the user holds trimmed, non-empty text. */
  predicate UserTextsTrimmed(ms: seq<Message>) {
    forall i :: 0 <= i < |ms| ==> (ms[i].isUser ==> ms[i].text == Trim(ms[i].text) && ms[i].text != [])
  }

  /** Appending a message keeps UserTextsTrimmed when the new one keeps it. */
  lemma AppendTrimmed(ms: seq<Message>, m: Message)
    requires UserTextsTrimmed(ms) && UserTextsTrimmed([m])
    ensures UserTextsTrimmed(ms + [m])
  {
    forall i | 0 <= i < |ms| + 1
      ensures (ms + [m])[i].isUser ==> (ms + [m])[i].text == Trim((ms + [m])[i].text) && (ms + [m])[i].text != []
    {
      if i < |ms| { assert (ms + [m])[i] == ms[i]; } else { assert (ms + [m])[i] == [m][0]; }
    }
  }

  /** The user's message built from a non-blank draft keeps UserTextsTrimmed. */
  lemma TrimmedMessage(s: string, now: nat)
    requires Trim(s) != []
    ensures UserTextsTrimmed([Message(now, Trim(s), true, now)])
  {
    TrimIdempotent(s);
  }

  /** What the screen shows when generating the reply fails. */
  datatype ScreenAlert = GenerationFailed   // "Error", "Failed to generate response"

  class ChatScreen {
    var messages: seq<Message>
    var inputText: string
    var isLoading: bool

    /** The list starts with a message that is not the user's, every message of the user is
        trimmed and non-empty, and the draft is within the field's cap. */
    ghost predicate Valid()
      reads this
    {
      && |messages| >= 1 && !messages[0].isUser
      && UserTextsTrimmed(messages)
      && |inputText| <= InputMaxLength
    }

    /** The greeting alone, an empty draft, nothing pending. */
    constructor(now: nat)
      ensures messages == [Message(1, Greeting, false, now)]
      ensures inputText == [] && !isLoading
      ensures Valid()
    {
      messages := [Message(1, Greeting, false, now)];
      inputText := [];
      isLoading := false;
    }

    /** `onChangeText={setInputText}` on a field that is `editable={!isLoading}` and holds at
        most InputMaxLength characters. */
    method ChangeText(text: string)
      requires Valid()
      modifies this
      ensures Valid()
      ensures inputText == if old(isLoading) then old(inputText)
                           else if |text| <= InputMaxLength then text
                           else text[..InputMaxLength]
      ensures messages == old(messages) && isLoading == old(isLoading)
    {
      if !isLoading {
        inputText := if |text| <= InputMaxLength then text else text[..InputMaxLength];
      }
    }

    /** `sendMessage` up to the `await`: a blank draft changes nothing; otherwise the trimmed
        draft is appended as the user's message (id and time from the clock reading `now`),
        the draft is cleared and a reply is pending. The text to reply to is returned. */
    method Send(now: nat) returns (request: Option<string>)
      requires Valid()
      modifies this
      ensures Valid()
      ensures AllWhiteSpace(old(inputText)) ==>
                request.None? && messages == old(messages) && inputText == old(inputText)
                && isLoading == old(isLoading)
      ensures !AllWhiteSpace(old(inputText)) ==>
                && request == Some(Trim(old(inputText)))
                && messages == old(messages) + [Message(now, Trim(old(inputText)), true, now)]
                && inputText == [] && isLoading
    {
      var trimmed := Trim(inputText);
      if trimmed == [] {
        return None;
      }
      var m := Message(now, trimmed, true, now);
      TrimmedMessage(inputText, now);
      AppendTrimmed(messages, m);
      messages := messages + [m];
      inputText := [];
      isLoading := true;
      request := Some(trimmed);
    }

    /** The reply arrived: it is appended as a message that is not the user's, with id
        `now + 1`, and nothing is pending any more. */
    method Receive(response: string, now: nat)
      requires Valid()
      modifies this
      ensures Valid()
      ensures messages == old(messages) + [Message(now + 1, response, false, now)]
      ensures !isLoading && inputText == old(inputText)
    {
      var m := Message(now + 1, response, false, now);
      assert UserTextsTrimmed([m]);
      AppendTrimmed(messages, m);
      messages := messages + [m];
      isLoading := false;
    }

    /** Generating the reply failed: no message is added, an alert is shown, and nothing is
        pending any more. */
    method Fail() returns (alert: ScreenAlert)
      requires Valid()
      modifies this
      ensures Valid()
      ensures messages == old(messages) && inputText == old(inputText)
      ensures !isLoading
    {
      isLoading := false;
      alert := GenerationFailed;
    }

    /** `clearChat`: confirmed, the list becomes the single "cleared" greeting; cancelled,
        nothing changes. */
    method ClearChat(confirmed: bool, now: nat)
      requires Valid()
      modifies this
      ensures Valid()
      ensures messages == if confirmed then [Message(1, ClearedGreeting, false, now)] else old(messages)
      ensures inputText == old(inputText) && isLoading == old(isLoading)
    {
      if confirmed {
        messages := [Message(1, ClearedGreeting, false, now)];
      }
    }

    predicate SendDisabled()
      reads this
    {
      SendButtonDisabled(inputText, isLoading)
    }
  }

  /** A whole successful exchange with the simulated assistant: the user's trimmed message
      and then the canned reply to it are appended, the draft is empty, nothing is pending.
      `now` is the clock when sending, `later` when the reply is ready. */
  method SendMessage(screen: ChatScreen, now: nat, later: nat, pick: nat)
    requires screen.Valid() && pick < |Responses|
    requires !screen.SendDisabled()
    modifies screen
    ensures screen.Valid()
    ensures var text := Trim(old(screen.inputText));
            screen.messages == old(screen.messages)
                               + [Message(now, text, true, now),
                                  Message(later + 1, MockResponse(text, pick), false, later)]
    ensures screen.inputText == [] && !screen.isLoading
  {
    var request := screen.Send(now);
    var response := MockResponse(request.value, pick);
    screen.Receive(response, later);
  }
}
