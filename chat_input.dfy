/** The message composer of components/ChatInput.tsx: the guard chain of `handleSend`, the
    recording toggle of `handleVoiceInput`, and the values derived from the draft on every
    render (the character counter, whether it is near the limit, whether sending is
    enabled, and whether the microphone or the send button is shown). Alerts become outcome
    tags, and the `onSendMessage` callback becomes a record of the texts handed to it. */
module ChatInput {
  import opened JsString

  /** The `maxLength` used when the parent passes none. */
  const DefaultMaxLength: nat := 2000

  /** What `handleSend` does with a draft. */
  datatype SendOutcome =
    | EmptyMessageAlert   // "Empty Message"
    | TooLongAlert        // "Message Too Long"
    | Sent(text: string)  // onSendMessage(text)

  /** What `handleVoiceInput` announces. */
  datatype VoiceAlert = RecordingStarted | RecordingStopped

  /** The guard chain of `handleSend`: a draft that trims to nothing is refused, so is one
      whose trimmed text is longer than maxLength, and anything else is sent trimmed. */
  function SendDecision(message: string, maxLength: nat): (o: SendOutcome)
    ensures o.EmptyMessageAlert? <==> AllWhiteSpace(message)
    ensures o.TooLongAlert? <==> !AllWhiteSpace(message) && |Trim(message)| > maxLength
    ensures o.Sent? ==> o.text == Trim(message) && o.text != [] && |o.text| <= maxLength
  {
    var trimmed := Trim(message);
    if trimmed == [] then EmptyMessageAlert
    else if |trimmed| > maxLength then TooLongAlert
    else Sent(trimmed)
  }

  /** `characterCount > maxLength * 0.8`, with the product taken exactly: more than four
      fifths of the limit, in whole numbers. */
  predicate IsNearLimit(characterCount: nat, maxLength: nat)
    ensures IsNearLimit(characterCount, maxLength) <==> 5 * characterCount > 4 * maxLength
  {
    var c, m := characterCount as real, maxLength as real;
    assert (c > m * 0.8) <==> (5.0 * c > 4.0 * m);
    assert (5 * characterCount) as real == 5.0 * c;
    assert (4 * maxLength) as real == 4.0 * m;
    c > m * 0.8
  }

  /** The counter turns destructive past the limit; a destructive counter is always one
      that is shown. */
  predicate CounterIsDestructive(characterCount: nat, maxLength: nat)
    ensures CounterIsDestructive(characterCount, maxLength) ==> IsNearLimit(characterCount, maxLength)
  {
    characterCount > maxLength
  }

  /** `canSend`: something to send, not disabled, and the untrimmed draft within the limit. */
  predicate CanSend(message: string, disabled: bool, maxLength: nat)
    ensures CanSend(message, disabled, maxLength) <==> !AllWhiteSpace(message) && !disabled && |message| <= maxLength
  {
    |Trim(message)| > 0 && !disabled && |message| <= maxLength
  }

  /** The microphone replaces the send button while the draft is blank. */
  predicate ShowsMicButton(message: string)
    ensures ShowsMicButton(message) <==> AllWhiteSpace(message)
  {
    |Trim(message)| == 0
  }

  /** When the send button is enabled, pressing it sends the trimmed draft. */
  lemma CanSendSends(message: string, disabled: bool, maxLength: nat)
    requires CanSend(message, disabled, maxLength)
    ensures SendDecision(message, maxLength) == Sent(Trim(message))
  {
  }

  /** The button is stricter than the handler: it measures the untrimmed draft, the handler
      the trimmed one. A draft "a " with a limit of 1 would be sent, but the button is off.
      The field's own limit keeps such a draft from arising (DraftWithinLimit). */
  lemma ButtonStricterThanHandler()
    ensures !CanSend("a ", false, 1) && SendDecision("a ", 1) == Sent("a")
  {
    assert IsWhiteSpace(' ') && !IsWhiteSpace('a');
    assert SkipBlank("a ", 0) == 0;
    assert BackBlank("a ", 0, 2) == BackBlank("a ", 0, 1) == 1;
    assert "a "[0..1] == "a";
  }

  /** The microphone is shown exactly when sending would be refused as empty. */
  lemma MicMeansEmpty(message: string, maxLength: nat)
    ensures ShowsMicButton(message) <==> SendDecision(message, maxLength) == EmptyMessageAlert
  {
  }

  /** The state of one composer. `sent` lists, in order, every text handed to onSendMessage. */
  class ChatInputBox {
    const maxLength: nat
    var disabled: bool
    var message: string
    var isRecording: bool
    var sent: seq<string>

    /** The draft is within the field's limit, and everything handed on was trimmed,
        non-empty and within the limit. */
    ghost predicate Valid()
      reads this
    {
      && |message| <= maxLength
      && forall i :: 0 <= i < |sent| ==> sent[i] == Trim(sent[i]) && sent[i] != [] && |sent[i]| <= maxLength
    }

    /** A composer with the parent's props. */
    constructor(maxLength: nat, disabled: bool)
      ensures this.maxLength == maxLength && this.disabled == disabled
      ensures message == [] && !isRecording && sent == []
      ensures Valid()
    {
      this.maxLength := maxLength;
      this.disabled := disabled;
      message := [];
      isRecording := false;
      sent := [];
    }

    /** A composer whose parent passes neither prop: `disabled = false`, `maxLength = 2000`. */
    constructor Default()
      ensures maxLength == DefaultMaxLength && !disabled
      ensures message == [] && !isRecording && sent == []
      ensures Valid()
    {
      maxLength := DefaultMaxLength;
      disabled := false;
      message := [];
      isRecording := false;
      sent := [];
    }

    /** The parent re-renders the composer with a new `disabled`; the draft, the recording
        flag and what was sent stay. */
    method SetDisabled(d: bool)
      requires Valid()
      modifies this
      ensures Valid()
      ensures disabled == d
      ensures message == old(message) && isRecording == old(isRecording) && sent == old(sent)
    {
      disabled := d;
    }

    /** `onChangeText={setMessage}` on a field that is `editable={!disabled}` and holds at
        most maxLength characters: typing into a disabled composer changes nothing, and a
        longer text is cut to the limit. */
    method ChangeText(text: string)
      requires Valid()
      modifies this
      ensures Valid()
      ensures message == if disabled then old(message)
                         else if |text| <= maxLength then text
                         else text[..maxLength]
      ensures isRecording == old(isRecording) && sent == old(sent) && disabled == old(disabled)
    {
      if !disabled {
        message := if |text| <= maxLength then text else text[..maxLength];
      }
    }

    /** `handleSend`: refuse a blank or too long draft and leave it in place; otherwise hand
        the trimmed text on exactly once and clear the draft. */
    method HandleSend() returns (outcome: SendOutcome)
      requires Valid()
      modifies this
      ensures Valid()
      ensures outcome == SendDecision(old(message), maxLength)
      ensures outcome.Sent? ==> message == [] && sent == old(sent) + [outcome.text]
      ensures !outcome.Sent? ==> message == old(message) && sent == old(sent)
      ensures isRecording == old(isRecording) && disabled == old(disabled)
      ensures !outcome.TooLongAlert?
    {
      var trimmedMessage := Trim(message);
      if trimmedMessage == [] {
        return EmptyMessageAlert;
      }
      if |trimmedMessage| > maxLength {
        return TooLongAlert;
      }
      TrimIdempotent(message);
      sent := sent + [trimmedMessage];
      message := [];
      outcome := Sent(trimmedMessage);
    }

    /** `handleVoiceInput`: flip the recording flag and announce which way it went. */
    method HandleVoiceInput() returns (alert: VoiceAlert)
      requires Valid()
      modifies this
      ensures Valid()
      ensures isRecording == !old(isRecording)
      ensures alert == if old(isRecording) then RecordingStopped else RecordingStarted
      ensures message == old(message) && sent == old(sent) && disabled == old(disabled)
    {
      if isRecording {
        isRecording := false;
        alert := RecordingStopped;
      } else {
        isRecording := true;
        alert := RecordingStarted;
      }
    }

    /** `characterCount`, and the flags the view derives from the draft. */
    function CharacterCount(): nat
      reads this
    {
      |message|
    }

    predicate NearLimit()
      reads this
    {
      IsNearLimit(CharacterCount(), maxLength)
    }

    predicate SendEnabled()
      reads this
    {
      CanSend(message, disabled, maxLength)
    }
  }

  /** Since the field never holds more than maxLength characters, the counter is never
      destructive and the send button is enabled exactly when the draft is not blank and the
      composer is not disabled. */
  lemma DraftWithinLimit(box: ChatInputBox)
    requires box.Valid()
    ensures !CounterIsDestructive(box.CharacterCount(), box.maxLength)
    ensures box.SendEnabled() <==> !AllWhiteSpace(box.message) && !box.disabled
  {
  }

  /** Pressing the microphone twice leaves the recording flag as it was, and announces a
      start and a stop, in the order the first flag decides. */
  method ToggleTwice(box: ChatInputBox) returns (first: VoiceAlert, second: VoiceAlert)
    requires box.Valid()
    modifies box
    ensures box.Valid()
    ensures box.isRecording == old(box.isRecording)
    ensures first != second
    ensures box.message == old(box.message) && box.sent == old(box.sent)
  {
    first := box.HandleVoiceInput();
    second := box.HandleVoiceInput();
  }

  /** With the send button enabled, a press hands on the trimmed draft and clears it. */
  method PressEnabledSend(box: ChatInputBox) returns (outcome: SendOutcome)
    requires box.Valid() && box.SendEnabled()
    modifies box
    ensures box.Valid()
    ensures outcome == Sent(Trim(old(box.message)))
    ensures box.sent == old(box.sent) + [Trim(old(box.message))] && box.message == []
    ensures box.disabled == old(box.disabled) && box.isRecording == old(box.isRecording)
  {
    CanSendSends(box.message, box.disabled, box.maxLength);
    outcome := box.HandleSend();
  }
}
