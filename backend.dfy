/**
 * The two request-level operations of backend.py: `build_messages`, which
 * extends the caller's conversation list in place and returns the window to
 * send, and `generate_stream`, which looks the persona up again and either
 * relays the provider's chunks as they are or runs the detector over them.
 */
module Backend {
  import opened Wrappers
  import opened Messages
  import opened Personas
  import opened ConversationWindow
  import opened StreamDetector

  /** The conversation list of the request, which `build_messages` extends in place. */
  class MessageList {
    var items: seq<Message>

    constructor (items: seq<Message>)
      ensures this.items == items
    {
      this.items := items;
    }
  }

  /** The instruction turns a lookup contributes (none for "default"). */
  function InstructionsOf(found: Option<seq<Message>>): seq<Message>
  {
    match found
    case None => []
    case Some(ms) => ms
  }

  /**
   * `build_messages(jailbreak)`, with the request's conversation list and
   * `parts[0]` passed in. A failed lookup raises before the list is touched;
   * otherwise the instructions and the prompt are appended to the caller's
   * list and the window of its last turns is returned.
   */
  method BuildMessages(table: PersonaTable, conversation: MessageList, jailbreak: string, prompt: Message)
    returns (r: Result<seq<Message>, LookupError>)
    modifies table, conversation
    ensures table.entries == TableAfter(old(table.entries), jailbreak)
    ensures match Lookup(old(table.entries), jailbreak)
            case Err(e) => r == Err(e) && conversation.items == old(conversation.items)
            case Ok(found) =>
              var instructions := InstructionsOf(found);
              && conversation.items == old(conversation.items) + instructions + [prompt]
              && r == Ok(Window(old(conversation.items), instructions, prompt))
  {
    var jailbreakInstructions := table.GetJailbreak(jailbreak);
    if jailbreakInstructions.Err? {
      return Err(jailbreakInstructions.error);
    }
    var found := jailbreakInstructions.value;
    if found.Some? && |found.value| > 0 {
      conversation.items := conversation.items + found.value;
    }
    conversation.items := conversation.items + [prompt];
    var window := conversation.items;
    if |window| > 3 {
      window := window[|window| - 4..];
    }
    r := Ok(window);
  }

  /**
   * `generate_stream(response, jailbreak)` over the provider's chunks. The
   * lookup runs once more (and so updates the table once more); when it yields
   * instructions the detector runs, otherwise every chunk is relayed as it is.
   */
  method GenerateStream(table: PersonaTable, response: seq<string>, jailbreak: string)
    returns (r: Result<seq<string>, LookupError>)
    modifies table
    ensures table.entries == TableAfter(old(table.entries), jailbreak)
    ensures match Lookup(old(table.entries), jailbreak)
            case Err(e) => r == Err(e)
            case Ok(None) => r == Ok(response)
            case Ok(Some(_)) => r == Ok(Emit(Start, response))
  {
    var instructions := table.GetJailbreak(jailbreak);
    if instructions.Err? {
      return Err(instructions.error);
    }
    if instructions.value.Some? && |instructions.value.value| > 0 {
      var out := Detect(response);
      r := Ok(out);
    } else {
      r := Ok(response);
    }
  }
}
