/** The bounded window of turns that `build_messages` sends to the provider. */
module ConversationWindow {
  import opened Messages

  /** The window limit: at most this many turns are sent. */
  const WindowSize: nat := 4

  /**
   * The prior conversation, then the persona's instruction turns, then the new
   * prompt; when that is more than three turns, only the last four are kept.
   */
  function Window(conversation: seq<Message>, instructions: seq<Message>, prompt: Message): (r: seq<Message>)
    ensures var all := conversation + instructions + [prompt];
            && |r| == (if |all| < WindowSize then |all| else WindowSize)
            && r == all[|all| - |r|..]
    ensures |r| > 0 && r[|r| - 1] == prompt
  {
    var all := conversation + instructions + [prompt];
    if |all| > 3 then all[|all| - 4..] else all
  }

  /** Without an override, a history of `L` turns gives `min(L + 1, 4)` turns ending with the prompt. */
  lemma PlainWindow(conversation: seq<Message>, prompt: Message)
    ensures var r := Window(conversation, [], prompt);
            && |r| == (if |conversation| + 1 < 4 then |conversation| + 1 else 4)
            && r == (conversation + [prompt])[|conversation| + 1 - |r|..]
  {
    assert conversation + [] + [prompt] == conversation + [prompt];
  }

  /**
   * Up to three instruction turns are all kept, directly before the prompt;
   * the older conversation fills whatever room is left.
   */
  lemma InstructionsBeforePrompt(conversation: seq<Message>, instructions: seq<Message>, prompt: Message)
    requires |instructions| <= 3
    ensures var r := Window(conversation, instructions, prompt);
            r[|r| - 1 - |instructions|..] == instructions + [prompt]
  {
    var all := conversation + instructions + [prompt];
    var tail := instructions + [prompt];
    assert all == conversation + tail;
    assert all[|all| - |tail|..] == tail;
    if |all| > 3 {
      assert Window(conversation, instructions, prompt) == all[|all| - 4..];
      assert all[|all| - 4..][4 - |tail|..] == all[|all| - |tail|..];
    }
  }

  /** Five earlier turns and a prompt: the last four of those six are sent. */
  lemma FiveTurnsAndPrompt(conversation: seq<Message>, prompt: Message)
    requires |conversation| == 5
    ensures Window(conversation, [], prompt) == conversation[2..] + [prompt]
  {
    assert (conversation + [] + [prompt])[2..] == conversation[2..] + [prompt];
  }
}
