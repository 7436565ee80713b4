# freegpt-webui backend relay, modelled in Dafny

This project models the logic of `server/backend.py` in the freegpt-webui
relay: the part that builds the bounded list of turns sent to the chat
provider, and the part that re-emits the provider's token stream.

- **Window assembly** (`build_messages`). The request's prior conversation
  list is extended in place. First come the instruction turns of the selected
  persona (the "jailbreak"), then the new prompt. When the list then holds more
  than three turns, only the last four are returned.
- **Persona lookup** (`getJailbreak`). This works on the shared table
  `special_instructions`. For every key other than `"default"`, the update at
  backend.py:134 appends the reserved `two_responses_instruction` text to the
  content of the key's first message. That happens on every call, and only
  afterwards is membership checked. An unknown key therefore raises `KeyError`.
  The `return None` in the membership test's else branch can never run.
- **Stream detector** (`generate_stream`, `response_jailbroken_success`,
  `response_jailbroken_failed`). While an override is active, every chunk is
  appended to an accumulator. Until a flag is set, two independent checks run
  on the whole accumulator:
  - "ACT:" occurs anywhere: this sets the flag.
  - At least four characters, starting with neither "GPT:" nor "ACT:": this
    yields the whole accumulator and sets the flag.

  Once the flag is set, every later chunk is yielded verbatim. Without an
  override, every chunk is yielded unchanged.

Modules, one file each:
- `Wrappers`: `Option`, `Result`.
- `Messages`: a turn, with a role and a content.
- `Sentinels`: the two checks.
- `StreamDetector`: the detector. `Step` and `Emit` specify it, and the loop
  method `Detect` is proved to compute `Emit`.
- `Personas`: the table. The class `PersonaTable` holds a
  `map<string, Entry>`. The functions `AppendSuffix`, `Lookup` and
  `TableAfter` specify its method `GetJailbreak`.
- `ConversationWindow`: the window function.
- `Backend`: `BuildMessages` and `GenerateStream`. Both update state in place
  and are proved against the functions above.

### Behaviour of backend.py worth knowing

- An unknown persona key is an error: `KeyError` is raised at backend.py:134,
  before the membership test at backend.py:135.
- The two checks at backend.py:98-102 are independent `if`s. A chunk on which
  both hold yields the accumulator. A first chunk such as "Thinking..."
  already fails the check, so the stream `["Thinking...", "ACT: ", "doing it"]`
  comes out unchanged (`ThinkingStreamUnchanged`).
- The joined output does not depend on how the reply is split into chunks
  in these cases:
  - The whole reply fails the check (`FailureAnyChunking`).
  - Neither check ever holds (`Silent`).
  - Some success-path replies, such as one whose first "ACT:" ends the text
    (`TagEndingReplySilent`).

  In general, on the success path the output can depend on the split
  (`SuccessDependsOnChunking`).

## Model

| member | source | states |
|---|---|---|
| Sentinels.Contains | server/backend.py:114-115 | The search for "ACT:" holds exactly when the pattern occurs at some index of the text |
| Sentinels.JailbrokenSuccess | server/backend.py:109-115 | The success check holds exactly when "ACT:" occurs at some index of the text, and then the text has at least four characters |
| Sentinels.JailbrokenFailed | server/backend.py:118-124 | The failure check holds iff the text has at least four characters and its first four are neither "GPT:" nor "ACT:" (so it is false below four characters) |
| Sentinels.SuccessPersists | server/backend.py:114-115 | Once the success check holds for the accumulator, it holds for every extension of it |
| Sentinels.FailedSettledAtFour | server/backend.py:124 | Once the accumulator has four characters, appending more text never changes the failure verdict |
| Sentinels.FailedPersists | server/backend.py:124 | Once the failure check holds, it holds for every extension of the text |
| StreamDetector.Step | server/backend.py:93-102 | One loop iteration: the accumulator gains the chunk. Once checked, the chunk itself is yielded and the flag stays set. While searching, the flag is set exactly when a check holds for the accumulator, and anything yielded is the whole accumulator (which also sets the flag) |
| StreamDetector.Emit | server/backend.py:91-102 | At most one chunk is yielded per chunk received |
| StreamDetector.Run | server/backend.py:91-102 | The loop state after a sequence of chunks: once set, the flag is never cleared. `Detect` keeps its variables equal to `Run` of the chunks consumed so far |
| StreamDetector.Detect | server/backend.py:91-102 | The loop yields exactly the detector's specified output for the whole chunk sequence. Its invariant keeps the accumulator and flag equal to `Run` of the chunks consumed so far |
| StreamDetector.RunAccumulates | server/backend.py:91-94 | The accumulator always equals all the text received so far, joined in order |
| StreamDetector.CheckedPassthrough | server/backend.py:95-96 | After the flag is set, every later chunk is yielded verbatim and in order |
| StreamDetector.SilentFrom | server/backend.py:97-102 | From a searching state, if neither check holds for all the text received, nothing is yielded |
| StreamDetector.Silent | server/backend.py:97-102 | If neither check holds for the whole reply, the output is empty |
| StreamDetector.FirstFireFrom | server/backend.py:97-102 | If the checks first hold after chunk n, the output is the accumulator at that point (only if the failure check holds there), then chunks n+1.. verbatim |
| StreamDetector.FirstFire | server/backend.py:97-102 | The same, starting from the detector's initial state |
| StreamDetector.FirstFireByFailure | server/backend.py:98-102 | When the failure check holds at the first chunk where either check holds (success may hold too), the joined output equals the joined input |
| StreamDetector.FirstFireBySuccess | server/backend.py:98-102 | When only the success check holds at that first chunk n, the joined output equals the chunks after n, joined |
| StreamDetector.FailureFrom | server/backend.py:93-102 | From a searching state, if all the text fails the check, the joined output is the accumulator plus all later text |
| StreamDetector.FailureAnyChunking | server/backend.py:93-102 | If the whole reply fails the check, the joined output is the whole reply, however it was split |
| StreamDetector.ThinkingStreamUnchanged | server/backend.py:93-102 | `["Thinking...", "ACT: ", "doing it"]` is yielded unchanged |
| StreamDetector.RefusalJoined | server/backend.py:93-102 | `["Sor", "ry, I can't"]` yields the single chunk "Sorry, I can't" |
| StreamDetector.TaggedReplyInOneChunk | server/backend.py:93-102 | "ACT: hi" as one chunk yields nothing |
| StreamDetector.TaggedReplySplit | server/backend.py:93-102 | `["ACT:", " hi"]` yields `[" hi"]` |
| StreamDetector.SuccessDependsOnChunking | server/backend.py:93-102 | The same text split two ways gives different joined output on the success path |
| StreamDetector.TagEndingReplySilent | server/backend.py:93-102 | "GPT:ACT:" yields nothing, both as one chunk and split as `["GPT:", "ACT:"]` |
| Personas.AppendSuffix | server/backend.py:134 | The in-place update succeeds iff the key holds a non-empty message list and the reserved key holds text. A missing key raises KeyError for that key. A missing suffix raises KeyError for the reserved key. On success only the key's first message changes, and its content gains the suffix |
| Personas.Lookup | server/backend.py:127-141 | Returns None exactly for "default". For any other key it succeeds iff the update succeeds, and then returns the key's entry after the update, which is never empty. An unknown key raises KeyError for that key. A missing suffix raises KeyError for the reserved key |
| Personas.TableAfter | server/backend.py:133-134 | The table is unchanged for "default" and whenever the update raises. Its keys never change |
| Personas.PersonaTable.GetJailbreak | server/backend.py:127-141 | Returns the lookup's result and leaves the table as the update makes it |
| Personas.SuffixAccumulates | server/backend.py:134 | After n lookups of a persona, its first message keeps its role and carries the suffix n times, and the other messages are unchanged. Every lookup still succeeds, and no other entry changes |
| Personas.RepeatedLookupsDiffer | server/backend.py:134-137 | With a non-empty suffix, two successive lookups of the same persona return different instructions |
| ConversationWindow.Window | server/backend.py:66-80 | The window is the last min(n, 4) turns of conversation + instructions + prompt, where n is that list's length, and it ends with the prompt |
| ConversationWindow.PlainWindow | server/backend.py:74-78 | Without an override, L earlier turns give min(L + 1, 4) turns, which are the most recent ones |
| ConversationWindow.InstructionsBeforePrompt | server/backend.py:70-78 | Up to three instruction turns are all kept, immediately before the prompt |
| ConversationWindow.FiveTurnsAndPrompt | server/backend.py:77-78 | Five earlier turns and a prompt give the last four of those six |
| Backend.MessageList.constructor | server/backend.py:62-67 | The request's conversation list, held as a sequence that `build_messages` extends in place; it starts out with the turns it is given |
| Backend.BuildMessages | server/backend.py:56-80 | A failed lookup leaves the caller's list alone and raises. Otherwise the list gains the instructions and the prompt, and the result is the window. The table changes as the lookup specifies |
| Backend.GenerateStream | server/backend.py:83-104 | The lookup runs again. "default" relays the chunks unchanged, a persona runs the detector, and a failed lookup raises |

## Left out

- The Flask layer: `Backend_Api`, its routes, `_conversation`, `request.json`
  access, `Response` and `stream_with_context`. The 400 error dictionary and
  the `print` calls are left out too. This is HTTP transport and logging.
  Errors are returned as `Err` values.
- `ChatCompletion.create`: the provider is a network client. Its chunks are
  the `response` parameter of `GenerateStream`.
- `parts[0]` on an empty `parts` list, and missing request fields: the prompt
  and the conversation are parameters.
- `internet_access`: it is read but never used.
- Message dictionaries with other keys or without `content`: a turn is exactly
  a role and a content.
- Generator laziness: the stream is a finite sequence processed by a loop. An
  exception partway through the provider's stream is not modelled.
- Aliasing of Python objects, which the model replaces with values:
  - `getJailbreak` returns the table's own list.
  - The extended conversation shares the persona's message dictionaries with
    the table.
  - A window of three or fewer turns is the caller's own list.
- The unsynchronised race between concurrent requests on
  `special_instructions`: this is concurrency.
- The contents of `server.config.special_instructions`: this file is not part
  of this model, and the table is an arbitrary map.
