/**
 * The detector inside `generate_stream`: while a persona override is active it
 * accumulates every chunk the provider sends and, until one of the two
 * sentinel checks fires, decides what to re-emit.
 *
 * `Step` and `Emit` are the specification (one chunk, then a whole stream);
 * `Detect` is the loop itself, proved to produce `Emit(Start, chunks)`.
 */
module StreamDetector {
  import opened Sentinels

  /** `response_jailbreak` (everything received) and `jailbroken_checked`. */
  datatype State = State(acc: string, checked: bool)

  /** What one chunk does: the state afterwards and the chunks yielded for it. */
  datatype Transition = Transition(next: State, emitted: seq<string>)

  /** Before the first chunk: nothing received, still searching. */
  const Start: State := State("", false)

  /** All chunks joined, in order. */
  function Concat(chunks: seq<string>): string
  {
    if chunks == [] then "" else chunks[0] + Concat(chunks[1..])
  }

  /** The text received once the first `n` chunks have arrived. */
  function Received(chunks: seq<string>, n: nat): string
    requires n <= |chunks|
  {
    Concat(chunks[..n])
  }

  /**
   * One iteration of the loop: the chunk is appended to the accumulator; once
   * checked, the chunk is yielded as it is; otherwise the success check may set
   * the flag and, independently, the failure check yields the whole
   * accumulator and sets the flag.
   */
  function Step(st: State, chunk: string): (t: Transition)
    ensures t.next.acc == st.acc + chunk
    ensures st.checked ==> t.next.checked && t.emitted == [chunk]
    ensures !st.checked && t.emitted != [] ==> t.emitted == [t.next.acc] && t.next.checked
    ensures !st.checked ==> (t.next.checked <==> Fires(t.next.acc))
  {
    var acc := st.acc + chunk;
    if st.checked then
      Transition(State(acc, true), [chunk])
    else
      Transition(State(acc, JailbrokenSuccess(acc) || JailbrokenFailed(acc)),
                 if JailbrokenFailed(acc) then [acc] else [])
  }

  /** Everything yielded for `chunks` starting in state `st`. */
  function Emit(st: State, chunks: seq<string>): (r: seq<string>)
    ensures |r| <= |chunks|
    decreases |chunks|
  {
    if chunks == [] then []
    else
      var t := Step(st, chunks[0]);
      t.emitted + Emit(t.next, chunks[1..])
  }

  /** The state after `chunks` starting in state `st`: once set, the flag is never cleared. */
  function Run(st: State, chunks: seq<string>): (r: State)
    ensures st.checked ==> r.checked
    decreases |chunks|
  {
    if chunks == [] then st else Run(Step(st, chunks[0]).next, chunks[1..])
  }

  /** The loop of `generate_stream` (the branch taken when an override is active). */
  method Detect(chunks: seq<string>) returns (out: seq<string>)
    ensures out == Emit(Start, chunks)
  {
    var responseJailbreak := "";
    var jailbrokenChecked := false;
    out := [];
    var i := 0;
    while i < |chunks|
      invariant 0 <= i <= |chunks|
      invariant State(responseJailbreak, jailbrokenChecked) == Run(Start, chunks[..i])
      invariant out + Emit(State(responseJailbreak, jailbrokenChecked), chunks[i..]) == Emit(Start, chunks)
    {
      var message := chunks[i];
      ghost var t := Step(State(responseJailbreak, jailbrokenChecked), message);
      Advance(out, State(responseJailbreak, jailbrokenChecked), chunks, i);
      ghost var before := out;
      responseJailbreak := responseJailbreak + message;
      if jailbrokenChecked {
        out := out + [message];
        assert t == Transition(State(responseJailbreak, true), [message]);
      } else {
        assert t.next.checked == (JailbrokenSuccess(responseJailbreak) || JailbrokenFailed(responseJailbreak));
        assert t.emitted == if JailbrokenFailed(responseJailbreak) then [responseJailbreak] else [];
        if JailbrokenSuccess(responseJailbreak) {
          jailbrokenChecked := true;
        }
        if JailbrokenFailed(responseJailbreak) {
          out := out + [responseJailbreak];
          jailbrokenChecked := true;
        }
      }
      assert State(responseJailbreak, jailbrokenChecked) == t.next && out == before + t.emitted;
      RunKept(chunks, i, t.next);
      i := i + 1;
    }
  }

  /** The state after `i + 1` chunks is one step from the state after `i`. */
  lemma RunKept(chunks: seq<string>, i: nat, next: State)
    requires i < |chunks|
    requires next == Step(Run(Start, chunks[..i]), chunks[i]).next
    ensures next == Run(Start, chunks[..i + 1])
  {
    RunSnoc(Start, chunks[..i], chunks[i]);
    assert chunks[..i] + [chunks[i]] == chunks[..i + 1];
  }

  /** One more chunk consumed: its yield moves from the pending part to the output. */
  lemma Advance(out: seq<string>, st: State, chunks: seq<string>, i: nat)
    requires i < |chunks|
    ensures var t := Step(st, chunks[i]);
            out + Emit(st, chunks[i..]) == (out + t.emitted) + Emit(t.next, chunks[i + 1..])
  {
    assert chunks[i..][0] == chunks[i] && chunks[i..][1..] == chunks[i + 1..];
  }

  // ---------------------------------------------------------------------------
  // Facts about joined chunks

  lemma {:induction false} ConcatAppend(a: seq<string>, b: seq<string>)
    ensures Concat(a + b) == Concat(a) + Concat(b)
  {
    if a == [] {
      assert a + b == b;
    } else {
      assert (a + b)[0] == a[0] && (a + b)[1..] == a[1..] + b;
      ConcatAppend(a[1..], b);
    }
  }

  /** What the first `n + 1` chunks carry is the first chunk, then the next `n`. */
  lemma ReceivedShift(chunks: seq<string>, n: nat)
    requires n < |chunks|
    ensures Received(chunks, n + 1) == chunks[0] + Received(chunks[1..], n)
  {
    assert chunks[..n + 1][0] == chunks[0];
    assert chunks[..n + 1][1..] == chunks[1..][..n];
  }

  // ---------------------------------------------------------------------------
  // The state machine

  /** The accumulator always holds everything received, in order. */
  lemma {:induction false} RunAccumulates(st: State, chunks: seq<string>)
    ensures Run(st, chunks).acc == st.acc + Concat(chunks)
    decreases |chunks|
  {
    if chunks != [] {
      RunAccumulates(Step(st, chunks[0]).next, chunks[1..]);
    }
  }

  /** One chunk more: the state after it is one step from the state before it. */
  lemma {:induction false} RunSnoc(st: State, chunks: seq<string>, chunk: string)
    ensures Run(st, chunks + [chunk]) == Step(Run(st, chunks), chunk).next
    decreases |chunks|
  {
    if chunks == [] {
      assert [] + [chunk] == [chunk];
    } else {
      assert (chunks + [chunk])[0] == chunks[0] && (chunks + [chunk])[1..] == chunks[1..] + [chunk];
      RunSnoc(Step(st, chunks[0]).next, chunks[1..], chunk);
    }
  }

  /** Once the flag is set, every later chunk is yielded verbatim, in order. */
  lemma {:induction false} CheckedPassthrough(st: State, chunks: seq<string>)
    requires st.checked
    ensures Emit(st, chunks) == chunks
    decreases |chunks|
  {
    if chunks != [] {
      CheckedPassthrough(Step(st, chunks[0]).next, chunks[1..]);
    }
  }

  /**
   * If neither check holds for all that is received, nothing at all is yielded
   * (both checks only become true as text grows, so no earlier point fired).
   */
  lemma {:induction false} SilentFrom(st: State, chunks: seq<string>)
    requires !st.checked
    requires !Fires(st.acc + Concat(chunks))
    ensures Emit(st, chunks) == []
    decreases |chunks|
  {
    if chunks != [] {
      var acc := st.acc + chunks[0];
      var rest := Concat(chunks[1..]);
      assert acc + rest == st.acc + Concat(chunks);
      if JailbrokenSuccess(acc) {
        SuccessPersists(acc, rest);
      }
      if JailbrokenFailed(acc) {
        FailedPersists(acc, rest);
      }
      SilentFrom(State(acc, false), chunks[1..]);
    }
  }

  lemma Silent(chunks: seq<string>)
    requires !Fires(Concat(chunks))
    ensures Emit(Start, chunks) == []
  {
    assert Start.acc + Concat(chunks) == Concat(chunks);
    SilentFrom(Start, chunks);
  }

  /**
   * When the checks first fire after the `n`-th chunk, what is yielded is the
   * whole accumulator at that point (only if the failure check holds there),
   * followed by every later chunk verbatim.
   */
  lemma {:induction false} FirstFireFrom(st: State, chunks: seq<string>, n: nat)
    requires !st.checked
    requires 0 < n <= |chunks|
    requires forall m :: 0 < m < n ==> !Fires(st.acc + Received(chunks, m))
    requires Fires(st.acc + Received(chunks, n))
    ensures var seen := st.acc + Received(chunks, n);
            Emit(st, chunks) == (if JailbrokenFailed(seen) then [seen] else []) + chunks[n..]
    decreases |chunks|
  {
    var acc := st.acc + chunks[0];
    var t := Step(st, chunks[0]);
    SeenShift(st.acc, chunks, 0);
    assert acc == st.acc + Received(chunks, 1);
    if n == 1 {
      CheckedPassthrough(t.next, chunks[1..]);
    } else {
      assert t == Transition(State(acc, false), []);
      SilenceShift(st.acc, chunks, n);
      SeenShift(st.acc, chunks, n - 1);
      FirstFireFrom(State(acc, false), chunks[1..], n - 1);
      assert chunks[1..][n - 1..] == chunks[n..];
    }
  }

  /** The text seen after `m + 1` chunks, read from the state after the first chunk. */
  lemma SeenShift(acc: string, chunks: seq<string>, m: nat)
    requires m < |chunks|
    ensures (acc + chunks[0]) + Received(chunks[1..], m) == acc + Received(chunks, m + 1)
  {
    ReceivedShift(chunks, m);
  }

  /** No check held after the first `m < n` chunks, read from the state after the first chunk. */
  lemma SilenceShift(acc: string, chunks: seq<string>, n: nat)
    requires 1 < n <= |chunks|
    requires forall m :: 0 < m < n ==> !Fires(acc + Received(chunks, m))
    ensures forall m :: 0 < m < n - 1 ==> !Fires((acc + chunks[0]) + Received(chunks[1..], m))
  {
    forall m | 0 < m < n - 1
      ensures !Fires((acc + chunks[0]) + Received(chunks[1..], m))
    {
      SeenShift(acc, chunks, m);
      assert !Fires(acc + Received(chunks, m + 1));
    }
  }

  lemma FirstFire(chunks: seq<string>, n: nat)
    requires 0 < n <= |chunks|
    requires forall m :: 0 < m < n ==> !Fires(Received(chunks, m))
    requires Fires(Received(chunks, n))
    ensures var seen := Received(chunks, n);
            Emit(Start, chunks) == (if JailbrokenFailed(seen) then [seen] else []) + chunks[n..]
  {
    assert forall m :: 0 < m <= n ==> Start.acc + Received(chunks, m) == Received(chunks, m);
    FirstFireFrom(Start, chunks, n);
  }

  /**
   * The failure check first holds after chunk `n` (whether or not the success
   * check fired on that same chunk): the joined output is the joined input.
   */
  lemma FirstFireByFailure(chunks: seq<string>, n: nat)
    requires 0 < n <= |chunks|
    requires forall m :: 0 < m < n ==> !Fires(Received(chunks, m))
    requires JailbrokenFailed(Received(chunks, n))
    ensures Concat(Emit(Start, chunks)) == Concat(chunks)
  {
    FirstFire(chunks, n);
    var seen := Received(chunks, n);
    ConcatAppend([seen], chunks[n..]);
    ConcatAppend(chunks[..n], chunks[n..]);
    assert chunks[..n] + chunks[n..] == chunks;
  }

  /**
   * The success check alone first holds after chunk `n`: the joined output is
   * exactly what arrived after that chunk.
   */
  lemma FirstFireBySuccess(chunks: seq<string>, n: nat)
    requires 0 < n <= |chunks|
    requires forall m :: 0 < m < n ==> !Fires(Received(chunks, m))
    requires JailbrokenSuccess(Received(chunks, n)) && !JailbrokenFailed(Received(chunks, n))
    ensures Concat(Emit(Start, chunks)) == Concat(chunks[n..])
  {
    FirstFire(chunks, n);
    assert Emit(Start, chunks) == chunks[n..];
  }

  /**
   * If the whole reply fails the check, the joined output is the whole reply,
   * however the provider split it into chunks.
   */
  lemma {:induction false} FailureFrom(st: State, chunks: seq<string>)
    requires !st.checked && !Fires(st.acc)
    requires JailbrokenFailed(st.acc + Concat(chunks))
    ensures Concat(Emit(st, chunks)) == st.acc + Concat(chunks)
    decreases |chunks|
  {
    if chunks == [] {
      assert false;
    } else {
      var acc := st.acc + chunks[0];
      var rest := Concat(chunks[1..]);
      assert acc + rest == st.acc + Concat(chunks);
      if JailbrokenFailed(acc) {
        CheckedPassthrough(Step(st, chunks[0]).next, chunks[1..]);
        ConcatAppend([acc], chunks[1..]);
      } else if JailbrokenSuccess(acc) {
        FailedSettledAtFour(acc, rest);
        assert false;
      } else {
        assert Step(st, chunks[0]) == Transition(State(acc, false), []);
        assert Emit(st, chunks) == Emit(State(acc, false), chunks[1..]);
        FailureFrom(State(acc, false), chunks[1..]);
      }
    }
  }

  lemma FailureAnyChunking(chunks: seq<string>)
    requires JailbrokenFailed(Concat(chunks))
    ensures Concat(Emit(Start, chunks)) == Concat(chunks)
  {
    FailureFrom(Start, chunks);
  }

  // ---------------------------------------------------------------------------
  // Concrete streams

  /**
   * "Thinking..." already fails the check on its own, so it is yielded and the
   * two later chunks follow verbatim: the stream comes out unchanged.
   */
  lemma ThinkingStreamUnchanged()
    ensures Emit(Start, ["Thinking...", "ACT: ", "doing it"]) == ["Thinking...", "ACT: ", "doing it"]
  {
    var cs := ["Thinking...", "ACT: ", "doing it"];
    assert Received(cs, 1) == "Thinking...";
    assert "Thinking..."[..4] == "Thin";
    FirstFire(cs, 1);
  }

  /** A refusal split as "Sor" + "ry, I can't" is yielded once, joined. */
  lemma RefusalJoined()
    ensures Emit(Start, ["Sor", "ry, I can't"]) == ["Sorry, I can't"]
  {
    var cs := ["Sor", "ry, I can't"];
    assert Received(cs, 1) == "Sor";
    assert !Fires("Sor");
    assert Received(cs, 2) == "Sorry, I can't";
    assert "Sorry, I can't"[..4] == "Sorr";
    FirstFire(cs, 2);
  }

  /** The whole of "ACT: hi" in one chunk: the success check fires and nothing is yielded. */
  lemma TaggedReplyInOneChunk()
    ensures Emit(Start, ["ACT: hi"]) == []
  {
    var cs := ["ACT: hi"];
    assert Received(cs, 1) == "ACT: hi";
    assert OccursAt("ACT: hi", ActTag, 0);
    assert "ACT: hi"[..4] == ActTag;
    FirstFire(cs, 1);
  }

  /** The tag in a chunk of its own: only the text after it is yielded. */
  lemma TaggedReplySplit()
    ensures Emit(Start, ["ACT:", " hi"]) == [" hi"]
  {
    var cs := ["ACT:", " hi"];
    assert Received(cs, 1) == "ACT:";
    assert OccursAt("ACT:", ActTag, 0);
    FirstFire(cs, 1);
  }

  /**
   * On the success path the output depends on how the reply is split: the
   * same text yields nothing as one chunk, and " hi" when the tag arrives alone.
   */
  lemma SuccessDependsOnChunking()
    ensures Concat(["ACT:", " hi"]) == Concat(["ACT: hi"])
    ensures Concat(Emit(Start, ["ACT:", " hi"])) != Concat(Emit(Start, ["ACT: hi"]))
  {
    var split, whole := ["ACT:", " hi"], ["ACT: hi"];
    assert Concat([" hi"]) == " hi" by { assert [" hi"][1..] == []; }
    assert Concat(split) == "ACT: hi" by { assert split[1..] == [" hi"]; }
    assert Concat(whole) == "ACT: hi" by { assert whole[1..] == []; }
    TaggedReplyInOneChunk();
    TaggedReplySplit();
  }

  /** A reply whose first "ACT:" ends the text yields nothing, whole or split at the tag. */
  lemma TagEndingReplySilent()
    ensures Emit(Start, ["GPT:ACT:"]) == []
    ensures Emit(Start, ["GPT:", "ACT:"]) == []
  {
    TagEndingWhole();
    TagEndingSplit();
  }

  lemma TagEndingWhole()
    ensures Emit(Start, ["GPT:ACT:"]) == []
  {
    var whole := ["GPT:ACT:"];
    assert OccursAt("GPT:ACT:", ActTag, 4);
    assert "GPT:ACT:"[..4] == GptTag;
    assert Received(whole, 1) == "GPT:ACT:";
    FirstFire(whole, 1);
  }

  lemma TagEndingSplit()
    ensures Emit(Start, ["GPT:", "ACT:"]) == []
  {
    var split := ["GPT:", "ACT:"];
    assert "GPT:"[..4] != ActTag && "GPT:"[..4] == GptTag;
    assert !Contains("GPT:"[1..], ActTag);
    assert !Fires("GPT:");
    assert Received(split, 1) == "GPT:";
    assert OccursAt("GPT:ACT:", ActTag, 4);
    assert "GPT:ACT:"[..4] == GptTag;
    assert Received(split, 2) == "GPT:ACT:" by { assert split[..2] == split; assert split[1..] == ["ACT:"]; }
    FirstFire(split, 2);
  }
}
