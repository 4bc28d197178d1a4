/** The streaming fold of `handleSend` in `components/ChatContainer.tsx`: a send appends the
    user's message, then folds every chunk of the model's reply into one growing MODEL message
    that is emitted again, whole, after each chunk; a failure emits a fixed apology instead.

    Each list handed to `onUpdateMessages` goes through `handleUpdateThread` of the session
    (`App.tsx` passes that as the callback); `Replay` composes the two. The fresh ids and the
    clock are parameters: `clock(i)` is the `Date.now()` reading for the i-th list emitted, and
    is also the time the session stamps on the thread for it. */
module Conversation {
  import opened Base
  import opened Types
  import Session

  /** The text of the message shown when the stream fails. */
  const Apology: string := "I'm sorry, I encountered an error. Please check your connection or API key and try again."

  /** What `geminiService.streamChat` delivers: the chunks it yields, in order, and whether it
      then throws instead of ending. A failure after k chunks is a stream of those k chunks
      with `fails` set; a failure before any chunk has none. */
  datatype Stream = Stream(chunks: seq<string>, fails: bool)

  /** The guard of `handleSend`: `!inputValue.trim() || isLoading`. */
  predicate Ignored(input: string, loading: bool)
  {
    Trim(input) == "" || loading
  }

  /** A send is ignored exactly when the input is all white space (or empty), or a send is
      still loading. */
  lemma IgnoredWhen(input: string, loading: bool)
    ensures Ignored(input, loading) <==> AllSpace(input) || loading
  {
    TrimEmpty(input);
  }

  /** `[...thread.messages, userMessage]` */
  function WithUserTurn(history: seq<Message>, input: string, userId: string, at: int): seq<Message>
  {
    history + [Message(userId, User, input, at)]
  }

  /** The list emitted after the k-th chunk: the user-extended list and the reply so far. */
  function WithReply(base: seq<Message>, modelId: string, chunks: seq<string>, k: nat, at: int): seq<Message>
    requires k <= |chunks|
  {
    base + [Message(modelId, Model, Concat(chunks[..k]), at)]
  }

  /** The list emitted when the stream fails. */
  function WithApology(base: seq<Message>, errorId: string, at: int): seq<Message>
  {
    base + [Message(errorId, Model, Apology, at)]
  }

  /** The lists emitted for the first k chunks. */
  function Replies(base: seq<Message>, modelId: string, chunks: seq<string>, k: nat, clock: nat -> int): (r: seq<seq<Message>>)
    requires k <= |chunks|
    ensures |r| == k
  {
    if k == 0 then []
    else Replies(base, modelId, chunks, k - 1, clock) + [WithReply(base, modelId, chunks, k, clock(k))]
  }

  lemma {:induction false} RepliesAt(base: seq<Message>, modelId: string, chunks: seq<string>, k: nat, clock: nat -> int, i: nat)
    requires i < k <= |chunks|
    ensures Replies(base, modelId, chunks, k, clock)[i] == WithReply(base, modelId, chunks, i + 1, clock(i + 1))
  {
    if i < k - 1 {
      RepliesAt(base, modelId, chunks, k - 1, clock, i);
    }
  }

  /** Every list `handleSend` passes to `onUpdateMessages` when the guard lets it through. */
  function SendTrace(history: seq<Message>, input: string, stream: Stream,
                     userId: string, modelId: string, errorId: string, clock: nat -> int): seq<seq<Message>>
  {
    var base := WithUserTurn(history, input, userId, clock(0));
    [base] + Replies(base, modelId, stream.chunks, |stream.chunks|, clock)
      + (if stream.fails then [WithApology(base, errorId, clock(|stream.chunks| + 1))] else [])
  }

  /** One update per chunk after the user's own, and one more for a failure; the first update
      is the history plus exactly one USER message holding the input as typed (not trimmed). */
  lemma TraceShape(history: seq<Message>, input: string, stream: Stream,
                   userId: string, modelId: string, errorId: string, clock: nat -> int)
    ensures var trace := SendTrace(history, input, stream, userId, modelId, errorId, clock);
            |trace| == 1 + |stream.chunks| + (if stream.fails then 1 else 0)
            && trace[0] == history + [Message(userId, User, input, clock(0))]
  {
  }

  /** The update after the i-th chunk is the first update plus one MODEL message with the fixed
      reply id whose content is the first i chunks run together. */
  lemma ChunkUpdate(history: seq<Message>, input: string, stream: Stream,
                    userId: string, modelId: string, errorId: string, clock: nat -> int, i: nat)
    requires 1 <= i <= |stream.chunks|
    ensures var trace := SendTrace(history, input, stream, userId, modelId, errorId, clock);
            trace[i] == trace[0] + [Message(modelId, Model, Concat(stream.chunks[..i]), clock(i))]
            && |trace[i]| == |history| + 2
            && trace[i][..|history| + 1] == trace[0]
  {
    var base := WithUserTurn(history, input, userId, clock(0));
    RepliesAt(base, modelId, stream.chunks, |stream.chunks|, clock, i - 1);
  }

  /** Three chunks: the reply keeps one id while its content runs through "Hel", "Hello " and
      "Hello world", in that order. */
  lemma StreamExample(history: seq<Message>, input: string, userId: string, modelId: string,
                      errorId: string, clock: nat -> int)
    ensures var trace := SendTrace(history, input, Stream(["Hel", "lo ", "world"], false),
                                   userId, modelId, errorId, clock);
            |trace| == 4 && |trace[1]| == |trace[2]| == |trace[3]| == |history| + 2
            && trace[1][|history| + 1] == Message(modelId, Model, "Hel", clock(1))
            && trace[2][|history| + 1] == Message(modelId, Model, "Hello ", clock(2))
            && trace[3][|history| + 1] == Message(modelId, Model, "Hello world", clock(3))
  {
    var stream := Stream(["Hel", "lo ", "world"], false);
    ChunkUpdate(history, input, stream, userId, modelId, errorId, clock, 1);
    ChunkUpdate(history, input, stream, userId, modelId, errorId, clock, 2);
    ChunkUpdate(history, input, stream, userId, modelId, errorId, clock, 3);
    ConcatSnoc([], "Hel");
    ConcatSnoc(["Hel"], "lo ");
    ConcatSnoc(["Hel", "lo "], "world");
    assert stream.chunks[..1] == [] + ["Hel"];
    assert stream.chunks[..2] == ["Hel"] + ["lo "];
    assert stream.chunks[..3] == ["Hel", "lo "] + ["world"];
  }

  /** The streamed reply only grows by concatenation: the content after an earlier chunk is a
      prefix of the content after a later one, and a strictly shorter one when chunks are
      non-empty (as the service's `if (c.text)` filter makes them). */
  lemma ReplyGrows(history: seq<Message>, input: string, stream: Stream,
                   userId: string, modelId: string, errorId: string, clock: nat -> int, i: nat, j: nat)
    requires 1 <= i <= j <= |stream.chunks|
    ensures var trace := SendTrace(history, input, stream, userId, modelId, errorId, clock);
            |trace[i]| == |trace[j]| == |history| + 2
            && trace[i][|history| + 1].id == trace[j][|history| + 1].id == modelId
            && trace[i][|history| + 1].content <= trace[j][|history| + 1].content
    ensures (forall k :: 0 <= k < |stream.chunks| ==> stream.chunks[k] != "") && i < j ==>
              var trace := SendTrace(history, input, stream, userId, modelId, errorId, clock);
              |trace[i]| == |trace[j]| == |history| + 2
              && |trace[i][|history| + 1].content| < |trace[j][|history| + 1].content|
  {
    ChunkUpdate(history, input, stream, userId, modelId, errorId, clock, i);
    ChunkUpdate(history, input, stream, userId, modelId, errorId, clock, j);
    ConcatPrefix(stream.chunks, i, j);
    if (forall k :: 0 <= k < |stream.chunks| ==> stream.chunks[k] != "") && i < j {
      ConcatNonEmpty(stream.chunks[i..j]);
    }
  }

  /** On failure the last update is the user-extended list plus the apology with its own id;
      the partly streamed reply is not in it. */
  lemma FailureUpdate(history: seq<Message>, input: string, stream: Stream,
                      userId: string, modelId: string, errorId: string, clock: nat -> int)
    requires stream.fails
    requires modelId != userId && modelId != errorId
    requires forall k :: 0 <= k < |history| ==> history[k].id != modelId
    ensures var trace := SendTrace(history, input, stream, userId, modelId, errorId, clock);
            var last := trace[|trace| - 1];
            last == trace[0] + [Message(errorId, Model, Apology, clock(|stream.chunks| + 1))]
            && forall k :: 0 <= k < |last| ==> last[k].id != modelId
  {
  }

  /** On success the last update carries the whole reply. */
  lemma SuccessUpdate(history: seq<Message>, input: string, stream: Stream,
                      userId: string, modelId: string, errorId: string, clock: nat -> int)
    requires !stream.fails && |stream.chunks| > 0
    ensures var trace := SendTrace(history, input, stream, userId, modelId, errorId, clock);
            trace[|trace| - 1] == trace[0] + [Message(modelId, Model, Concat(stream.chunks), clock(|stream.chunks|))]
  {
    ChunkUpdate(history, input, stream, userId, modelId, errorId, clock, |stream.chunks|);
    assert stream.chunks[..|stream.chunks|] == stream.chunks;
  }

  /** Every update of a send starts the same user turn, so they all name the thread alike. */
  lemma TraceFirstUser(history: seq<Message>, input: string, stream: Stream,
                       userId: string, modelId: string, errorId: string, clock: nat -> int, i: nat)
    requires i < |SendTrace(history, input, stream, userId, modelId, errorId, clock)|
    ensures var trace := SendTrace(history, input, stream, userId, modelId, errorId, clock);
            Session.FirstUserContent(trace[i]) == Session.FirstUserContent(trace[0])
            && Session.FirstUserContent(trace[0]).Some?
  {
    var trace := SendTrace(history, input, stream, userId, modelId, errorId, clock);
    var base := trace[0];
    Session.FirstUserContentAppend(history, Message(userId, User, input, clock(0)));
    if 1 <= i <= |stream.chunks| {
      ChunkUpdate(history, input, stream, userId, modelId, errorId, clock, i);
      Session.FirstUserContentAppend(base, trace[i][|history| + 1]);
    } else if i > |stream.chunks| {
      Session.FirstUserContentAppend(base, Message(errorId, Model, Apology, clock(|stream.chunks| + 1)));
    }
  }

  /** Feeding two consecutive updates of a send into the session leaves it as the later one
      alone would. */
  lemma SendStep(history: seq<Message>, input: string, stream: Stream,
                 userId: string, modelId: string, errorId: string, clock: nat -> int,
                 s: Session.State, id: string, i: nat)
    requires i + 1 < |SendTrace(history, input, stream, userId, modelId, errorId, clock)|
    ensures var trace := SendTrace(history, input, stream, userId, modelId, errorId, clock);
            Session.Update(Session.Update(s, id, trace[i], clock(i)), id, trace[i + 1], clock(i + 1))
            == Session.Update(s, id, trace[i + 1], clock(i + 1))
  {
    var trace := SendTrace(history, input, stream, userId, modelId, errorId, clock);
    TraceFirstUser(history, input, stream, userId, modelId, errorId, clock, i);
    TraceFirstUser(history, input, stream, userId, modelId, errorId, clock, i + 1);
    Session.UpdateThreadsTwice(s.threads, id, trace[i], clock(i), trace[i + 1], clock(i + 1));
  }

  /** The session after it has been handed the updates `us` for thread `id`, the k-th one
      stamped with `clock(k)`: `onUpdateMessages` is `handleUpdateThread` bound to that thread. */
  function Replay(s: Session.State, id: string, us: seq<seq<Message>>, clock: nat -> int): Session.State
    decreases |us|
  {
    if |us| == 0 then s
    else Session.Update(Replay(s, id, us[..|us| - 1], clock), id, us[|us| - 1], clock(|us| - 1))
  }

  /** Handing the session every update of a send, one after another, leaves it as the last
      update alone would: the thread holds the final list, and its title is derived once. */
  lemma {:induction false} SendReplay(history: seq<Message>, input: string, stream: Stream,
                                      userId: string, modelId: string, errorId: string, clock: nat -> int,
                                      s: Session.State, id: string, k: nat)
    requires 1 <= k <= |SendTrace(history, input, stream, userId, modelId, errorId, clock)|
    ensures var trace := SendTrace(history, input, stream, userId, modelId, errorId, clock);
            Replay(s, id, trace[..k], clock) == Session.Update(s, id, trace[k - 1], clock(k - 1))
  {
    var trace := SendTrace(history, input, stream, userId, modelId, errorId, clock);
    assert trace[..k][..k - 1] == trace[..k - 1];
    if k > 1 {
      SendReplay(history, input, stream, userId, modelId, errorId, clock, s, id, k - 1);
      SendStep(history, input, stream, userId, modelId, errorId, clock, s, id, k - 2);
    }
  }

  /** The session's invariant survives any run of updates. */
  lemma {:induction false} ReplayInv(s: Session.State, id: string, us: seq<seq<Message>>, clock: nat -> int)
    requires Session.Inv(s)
    ensures Session.Inv(Replay(s, id, us, clock))
    ensures Session.Ids(Replay(s, id, us, clock).threads) == Session.Ids(s.threads)
    decreases |us|
  {
    if |us| > 0 {
      ReplayInv(s, id, us[..|us| - 1], clock);
      Session.UpdatePreservesInv(Replay(s, id, us[..|us| - 1], clock), id, us[|us| - 1], clock(|us| - 1));
    }
  }

  /** `ChatContainer`'s own state (`inputValue`, `isLoading`) and, as ghost history, every list
      it has passed to `onUpdateMessages` and every value it has passed to `setIsLoading`. */
  class ChatView {
    var input: string
    var loading: bool
    ghost var updates: seq<seq<Message>>
    ghost var loadingLog: seq<bool>

    constructor ()
      ensures input == "" && !loading && updates == [] && loadingLog == []
    {
      input := "";
      loading := false;
      updates := [];
      loadingLog := [];
    }

    /** The textarea's `onChange`, and the suggestion buttons: `setInputValue`. */
    method SetInput(text: string)
      modifies this`input
      ensures input == text
    {
      input := text;
    }

    /** `handleSend`, where `history` is the active thread's messages and the lists recorded
        in `updates` are what goes to `onUpdateMessages` (see `Replay` for their effect on the
        session); `userId`, `modelId` and `errorId` are the three `uuidv4()` draws. */
    method Send(history: seq<Message>, stream: Stream,
                userId: string, modelId: string, errorId: string, clock: nat -> int)
      modifies this
      ensures Ignored(old(input), old(loading)) ==>
                input == old(input) && loading == old(loading)
                && updates == old(updates) && loadingLog == old(loadingLog)
      ensures !Ignored(old(input), old(loading)) ==>
                updates == old(updates) + SendTrace(history, old(input), stream, userId, modelId, errorId, clock)
                && input == "" && !loading && loadingLog == old(loadingLog) + [true, false]
    {
      if Ignored(input, loading) {
        return;
      }
      var newMessages := history + [Message(userId, User, input, clock(0))];
      ghost var trace := SendTrace(history, input, stream, userId, modelId, errorId, clock);
      TraceShape(history, input, stream, userId, modelId, errorId, clock);
      updates := updates + [newMessages];
      input := "";
      loading := true;
      loadingLog := loadingLog + [true];

      var modelContent := "";
      var i := 0;
      while i < |stream.chunks|
        invariant i <= |stream.chunks|
        invariant modelContent == Concat(stream.chunks[..i])
        invariant updates == old(updates) + trace[..i + 1]
        invariant input == "" && loading && loadingLog == old(loadingLog) + [true]
      {
        modelContent := modelContent + stream.chunks[i];
        assert stream.chunks[..i + 1] == stream.chunks[..i] + [stream.chunks[i]];
        ConcatSnoc(stream.chunks[..i], stream.chunks[i]);
        var msgs := newMessages + [Message(modelId, Model, modelContent, clock(i + 1))];
        ChunkUpdate(history, old(input), stream, userId, modelId, errorId, clock, i + 1);
        updates := updates + [msgs];
        assert trace[..i + 2] == trace[..i + 1] + [msgs];
        i := i + 1;
      }

      if stream.fails {
        var msgs := newMessages + [Message(errorId, Model, Apology, clock(i + 1))];
        updates := updates + [msgs];
        assert trace[..i + 2] == trace;
      } else {
        assert trace[..i + 1] == trace;
      }
      loading := false;
      loadingLog := loadingLog + [false];
    }
  }
}
