# Gemini chat front-end: session, streaming send and inline formatter

This project models three parts of a browser chat client:

- The session state of `App.tsx`. It holds a newest-first list of threads and the id of the active thread. Its handlers create, delete, update and select threads, and a thread called "New Chat" takes its title from its first user message. The thread list is restored from the browser's store and written back to it.
- `handleSend` of `components/ChatContainer.tsx`. It appends the user's message and then streams the model's reply. After each chunk it emits the whole list again, with one growing MODEL message. A failed stream emits an apology instead, and the loading flag is cleared either way.
- `formatContent` of `components/ChatMessage.tsx`. It turns message text into one paragraph per line. Each line becomes text, code, bold and italic pieces, found by three nested regular-expression `split`s and classified by their shape.

Files:

- `base.dfy`: the JavaScript built-ins the code relies on. These are `join('')`, `startsWith`/`endsWith`, `slice(k, -k)`, `trim` with the ECMAScript white-space set, and `find`.
- `types.dfy`: messages and threads.
- `session.dfy`: the session. Each handler is a function on a `State` value, with lemmas about it. The class `Session` holds the two React state cells, and its methods are proved against those functions. `Store` is the storage slot.
- `conversation.dfy`: the send. The class `ChatView` holds the input text, the loading flag, and as ghost history every list passed to `onUpdateMessages` and every value passed to `setIsLoading`. `Send` runs the loop over the stream. It is proved against `SendTrace`, the list of every update a send emits. `Replay` feeds those updates into the session, as `App.tsx:88` does.
- `markdown.dfy`: the formatter. The three patterns share one scanner for "marks, at least one non-mark, marks". `Split` models ECMAScript's `RegExp.prototype[@@split]` for a pattern whose one capture group spans the whole match.

External inputs are parameters:
- Fresh ids (`uuidv4`) are explicit strings.
- The clock (`Date.now`) is a function `clock: nat -> int`. `clock(i)` is the reading taken for the i-th list of a send, and the session stamps the thread with the same reading.
- The model service is a `Stream`: the finite list of chunks it yields, and whether it then throws.

`slice(0, 30)` keeps the 30th character, a space, so a thread started with "Plan a trip to Norway with 12 stops along the fjords" is titled "Plan a trip to Norway with 12 ..." (`Session.TitleExample`).

## Model

| member | source | states |
|---|---|---|
| Session.TitleOf | App.tsx:66 | The title keeps the first 30 characters of the content exactly. Content of at most 30 characters is the title itself. Longer content gets "..." after its first 30 characters, so the title never exceeds 33 characters. |
| Session.DeriveTitle | App.tsx:62-68 | A title other than "New Chat" is never changed by an update. |
| Session.TitleRule | App.tsx:63-67 | While the title is "New Chat", a list whose first user message is message i gives the title of that message's content, at most 33 characters long. |
| Session.TitleWithoutUser | App.tsx:64-65 | A list without a user message, including the empty list, keeps the title. |
| Session.DeriveTitleByFirstUser | App.tsx:63-67 | The derived title depends on the messages only through the content of their first user message. |
| Session.FirstUserContentAppend | App.tsx:64 | Appending a message keeps an earlier first user message. Behind a list with none, the appended message becomes the first user message if it is a user's. |
| Session.DeriveTitleAgain | App.tsx:62-68 | Deriving twice from lists with the same first user message gives the same title as deriving once from the second list. |
| Session.TitleExample | App.tsx:66 | The 30-character cut of "Plan a trip to Norway with 12 stops along the fjords" ends in a space that stays before the "...". |
| Session.Ids | App.tsx:50 | The id list has one entry per thread, in the same order. |
| Session.InIds | App.tsx:50 | An id is in the id list exactly when some thread carries it. |
| Session.RemoveThread | App.tsx:50 | The filter keeps exactly the threads with another id. It never grows the list, and leaves it unchanged when the id is absent. |
| Session.RemoveThreadAppend | App.tsx:50 | The filter keeps the order of the threads it keeps. |
| Session.RemoveThreadCount | App.tsx:50 | With unique ids, deleting a present id removes exactly one thread; an absent id removes none. |
| Session.RemoveThreadUnique | App.tsx:50 | Filtering keeps ids unique. |
| Session.UpdateThreads | App.tsx:59-72 | The map keeps length, order and ids. Threads with another id are unchanged. The thread with the id gets the new messages wholesale, the new time and the derived title. |
| Session.UpdateThreadsTwice | App.tsx:58-73 | Two updates whose lists share the first user message leave the list as the second update alone would. |
| Session.ActiveThread | App.tsx:35 | A thread found is in the list and carries the active id. |
| Session.ActiveThreadFound | App.tsx:35 | No thread is found exactly when there is no active id or no thread carries it. |
| Session.ActiveThreadUnique | App.tsx:35 | With unique ids, the lookup finds the one thread that carries the active id. |
| Session.CreateSpec | App.tsx:37-46 | Creating with a fresh id keeps the invariant. The active thread becomes a new empty "New Chat" thread with that id and time, and the earlier threads follow it in order. |
| Session.DeletePreservesInv | App.tsx:48-56 | Deleting keeps ids unique and the active id pointing at a listed thread, or absent. |
| Session.DeleteActive | App.tsx:51-53 | Deleting another thread leaves the active id alone. Deleting the active thread makes the first remaining thread active, or none when it was the only one. |
| Session.UpdatePreservesInv | App.tsx:58-73 | Updating keeps the invariant and the list of ids. |
| Session.SelectPreservesInv | App.tsx:80 | Selecting a listed id keeps the invariant. |
| Session.Persist | App.tsx:29-33 | A non-empty list is written to the store; an empty list leaves the store as it was. |
| Session.Restore | App.tsx:13-26 | A restored non-empty list is the stored one, with its first thread active. Otherwise, including a parse failure or an empty slot, the session is empty with no active id. |
| Session.RestorePersisted | App.tsx:13-33 | Saving a non-empty session and loading it again gives back the same threads, with the first one active. |
| Session.RestoreInv | App.tsx:13-26 | A restored list with unique ids is a valid session. |
| Session.DeleteLastKeepsStore | App.tsx:30 | Deleting the only thread empties the list and leaves the saved store untouched. |
| Session.Session.Mount | App.tsx:9-26 | Mounting starts from the empty state and applies the load effect to what the store holds. |
| Session.Session.CreateThread | App.tsx:37-46 | The new state is `Create` of the old one. The invariant survives when the drawn id is fresh. |
| Session.Session.DeleteThread | App.tsx:48-56 | The new state is `Delete` of the old one, and the invariant survives. |
| Session.Session.UpdateThread | App.tsx:58-73 | The new state is `Update` of the old one, and the invariant survives. |
| Session.Session.SelectThread | App.tsx:80 | The new state is `Select` of the old one. The invariant survives when the id is listed. |
| Session.Session.Active | App.tsx:35 | A rendered thread is a listed thread carrying the active id. Nothing is rendered exactly when there is no active id or no listed thread carries it. |
| Session.Session.Save | App.tsx:29-33 | The store afterwards is what `Persist` gives for the current threads. |
| Conversation.IgnoredWhen | components/ChatContainer.tsx:33 | A send is ignored exactly when the input is empty or all white space, or a send is loading. |
| Conversation.Replies | components/ChatContainer.tsx:53-64 | One emitted list per chunk. |
| Conversation.RepliesAt | components/ChatContainer.tsx:53-63 | The list emitted after chunk i holds the reply made of the first i chunks. |
| Conversation.TraceShape | components/ChatContainer.tsx:35-75 | A send emits 1 + k lists on success and 2 + k on failure after k chunks. The first is the history plus one USER message holding the untrimmed input. |
| Conversation.ChunkUpdate | components/ChatContainer.tsx:47-63 | After chunk i, the list is the first update plus one MODEL message with the reply id whose content is chunks 1 to i joined. It has the history's length plus 2 and begins with the first update. |
| Conversation.StreamExample | components/ChatContainer.tsx:53-63 | For the chunks "Hel", "lo " and "world", the reply keeps one id while its content goes through "Hel", "Hello " and "Hello world". |
| Conversation.ReplyGrows | components/ChatContainer.tsx:47-54 | Across chunk updates the reply keeps its id and its content only extends. With non-empty chunks it strictly lengthens. |
| Conversation.FailureUpdate | components/ChatContainer.tsx:65-75 | On failure the last list is the user-extended list plus the apology under its own id. The partly streamed reply is in it nowhere. |
| Conversation.SuccessUpdate | components/ChatContainer.tsx:53-64 | On success after at least one chunk, the last list carries the whole reply. |
| Conversation.TraceFirstUser | components/ChatContainer.tsx:42-75 | Every list of a send has the same first user message. |
| Conversation.SendStep | App.tsx:58-73 | Two consecutive updates of a send leave the session as the later one alone would. |
| Conversation.SendReplay | App.tsx:88 | Feeding the session the first k updates of a send leaves it as update k alone would. Every intermediate state and the final one are a single `Update`. |
| Conversation.ReplayInv | App.tsx:58-73 | Any run of updates keeps the session invariant and its ids. |
| Conversation.ChatView.Send | components/ChatContainer.tsx:32-80 | An ignored send changes nothing. Otherwise the send emits exactly `SendTrace`, in order, clears the input, and sets loading to true and then to false on both the success and the failure path. |
| Conversation.ChatView.SetInput | components/ChatContainer.tsx:174 | The typed text becomes the input that the guard and the user message use. |
| Markdown.MatchAt | components/ChatMessage.tsx:16-28 | A match found at q ends after q and within the text. |
| Markdown.MatchAtSpan | components/ChatMessage.tsx:16-28 | The pattern anchored at q matches up to e exactly when the text from q to e is marks, at least one non-mark, then marks. |
| Markdown.SplitShape | components/ChatMessage.tsx:16-28 | The pieces of a split join back to the line, part or piece split. There is an odd number of them. Every second piece is a match, and the pieces between contain no match anywhere. |
| Markdown.SplitLeftmost | components/ChatMessage.tsx:16-28 | `split` takes each match at the leftmost position where one starts and resumes after it, never overlapping. Its pieces form such a leftmost-first reading of the text, and any list of pieces that is one equals the split. |
| Markdown.ScanUnique | components/ChatMessage.tsx:16-28 | A text has at most one leftmost-first reading, whatever the match function. |
| Markdown.SplitPlain | components/ChatMessage.tsx:16-28 | Text without the mark is a single piece. |
| Markdown.LinesShape | components/ChatMessage.tsx:14 | The text has (number of '\n') + 1 lines. No line contains '\n', and the lines joined with '\n' give the text back. |
| Markdown.FormatContent | components/ChatMessage.tsx:13-14 | A message renders as (number of '\n') + 1 paragraphs, one per line, each the formatting of its line. |
| Markdown.CodeSpanPart | components/ChatMessage.tsx:17-19 | A code match becomes one code element of the text between its backticks. That text holds no backtick and is not searched for bold or italic. |
| Markdown.BoldSpanPart | components/ChatMessage.tsx:22-25 | A bold match becomes one bold element of the text between its `**`. That text holds no `*` and is not searched for italic. |
| Markdown.ItalicSpanPart | components/ChatMessage.tsx:28-30 | An italic match becomes an italic element of the text between its `*`. That text holds no `*`. |
| Markdown.ShortItalicIsText | components/ChatMessage.tsx:29-32 | A piece of at most two characters is never italic, even "*" or "**". |
| Markdown.PlainLine | components/ChatMessage.tsx:16-32 | A line with neither backtick nor asterisk is one text element holding the line. |
| Markdown.LoneBackticks | components/ChatMessage.tsx:16-18 | Shape, not matching, decides: a line "`" or "``" is an empty code element. |
| Markdown.ItalicLine | components/ChatMessage.tsx:16-32 | The line "*i*" renders as an empty text, the italic "i" and an empty text. |
| Base.Slice | components/ChatMessage.tsx:18-30 | `slice(k, -k)` removes k characters at each end, and gives "" when the text is shorter than 2k. |
| Base.TrimEmpty | components/ChatContainer.tsx:33 | `trim()` gives "" exactly when every character is ECMAScript white space. |
| Base.FindFirst | App.tsx:64 | `find` gives the first element satisfying the test, and nothing exactly when no element does. |

## Left out

- JSON serialization and `localStorage` are left out. The store is one slot holding either a thread list that parses or text that does not. The stored key and the console logging are not modelled.
- React's asynchronous state updates and batching are left out, as is the `for await` scheduling. Every step runs in sequence to completion. So the model does not capture these behaviours:
  - the `activeThreadId` that `handleDeleteThread` reads from its closure (`App.tsx:56`);
  - chunks of a stream that arrive after the user has switched or deleted the thread;
  - a second send while one is loading. Because `Send` clears the flag before it returns, the `isLoading` half of the guard is modelled but no call reaches it with the flag set.
- `services/geminiService.ts` is not part of this model. It wraps the unseen model SDK and the network. The model takes the stream as a finite chunk list that may throw after its last chunk. The request built from `newMessages` (`components/ChatContainer.tsx:51`) is therefore not modelled.
- One clock reading per emitted list serves both that list's new message and the thread's `updatedAt`. The code calls `Date.now()` separately for each (`components/ChatContainer.tsx:39`, `:61`, `:73` and `App.tsx:69`), so the two may differ by a few milliseconds. The model does not capture that difference.
- `uuidv4` and `Date.now` are parameters. `Session.Session.CreateThread` and `Conversation.FailureUpdate` rely on freshness only as a stated hypothesis.
- Session.Session.CreateThread: the invariant is promised only for a fresh id, because nothing in the code checks that the drawn UUID is new.
- Conversation.ChatView.Send: it records the lists it passes to `onUpdateMessages` but does not update a `Session` object itself. `Conversation.Replay` and `Conversation.SendReplay` compose the two on session values instead. Doing it on the heap made the method's proof too costly.
- Strings are sequences of Unicode scalar values. `length` and `slice` in JavaScript count UTF-16 code units, so a title cut through a character outside the Basic Multilingual Plane is not modelled.
- The rendered markup is left out: the JSX, the CSS classes, the `key` props and the paragraph wrapper. `formatContent`'s output is a list of paragraphs, each a flat list of `Inline` pieces, as React flattens the nested arrays. Empty text pieces are kept.
- These parts of the UI are not part of this model, being presentational: scrolling, focus, textarea auto-resize, the key handler, the suggestion buttons, the loading skeleton (`components/ChatContainer.tsx:151`, which depends on wall-clock time) and the time formatting (`components/ChatMessage.tsx:77`). The same goes for `components/Sidebar.tsx`.
- `types.ts` is not part of this model. `Message` and `Thread` follow the fields the code uses.
