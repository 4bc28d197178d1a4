/** The session model of `App.tsx`: two state cells, the thread list (newest first) and the
    id of the active thread, changed by the create, delete, update and select handlers and
    synchronised with a local key-value store.

    The new values the handlers compute (a prepend, a `filter`, a `map` with the title rule)
    are functions on a `State` value; the class `Session` holds the two cells and its methods
    move them from one `State` to the next. */
module Session {
  import opened Base
  import opened Types

  /** The title of a thread that has not been named yet. */
  const DefaultTitle: string := "New Chat"
  /** How many characters of the first user message become the title. */
  const TitleLimit: nat := 30
  /** What is appended to a title that was cut. */
  const Ellipsis: string := "..."

  // ---------------------------------------------------------------------------
  // Titles
  // ---------------------------------------------------------------------------

  predicate IsUser(m: Message)
  {
    m.role == User
  }

  function Min(a: nat, b: nat): nat
  {
    if a <= b then a else b
  }

  /** `content.slice(0, 30) + (content.length > 30 ? '...' : '')` */
  function TitleOf(content: string): (t: string)
    ensures Min(TitleLimit, |content|) <= |t| <= TitleLimit + |Ellipsis|
    ensures t[..Min(TitleLimit, |content|)] == content[..Min(TitleLimit, |content|)]
    ensures |content| <= TitleLimit ==> t == content
    ensures |content| > TitleLimit ==> |t| == TitleLimit + |Ellipsis| && t[TitleLimit..] == Ellipsis
  {
    content[..Min(TitleLimit, |content|)] + (if |content| > TitleLimit then Ellipsis else "")
  }

  /** The content of the message `messages.find(m => m.role === Role.USER)` finds. */
  function FirstUserContent(messages: seq<Message>): Option<string>
  {
    match FindFirst(messages, IsUser)
    case None => None
    case Some(i) => Some(messages[i].content)
  }

  /** The title `handleUpdateThread` gives a thread whose title was `title` when its messages
      become `messages`: a thread still called "New Chat" is named after its first user
      message; any other title is kept. */
  function DeriveTitle(title: string, messages: seq<Message>): (t: string)
    ensures title != DefaultTitle ==> t == title
  {
    if title == DefaultTitle && |messages| > 0 then
      match FirstUserContent(messages)
      case Some(c) => TitleOf(c)
      case None => title
    else
      title
  }

  /** The title rule stated on its own terms: while a thread is called "New Chat", it takes
      its name from the user message that no other user message precedes, and keeps its title
      when there is no user message at all. */
  lemma TitleRule(title: string, messages: seq<Message>, i: nat)
    requires title == DefaultTitle
    requires i < |messages| && messages[i].role == User
    requires forall j :: 0 <= j < i ==> messages[j].role != User
    ensures DeriveTitle(title, messages) == TitleOf(messages[i].content)
    ensures |DeriveTitle(title, messages)| <= TitleLimit + |Ellipsis|
  {
    assert IsUser(messages[i]);
  }

  lemma TitleWithoutUser(title: string, messages: seq<Message>)
    requires forall j :: 0 <= j < |messages| ==> messages[j].role != User
    ensures DeriveTitle(title, messages) == title
  {
    var k := FindFirst(messages, IsUser);
    assert forall j :: 0 <= j < |messages| ==> !IsUser(messages[j]);
  }

  /** The title depends on the messages only through the content of their first user message. */
  lemma DeriveTitleByFirstUser(title: string, m1: seq<Message>, m2: seq<Message>)
    requires FirstUserContent(m1) == FirstUserContent(m2)
    ensures DeriveTitle(title, m1) == DeriveTitle(title, m2)
  {
  }

  /** Appending a message behind a list that already has a user message does not change which
      one comes first; appended behind a list without one, it comes first if it is a user's. */
  lemma FirstUserContentAppend(messages: seq<Message>, m: Message)
    ensures FirstUserContent(messages + [m]) ==
              if FirstUserContent(messages).Some? then FirstUserContent(messages)
              else if m.role == User then Some(m.content)
              else None
  {
    var all := messages + [m];
    var k := FindFirst(messages, IsUser);
    if k.Some? {
      assert IsUser(all[k.value]);
    } else {
      assert forall j :: 0 <= j < |messages| ==> !IsUser(all[j]) by {
        assert forall j :: 0 <= j < |messages| ==> all[j] == messages[j];
      }
      assert all[|messages|] == m;
    }
  }

  /** The title is derived once: after a second update whose list starts the same user turn,
      the title is what the second update alone would have given. */
  lemma {:induction false} DeriveTitleAgain(title: string, m1: seq<Message>, m2: seq<Message>)
    requires FirstUserContent(m1) == FirstUserContent(m2)
    ensures DeriveTitle(DeriveTitle(title, m1), m2) == DeriveTitle(title, m2)
  {
    if title == DefaultTitle {
      match FirstUserContent(m1)
      case None =>
      case Some(c) =>
        var t := DeriveTitle(title, m1);
        assert t == TitleOf(c);
        assert DeriveTitle(title, m2) == TitleOf(c);
        if t == DefaultTitle {
          assert DeriveTitle(t, m2) == TitleOf(c);
        }
    }
  }

  /** The cut falls after the 30th character whatever it is, so a space there stays in front
      of the ellipsis. */
  lemma TitleExample()
    ensures TitleOf("Plan a trip to Norway with 12 stops along the fjords") == "Plan a trip to Norway with 12 ..."
  {
  }

  // ---------------------------------------------------------------------------
  // Thread lists
  // ---------------------------------------------------------------------------

  /** The record `handleCreateThread` builds. */
  function NewThread(id: string, now: int): Thread
  {
    Thread(id, DefaultTitle, [], now)
  }

  function Ids(ts: seq<Thread>): (ids: seq<string>)
    ensures |ids| == |ts|
    ensures forall i :: 0 <= i < |ts| ==> ids[i] == ts[i].id
  {
    if ts == [] then [] else [ts[0].id] + Ids(ts[1..])
  }

  lemma InIds(ts: seq<Thread>, id: string)
    ensures id in Ids(ts) <==> exists i :: 0 <= i < |ts| && ts[i].id == id
  {
    if id in Ids(ts) {
      var k :| 0 <= k < |ts| && Ids(ts)[k] == id;
      assert ts[k].id == id;
    }
  }

  predicate UniqueIds(ts: seq<Thread>)
  {
    forall i, j :: 0 <= i < j < |ts| ==> ts[i].id != ts[j].id
  }

  /** `prev.filter(t => t.id !== id)`: exactly the threads with another id remain. */
  function RemoveThread(ts: seq<Thread>, id: string): (r: seq<Thread>)
    ensures forall t :: t in r <==> t in ts && t.id != id
    ensures |r| <= |ts|
    ensures id !in Ids(ts) ==> r == ts
  {
    if ts == [] then []
    else if ts[0].id == id then RemoveThread(ts[1..], id)
      else [ts[0]] + RemoveThread(ts[1..], id)
  }

  /** The filter keeps the order: it works piecewise on any split of the list. */
  lemma {:induction false} RemoveThreadAppend(a: seq<Thread>, b: seq<Thread>, id: string)
    ensures RemoveThread(a + b, id) == RemoveThread(a, id) + RemoveThread(b, id)
  {
    if a == [] {
      assert a + b == b;
    } else {
      assert (a + b)[1..] == a[1..] + b;
      RemoveThreadAppend(a[1..], b, id);
    }
  }

  /** With unique ids, removing a present id drops exactly one thread. */
  lemma {:induction false} RemoveThreadCount(ts: seq<Thread>, id: string)
    requires UniqueIds(ts)
    ensures |RemoveThread(ts, id)| == if id in Ids(ts) then |ts| - 1 else |ts|
  {
    if ts != [] {
      assert UniqueIds(ts[1..]);
      RemoveThreadCount(ts[1..], id);
    }
  }

  lemma {:induction false} RemoveThreadUnique(ts: seq<Thread>, id: string)
    requires UniqueIds(ts)
    ensures UniqueIds(RemoveThread(ts, id))
  {
    if ts != [] {
      assert UniqueIds(ts[1..]);
      RemoveThreadUnique(ts[1..], id);
      if ts[0].id != id {
        var rest := RemoveThread(ts[1..], id);
        forall k | 0 <= k < |rest|
          ensures rest[k].id != ts[0].id
        {
          assert rest[k] in ts[1..];
          var m :| 0 <= m < |ts| - 1 && ts[1..][m] == rest[k];
          assert ts[m + 1] == rest[k];
        }
        UniqueCons(ts[0], rest);
      }
    }
  }

  lemma UniqueCons(t: Thread, rest: seq<Thread>)
    requires UniqueIds(rest)
    requires forall k :: 0 <= k < |rest| ==> rest[k].id != t.id
    ensures UniqueIds([t] + rest)
  {
    var r := [t] + rest;
    forall i, j | 0 <= i < j < |r|
      ensures r[i].id != r[j].id
    {
      if i == 0 { assert r[j] == rest[j - 1]; }
      else { assert r[i] == rest[i - 1] && r[j] == rest[j - 1]; }
    }
  }

  /** The record `handleUpdateThread` puts in place of the thread it updates. */
  function Updated(t: Thread, messages: seq<Message>, now: int): Thread
  {
    t.(messages := messages, title := DeriveTitle(t.title, messages), updatedAt := now)
  }

  /** `prev.map(t => t.id === id ? { ...t, messages, title, updatedAt } : t)`: the threads with
      that id get the new messages wholesale, the derived title and the new time; every other
      thread, and the order, stay as they were. */
  function UpdateThreads(ts: seq<Thread>, id: string, messages: seq<Message>, now: int): (r: seq<Thread>)
    ensures |r| == |ts|
    ensures forall i :: 0 <= i < |ts| ==> r[i].id == ts[i].id
    ensures forall i :: 0 <= i < |ts| && ts[i].id != id ==> r[i] == ts[i]
    ensures forall i :: 0 <= i < |ts| && ts[i].id == id ==>
              r[i].messages == messages && r[i].updatedAt == now
              && r[i].title == DeriveTitle(ts[i].title, messages)
  {
    if ts == [] then []
    else
      var rest := UpdateThreads(ts[1..], id, messages, now);
      var r := [if ts[0].id == id then Updated(ts[0], messages, now) else ts[0]] + rest;
      assert forall i :: 1 <= i < |ts| ==> r[i] == rest[i - 1] && ts[i] == ts[1..][i - 1];
      r
  }

  /** Two updates of one thread whose lists start the same user turn leave the session as the
      second update alone would: streaming a reply into a thread names it only once. */
  lemma UpdateThreadsTwice(ts: seq<Thread>, id: string, m1: seq<Message>, n1: int, m2: seq<Message>, n2: int)
    requires FirstUserContent(m1) == FirstUserContent(m2)
    ensures UpdateThreads(UpdateThreads(ts, id, m1, n1), id, m2, n2) == UpdateThreads(ts, id, m2, n2)
  {
    var once := UpdateThreads(ts, id, m1, n1);
    var twice := UpdateThreads(once, id, m2, n2);
    var direct := UpdateThreads(ts, id, m2, n2);
    forall i | 0 <= i < |ts|
      ensures twice[i] == direct[i]
    {
      if ts[i].id == id {
        DeriveTitleAgain(ts[i].title, m1, m2);
      }
    }
  }

  // ---------------------------------------------------------------------------
  // Session states and the handlers
  // ---------------------------------------------------------------------------

  /** The two state cells of `App`: `threads` and `activeThreadId`. */
  datatype State = State(threads: seq<Thread>, active: Option<string>)

  /** What every handler keeps: thread ids are unique and the active id, when there is one,
      is the id of a thread in the list. */
  predicate Inv(s: State)
  {
    UniqueIds(s.threads) && (s.active.Some? ==> s.active.value in Ids(s.threads))
  }

  /** `handleCreateThread` with the fresh id and the clock reading it draws. */
  function Create(s: State, id: string, now: int): State
  {
    State([NewThread(id, now)] + s.threads, Some(id))
  }

  /** `handleDeleteThread` */
  function Delete(s: State, id: string): State
  {
    var rest := RemoveThread(s.threads, id);
    State(rest, if s.active == Some(id) then (if |rest| > 0 then Some(rest[0].id) else None) else s.active)
  }

  /** `handleUpdateThread` with the clock reading it draws. */
  function Update(s: State, id: string, messages: seq<Message>, now: int): State
  {
    State(UpdateThreads(s.threads, id, messages, now), s.active)
  }

  /** `onSelectThread={setActiveThreadId}`: the id is not checked. */
  function Select(s: State, id: string): State
  {
    State(s.threads, Some(id))
  }

  /** `threads.find(t => t.id === activeThreadId) || null` */
  function ActiveThread(s: State): (r: Option<Thread>)
    ensures r.Some? ==> r.value in s.threads && s.active == Some(r.value.id)
  {
    match FindFirst(s.threads, (t: Thread) => Some(t.id) == s.active)
    case None => None
    case Some(i) => Some(s.threads[i])
  }

  /** The lookup finds a thread exactly when the active id is the id of a listed thread. */
  lemma ActiveThreadFound(s: State)
    ensures ActiveThread(s).None? <==> s.active.None? || s.active.value !in Ids(s.threads)
  {
    if s.active.Some? {
      InIds(s.threads, s.active.value);
      var p := (t: Thread) => Some(t.id) == s.active;
      var k := FindFirst(s.threads, p);
      if k.None? {
        assert forall j :: 0 <= j < |s.threads| ==> s.threads[j].id != s.active.value by {
          assert forall j :: 0 <= j < |s.threads| ==> !p(s.threads[j]);
        }
      }
    }
  }

  /** With unique ids the lookup finds the one thread carrying the active id. */
  lemma ActiveThreadUnique(s: State, k: nat)
    requires UniqueIds(s.threads)
    requires k < |s.threads| && s.active == Some(s.threads[k].id)
    ensures ActiveThread(s) == Some(s.threads[k])
  {
    var p := (t: Thread) => Some(t.id) == s.active;
    assert p(s.threads[k]);
    var r := FindFirst(s.threads, p);
    assert r.Some?;
  }

  /** Creating prepends an empty "New Chat" thread with the fresh id, keeps the earlier threads
      behind it in their order, makes it the active thread, and keeps the invariant. */
  lemma CreateSpec(s: State, id: string, now: int)
    requires Inv(s) && id !in Ids(s.threads)
    ensures Inv(Create(s, id, now))
    ensures ActiveThread(Create(s, id, now)) == Some(Thread(id, DefaultTitle, [], now))
    ensures Create(s, id, now).threads[1..] == s.threads
  {
    var c := Create(s, id, now);
    forall i, j | 0 <= i < j < |c.threads|
      ensures c.threads[i].id != c.threads[j].id
    {
      if i == 0 { assert Ids(s.threads)[j - 1] == c.threads[j].id; }
      else { assert c.threads[i] == s.threads[i - 1] && c.threads[j] == s.threads[j - 1]; }
    }
    assert Ids(c.threads)[0] == id;
  }

  /** Deleting keeps the invariant. */
  lemma DeletePreservesInv(s: State, id: string)
    requires Inv(s)
    ensures Inv(Delete(s, id))
  {
    var d := Delete(s, id);
    RemoveThreadUnique(s.threads, id);
    if d.active.Some? {
      if s.active == Some(id) {
        assert Ids(d.threads)[0] == d.active.value;
      } else {
        var a := s.active.value;
        var k :| 0 <= k < |s.threads| && Ids(s.threads)[k] == a;
        assert s.threads[k] in d.threads;
        var m :| 0 <= m < |d.threads| && d.threads[m] == s.threads[k];
        assert Ids(d.threads)[m] == a;
      }
    }
  }

  /** Deleting a thread other than the active one leaves the active id alone; deleting the
      active one makes the first of the remaining threads (in newest-first order) active, or
      none when it was the only thread. */
  lemma DeleteActive(s: State, id: string)
    requires Inv(s)
    ensures s.active != Some(id) ==> Delete(s, id).active == s.active
    ensures s.active == Some(id) ==>
              Delete(s, id).active ==
                if |s.threads| == 1 then None
                else if s.threads[0].id == id then Some(s.threads[1].id)
                else Some(s.threads[0].id)
  {
    if s.active == Some(id) {
      var k :| 0 <= k < |s.threads| && Ids(s.threads)[k] == id;
      if |s.threads| == 1 {
        assert RemoveThread(s.threads[1..], id) == [];
      } else if s.threads[0].id == id {
        assert s.threads[1].id != id;
        assert s.threads[1..] == [s.threads[1]] + s.threads[2..];
        RemoveThreadAppend([s.threads[1]], s.threads[2..], id);
      } else {
        assert s.threads == [s.threads[0]] + s.threads[1..];
      }
    }
  }

  lemma UpdatePreservesInv(s: State, id: string, messages: seq<Message>, now: int)
    requires Inv(s)
    ensures Inv(Update(s, id, messages, now))
    ensures Ids(Update(s, id, messages, now).threads) == Ids(s.threads)
  {
    var u := Update(s, id, messages, now);
    assert Ids(u.threads) == Ids(s.threads);
  }

  /** Selecting an id of the list keeps the invariant; the sidebar offers only those. */
  lemma SelectPreservesInv(s: State, id: string)
    requires Inv(s) && id in Ids(s.threads)
    ensures Inv(Select(s, id))
  {
  }

  // ---------------------------------------------------------------------------
  // Persistence
  // ---------------------------------------------------------------------------

  /** What the store's slot holds: text that `JSON.parse` turns into a thread list, or text
      it rejects. An absent slot (or an empty string, which is falsy) is `None`. */
  datatype Entry = Serialized(threads: seq<Thread>) | Unparsable

  /** The save effect: a non-empty list is written, an empty one never is. */
  function Persist(threads: seq<Thread>, stored: Option<Entry>): (r: Option<Entry>)
    ensures threads != [] ==> r == Some(Serialized(threads))
    ensures threads == [] ==> r == stored
  {
    if |threads| > 0 then Some(Serialized(threads)) else stored
  }

  /** The load effect, run on the initial state (no threads, no active id): a parsed list
      becomes the thread list and its first thread the active one; nothing saved or a parse
      failure leaves the initial state. */
  function Restore(stored: Option<Entry>): (s: State)
    ensures s.threads != [] ==> s.active == Some(s.threads[0].id)
    ensures s.threads == [] ==> s.active == None
    ensures s.threads != [] ==> stored == Some(Serialized(s.threads))
  {
    match stored
    case Some(Serialized(ts)) => State(ts, if |ts| > 0 then Some(ts[0].id) else None)
    case _ => State([], None)
  }

  /** Saving a non-empty session and loading it again gives back the same threads, with
      the first of them active. */
  lemma RestorePersisted(s: State, stored: Option<Entry>)
    requires s.threads != []
    ensures Restore(Persist(s.threads, stored)).threads == s.threads
    ensures ActiveThread(Restore(Persist(s.threads, stored))) == Some(s.threads[0])
  {
    var r := Restore(Persist(s.threads, stored));
    var k := FindFirst(r.threads, (t: Thread) => Some(t.id) == r.active);
    assert Some(r.threads[0].id) == r.active;
  }

  /** A restored list with unique ids is a valid session. */
  lemma RestoreInv(stored: Option<Entry>)
    requires stored.Some? && stored.value.Serialized? ==> UniqueIds(stored.value.threads)
    ensures Inv(Restore(stored))
  {
    var s := Restore(stored);
    if s.threads != [] {
      assert Ids(s.threads)[0] == s.threads[0].id;
    }
  }

  /** Deleting the last thread empties the list and so leaves whatever the store held. */
  lemma DeleteLastKeepsStore(s: State, stored: Option<Entry>)
    requires |s.threads| == 1
    ensures Delete(s, s.threads[0].id).threads == []
    ensures Persist(Delete(s, s.threads[0].id).threads, stored) == stored
  {
    assert RemoveThread(s.threads[1..], s.threads[0].id) == [];
  }

  // ---------------------------------------------------------------------------
  // The state cells
  // ---------------------------------------------------------------------------

  /** The `localStorage` slot `gemini_chat_threads`. */
  class Store {
    var entry: Option<Entry>

    constructor (initial: Option<Entry>)
      ensures entry == initial
    {
      entry := initial;
    }
  }

  /** `App`'s state: `threads` and `activeThreadId`. */
  class Session {
    var threads: seq<Thread>
    var active: Option<string>

    function Snapshot(): State
      reads this
    {
      State(threads, active)
    }

    ghost predicate Valid()
      reads this
    {
      Inv(Snapshot())
    }

    /** Mounting `App`: both cells start empty, then the load effect reads the store once. */
    constructor Mount(store: Store)
      ensures Snapshot() == Restore(store.entry)
    {
      threads := [];
      active := None;
      match store.entry {
        case Some(Serialized(parsed)) =>
          threads := parsed;
          if |parsed| > 0 {
            active := Some(parsed[0].id);
          }
        case _ =>
      }
    }

    /** `handleCreateThread`; `id` is the `uuidv4()` draw and `now` the `Date.now()` reading.
        The invariant survives when the draw is fresh, as a version-4 UUID is taken to be. */
    method CreateThread(id: string, now: int)
      modifies this
      ensures Snapshot() == Create(old(Snapshot()), id, now)
      ensures old(Valid()) && id !in old(Ids(threads)) ==> Valid()
    {
      ghost var before := Snapshot();
      var t := NewThread(id, now);
      threads := [t] + threads;
      active := Some(t.id);
      if Inv(before) && id !in Ids(before.threads) { CreateSpec(before, id, now); }
    }

    /** `handleDeleteThread` */
    method DeleteThread(id: string)
      modifies this
      ensures Snapshot() == Delete(old(Snapshot()), id)
      ensures old(Valid()) ==> Valid()
    {
      ghost var before := Snapshot();
      var filtered := RemoveThread(threads, id);
      if active == Some(id) {
        active := if |filtered| > 0 then Some(filtered[0].id) else None;
      }
      threads := filtered;
      if Inv(before) { DeletePreservesInv(before, id); }
    }

    /** `handleUpdateThread`; `now` is the `Date.now()` reading. */
    method UpdateThread(id: string, messages: seq<Message>, now: int)
      modifies this
      ensures Snapshot() == Update(old(Snapshot()), id, messages, now)
      ensures old(Valid()) ==> Valid()
    {
      ghost var before := Snapshot();
      threads := UpdateThreads(threads, id, messages, now);
      if Inv(before) { UpdatePreservesInv(before, id, messages, now); }
    }

    /** `setActiveThreadId` as the sidebar calls it. */
    method SelectThread(id: string)
      modifies this
      ensures Snapshot() == Select(old(Snapshot()), id)
      ensures old(Valid()) && id in Ids(threads) ==> Valid()
    {
      active := Some(id);
    }

    /** The thread `App` renders, `activeThread`. */
    function Active(): (r: Option<Thread>)
      reads this
      ensures r.Some? ==> r.value in threads && active == Some(r.value.id)
      ensures r.None? <==> active.None? || active.value !in Ids(threads)
    {
      ActiveThreadFound(Snapshot());
      ActiveThread(Snapshot())
    }

    /** The save effect, run whenever `threads` changes. */
    method Save(store: Store)
      modifies store
      ensures store.entry == Persist(threads, old(store.entry))
    {
      if |threads| > 0 {
        store.entry := Some(Serialized(threads));
      }
    }
  }
}
