/**
 * The chat drain: scrape_chat keeps taking the first chat-line node still on
 * the page, reads it, removes it and yields (author, body); process_chat stores
 * each yielded line. The only way out of the loop is the stop flag, which is
 * checked at the head of each iteration.
 */
module ChatScraper {
  import opened Wrappers
  import opened StreamerDb
  import opened ChatText

  /** The process-wide stop flag. Nothing ever clears it. */
  class StopSignal {
    var isSet: bool

    constructor ()
      ensures !isSet
    {
      isSet := false;
    }

    /** stop_all, the handler of SIGINT and SIGTERM. */
    method StopAll()
      modifies this
      ensures isSet
    {
      isSet := true;
    }
  }

  /**
   * How a drain ends: the stop flag was seen set at the loop head; the first
   * node's body could not be read (the error propagates out of the loop, the
   * node stays on the page); or no node is left, where the page's wait for a
   * first chat line blocks until a new one arrives.
   */
  datatype StreamEnd = Stopped | Failed | Waiting

  /** The length of the longest prefix of `s` whose nodes can all be read. */
  function ParsablePrefix(s: seq<Message>): (n: nat)
    ensures n <= |s|
  {
    if s == [] || ParseMessage(s[0]).None? then 0 else 1 + ParsablePrefix(s[1..])
  }

  /** Every node before the prefix's end can be read, and the node at its end (if any) cannot. */
  lemma {:induction false} ParsablePrefixIsFirstFailure(s: seq<Message>)
    ensures forall i :: 0 <= i < ParsablePrefix(s) ==> ParseMessage(s[i]).Some?
    ensures ParsablePrefix(s) < |s| ==> ParseMessage(s[ParsablePrefix(s)]).None?
  {
    if s != [] && ParseMessage(s[0]).Some? {
      ParsablePrefixIsFirstFailure(s[1..]);
      forall i | 0 <= i < ParsablePrefix(s)
        ensures ParseMessage(s[i]).Some?
      {
        if i > 0 {
          assert s[i] == s[1..][i - 1];
        }
      }
    }
  }

  /** Up to the prefix's end, a node can be read exactly when it lies before the end. */
  lemma ParsablePrefixAt(s: seq<Message>, n: nat)
    requires n <= ParsablePrefix(s) && n < |s|
    ensures ParseMessage(s[n]).Some? <==> n < ParsablePrefix(s)
  {
    ParsablePrefixIsFirstFailure(s);
  }

  /** Parsing a prefix one node longer, when that node can be read. */
  lemma ParseAllSnoc(s: seq<Message>, n: nat)
    requires n < |s| && ParseAll(s[..n]).Some? && ParseMessage(s[n]).Some?
    ensures ParseAll(s[..n + 1]) == Some(ParseAll(s[..n]).value + [ParseMessage(s[n]).value])
  {
    assert s[..n + 1][..n] == s[..n];
  }

  /**
   * The number of messages a drain passes on, given its page, whether the flag
   * was already set, and after how many messages the signal arrives: it runs up
   * to the first unreadable node or the end of the page, unless the flag is
   * seen set first (a tie goes to the flag, which is checked before the page is read).
   */
  function Yielded(surface: seq<Message>, alreadySet: bool, stopAt: Option<nat>): nat
  {
    var p := ParsablePrefix(surface);
    var stop := if alreadySet then Some(0) else stopAt;
    if stop.Some? && stop.value <= p then stop.value else p
  }

  /** How that drain ends. */
  function Ending(surface: seq<Message>, alreadySet: bool, stopAt: Option<nat>): StreamEnd
  {
    var p := ParsablePrefix(surface);
    var stop := if alreadySet then Some(0) else stopAt;
    if stop.Some? && stop.value <= p then Stopped
    else if p < |surface| then Failed
    else Waiting
  }

  /**
   * How many lines a drain yields and why it ends: a stop flag already set
   * yields nothing; a drain that is not stopped yields every node before the
   * first unreadable one; it fails exactly when the page holds an
   * unreadable node it reaches, and waits when every node could be read.
   */
  lemma EndingCases(surface: seq<Message>, alreadySet: bool, stopAt: Option<nat>)
    ensures var p, e, k := ParsablePrefix(surface), Ending(surface, alreadySet, stopAt), Yielded(surface, alreadySet, stopAt);
            && k <= p
            && (alreadySet ==> e == Stopped && k == 0)
            && (e == Stopped <==> alreadySet || (stopAt.Some? && stopAt.value <= p))
            && (e != Stopped ==> k == p)
            && (e == Waiting <==> e != Stopped && forall i :: 0 <= i < |surface| ==> ParseMessage(surface[i]).Some?)
            && (e == Failed <==> e != Stopped && exists i :: 0 <= i < |surface| && ParseMessage(surface[i]).None?)
  {
    ParsablePrefixIsFirstFailure(surface);
  }

  /** The authors of a run of chat lines, one per line. */
  function AuthorList(lines: seq<ChatLine>): seq<string>
  {
    seq(|lines|, i requires 0 <= i < |lines| => lines[i].author)
  }

  /** The set of authors of a run of chat lines: the names of its author list. */
  function Authors(lines: seq<ChatLine>): set<string>
  {
    Names(AuthorList(lines))
  }

  /** A name is among the authors exactly when some line has it as its author. */
  lemma AuthorsAre(lines: seq<ChatLine>, name: string)
    ensures name in Authors(lines) <==> exists i :: 0 <= i < |lines| && lines[i].author == name
  {
    var ns := AuthorList(lines);
    NamesAre(ns, name);
    if name in ns {
      var i :| 0 <= i < |ns| && ns[i] == name;
      assert lines[i].author == name;
    }
    if exists i :: 0 <= i < |lines| && lines[i].author == name {
      var i :| 0 <= i < |lines| && lines[i].author == name;
      assert ns[i] == name;
    }
  }

  lemma AuthorsSnoc(lines: seq<ChatLine>, l: ChatLine)
    ensures Authors(lines + [l]) == Authors(lines) + {l.author}
  {
    assert AuthorList(lines + [l]) == AuthorList(lines) + [l.author];
    NamesSnoc(AuthorList(lines), l.author);
  }

  /** The chat message rows stored for a run of lines, given the username ids. */
  function Rows(users: map<string, nat>, streamer: nat, lines: seq<ChatLine>): seq<ChatRow>
    requires forall i :: 0 <= i < |lines| ==> lines[i].author in users
  {
    if lines == [] then []
    else
      var l := lines[|lines| - 1];
      Rows(users, streamer, lines[..|lines| - 1]) + [ChatRow(streamer, users[l.author], l.body)]
  }

  /** The rows of one more line end with that line's row. */
  lemma RowsSnoc(users: map<string, nat>, streamer: nat, lines: seq<ChatLine>, line: ChatLine)
    requires forall i :: 0 <= i < |lines| ==> lines[i].author in users
    requires line.author in users
    ensures forall i :: 0 <= i < |lines + [line]| ==> (lines + [line])[i].author in users
    ensures Rows(users, streamer, lines + [line]) == Rows(users, streamer, lines) + [ChatRow(streamer, users[line.author], line.body)]
  {
    assert (lines + [line])[..|lines|] == lines;
  }

  /** Rows only depend on the ids of their authors, which later get-or-creates do not change. */
  lemma {:induction false} RowsExtends(m0: map<string, nat>, m1: map<string, nat>, streamer: nat, lines: seq<ChatLine>)
    requires Extends(m0, m1)
    requires forall i :: 0 <= i < |lines| ==> lines[i].author in m0
    ensures forall i :: 0 <= i < |lines| ==> lines[i].author in m1
    ensures Rows(m1, streamer, lines) == Rows(m0, streamer, lines)
  {
    if lines != [] {
      RowsExtends(m0, m1, streamer, lines[..|lines| - 1]);
    }
  }

  /** One row per line, in line order, each naming the line's author by its id. */
  lemma {:induction false} RowsAt(users: map<string, nat>, streamer: nat, lines: seq<ChatLine>)
    requires forall i :: 0 <= i < |lines| ==> lines[i].author in users
    ensures |Rows(users, streamer, lines)| == |lines|
    ensures forall i :: 0 <= i < |lines| ==>
              Rows(users, streamer, lines)[i] == ChatRow(streamer, users[lines[i].author], lines[i].body)
  {
    if lines != [] {
      RowsAt(users, streamer, lines[..|lines| - 1]);
    }
  }

  /**
   * Username ids `users` and chat log `log` are those of `users0` and `log0`
   * after storing the run of lines `lines` for `streamer`, in order.
   */
  ghost predicate Recorded(users: map<string, nat>, log: seq<ChatRow>, streamer: nat,
                           lines: seq<ChatLine>, users0: map<string, nat>, log0: seq<ChatRow>)
  {
    && Registered(users, users0, Authors(lines))
    && (forall i :: 0 <= i < |lines| ==> lines[i].author in users)
    && log == log0 + Rows(users, streamer, lines)
  }

  /** Storing one more line: get or create its author, then append its row. */
  lemma RecordedSnoc(users: map<string, nat>, log: seq<ChatRow>, streamer: nat,
                     lines: seq<ChatLine>, users0: map<string, nat>, log0: seq<ChatRow>, line: ChatLine)
    requires Recorded(users, log, streamer, lines, users0, log0)
    ensures var users' := Upsert(users, line.author).table;
            Recorded(users', log + [ChatRow(streamer, users'[line.author], line.body)], streamer, lines + [line], users0, log0)
  {
    RegisteredUpsert(users, users0, Authors(lines), line.author);
    AuthorsSnoc(lines, line);
    LogSnoc(users, log, streamer, lines, log0, line);
  }

  /** The chat log after one more line, given that the earlier lines' rows are in it. */
  lemma LogSnoc(users: map<string, nat>, log: seq<ChatRow>, streamer: nat,
                lines: seq<ChatLine>, log0: seq<ChatRow>, line: ChatLine)
    requires forall i :: 0 <= i < |lines| ==> lines[i].author in users
    requires log == log0 + Rows(users, streamer, lines)
    ensures var users' := Upsert(users, line.author).table;
            && (forall i :: 0 <= i < |lines + [line]| ==> (lines + [line])[i].author in users')
            && log + [ChatRow(streamer, users'[line.author], line.body)] == log0 + Rows(users', streamer, lines + [line])
  {
    var users' := Upsert(users, line.author).table;
    RowsExtends(users, users', streamer, lines);
    RowsSnoc(users', streamer, lines, line);
  }

  /**
   * process_chat's loop body: get or create the author's username, then
   * create one chat message for `streamer`. Ghost `lines`, `users0` and
   * `log0` describe what has been stored before.
   */
  method StoreLine(store: Store, streamer: nat, line: ChatLine, ghost lines: seq<ChatLine>,
                   ghost users0: map<string, nat>, ghost log0: seq<ChatRow>)
    requires store.Valid() && Recorded(store.users, store.chatLog, streamer, lines, users0, log0)
    modifies store
    ensures store.Valid() && Recorded(store.users, store.chatLog, streamer, lines + [line], users0, log0)
    ensures store.streamers == old(store.streamers) && store.appearances == old(store.appearances)
  {
    ghost var users, log := store.users, store.chatLog;
    var viewer, _ := store.GetOrCreateUser(line.author);
    store.CreateChatMessage(streamer, viewer, line.body);
    RecordedSnoc(users, log, streamer, lines, users0, log0, line);
  }

  /** process_chat's loop: every line is stored, in order, as a chat message of `streamer`. */
  method StoreLines(store: Store, streamer: nat, lines: seq<ChatLine>)
    requires store.Valid()
    modifies store
    ensures store.Valid()
    ensures Recorded(store.users, store.chatLog, streamer, lines, old(store.users), old(store.chatLog))
    ensures store.streamers == old(store.streamers) && store.appearances == old(store.appearances)
  {
    ghost var users0, log0 := store.users, store.chatLog;
    assert lines[..0] == [];
    for i := 0 to |lines|
      invariant store.Valid()
      invariant Recorded(store.users, store.chatLog, streamer, lines[..i], users0, log0)
      invariant store.streamers == old(store.streamers) && store.appearances == old(store.appearances)
    {
      StoreLine(store, streamer, lines[i], lines[..i], users0, log0);
      PrefixSnoc(lines, i);
    }
    assert lines[..|lines|] == lines;
  }

  /** The chat page of one streamer: `surface` is the chat-line nodes still on it, oldest first. */
  class ChatSession {
    const streamer: nat
    const signal: StopSignal
    var surface: seq<Message>

    constructor (streamer: nat, signal: StopSignal, page: seq<Message>)
      ensures this.streamer == streamer && this.signal == signal && surface == page
    {
      this.streamer, this.signal, surface := streamer, signal, page;
    }

    /** A new chat line appears at the bottom of the page. */
    method Receive(m: Message)
      modifies this
      ensures surface == old(surface) + [m]
    {
      surface := surface + [m];
    }

    /**
     * parse_twitch_message on the first node: read its author and body, then
     * remove it. When the body cannot be read the node is not removed.
     */
    method TakeFirst() returns (line: Option<ChatLine>)
      requires surface != []
      modifies this
      ensures line == ParseMessage(old(surface)[0])
      ensures surface == if line.Some? then old(surface)[1..] else old(surface)
    {
      var node := surface[0];
      var body := MessageToText(node.pieces);
      if body.None? {
        return None;
      }
      line := Some(ChatLine(node.author, body.value));
      surface := surface[1..];
    }

    /**
     * scrape_chat, from the loop head on: while the flag is not set, wait for
     * a first node, parse it and yield it. If `stopAt` is Some(k), the
     * termination signal arrives once k lines of this call have been yielded,
     * before the next check of the flag.
     */
    method Scrape(stopAt: Option<nat>) returns (lines: seq<ChatLine>, end: StreamEnd)
      modifies this, signal
      ensures end == Ending(old(surface), old(signal.isSet), stopAt)
      ensures signal.isSet <==> end == Stopped
      // the first k nodes were taken, each exactly once, in page order; the rest is still there
      ensures var k := Yielded(old(surface), old(signal.isSet), stopAt);
              surface == old(surface)[k..] && ParseAll(old(surface)[..k]) == Some(lines)
    {
      ghost var page, set0 := surface, signal.isSet;
      ghost var p := ParsablePrefix(page);
      ghost var stop := if set0 then Some(0) else stopAt;
      var n := 0;
      var failed := false;
      lines := [];
      assert page[..0] == [];
      if stopAt == Some(0) {
        signal.StopAll();
      }
      while !signal.isSet && surface != [] && !failed
        invariant n <= p && surface == page[n..]
        invariant ParseAll(page[..n]) == Some(lines)
        invariant failed ==> n == p && n < |page| && !signal.isSet
        invariant stop.Some? ==> n <= stop.value
        invariant signal.isSet <==> stop.Some? && stop.value == n
        decreases |surface|, if failed then 0 else 1
      {
        ParsablePrefixAt(page, n);
        var line := TakeFirst();
        if line.None? {
          failed := true;
        } else {
          ParseAllSnoc(page, n);
          lines := lines + [line.value];
          n := n + 1;
          if stopAt == Some(n) {
            signal.StopAll();
          }
        }
      }
      end := if signal.isSet then Stopped else if failed then Failed else Waiting;
    }

    /**
     * process_chat: every line scrape_chat yields is stored, in yield order,
     * as a chat message of this session's streamer.
     */
    method ProcessChat(store: Store, stopAt: Option<nat>) returns (end: StreamEnd)
      requires store.Valid()
      modifies this, signal, store
      ensures store.Valid()
      ensures end == Ending(old(surface), old(signal.isSet), stopAt)
      ensures signal.isSet <==> end == Stopped
      ensures var k := Yielded(old(surface), old(signal.isSet), stopAt);
              && surface == old(surface)[k..]
              && exists lines :: && ParseAll(old(surface)[..k]) == Some(lines)
                                 && Recorded(store.users, store.chatLog, streamer, lines,
                                             old(store.users), old(store.chatLog))
      ensures store.streamers == old(store.streamers) && store.appearances == old(store.appearances)
    {
      var lines;
      lines, end := Scrape(stopAt);
      StoreLines(store, streamer, lines);
    }
  }
}
