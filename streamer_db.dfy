/**
 * The tables of the scraper's database, as the scraping code sees them:
 * usernames and streamers are created on demand by get-or-create, chat
 * messages and viewer-list appearances are only ever appended.
 * Every row is identified by a number handed out in creation order.
 */
module StreamerDb {

  /** A streamer row is looked up by its username row and its platform. */
  datatype StreamerKey = StreamerKey(user: nat, platform: string)

  /** One row of the chat message table. */
  datatype ChatRow = ChatRow(streamer: nat, viewer: nat, message: string)

  /** An instant of the clock; only ever compared for equality here. */
  type Instant = int

  /** One row of the viewer-list appearance table. */
  datatype Appearance = Appearance(viewer: nat, streamer: nat, when: Instant)

  /** The state of a table after a get-or-create, and the id of the row it returned. */
  datatype Upserted<K> = Upserted(table: map<K, nat>, id: nat)

  /** The ids of a table are 0 .. |m|-1, one per row. */
  ghost predicate Numbered<K>(m: map<K, nat>)
  {
    && (forall k :: k in m ==> m[k] < |m|)
    && (forall j, k :: j in m && k in m && m[j] == m[k] ==> j == k)
  }

  /**
   * get_or_create by natural key: an existing row is returned as it is,
   * otherwise a row with the next id is added.
   */
  function Upsert<K>(m: map<K, nat>, k: K): (r: Upserted<K>)
    ensures k in r.table && r.table[k] == r.id
    ensures r.table.Keys == m.Keys + {k}
    ensures forall j :: j in m ==> r.table[j] == m[j]
    ensures k in m ==> r.table == m
  {
    if k in m then Upserted(m, m[k]) else Upserted(m[k := |m|], |m|)
  }

  /** Every row of `m0` is still in `m1`, under the same id. */
  ghost predicate Extends<K>(m0: map<K, nat>, m1: map<K, nat>)
  {
    forall k :: k in m0 ==> k in m1 && m1[k] == m0[k]
  }

  /** Row ids are stable across a run of get-or-creates. */
  lemma ExtendsUpsert<K>(m0: map<K, nat>, m1: map<K, nat>, k: K)
    requires Extends(m0, m1)
    ensures Extends(m0, Upsert(m1, k).table)
  {
  }

  /**
   * After a run of get-or-creates of the keys in `ks`, starting from `m0`:
   * the table holds exactly the old keys and those, under unchanged ids.
   */
  ghost predicate Registered<K>(m: map<K, nat>, m0: map<K, nat>, ks: set<K>)
  {
    m.Keys == m0.Keys + ks && Extends(m0, m)
  }

  /** One more get-or-create registers one more key. */
  lemma RegisteredUpsert<K>(m: map<K, nat>, m0: map<K, nat>, ks: set<K>, k: K)
    requires Registered(m, m0, ks)
    ensures Registered(Upsert(m, k).table, m0, ks + {k})
  {
    ExtendsUpsert(m0, m, k);
  }

  /** The keys of a run of get-or-creates, as a set. */
  function Names<K>(ns: seq<K>): set<K>
  {
    if ns == [] then {} else Names(ns[..|ns| - 1]) + {ns[|ns| - 1]}
  }

  /** A name is in the set exactly when it is listed. */
  lemma {:induction false} NamesAre<K>(ns: seq<K>, name: K)
    ensures name in Names(ns) <==> name in ns
  {
    if ns != [] {
      NamesAre(ns[..|ns| - 1], name);
      assert ns == ns[..|ns| - 1] + [ns[|ns| - 1]];
    }
  }

  lemma NamesSnoc<K>(ns: seq<K>, n: K)
    ensures Names(ns + [n]) == Names(ns) + {n}
  {
    assert (ns + [n])[..|ns|] == ns;
  }

  /** A second get-or-create of the same key changes nothing and returns the same row. */
  lemma UpsertIdempotent<K>(m: map<K, nat>, k: K)
    ensures Upsert(Upsert(m, k).table, k) == Upsert(m, k)
  {
  }

  /** get-or-create keeps the ids distinct, and a created row gets an id no other row has. */
  lemma UpsertKeepsNumbered<K>(m: map<K, nat>, k: K)
    requires Numbered(m)
    ensures Numbered(Upsert(m, k).table)
    ensures k !in m ==> forall j :: j in m ==> m[j] != Upsert(m, k).id
  {
    if k !in m {
      var t := m[k := |m|];
      assert |t| == |m| + 1 by {
        assert t.Keys == m.Keys + {k};
      }
    }
  }

  class Store {
    var users: map<string, nat>
    var streamers: map<StreamerKey, nat>
    var chatLog: seq<ChatRow>
    var appearances: seq<Appearance>

    ghost predicate Valid()
      reads this
    {
      Numbered(users) && Numbered(streamers)
    }

    constructor ()
      ensures Valid()
      ensures users == map[] && streamers == map[] && chatLog == [] && appearances == []
    {
      users, streamers, chatLog, appearances := map[], map[], [], [];
    }

    /** Username.get_or_create(username=name). */
    method GetOrCreateUser(name: string) returns (id: nat, created: bool)
      requires Valid()
      modifies this
      ensures Valid()
      ensures Upserted(users, id) == Upsert(old(users), name)
      ensures created == (name !in old(users))
      ensures streamers == old(streamers) && chatLog == old(chatLog) && appearances == old(appearances)
    {
      UpsertKeepsNumbered(users, name);
      created := name !in users;
      var r := Upsert(users, name);
      users, id := r.table, r.id;
    }

    /** Streamer.get_or_create(username=user, platform=platform). */
    method GetOrCreateStreamer(user: nat, platform: string) returns (id: nat, created: bool)
      requires Valid()
      modifies this
      ensures Valid()
      ensures Upserted(streamers, id) == Upsert(old(streamers), StreamerKey(user, platform))
      ensures created == (StreamerKey(user, platform) !in old(streamers))
      ensures users == old(users) && chatLog == old(chatLog) && appearances == old(appearances)
    {
      var key := StreamerKey(user, platform);
      UpsertKeepsNumbered(streamers, key);
      created := key !in streamers;
      var r := Upsert(streamers, key);
      streamers, id := r.table, r.id;
    }

    /** ChatMessage.create(streamer=streamer, viewer=viewer, message=message). */
    method CreateChatMessage(streamer: nat, viewer: nat, message: string)
      modifies this
      ensures chatLog == old(chatLog) + [ChatRow(streamer, viewer, message)]
      ensures users == old(users) && streamers == old(streamers) && appearances == old(appearances)
    {
      chatLog := chatLog + [ChatRow(streamer, viewer, message)];
    }

    /** ViewerlistAppearance.create(viewer=viewer, streamer=streamer, when=when). */
    method CreateAppearance(viewer: nat, streamer: nat, when: Instant)
      modifies this
      ensures appearances == old(appearances) + [Appearance(viewer, streamer, when)]
      ensures users == old(users) && streamers == old(streamers) && chatLog == old(chatLog)
    {
      appearances := appearances + [Appearance(viewer, streamer, when)];
    }
  }
}
