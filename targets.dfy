/**
 * The streamers a run works on: one per configured chat name, looked up (or
 * created) as a Twitch streamer whose username row is that name's.
 */
module Targets {
  import opened Wrappers
  import opened StreamerDb

  /** The platform every configured chat is on. */
  const Twitch := "twitch"

  /** The streamer key of the chat named `chat`, given the username ids. */
  function KeyOf(users: map<string, nat>, chat: string): StreamerKey
    requires chat in users
  {
    StreamerKey(users[chat], Twitch)
  }

  /** The streamer keys of a run of chat names. */
  function Keys(users: map<string, nat>, chats: seq<string>): set<StreamerKey>
    requires forall i :: 0 <= i < |chats| ==> chats[i] in users
  {
    if chats == [] then {}
    else Keys(users, chats[..|chats| - 1]) + {KeyOf(users, chats[|chats| - 1])}
  }

  /** The keys only depend on the ids of the names, which later get-or-creates do not change. */
  lemma {:induction false} KeysExtends(m0: map<string, nat>, m1: map<string, nat>, chats: seq<string>)
    requires Extends(m0, m1)
    requires forall i :: 0 <= i < |chats| ==> chats[i] in m0
    ensures forall i :: 0 <= i < |chats| ==> chats[i] in m1
    ensures Keys(m1, chats) == Keys(m0, chats)
  {
    if chats != [] {
      KeysExtends(m0, m1, chats[..|chats| - 1]);
    }
  }

  lemma KeysSnoc(users: map<string, nat>, chats: seq<string>, chat: string)
    requires forall i :: 0 <= i < |chats| ==> chats[i] in users
    requires chat in users
    ensures forall i :: 0 <= i < |chats + [chat]| ==> (chats + [chat])[i] in users
    ensures Keys(users, chats + [chat]) == Keys(users, chats) + {KeyOf(users, chat)}
  {
    assert (chats + [chat])[..|chats|] == chats;
  }

  /** `ids[k]` is the id of the Twitch streamer of the k-th chat name. */
  ghost predicate Resolved(users: map<string, nat>, streamers: map<StreamerKey, nat>, chats: seq<string>, ids: seq<nat>)
  {
    && |ids| == |chats|
    && (forall k :: 0 <= k < |chats| ==> chats[k] in users)
    && (forall k :: 0 <= k < |chats| ==> KeyOf(users, chats[k]) in streamers && ids[k] == streamers[KeyOf(users, chats[k])])
  }

  /** Two chat names get the same streamer exactly when they are the same name. */
  lemma ResolvedDistinct(users: map<string, nat>, streamers: map<StreamerKey, nat>, chats: seq<string>, ids: seq<nat>)
    requires Numbered(users) && Numbered(streamers)
    requires Resolved(users, streamers, chats, ids)
    ensures forall i, j :: 0 <= i < |chats| && 0 <= j < |chats| ==> (ids[i] == ids[j] <==> chats[i] == chats[j])
  {
    forall i, j | 0 <= i < |chats| && 0 <= j < |chats| && ids[i] == ids[j]
      ensures chats[i] == chats[j]
    {
      assert KeyOf(users, chats[i]) == KeyOf(users, chats[j]);
    }
  }

  /**
   * After resolving the chat names `chats` from tables `users0` and
   * `streamers0`: the names and their keys are registered and `ids` are
   * their streamers.
   */
  ghost predicate Targeted(users: map<string, nat>, streamers: map<StreamerKey, nat>, chats: seq<string>, ids: seq<nat>,
                           users0: map<string, nat>, streamers0: map<StreamerKey, nat>)
  {
    && Registered(users, users0, Names(chats))
    && Resolved(users, streamers, chats, ids)
    && Registered(streamers, streamers0, Keys(users, chats))
  }

  /** The streamers of earlier names are still theirs after one more pair of get-or-creates. */
  lemma ResolvedSnoc(users: map<string, nat>, streamers: map<StreamerKey, nat>, chats: seq<string>, ids: seq<nat>, chat: string)
    requires Resolved(users, streamers, chats, ids)
    ensures var users' := Upsert(users, chat).table;
            var key := KeyOf(users', chat);
            var streamers' := Upsert(streamers, key).table;
            Resolved(users', streamers', chats + [chat], ids + [streamers'[key]])
  {
    var users' := Upsert(users, chat).table;
    var key := KeyOf(users', chat);
    var streamers' := Upsert(streamers, key).table;
    var chats', ids' := chats + [chat], ids + [streamers'[key]];
    forall k | 0 <= k < |chats'|
      ensures chats'[k] in users'
      ensures KeyOf(users', chats'[k]) in streamers' && ids'[k] == streamers'[KeyOf(users', chats'[k])]
    {
      if k < |chats| {
        assert chats'[k] == chats[k] && ids'[k] == ids[k];
        assert KeyOf(users', chats[k]) == KeyOf(users, chats[k]);
      }
    }
  }

  /** Resolving one more chat name: get or create its username, then its Twitch streamer. */
  lemma TargetedSnoc(users: map<string, nat>, streamers: map<StreamerKey, nat>, chats: seq<string>, ids: seq<nat>,
                     users0: map<string, nat>, streamers0: map<StreamerKey, nat>, chat: string)
    requires Targeted(users, streamers, chats, ids, users0, streamers0)
    ensures var users' := Upsert(users, chat).table;
            var key := KeyOf(users', chat);
            var streamers' := Upsert(streamers, key).table;
            Targeted(users', streamers', chats + [chat], ids + [streamers'[key]], users0, streamers0)
  {
    var users' := Upsert(users, chat).table;
    var key := KeyOf(users', chat);
    RegisteredUpsert(users, users0, Names(chats), chat);
    NamesSnoc(chats, chat);
    ResolvedSnoc(users, streamers, chats, ids, chat);
    KeysExtends(users, users', chats);
    KeysSnoc(users', chats, chat);
    RegisteredUpsert(streamers, streamers0, Keys(users', chats), key);
  }

  /** get_streamers' loop body: the streamer of one chat name. */
  method Target(store: Store, chat: string, ghost chats: seq<string>, ghost ids: seq<nat>,
                ghost users0: map<string, nat>, ghost streamers0: map<StreamerKey, nat>) returns (id: nat)
    requires store.Valid() && Targeted(store.users, store.streamers, chats, ids, users0, streamers0)
    modifies store
    ensures store.Valid() && Targeted(store.users, store.streamers, chats + [chat], ids + [id], users0, streamers0)
    ensures store.chatLog == old(store.chatLog) && store.appearances == old(store.appearances)
  {
    ghost var users, streamers := store.users, store.streamers;
    var user, _ := store.GetOrCreateUser(chat);
    var streamer, _ := store.GetOrCreateStreamer(user, Twitch);
    id := streamer;
    TargetedSnoc(users, streamers, chats, ids, users0, streamers0, chat);
  }

  /**
   * get_streamers: one Twitch streamer per configured chat name, in the
   * configured order; the same name always gives the same streamer and
   * different names give different ones.
   */
  method GetStreamers(store: Store, chats: seq<string>) returns (streamers: seq<nat>)
    requires store.Valid()
    modifies store
    ensures store.Valid()
    ensures Targeted(store.users, store.streamers, chats, streamers, old(store.users), old(store.streamers))
    ensures forall i, j :: 0 <= i < |chats| && 0 <= j < |chats| ==> (streamers[i] == streamers[j] <==> chats[i] == chats[j])
    ensures store.chatLog == old(store.chatLog) && store.appearances == old(store.appearances)
  {
    ghost var users0, streamers0 := store.users, store.streamers;
    streamers := [];
    assert chats[..0] == [];
    for i := 0 to |chats|
      invariant store.Valid()
      invariant Targeted(store.users, store.streamers, chats[..i], streamers, users0, streamers0)
      invariant store.chatLog == old(store.chatLog) && store.appearances == old(store.appearances)
    {
      var id := Target(store, chats[i], chats[..i], streamers, users0, streamers0);
      streamers := streamers + [id];
      PrefixSnoc(chats, i);
    }
    assert chats[..|chats|] == chats;
    ResolvedDistinct(store.users, store.streamers, chats, streamers);
  }
}
