/**
 * The viewer-list snapshot of one streamer: the "Users in Chat" panel lists
 * one button per viewer, and every listed viewer is recorded as having
 * appeared in that streamer's chat at the one instant taken when the
 * snapshot started.
 */
module ViewerSnapshot {
  import opened Wrappers
  import opened StreamerDb

  /** One button of the viewer list; `username` is its data-username attribute. */
  datatype ViewerButton = ViewerButton(username: string)

  /**
   * get_viewer_list, once the panel is open: the username of every button,
   * from the first to the last.
   */
  method ViewerList(panel: seq<ViewerButton>) returns (viewers: seq<string>)
    ensures |viewers| == |panel|
    ensures forall i :: 0 <= i < |panel| ==> viewers[i] == panel[i].username
  {
    viewers := [];
    for n := 0 to |panel|
      invariant |viewers| == n
      invariant forall i :: 0 <= i < n ==> viewers[i] == panel[i].username
    {
      viewers := viewers + [panel[n].username];
    }
  }

  /** The appearance rows of a run of viewers seen by `streamer` at `when`. */
  function Sightings(users: map<string, nat>, streamer: nat, ns: seq<string>, when: Instant): seq<Appearance>
    requires forall i :: 0 <= i < |ns| ==> ns[i] in users
  {
    if ns == [] then []
    else Sightings(users, streamer, ns[..|ns| - 1], when) + [Appearance(users[ns[|ns| - 1]], streamer, when)]
  }

  /** One appearance per listed viewer, in list order, all at the same instant. */
  lemma {:induction false} SightingsAt(users: map<string, nat>, streamer: nat, ns: seq<string>, when: Instant)
    requires forall i :: 0 <= i < |ns| ==> ns[i] in users
    ensures |Sightings(users, streamer, ns, when)| == |ns|
    ensures forall i :: 0 <= i < |ns| ==>
              Sightings(users, streamer, ns, when)[i] == Appearance(users[ns[i]], streamer, when)
  {
    if ns != [] {
      SightingsAt(users, streamer, ns[..|ns| - 1], when);
    }
  }

  /** Appearances only depend on the ids of their viewers, which later get-or-creates do not change. */
  lemma {:induction false} SightingsExtends(m0: map<string, nat>, m1: map<string, nat>, streamer: nat,
                                            ns: seq<string>, when: Instant)
    requires Extends(m0, m1)
    requires forall i :: 0 <= i < |ns| ==> ns[i] in m0
    ensures forall i :: 0 <= i < |ns| ==> ns[i] in m1
    ensures Sightings(m1, streamer, ns, when) == Sightings(m0, streamer, ns, when)
  {
    if ns != [] {
      SightingsExtends(m0, m1, streamer, ns[..|ns| - 1], when);
    }
  }

  lemma SightingsSnoc(users: map<string, nat>, streamer: nat, ns: seq<string>, n: string, when: Instant)
    requires forall i :: 0 <= i < |ns| ==> ns[i] in users
    requires n in users
    ensures forall i :: 0 <= i < |ns + [n]| ==> (ns + [n])[i] in users
    ensures Sightings(users, streamer, ns + [n], when) == Sightings(users, streamer, ns, when) + [Appearance(users[n], streamer, when)]
  {
    assert (ns + [n])[..|ns|] == ns;
  }

  /**
   * Username ids `users` and appearances `apps` are those of `users0` and
   * `apps0` after recording the run of viewers `ns`, in order, as seen by
   * `streamer` at `when`.
   */
  ghost predicate Snapshotted(users: map<string, nat>, apps: seq<Appearance>, streamer: nat, ns: seq<string>,
                              when: Instant, users0: map<string, nat>, apps0: seq<Appearance>)
  {
    && Registered(users, users0, Names(ns))
    && (forall i :: 0 <= i < |ns| ==> ns[i] in users)
    && apps == apps0 + Sightings(users, streamer, ns, when)
  }

  lemma AppsSnoc(users: map<string, nat>, apps: seq<Appearance>, streamer: nat, ns: seq<string>,
                 when: Instant, apps0: seq<Appearance>, n: string)
    requires forall i :: 0 <= i < |ns| ==> ns[i] in users
    requires apps == apps0 + Sightings(users, streamer, ns, when)
    ensures var users' := Upsert(users, n).table;
            && (forall i :: 0 <= i < |ns + [n]| ==> (ns + [n])[i] in users')
            && apps + [Appearance(users'[n], streamer, when)] == apps0 + Sightings(users', streamer, ns + [n], when)
  {
    var users' := Upsert(users, n).table;
    SightingsExtends(users, users', streamer, ns, when);
    SightingsSnoc(users', streamer, ns, n, when);
  }

  /** Recording one more viewer: get or create the username, then append its appearance. */
  lemma SnapshottedSnoc(users: map<string, nat>, apps: seq<Appearance>, streamer: nat, ns: seq<string>,
                        when: Instant, users0: map<string, nat>, apps0: seq<Appearance>, n: string)
    requires Snapshotted(users, apps, streamer, ns, when, users0, apps0)
    ensures var users' := Upsert(users, n).table;
            Snapshotted(users', apps + [Appearance(users'[n], streamer, when)], streamer, ns + [n], when, users0, apps0)
  {
    RegisteredUpsert(users, users0, Names(ns), n);
    NamesSnoc(ns, n);
    AppsSnoc(users, apps, streamer, ns, when, apps0, n);
  }

  /**
   * process_streamer's loop body: get or create the viewer's username, then
   * create one appearance of it in `streamer`'s chat at `when`.
   */
  method RecordViewer(store: Store, streamer: nat, name: string, when: Instant, ghost ns: seq<string>,
                      ghost users0: map<string, nat>, ghost apps0: seq<Appearance>)
    requires store.Valid() && Snapshotted(store.users, store.appearances, streamer, ns, when, users0, apps0)
    modifies store
    ensures store.Valid() && Snapshotted(store.users, store.appearances, streamer, ns + [name], when, users0, apps0)
    ensures store.streamers == old(store.streamers) && store.chatLog == old(store.chatLog)
  {
    ghost var users, apps := store.users, store.appearances;
    var viewer, _ := store.GetOrCreateUser(name);
    store.CreateAppearance(viewer, streamer, when);
    SnapshottedSnoc(users, apps, streamer, ns, when, users0, apps0, name);
  }

  /**
   * process_streamer: every viewer listed in `streamer`'s panel gets one
   * appearance, in list order, all stamped with `now`, the instant read
   * once before the list is walked.
   */
  method ProcessStreamer(store: Store, streamer: nat, panel: seq<ViewerButton>, now: Instant)
    requires store.Valid()
    modifies store
    ensures store.Valid()
    ensures exists viewers :: && |viewers| == |panel|
                              && (forall i :: 0 <= i < |panel| ==> viewers[i] == panel[i].username)
                              && Snapshotted(store.users, store.appearances, streamer, viewers, now,
                                             old(store.users), old(store.appearances))
    ensures store.streamers == old(store.streamers) && store.chatLog == old(store.chatLog)
  {
    var viewers := ViewerList(panel);
    ghost var users0, apps0 := store.users, store.appearances;
    assert viewers[..0] == [];
    for i := 0 to |viewers|
      invariant store.Valid()
      invariant Snapshotted(store.users, store.appearances, streamer, viewers[..i], now, users0, apps0)
      invariant store.streamers == old(store.streamers) && store.chatLog == old(store.chatLog)
    {
      RecordViewer(store, streamer, viewers[i], now, viewers[..i], users0, apps0);
      PrefixSnoc(viewers, i);
    }
    assert viewers[..|viewers|] == viewers;
  }
}
