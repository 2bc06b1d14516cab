# A model of the twitchchatscraper core

twitchchatscraper keeps browser pages open on Twitch chats. It does two jobs:

- It reads every chat line that appears on a chat page and stores it as a chat message of that streamer.
- On request, it opens each streamer's "Users in Chat" panel and records every listed viewer as having appeared at one instant.

It can also dump the stored chat as text, either one file per streamer or one line per stored message.

The project models that core in Dafny. The browser page and the database are replaced by plain data:

- A chat page is a sequence of message nodes. Each node has an author and a list of body pieces.
- The viewer panel is a sequence of buttons.
- The database is a `Store` object. Its username and streamer tables are maps from natural key to row id. Its chat-message and appearance tables are append-only sequences.
- The process-wide stop flag is a `StopSignal` object.

Modules:

- `Wrappers`: `Option`, and one sequence fact.
- `StreamerDb`: the tables, and get-or-create as the function `Upsert`. A get-or-create hands out the next id, and `Numbered` says the ids stay distinct.
- `ChatText`: the body of one chat line. `Body` is the reference definition, and `MessageToText` is the loop of `twitch_message_to_text`, proved equal to it.
- `ChatScraper`: the stop flag, and the chat page as a class. `Scrape` is the `scrape_chat` loop. `StoreLines` is the `process_chat` loop. `ProcessChat` runs one after the other.
- `ViewerSnapshot`: `get_viewer_list` and `process_streamer`.
- `Targets`: `get_streamers`.
- `ChatDump`: `_dumpchat` and `_dumpall`.

Each state-changing loop is proved against a predicate that describes the whole new state (`Recorded`, `Snapshotted`, `Targeted`). Each predicate is built from recursive functions (`Rows`, `Sightings`, `Keys`), and separate lemmas characterise those functions pointwise.

A few modelling choices differ from the plain reading of the code:

- **An emote image without an `alt` attribute.** The code then appends `None` to a string, which raises. The model does not require the attribute to be present. Instead, reading the body returns `None`. The exception leaves the node on the page and ends the drain, so `Scrape` then ends `Failed` and leaves the node in `surface`.
- **An empty page.** `wait_for(timeout=0)` blocks until a chat line arrives. The model's `Scrape` returns `Waiting` there. `Receive` adds a node, after which the drain can be started again.
- **The termination signal.** It arrives at a point the program does not control. `Scrape` takes it as a parameter `stopAt`: `Some(k)` means the signal is delivered once k lines of this drain have been handled. The flag is only read at the loop head, so a signal that arrives during a line's handling stops the drain before the next node.

## Model

| member | source | states |
|---|---|---|
| ChatText.MessageToText | src/twitchchatscraper.py:19-29 | the body built piece by piece is exactly the reference `Body` of the pieces, and None when an image without alt is reached |
| ChatText.BodyAppend | src/twitchchatscraper.py:21-28 | the body of two runs of pieces is the concatenation of their bodies, with nothing inserted between them |
| ChatText.BodyFailsIff | src/twitchchatscraper.py:25-28 | reading fails if and only if some piece has empty text and an image without alt |
| ChatText.BodyIgnoresImageBesideText | src/twitchchatscraper.py:22-24 | a piece with non-empty text contributes its text whatever image it holds |
| ChatText.BodyEmoteReadsAsAlt | src/twitchchatscraper.py:25-28 | a piece with empty text and an emote with alt reads exactly like a text piece holding the alt |
| ChatText.BodySkipsBarePiece | src/twitchchatscraper.py:25-27 | a piece with empty text and no image contributes nothing |
| ChatText.BodyOfTextPieces | src/twitchchatscraper.py:21-24 | pieces that all carry text read as their texts back to back |
| ChatText.ParseAllAt | src/twitchchatscraper.py:32-37 | a run of nodes parses exactly when each node does, into one (author, body) line per node, in node order |
| ChatScraper.StopSignal.StopAll | src/twitchchatscraper.py:195-196 | stop_all sets the flag; no member clears it |
| ChatScraper.ChatSession.TakeFirst | src/twitchchatscraper.py:32-37 | the first node is parsed into (author, body) and removed, leaving the old page minus its first node; on a read failure the page is untouched |
| ChatScraper.ParsablePrefixIsFirstFailure | src/twitchchatscraper.py:52-54 | every node before the readable prefix's end parses, and the node at its end does not |
| ChatScraper.EndingCases | src/twitchchatscraper.py:52-54 | a flag already set yields nothing; an unstopped drain yields every node before the first unreadable one; it fails if and only if an unreadable node is on the page and waits if and only if every node is readable |
| ChatScraper.ChatSession.Scrape | src/twitchchatscraper.py:50-55 | the first k nodes are yielded once each, in page order, and the rest stays on the page; k and the way the drain ends are fixed by `Yielded` and `Ending`; the flag is set at the end if and only if the drain stopped |
| ChatScraper.RowsAt | src/twitchchatscraper.py:59-61 | the rows stored for a run of lines are one per line, in line order, each naming its author's username id |
| ChatScraper.RowsExtends | src/twitchchatscraper.py:60 | rows stored earlier keep their viewer ids through later get-or-creates |
| ChatScraper.StoreLine | src/twitchchatscraper.py:60-61 | one more line: its author is got or created and exactly one chat message is appended |
| ChatScraper.StoreLines | src/twitchchatscraper.py:58-61 | the username table grows by exactly the authors with unchanged ids, and the chat log gains exactly one row per line, in order |
| ChatScraper.ChatSession.ProcessChat | src/twitchchatscraper.py:58-62 | the lines scrape_chat yields are stored one chat message each, in yield order; the flag is set afterwards if and only if the drain stopped; streamers and appearances are untouched |
| ChatScraper.AuthorsAre | src/twitchchatscraper.py:60 | a username is among the new keys exactly when some yielded line has it as its author |
| StreamerDb.Upsert | src/twitchchatscraper.py:60 | get-or-create returns the row of the key, adds only that key, keeps every other row's id, and changes nothing for a known key |
| StreamerDb.UpsertIdempotent | src/twitchchatscraper.py:60 | a repeated get-or-create of the same key returns the same row and leaves the table as it was |
| StreamerDb.UpsertKeepsNumbered | src/twitchchatscraper.py:60 | after a get-or-create, ids stay distinct, and a created row's id belongs to no older row |
| StreamerDb.NamesAre | src/twitchchatscraper.py:91 | a key is in the set of a run of get-or-creates exactly when it occurs in the run |
| StreamerDb.Store.GetOrCreateUser | src/twitchchatscraper.py:60 | Username.get_or_create is the `Upsert` of the username table; `created` holds when the name was new; other tables are unchanged |
| StreamerDb.Store.GetOrCreateStreamer | src/twitchchatscraper.py:99 | Streamer.get_or_create by username row and platform is the `Upsert` of the streamer table |
| StreamerDb.Store.CreateChatMessage | src/twitchchatscraper.py:61 | appends exactly one chat message row and changes nothing else |
| StreamerDb.Store.CreateAppearance | src/twitchchatscraper.py:92 | appends exactly one appearance row and changes nothing else |
| ViewerSnapshot.ViewerList | src/twitchchatscraper.py:80-82 | one username per panel button, in button order, duplicates kept |
| ViewerSnapshot.SightingsAt | src/twitchchatscraper.py:88-92 | the appearances of a run of viewers are one per viewer, in order, all at the same instant |
| ViewerSnapshot.SightingsExtends | src/twitchchatscraper.py:91 | appearances recorded earlier keep their viewer ids through later get-or-creates |
| ViewerSnapshot.RecordViewer | src/twitchchatscraper.py:91-92 | one more viewer: get-or-create of the username, then exactly one appearance at `now` |
| ViewerSnapshot.ProcessStreamer | src/twitchchatscraper.py:86-92 | each listed viewer gets exactly one appearance, in list order, at the single `now`; the username table grows by exactly the listed names |
| Targets.KeysExtends | src/twitchchatscraper.py:98-99 | the streamer keys of earlier names do not change through later username get-or-creates |
| Targets.ResolvedDistinct | src/twitchchatscraper.py:98-100 | two configured chats get the same streamer if and only if they have the same name |
| Targets.Target | src/twitchchatscraper.py:98-100 | one more configured chat: get-or-create of its username, then of its Twitch streamer, whose id is returned; the earlier chats keep their streamers |
| Targets.GetStreamers | src/twitchchatscraper.py:95-101 | one Twitch streamer per configured chat, in configured order; both tables grow by exactly those names and keys; equal ids exactly for equal names |
| ChatDump.Dashes | src/twitchchatscraper.py:161 | the rule is exactly n dash characters |
| ChatDump.TextAppend | src/twitchchatscraper.py:154-163 | the file text of two runs of lines is their texts one after the other |
| ChatDump.BlockText | src/twitchchatscraper.py:159-163 | what one loop iteration writes is its record's block: date line and rule when the date changes, then the entry line |
| ChatDump.BlockParts | src/twitchchatscraper.py:159-163 | a record's block holds exactly its one entry, and a header of its date if and only if its date differs from the previous record's or it is the first |
| ChatDump.DumpChat | src/twitchchatscraper.py:151-163 | the file content is the text of `Document`: for each record in order, a date header and a 20-dash rule when its date differs from the previous record's (always for the first), then its entry |
| ChatDump.DocumentEntries | src/twitchchatscraper.py:157-163 | every record gives exactly one `[time] <author> message` entry, in input order, and nothing else is an entry |
| ChatDump.DocumentHeaderDates | src/twitchchatscraper.py:158-161 | a date has a header somewhere in the file exactly when some record has that date |
| ChatDump.DocumentHeadersDistinct | src/twitchchatscraper.py:155-162 | when records of one date are contiguous, no date has two headers |
| ChatDump.AllLineShowsStamp | src/twitchchatscraper.py:171-174 | a printed line changes with the row's timestamp if and only if timestamps are on |
| ChatDump.DumpAll | src/twitchchatscraper.py:166-174 | one printed line per row, in order, with the timestamp exactly when timestamps are on |

## Left out

- Playwright is not modelled: pages, navigation, locators, clicking, the panel's element count, the 0.5 s settle wait and closing the page. The chat page is the `surface` sequence, and an open panel is its sequence of buttons.
- `asyncio.gather` over all streamers, the HTTP semaphore, the signal handlers' registration and the `asyncio.sleep` calls are left out: concurrency and timing. The sessions of different streamers would share the store concurrently; the model runs one at a time.
- ChatScraper.ChatSession.ProcessChat: the source stores each line as soon as it is yielded, while the model takes all lines first (`Scrape`) and then stores them (`StoreLines`). With one session and no concurrent writers, the resulting tables are the same. The point at which the signal arrives is still counted in handled lines.
- ViewerSnapshot.ProcessStreamer: the source records each viewer as soon as `get_viewer_list` yields it, while the model reads the whole panel first (`ViewerList`) and then records the viewers one by one (`RecordViewer`). With no concurrent writers, the resulting tables are the same.
- The `data-a-user` and `data-username` attributes are taken to be present strings. A missing attribute (`None`) would reach `get_or_create` as a null username; the database models behind it are not part of this model.
- Tortoise is not modelled: connection setup, schema generation, closing, and the `values_list` queries and orderings. The `created` timestamp of a chat message is not modelled either. The dumps take their records already read, oldest first, with date, time and timestamp strings already formatted; `strftime` and `datetime.now` are not modelled (`now` is a parameter).
- `_dumpchat` looks the streamer up with `Streamer.get`, which raises when the name is unknown; that lookup is not modelled.
- `_dumpviewerlists` and `_allstreamers` are query plumbing, and they are left out.
- File opening and `print` are left out: `DumpChat` returns the file's content and `DumpAll` returns the printed lines without their newlines.
- The click command-line interface, logging and `src/configuration.py` are left out.
- ChatScraper.ChatSession.Scrape: the blocking wait on an empty page is modelled as returning `Waiting` rather than blocking. The signal is only delivered between handled lines, so two timings of the source are not modelled: a signal that arrives while the source is blocked in that wait, after which the source still yields the next message to arrive (a restarted `Scrape` sees the flag and yields nothing); and a signal that arrives while an unreadable node is being read, which the source ends as a failure with the flag set (the model has only `Stopped` with the flag set or `Failed` with it clear).
- ChatDump.DocumentHeadersDistinct: holds only for records whose dates are contiguous. The code orders by creation time; that such dates are contiguous belongs to the clock, which is not modelled.
