/**
 * The text dumps of stored chat. The chat file of one streamer lists its
 * messages oldest first; each calendar day opens with a header of its date
 * and a rule of dashes, and every message is one "[HH:MM] <author> message"
 * line. The dump of the whole table prints one line per message, naming
 * the streamer, with or without the full timestamp.
 */
module ChatDump {
  import opened Wrappers

  /** One message as the chat dump reads it: its date and time, already formatted, its author and text. */
  datatype ChatRecord = ChatRecord(date: string, time: string, author: string, message: string)

  /** One line of a chat file. */
  datatype DumpLine = DateHeader(date: string) | Rule | Entry(time: string, author: string, message: string)

  /** The length of the rule that follows each date header. */
  const RuleWidth := 20

  /** `n` dashes. */
  function Dashes(n: nat): (s: string)
    ensures |s| == n && forall i :: 0 <= i < n ==> s[i] == '-'
  {
    if n == 0 then "" else Dashes(n - 1) + "-"
  }

  /** The text written for one line, its newline included. */
  function Render(l: DumpLine): string
  {
    match l
    case DateHeader(d) => d + "\n"
    case Rule => Dashes(RuleWidth) + "\n"
    case Entry(t, a, m) => "[" + t + "] <" + a + "> " + m + "\n"
  }

  /** The text of a run of lines, one after the other. */
  function Text(ls: seq<DumpLine>): string
  {
    if ls == [] then "" else Render(ls[0]) + Text(ls[1..])
  }

  lemma {:induction false} TextAppend(ls: seq<DumpLine>, ms: seq<DumpLine>)
    ensures Text(ls + ms) == Text(ls) + Text(ms)
  {
    if ls == [] {
      assert ls + ms == ms;
    } else {
      assert (ls + ms)[0] == ls[0] && (ls + ms)[1..] == ls[1..] + ms;
      TextAppend(ls[1..], ms);
      assert Render(ls[0]) + (Text(ls[1..]) + Text(ms)) == (Render(ls[0]) + Text(ls[1..])) + Text(ms);
    }
  }

  /** Record i opens a new day: it is the first, or its date is not the one before it. */
  predicate StartsDay(rs: seq<ChatRecord>, i: nat)
    requires i < |rs|
  {
    i == 0 || rs[i - 1].date != rs[i].date
  }

  function EntryOf(r: ChatRecord): DumpLine
  {
    Entry(r.time, r.author, r.message)
  }

  /** The lines for record i: a date header and a rule when it opens a day, then its entry. */
  function Block(rs: seq<ChatRecord>, i: nat): seq<DumpLine>
    requires i < |rs|
  {
    (if StartsDay(rs, i) then [DateHeader(rs[i].date), Rule] else []) + [EntryOf(rs[i])]
  }

  /** The lines of the chat file of records `rs`, oldest first. */
  function Document(rs: seq<ChatRecord>): seq<DumpLine>
  {
    if rs == [] then [] else Document(rs[..|rs| - 1]) + Block(rs, |rs| - 1)
  }

  /** The block of a record only depends on the records up to it. */
  lemma BlockOfPrefix(rs: seq<ChatRecord>, i: nat)
    requires i < |rs|
    ensures Block(rs[..i + 1], i) == Block(rs, i)
  {
    assert rs[..i + 1][i] == rs[i];
    if i > 0 {
      assert rs[..i + 1][i - 1] == rs[i - 1];
    }
  }

  lemma DocumentSnoc(rs: seq<ChatRecord>, i: nat)
    requires i < |rs|
    ensures Document(rs[..i + 1]) == Document(rs[..i]) + Block(rs, i)
  {
    assert rs[..i + 1][..i] == rs[..i];
    BlockOfPrefix(rs, i);
  }

  /** The line shapes of one block. */
  lemma BlockShape(rs: seq<ChatRecord>, i: nat)
    requires i < |rs|
    ensures Block(rs, i) == if StartsDay(rs, i) then [DateHeader(rs[i].date), Rule, EntryOf(rs[i])] else [EntryOf(rs[i])]
  {
  }

  /**
   * What the loop body writes for record i after `before`: the date and the
   * rule when the record opens a day, then its entry line.
   */
  lemma BlockText(rs: seq<ChatRecord>, i: nat, before: string)
    requires i < |rs|
    ensures var r := rs[i];
            var head := if StartsDay(rs, i) then before + (r.date + "\n") + (Dashes(RuleWidth) + "\n") else before;
            head + ("[" + r.time + "] <" + r.author + "> " + r.message + "\n") == before + Text(Block(rs, i))
  {
    var h, e := DateHeader(rs[i].date), EntryOf(rs[i]);
    BlockShape(rs, i);
    assert Text([e]) == Render(e) by {
      assert [e][1..] == [];
    }
    if StartsDay(rs, i) {
      assert [h, Rule, e][1..] == [Rule, e] && [Rule, e][1..] == [e];
      assert Text([h, Rule, e]) == Render(h) + (Render(Rule) + Render(e));
    }
  }

  /**
   * _dumpchat, once the streamer's messages have been read oldest first:
   * the content written to the streamer's chat file.
   */
  method DumpChat(records: seq<ChatRecord>) returns (file: string)
    ensures file == Text(Document(records))
  {
    file := "";
    var lastDate: Option<string> := None;
    assert records[..0] == [];
    for i := 0 to |records|
      invariant file == Text(Document(records[..i]))
      invariant lastDate == if i == 0 then None else Some(records[i - 1].date)
    {
      var r := records[i];
      ghost var before := file;
      BlockText(records, i, before);
      if lastDate != Some(r.date) {
        file := file + (r.date + "\n");
        file := file + (Dashes(RuleWidth) + "\n");
        lastDate := Some(r.date);
      }
      file := file + ("[" + r.time + "] <" + r.author + "> " + r.message + "\n");
      DocumentSnoc(records, i);
      TextAppend(Document(records[..i]), Block(records, i));
    }
    assert records[..|records|] == records;
  }

  /** The entries of a run of lines, in order. */
  function Entries(ls: seq<DumpLine>): seq<DumpLine>
  {
    if ls == [] then [] else (if ls[0].Entry? then [ls[0]] else []) + Entries(ls[1..])
  }

  /** The dates of the headers of a run of lines, in order. */
  function Headers(ls: seq<DumpLine>): seq<string>
  {
    if ls == [] then [] else (if ls[0].DateHeader? then [ls[0].date] else []) + Headers(ls[1..])
  }

  lemma {:induction false} EntriesAppend(ls: seq<DumpLine>, ms: seq<DumpLine>)
    ensures Entries(ls + ms) == Entries(ls) + Entries(ms)
  {
    if ls == [] {
      assert ls + ms == ms;
    } else {
      assert (ls + ms)[0] == ls[0] && (ls + ms)[1..] == ls[1..] + ms;
      EntriesAppend(ls[1..], ms);
    }
  }

  lemma {:induction false} HeadersAppend(ls: seq<DumpLine>, ms: seq<DumpLine>)
    ensures Headers(ls + ms) == Headers(ls) + Headers(ms)
  {
    if ls == [] {
      assert ls + ms == ms;
    } else {
      assert (ls + ms)[0] == ls[0] && (ls + ms)[1..] == ls[1..] + ms;
      HeadersAppend(ls[1..], ms);
    }
  }

  /** A block holds exactly its record's entry, and a header of its date exactly when it opens a day. */
  lemma BlockParts(rs: seq<ChatRecord>, i: nat)
    requires i < |rs|
    ensures Entries(Block(rs, i)) == [EntryOf(rs[i])]
    ensures Headers(Block(rs, i)) == if StartsDay(rs, i) then [rs[i].date] else []
  {
    var h, e := DateHeader(rs[i].date), EntryOf(rs[i]);
    BlockShape(rs, i);
    assert [e][1..] == [];
    assert Entries([e]) == [e] + [];
    assert Headers([e]) == [] + [];
    if StartsDay(rs, i) {
      assert [h, Rule, e][1..] == [Rule, e] && [Rule, e][1..] == [e];
      assert Entries([Rule, e]) == [] + Entries([e]);
      assert Entries([h, Rule, e]) == [] + Entries([Rule, e]);
      assert Headers([Rule, e]) == [] + Headers([e]);
      assert Headers([h, Rule, e]) == [h.date] + Headers([Rule, e]);
    }
  }

  /** Every message appears in the file as exactly one entry, in the order read, and nothing else is an entry. */
  lemma {:induction false} DocumentEntries(rs: seq<ChatRecord>)
    ensures |Entries(Document(rs))| == |rs|
    ensures forall i :: 0 <= i < |rs| ==> Entries(Document(rs))[i] == EntryOf(rs[i])
  {
    if rs != [] {
      var n := |rs| - 1;
      var init := rs[..n];
      DocumentEntries(init);
      EntriesAppend(Document(init), Block(rs, n));
      BlockParts(rs, n);
      var es := Entries(Document(init));
      assert Entries(Document(rs)) == es + [EntryOf(rs[n])];
      forall i | 0 <= i < |rs|
        ensures Entries(Document(rs))[i] == EntryOf(rs[i])
      {
        if i < n {
          assert (es + [EntryOf(rs[n])])[i] == es[i] && init[i] == rs[i];
        }
      }
    }
  }

  /** The headers of a file that gets one more record. */
  lemma HeadersSnoc(rs: seq<ChatRecord>)
    requires rs != []
    ensures Headers(Document(rs)) == Headers(Document(rs[..|rs| - 1]))
                                     + (if StartsDay(rs, |rs| - 1) then [rs[|rs| - 1].date] else [])
  {
    var n := |rs| - 1;
    var doc, block := Document(rs[..n]), Block(rs, n);
    assert Document(rs) == doc + block;
    HeadersAppend(doc, block);
    BlockParts(rs, n);
  }

  /** A date heads the file somewhere exactly when some message was sent on it. */
  lemma {:induction false} DocumentHeaderDates(rs: seq<ChatRecord>, d: string)
    ensures d in Headers(Document(rs)) <==> exists i :: 0 <= i < |rs| && rs[i].date == d
  {
    if rs != [] {
      var n := |rs| - 1;
      var init := rs[..n];
      DocumentHeaderDates(init, d);
      HeadersSnoc(rs);
      assert forall i :: 0 <= i < n ==> init[i] == rs[i];
      if !StartsDay(rs, n) {
        assert init[n - 1].date == rs[n].date;
      }
    }
  }

  /** Messages of one date are contiguous, as they are when read in order of creation. */
  predicate Grouped(rs: seq<ChatRecord>)
  {
    forall i, j, k :: 0 <= i < j < k < |rs| && rs[i].date == rs[k].date ==> rs[j].date == rs[i].date
  }

  /** No two headers name the same date. */
  predicate Distinct(ds: seq<string>)
  {
    forall i, j :: 0 <= i < j < |ds| ==> ds[i] != ds[j]
  }

  /** When the messages of each date are contiguous, each date has one header and one only. */
  lemma {:induction false} DocumentHeadersDistinct(rs: seq<ChatRecord>)
    requires Grouped(rs)
    ensures Distinct(Headers(Document(rs)))
  {
    if rs != [] {
      var n := |rs| - 1;
      var init := rs[..n];
      assert Grouped(init) by {
        forall i, j, k | 0 <= i < j < k < |init| && init[i].date == init[k].date
          ensures init[j].date == init[i].date
        {
          assert init[i] == rs[i] && init[j] == rs[j] && init[k] == rs[k];
        }
      }
      DocumentHeadersDistinct(init);
      HeadersSnoc(rs);
      var hs := Headers(Document(init));
      if StartsDay(rs, n) {
        var d := rs[n].date;
        DocumentHeaderDates(init, d);
        assert d !in hs;
        forall i, j | 0 <= i < j < |hs + [d]|
          ensures (hs + [d])[i] != (hs + [d])[j]
        {
          if j < |hs| {
            assert (hs + [d])[i] == hs[i] && (hs + [d])[j] == hs[j];
          } else {
            assert (hs + [d])[i] == hs[i];
          }
        }
      } else {
        assert hs + [] == hs;
      }
    }
  }

  /** One row of the whole chat table, as _dumpall reads it. */
  datatype LogRecord = LogRecord(stamp: string, streamer: string, author: string, message: string)

  /** The line printed for one row; the full timestamp is included only when asked for. */
  function AllLine(r: LogRecord, timestamps: bool): string
  {
    if timestamps then "[" + r.streamer + "] " + r.stamp + " <" + r.author + "> " + r.message
    else "[" + r.streamer + "] <" + r.author + "> " + r.message
  }

  /**
   * A line differs from the line of the same row with another timestamp
   * exactly when timestamps are printed and the timestamps differ.
   */
  lemma AllLineShowsStamp(r: LogRecord, timestamps: bool, s: string)
    ensures AllLine(r, timestamps) == AllLine(r.(stamp := s), timestamps) <==> !timestamps || r.stamp == s
  {
    if timestamps && AllLine(r, timestamps) == AllLine(r.(stamp := s), timestamps) {
      var p, q := "[" + r.streamer + "] ", " <" + r.author + "> " + r.message;
      var a, b := p + r.stamp + q, p + s + q;
      assert a == AllLine(r, true) && b == AllLine(r.(stamp := s), true);
      assert |r.stamp| == |s|;
      assert a[|p|..|p| + |s|] == r.stamp;
      assert b[|p|..|p| + |s|] == s;
    }
  }

  /** _dumpall, once the table has been read oldest first: the lines printed, one per row, in order. */
  method DumpAll(rows: seq<LogRecord>, timestamps: bool) returns (out: seq<string>)
    ensures |out| == |rows|
    ensures forall i :: 0 <= i < |rows| ==> out[i] == AllLine(rows[i], timestamps)
  {
    out := [];
    for i := 0 to |rows|
      invariant |out| == i
      invariant forall k :: 0 <= k < i ==> out[k] == AllLine(rows[k], timestamps)
    {
      var r := rows[i];
      if timestamps {
        out := out + ["[" + r.streamer + "] " + r.stamp + " <" + r.author + "> " + r.message];
      } else {
        out := out + ["[" + r.streamer + "] <" + r.author + "> " + r.message];
      }
    }
  }
}
