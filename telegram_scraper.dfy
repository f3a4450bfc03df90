/**
 * The channel-scraping run of scripts/telegram_scraper.py.
 *
 * The Telegram service and the local file system are not called: what they
 * would answer is given as data. `Service` says whether `client.start()`
 * succeeds and, per channel username, whether `get_entity` resolves it and
 * which messages `iter_messages` yields, in the service's own order. Each
 * `Message` carries the scripted outcome of downloading its photo and of
 * writing its row. `Host` gives the outcomes of creating the two directories,
 * opening the CSV file and writing its header.
 *
 * The run is a `Scraper` object whose state is the client's connection flag,
 * the number of disconnects, whether the CSV file was created, and the rows
 * in that file, each row being the list of cells the CSV writer renders.
 */
module TelegramScraper {
  import opened Wrappers
  import Decimal

  /** `limit=` passed to `iter_messages`. */
  const MESSAGE_LIMIT: nat := 10000

  /** The media directory `main` creates and passes to every channel. */
  const MEDIA_DIR: string := "photos"

  const HEADER: seq<string> := ["Channel Title", "Channel Username", "ID", "Message", "Date", "Media Path"]

  /** The channels `main` scrapes, in order. */
  const CHANNELS: seq<string> :=
    ["@DoctorsET", "@Chemed Telegram Channel", "@lobelia4cosmetics", "@yetenaweg", "@EAHCI"]

  /**
   * A message as `iter_messages` yields it. `date` is the timestamp as the CSV
   * writer renders it; `hasPhoto` is the test on `message.media`;
   * `downloadOk` and `writeOk` say whether `download_media` and
   * `writer.writerow` return normally for this message rather than raise.
   */
  datatype Message = Message(id: int, text: string, date: string, hasPhoto: bool, downloadOk: bool, writeOk: bool)

  /** What the service answers for one channel username. */
  datatype Feed = Unresolvable | Resolved(title: string, history: seq<Message>)

  datatype Service = Service(startOk: bool, feeds: map<string, Feed>)

  /** Outcomes of the file-system steps of `main`. */
  datatype Host = Host(mediaDirOk: bool, dataDirOk: bool, openOk: bool, headerWriteOk: bool)

  /** `client.get_entity(username)`: an unknown username raises. */
  function Resolve(service: Service, username: string): (feed: Feed)
    ensures username !in service.feeds ==> feed == Unresolvable
    ensures username in service.feeds ==> feed == service.feeds[username]
    ensures feed.Resolved? ==> username in service.feeds && service.feeds[username] == feed
  {
    if username in service.feeds then service.feeds[username] else Unresolvable
  }

  /** `iter_messages(entity, limit=10000)`: the first messages, in service order. */
  function Take(history: seq<Message>): (msgs: seq<Message>)
    ensures |msgs| == if |history| <= MESSAGE_LIMIT then |history| else MESSAGE_LIMIT
    ensures msgs == history[..|msgs|]
  {
    if |history| <= MESSAGE_LIMIT then history else history[..MESSAGE_LIMIT]
  }

  /** `os.path.join(dir, name)` on POSIX. */
  function PathJoin(dir: string, name: string): (path: string)
    ensures |path| >= |name| && path[|path| - |name|..] == name
  {
    if |name| > 0 && name[0] == '/' then name
    else if dir == [] || dir[|dir| - 1] == '/' then dir + name
    else dir + "/" + name
  }

  /** `f"{channel_username}_{message.id}.jpg"`. */
  function PhotoFileName(username: string, id: int): (name: string)
    ensures |name| > |username| + 5
    ensures name[..|username|] == username && name[|username|] == '_'
    ensures name[|name| - 4..] == ".jpg"
  {
    username + "_" + Decimal.IntToDecimal(id) + ".jpg"
  }

  function PhotoPath(mediaDir: string, username: string, id: int): string {
    PathJoin(mediaDir, PhotoFileName(username, id))
  }

  /** `media_path` for a message: set only for photo media. */
  function MediaPathOf(mediaDir: string, username: string, m: Message): (path: Option<string>)
    ensures path.Some? <==> m.hasPhoto
    ensures path.Some? ==> var name := PhotoFileName(username, m.id);
              |path.value| >= |name| && path.value[|path.value| - |name|..] == name
  {
    if m.hasPhoto then Some(PhotoPath(mediaDir, username, m.id)) else None
  }

  /** The cells `writer.writerow` writes for `[title, username, id, text, date, media_path]`; `None` is an empty cell. */
  function Cells(title: string, username: string, m: Message, mediaPath: Option<string>): (cells: seq<string>)
    ensures |cells| == |HEADER|
    ensures mediaPath.Some? ==> cells[5] == mediaPath.value
    ensures mediaPath.None? ==> cells[5] == ""
  {
    [title, username, Decimal.IntToDecimal(m.id), m.text, m.date, mediaPath.GetOr("")]
  }

  function RowOf(title: string, username: string, m: Message, mediaDir: string): (row: seq<string>)
    ensures |row| == |HEADER|
    ensures row[5] != "" <==> m.hasPhoto
  {
    Cells(title, username, m, MediaPathOf(mediaDir, username, m))
  }

  /** A message whose download or row write raises, which ends its channel's loop. */
  predicate Fails(m: Message): (fails: bool)
    ensures !m.writeOk ==> fails
    ensures m.hasPhoto && !m.downloadOk ==> fails
    ensures !m.hasPhoto ==> (fails <==> !m.writeOk)
  {
    (m.hasPhoto && !m.downloadOk) || !m.writeOk
  }

  /** How many messages are handled before the first one that fails. */
  function Completed(msgs: seq<Message>): (k: nat)
    ensures k <= |msgs|
    ensures forall j :: 0 <= j < k ==> !Fails(msgs[j])
    ensures k < |msgs| ==> Fails(msgs[k])
  {
    if msgs == [] || Fails(msgs[0]) then 0 else 1 + Completed(msgs[1..])
  }

  /** One row per message, in order. */
  function MessageRows(title: string, username: string, msgs: seq<Message>, mediaDir: string): (rows: seq<seq<string>>)
    ensures |rows| == |msgs|
  {
    if msgs == [] then []
    else
      var last := |msgs| - 1;
      MessageRows(title, username, msgs[..last], mediaDir) + [RowOf(title, username, msgs[last], mediaDir)]
  }

  lemma MessageRowsSnoc(title: string, username: string, msgs: seq<Message>, i: nat, mediaDir: string)
    requires i < |msgs|
    ensures MessageRows(title, username, msgs[..i + 1], mediaDir)
         == MessageRows(title, username, msgs[..i], mediaDir) + [RowOf(title, username, msgs[i], mediaDir)]
  {
    assert msgs[..i + 1][..i] == msgs[..i];
  }

  lemma RowsSnoc(prefix: seq<seq<string>>, title: string, username: string, msgs: seq<Message>, i: nat, mediaDir: string)
    requires i < |msgs|
    ensures prefix + MessageRows(title, username, msgs[..i + 1], mediaDir)
         == (prefix + MessageRows(title, username, msgs[..i], mediaDir)) + [RowOf(title, username, msgs[i], mediaDir)]
  {
    MessageRowsSnoc(title, username, msgs, i, mediaDir);
    AppendAssoc(prefix, MessageRows(title, username, msgs[..i], mediaDir), [RowOf(title, username, msgs[i], mediaDir)]);
  }

  lemma AppendAssoc<T>(a: seq<T>, b: seq<T>, c: seq<T>)
    ensures (a + b) + c == a + (b + c)
  {
  }

  /** Row `j` is the row of message `j`. */
  lemma {:induction false} MessageRowsAt(title: string, username: string, msgs: seq<Message>, mediaDir: string, j: nat)
    requires j < |msgs|
    ensures MessageRows(title, username, msgs, mediaDir)[j] == RowOf(title, username, msgs[j], mediaDir)
  {
    var last := |msgs| - 1;
    if j < last {
      MessageRowsAt(title, username, msgs[..last], mediaDir, j);
    }
  }

  /** The rows `scrape_channel` appends for one channel. */
  function ChannelRows(service: Service, username: string, mediaDir: string): (rows: seq<seq<string>>)
    ensures |rows| <= MESSAGE_LIMIT
    ensures Resolve(service, username).Unresolvable? ==> rows == []
  {
    match Resolve(service, username)
    case Unresolvable => []
    case Resolved(title, history) =>
      var msgs := Take(history);
      MessageRows(title, username, msgs[..Completed(msgs)], mediaDir)
  }

  /** The loop over messages stops at index `i` exactly when message `i` is the first that fails, or there is none. */
  lemma ChannelRowsStopAt(service: Service, username: string, mediaDir: string, i: nat)
    requires Resolve(service, username).Resolved?
    requires i <= |Take(Resolve(service, username).history)|
    requires forall j :: 0 <= j < i ==> !Fails(Take(Resolve(service, username).history)[j])
    requires i < |Take(Resolve(service, username).history)| ==> Fails(Take(Resolve(service, username).history)[i])
    ensures ChannelRows(service, username, mediaDir)
         == MessageRows(Resolve(service, username).title, username, Take(Resolve(service, username).history)[..i], mediaDir)
  {
    var msgs := Take(Resolve(service, username).history);
    assert Completed(msgs) == i;
  }

  /** The rows of the channels scraped in order, each channel after the one before it. */
  function AllChannelRows(service: Service, channels: seq<string>, mediaDir: string): (rows: seq<seq<string>>)
    ensures |rows| <= MESSAGE_LIMIT * |channels|
  {
    if channels == [] then []
    else
      var last := |channels| - 1;
      AllChannelRows(service, channels[..last], mediaDir) + ChannelRows(service, channels[last], mediaDir)
  }

  lemma AllChannelRowsSnoc(service: Service, channels: seq<string>, i: nat, mediaDir: string)
    requires i < |channels|
    ensures AllChannelRows(service, channels[..i + 1], mediaDir)
         == AllChannelRows(service, channels[..i], mediaDir) + ChannelRows(service, channels[i], mediaDir)
  {
    assert channels[..i + 1][..i] == channels[..i];
  }

  /**
   * The CSV file `main` leaves behind: `None` when it is never opened,
   * otherwise its rows.
   */
  function RunOutput(service: Service, host: Host): (file: Option<seq<seq<string>>>)
    ensures !service.startOk ==> file == None
    ensures file.Some? && file.value != [] ==> file.value[0] == HEADER
  {
    if !service.startOk || !host.mediaDirOk || !host.dataDirOk || !host.openOk then None
    else if !host.headerWriteOk then Some([])
    else Some([HEADER] + AllChannelRows(service, CHANNELS, MEDIA_DIR))
  }

  /**
   * Every row of a channel is the six cells of one message, in service order:
   * the resolved title, the username as configured, the id, the text and the
   * date, then the media path, which is set exactly for photo messages, and
   * then to the downloaded file's name. A photo row exists only if its
   * download and its write returned normally.
   */
  lemma ChannelRowFields(service: Service, username: string, mediaDir: string, j: nat)
    requires j < |ChannelRows(service, username, mediaDir)|
    ensures Resolve(service, username).Resolved?
    ensures j < |Take(Resolve(service, username).history)|
    ensures var feed := Resolve(service, username);
            var m := Take(feed.history)[j];
            var row := ChannelRows(service, username, mediaDir)[j];
            && |row| == 6
            && row[0] == feed.title && row[1] == username && row[2] == Decimal.IntToDecimal(m.id)
            && row[3] == m.text && row[4] == m.date
            && (row[5] != "" <==> m.hasPhoto)
            && (m.hasPhoto ==> m.downloadOk && row[5] == PhotoPath(mediaDir, username, m.id))
            && m.writeOk
  {
    var feed := Resolve(service, username);
    var msgs := Take(feed.history);
    var k := Completed(msgs);
    MessageRowsAt(feed.title, username, msgs[..k], mediaDir, j);
    assert msgs[..k][j] == msgs[j];
    var m := msgs[j];
    assert !Fails(m);
  }

  /**
   * With no failing download or write, a channel yields one row for each of
   * the first min(N, 10000) messages of its history.
   */
  lemma ChannelRowsUncut(service: Service, username: string, mediaDir: string)
    requires Resolve(service, username).Resolved?
    requires forall m :: m in Take(Resolve(service, username).history) ==> !Fails(m)
    ensures var history := Resolve(service, username).history;
            |ChannelRows(service, username, mediaDir)|
              == if |history| <= MESSAGE_LIMIT then |history| else MESSAGE_LIMIT
  {
    var msgs := Take(Resolve(service, username).history);
    var k := Completed(msgs);
    assert msgs[..k] == msgs;
  }

  /**
   * A failing download or write of message `k` leaves no row for it or any
   * later message; the rows written before it remain, one per earlier message
   * when none of those failed.
   */
  lemma ChannelRowsCutAt(service: Service, username: string, mediaDir: string, k: nat)
    requires Resolve(service, username).Resolved?
    requires k < |Take(Resolve(service, username).history)|
    requires Fails(Take(Resolve(service, username).history)[k])
    ensures var feed := Resolve(service, username);
            var msgs := Take(feed.history);
            var rows := ChannelRows(service, username, mediaDir);
            && |rows| <= k
            && (forall j :: 0 <= j < |rows| ==> rows[j] == RowOf(feed.title, username, msgs[j], mediaDir))
            && ((forall j :: 0 <= j < k ==> !Fails(msgs[j])) ==> |rows| == k)
  {
    var feed := Resolve(service, username);
    var msgs := Take(feed.history);
    var c := Completed(msgs);
    forall j | 0 <= j < c
      ensures ChannelRows(service, username, mediaDir)[j] == RowOf(feed.title, username, msgs[j], mediaDir)
    {
      MessageRowsAt(feed.title, username, msgs[..c], mediaDir, j);
      assert msgs[..c][j] == msgs[j];
    }
  }

  /** Scraping a list of channels is scraping its first part, then the rest. */
  lemma {:induction false} AllChannelRowsAppend(service: Service, a: seq<string>, b: seq<string>, mediaDir: string)
    ensures AllChannelRows(service, a + b, mediaDir)
         == AllChannelRows(service, a, mediaDir) + AllChannelRows(service, b, mediaDir)
    decreases |b|
  {
    if b == [] {
      AppendEmpty(a);
    } else {
      var last := |b| - 1;
      AllChannelRowsAppend(service, a, b[..last], mediaDir);
      AppendSplitLast(a, b);
      AppendAssoc(AllChannelRows(service, a, mediaDir), AllChannelRows(service, b[..last], mediaDir), ChannelRows(service, b[last], mediaDir));
    }
  }

  lemma AppendEmpty<T>(a: seq<T>)
    ensures a + [] == a
  {
  }

  lemma AppendSplitLast<T>(a: seq<T>, b: seq<T>)
    requires b != []
    ensures (a + b)[..|a + b| - 1] == a + b[..|b| - 1]
    ensures (a + b)[|a + b| - 1] == b[|b| - 1]
  {
    assert (a + b)[..|a + b| - 1] == a + b[..|b| - 1];
  }

  /**
   * The rows of channel `i` sit after those of every earlier channel and
   * before those of every later one, and depend on that channel alone: a
   * channel that fails does not change what any other channel contributes.
   */
  lemma ChannelInPlace(service: Service, channels: seq<string>, i: nat, mediaDir: string)
    requires i < |channels|
    ensures AllChannelRows(service, channels, mediaDir)
         == AllChannelRows(service, channels[..i], mediaDir)
          + ChannelRows(service, channels[i], mediaDir)
          + AllChannelRows(service, channels[i + 1..], mediaDir)
  {
    assert channels == channels[..i + 1] + channels[i + 1..];
    AllChannelRowsAppend(service, channels[..i + 1], channels[i + 1..], mediaDir);
    AllChannelRowsSnoc(service, channels, i, mediaDir);
  }

  /**
   * The CSV file exists only if the client started and the directories and
   * the file could be made; its first row is then the header, followed by at
   * most 10000 rows per configured channel.
   */
  lemma RunOutputShape(service: Service, host: Host)
    ensures RunOutput(service, host).Some? <==>
              service.startOk && host.mediaDirOk && host.dataDirOk && host.openOk
    ensures forall rows :: RunOutput(service, host) == Some(rows) && rows != [] ==>
              rows[0] == HEADER && |rows| <= 1 + MESSAGE_LIMIT * |CHANNELS|
  {
  }

  /**
   * Distinct (username, id) pairs name distinct photo files in one media
   * directory, provided no username starts with `/` (which would make
   * `os.path.join` drop the directory).
   */
  lemma PhotoPathInjective(mediaDir: string, u1: string, id1: int, u2: string, id2: int)
    requires u1 == [] || u1[0] != '/'
    requires u2 == [] || u2[0] != '/'
    requires PhotoPath(mediaDir, u1, id1) == PhotoPath(mediaDir, u2, id2)
    ensures u1 == u2 && id1 == id2
  {
    var n1, n2 := PhotoFileName(u1, id1), PhotoFileName(u2, id2);
    var p := PhotoPath(mediaDir, u1, id1);
    var d1, d2 := Decimal.IntToDecimal(id1), Decimal.IntToDecimal(id2);
    assert |n1| > 0 && n1[0] != '/';
    assert |n2| > 0 && n2[0] != '/';
    assert |n1| == |n2|;
    assert n1 == p[|p| - |n1|..] == n2;
    var s1, s2 := u1 + "_" + d1, u2 + "_" + d2;
    assert n1 == s1 + ".jpg" && n2 == s2 + ".jpg";
    assert s1 == n1[..|n1| - 4] == s2;
    SplitAtLastUnderscore(u1, d1, u2, d2);
    Decimal.IntToDecimalInjective(id1, id2);
  }

  /** A string ending in `_` and an underscore-free tail splits there in one way only. */
  lemma SplitAtLastUnderscore(u1: string, t1: string, u2: string, t2: string)
    requires '_' !in t1 && '_' !in t2
    requires u1 + "_" + t1 == u2 + "_" + t2
    ensures u1 == u2 && t1 == t2
  {
    var s := u1 + "_" + t1;
    assert s[|u1|] == '_' && s[|u2|] == '_';
    assert forall k :: |u1| < k < |s| ==> s[k] == t1[k - |u1| - 1] != '_';
    assert forall k :: |u2| < k < |s| ==> s[k] == t2[k - |u2| - 1] != '_';
    assert u1 == s[..|u1|] == u2;
    assert t1 == s[|u1| + 1..] == t2;
  }

  /**
   * In the media directory `main` uses, a photo is stored as
   * `photos/<username>_<id>.jpg`, the username kept verbatim (`@` and spaces
   * included).
   */
  lemma PhotoPathInPhotos(username: string, id: int)
    requires username == [] || username[0] != '/'
    ensures PhotoPath(MEDIA_DIR, username, id) == "photos/" + PhotoFileName(username, id)
  {
    var name := PhotoFileName(username, id);
    assert name[0] != '/';
    assert MEDIA_DIR + "/" == "photos/";
  }


  class Scraper {
    const service: Service
    const host: Host
    var connected: bool
    var disconnects: nat
    var fileCreated: bool
    var rows: seq<seq<string>>

    constructor (service: Service, host: Host)
      ensures this.service == service && this.host == host
      ensures !connected && disconnects == 0 && !fileCreated && rows == []
    {
      this.service := service;
      this.host := host;
      connected := false;
      disconnects := 0;
      fileCreated := false;
      rows := [];
    }

    /** `client.start()`. */
    method Start() returns (ok: bool)
      modifies this`connected
      ensures ok == service.startOk && connected == ok
    {
      ok := service.startOk;
      connected := ok;
    }

    /** `client.disconnect()`, which does not raise, even when `start` failed. */
    method Disconnect()
      modifies this`connected, this`disconnects
      ensures !connected && disconnects == old(disconnects) + 1
    {
      connected := false;
      disconnects := disconnects + 1;
    }

    /**
     * `scrape_channel(client, username, writer, media_dir)`. Every exception
     * is caught at the channel level: an unresolvable username adds nothing,
     * and a failing download or write ends the channel, keeping the rows
     * already written.
     */
    method ScrapeChannel(username: string, mediaDir: string)
      requires connected
      modifies this`rows
      ensures rows == old(rows) + ChannelRows(service, username, mediaDir)
    {
      var feed := Resolve(service, username);
      if feed.Unresolvable? {
        return;
      }
      var title := feed.title;
      var msgs := Take(feed.history);
      var i := 0;
      while i < |msgs|
        invariant 0 <= i <= |msgs|
        invariant forall j :: 0 <= j < i ==> !Fails(msgs[j])
        invariant rows == old(rows) + MessageRows(title, username, msgs[..i], mediaDir)
      {
        var written := WriteMessage(title, username, msgs[i], mediaDir);
        if !written {
          ChannelRowsStopAt(service, username, mediaDir, i);
          return;
        }
        RowsSnoc(old(rows), title, username, msgs, i, mediaDir);
        i := i + 1;
      }
      ChannelRowsStopAt(service, username, mediaDir, i);
    }

    /**
     * The body of the `for message in ...` loop: build the media path,
     * download a photo, then write the row. `written` is false when the
     * download or the write raises, which ends the channel.
     */
    method WriteMessage(title: string, username: string, message: Message, mediaDir: string) returns (written: bool)
      modifies this`rows
      ensures written == !Fails(message)
      ensures rows == old(rows) + (if written then [RowOf(title, username, message, mediaDir)] else [])
    {
      var mediaPath: Option<string> := None;
      if message.hasPhoto {
        var filename := PhotoFileName(username, message.id);
        mediaPath := Some(PathJoin(mediaDir, filename));
        if !message.downloadOk {
          return false;
        }
      }
      if !message.writeOk {
        return false;
      }
      rows := rows + [Cells(title, username, message, mediaPath)];
      return true;
    }

    /** The `for channel in channels` loop of `main`. */
    method ScrapeAll(channels: seq<string>, mediaDir: string)
      requires connected
      modifies this`rows
      ensures rows == old(rows) + AllChannelRows(service, channels, mediaDir)
    {
      var i := 0;
      while i < |channels|
        invariant 0 <= i <= |channels|
        invariant rows == old(rows) + AllChannelRows(service, channels[..i], mediaDir)
      {
        AppendAssoc(old(rows), AllChannelRows(service, channels[..i], mediaDir), ChannelRows(service, channels[i], mediaDir));
        ScrapeChannel(channels[i], mediaDir);
        AllChannelRowsSnoc(service, channels, i, mediaDir);
        i := i + 1;
      }
      assert channels[..i] == channels;
    }

    /** The `try` block of `main`, up to but excluding its `finally`. */
    method RunBody()
      modifies this`connected, this`fileCreated, this`rows
      ensures connected == service.startOk
      ensures fileCreated == (old(fileCreated) || RunOutput(service, host).Some?)
      ensures rows == RunOutput(service, host).GetOr(old(rows))
    {
      var started := Start();
      if !started {
        return;
      }
      if !host.mediaDirOk || !host.dataDirOk || !host.openOk {
        return;
      }
      fileCreated := true;
      rows := [];
      if !host.headerWriteOk {
        return;
      }
      rows := [HEADER];
      ScrapeAll(CHANNELS, MEDIA_DIR);
    }

    /** `main`: the run, then the `finally` that always disconnects. */
    method Run()
      modifies this`connected, this`disconnects, this`fileCreated, this`rows
      ensures !connected && disconnects == old(disconnects) + 1
      ensures fileCreated == (old(fileCreated) || RunOutput(service, host).Some?)
      ensures rows == RunOutput(service, host).GetOr(old(rows))
    {
      RunBody();
      Disconnect();
    }
  }
}
