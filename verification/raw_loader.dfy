/**
 `load_data_to_raw`: walk `base/<channel>/<date>/<file>.json`, read each file as a
 JSON object and upsert it into the raw messages table keyed by its `id`. On a
 key that is already present only `data` and `loaded_at` are replaced; the
 stored `channel` stays. Everything is committed once, after the walk; any
 error before that leaves the committed table as it was.

 The directory tree is given as the entries `os.listdir` reports, in listing
 order; the database clock is the single transaction time `now`, which is what
 Postgres' `NOW()` returns throughout one transaction.
 */
module RawLoader {
  import opened Wrappers
  import Paths

  const MessagesBase: string := "data/raw/telegram_messages"
  const JsonSuffix: string := ".json"

  /** Range of the `BIGINT` primary key column. */
  const BigIntMin: int := -0x8000_0000_0000_0000
  const BigIntMax: int := 0x7FFF_FFFF_FFFF_FFFF

  /** A JSON member value. Objects, and arrays and non-integral numbers
      (`JComposite`), are kept as their text: the loader only stores them. An
      object is told apart because `json.load` makes it a `dict`, which the
      database driver cannot pass as a query parameter. */
  datatype Json = JNull | JBool(b: bool) | JInt(i: int) | JStr(s: string) | JObject(text: string) | JComposite(text: string)

  /** What `json.load` makes of a file: an object, another JSON value, or an error. */
  datatype FileContent = JsonObject(fields: map<string, Json>) | JsonNonObject | Malformed

  /** A directory entry: a file with its content, or a directory with its listing. */
  datatype Entry = File(name: string, content: FileContent) | Dir(name: string, children: seq<Entry>)

  /** A `.json`-named entry found at depth three, with its path. */
  datatype Found = Found(path: string, entry: Entry)

  /** A row of `raw.telegram_messages` (its key is the map key). */
  datatype Row = Row(channel: Json, data: map<string, Json>, loadedAt: int)

  /** A message read from a file: the key, the `channel` value and the whole object. */
  datatype Record = Record(key: int, channel: Json, data: map<string, Json>)

  /** Why a file stops the load: `open` on a directory, `json.load` on bad text,
      `.get` on a non-object, a `channel` the driver cannot adapt (a `dict`), or
      an `id` the key column cannot take. */
  datatype LoadError = IsADirectory | BadJson | NotAnObject | UnadaptableChannel | BadKey

  datatype Walked = Loaded(table: map<int, Row>) | Failed(path: string, error: LoadError)

  /** Outcome of `load_data_to_raw`: the committed table afterwards, and the
      failure that stopped the load, if any. */
  datatype LoadResult = LoadResult(committed: map<int, Row>, failure: Option<(string, LoadError)>)

  // ----- The directory walk -----

  /** The `.json`-named entries of one date directory. */
  function FilesIn(datePath: string, files: seq<Entry>): (found: seq<Found>)
    ensures |found| <= |files|
    ensures forall i :: 0 <= i < |found| ==> Paths.EndsWith(found[i].entry.name, JsonSuffix)
  {
    if |files| == 0 then []
    else
      var rest := FilesIn(datePath, files[1..]);
      if Paths.EndsWith(files[0].name, JsonSuffix) then [Found(Paths.Join(datePath, files[0].name), files[0])] + rest
      else rest
  }

  /** The files of every date directory of one channel; other entries are skipped. */
  function FilesInDates(channelPath: string, dates: seq<Entry>): (found: seq<Found>)
    ensures forall i :: 0 <= i < |found| ==> Paths.EndsWith(found[i].entry.name, JsonSuffix)
  {
    if |dates| == 0 then []
    else
      var rest := FilesInDates(channelPath, dates[1..]);
      match dates[0]
      case File(_, _) => rest
      case Dir(name, children) => FilesIn(Paths.Join(channelPath, name), children) + rest
  }

  /** The files of every channel directory of the base; other entries are skipped. */
  function FilesInChannels(basePath: string, channels: seq<Entry>): (found: seq<Found>)
    ensures forall i :: 0 <= i < |found| ==> Paths.EndsWith(found[i].entry.name, JsonSuffix)
  {
    if |channels| == 0 then []
    else
      var rest := FilesInChannels(basePath, channels[1..]);
      match channels[0]
      case File(_, _) => rest
      case Dir(name, children) => FilesInDates(Paths.Join(basePath, name), children) + rest
  }

  /** `f` is entry `k` of a date directory at `datePath`, named `*.json`. */
  ghost predicate FoundInDate(datePath: string, files: seq<Entry>, k: int, f: Found) {
    && 0 <= k < |files|
    && Paths.EndsWith(files[k].name, JsonSuffix)
    && f == Found(Paths.Join(datePath, files[k].name), files[k])
  }

  /** `f` is found in date directory `j` of a channel directory at `channelPath`. */
  ghost predicate FoundInChannel(channelPath: string, dates: seq<Entry>, j: int, k: int, f: Found) {
    && 0 <= j < |dates| && dates[j].Dir?
    && FoundInDate(Paths.Join(channelPath, dates[j].name), dates[j].children, k, f)
  }

  /** `f` is found at `base/<channel i>/<date j>/<entry k>`, both directories being directories. */
  ghost predicate FoundAt(basePath: string, channels: seq<Entry>, i: int, j: int, k: int, f: Found) {
    && 0 <= i < |channels| && channels[i].Dir?
    && FoundInChannel(Paths.Join(basePath, channels[i].name), channels[i].children, j, k, f)
  }

  // ----- Reading one file -----

  /** `data.get(key)`: the member, or `None` when absent. */
  function Get(fields: map<string, Json>, key: string): Option<Json> {
    if key in fields then Some(fields[key]) else None
  }

  /** The key column value of an `id`: an integer inside the `BIGINT` range. */
  function KeyOf(id: Option<Json>): (k: Option<int>)
    ensures k.Some? ==> BigIntMin <= k.value <= BigIntMax && id == Some(JInt(k.value))
    ensures id.Some? && id.value.JInt? && BigIntMin <= id.value.i <= BigIntMax ==> k == Some(id.value.i)
  {
    match id
    case Some(JInt(n)) => if BigIntMin <= n <= BigIntMax then Some(n) else None
    case _ => None
  }

  /** Opening, reading and inserting one found entry, up to the point where the
      database accepts the row. A missing `channel` becomes SQL NULL. An
      object-valued `channel` fails in the driver, before any server-side check
      of the key. */
  function Read(entry: Entry): (r: Result<Record, LoadError>)
    ensures r.Success? <==> && entry.File? && entry.content.JsonObject?
                            && !Get(entry.content.fields, "channel").GetOr(JNull).JObject?
                            && KeyOf(Get(entry.content.fields, "id")).Some?
    ensures r.Success? ==> && r.value.data == entry.content.fields
                           && Get(entry.content.fields, "id") == Some(JInt(r.value.key))
                           && r.value.channel == Get(entry.content.fields, "channel").GetOr(JNull)
    ensures entry.Dir? ==> r == Failure(IsADirectory)
    ensures entry.File? && entry.content.Malformed? ==> r == Failure(BadJson)
    ensures entry.File? && entry.content.JsonNonObject? ==> r == Failure(NotAnObject)
    ensures r.Failure? && entry.File? && entry.content.JsonObject? ==>
              r.error == if Get(entry.content.fields, "channel").GetOr(JNull).JObject? then UnadaptableChannel else BadKey
  {
    match entry
    case Dir(_, _) => Failure(IsADirectory)
    case File(_, Malformed) => Failure(BadJson)
    case File(_, JsonNonObject) => Failure(NotAnObject)
    case File(_, JsonObject(fields)) =>
      var channel := Get(fields, "channel").GetOr(JNull);
      if channel.JObject? then Failure(UnadaptableChannel)
      else match KeyOf(Get(fields, "id"))
        case None => Failure(BadKey)
        case Some(key) => Success(Record(key, channel, fields))
  }

  // ----- Upsert -----

  /** `INSERT ... ON CONFLICT (message_id) DO UPDATE SET data = EXCLUDED.data, loaded_at = NOW()`. */
  function Upsert(table: map<int, Row>, rec: Record, now: int): (t: map<int, Row>)
    ensures t.Keys == table.Keys + {rec.key}
    ensures t[rec.key].data == rec.data && t[rec.key].loadedAt == now
    ensures t[rec.key].channel == if rec.key in table then table[rec.key].channel else rec.channel
    ensures forall k :: k in table && k != rec.key ==> t[k] == table[k]
  {
    if rec.key in table then table[rec.key := table[rec.key].(data := rec.data, loadedAt := now)]
    else table[rec.key := Row(rec.channel, rec.data, now)]
  }

  /** The records upserted one after another, in order. */
  function UpsertAll(table: map<int, Row>, recs: seq<Record>, now: int): (t: map<int, Row>)
    ensures table.Keys <= t.Keys
    ensures forall k :: k in t ==> t[k].loadedAt == now || (k in table && t[k] == table[k])
    decreases |recs|
  {
    if |recs| == 0 then table else UpsertAll(Upsert(table, recs[0], now), recs[1..], now)
  }

  /** The open transaction of the walk: each found file read and upserted in
      turn, stopping at the first file that raises. */
  function Walk(table: map<int, Row>, files: seq<Found>, now: int): (w: Walked)
    ensures w.Loaded? ==> table.Keys <= w.table.Keys
    ensures w.Failed? ==> exists i :: 0 <= i < |files| && files[i].path == w.path && Read(files[i].entry) == Failure(w.error)
    decreases |files|
  {
    if |files| == 0 then Loaded(table)
    else match Read(files[0].entry)
      case Failure(e) => Failed(files[0].path, e)
      case Success(rec) => Walk(Upsert(table, rec, now), files[1..], now)
  }

  /** `load_data_to_raw` against the committed table `committed`. */
  function LoadDataToRaw(channels: seq<Entry>, committed: map<int, Row>, now: int): (r: LoadResult)
    ensures r.failure.Some? ==> r.committed == committed
    ensures r.failure.None? <==> ReadAll(FilesInChannels(MessagesBase, channels)).Success?
    ensures r.failure.None? ==>
              r.committed == UpsertAll(committed, ReadAll(FilesInChannels(MessagesBase, channels)).value, now)
  {
    WalkIsReadThenUpsert(committed, FilesInChannels(MessagesBase, channels), now);
    match Walk(committed, FilesInChannels(MessagesBase, channels), now)
    case Loaded(t) => LoadResult(t, None)
    case Failed(path, e) => LoadResult(committed, Some((path, e)))
  }

  // ----- Properties of the walk -----

  lemma {:induction false} FilesInMembership(datePath: string, files: seq<Entry>, f: Found)
    ensures f in FilesIn(datePath, files) <==> exists k :: FoundInDate(datePath, files, k, f)
    decreases |files|
  {
    if |files| > 0 {
      FilesInMembership(datePath, files[1..], f);
      if Paths.EndsWith(files[0].name, JsonSuffix) && f == Found(Paths.Join(datePath, files[0].name), files[0]) {
        assert FoundInDate(datePath, files, 0, f);
      }
      if exists k :: FoundInDate(datePath, files[1..], k, f) {
        var k :| FoundInDate(datePath, files[1..], k, f);
        assert FoundInDate(datePath, files, k + 1, f);
      }
      if exists k :: FoundInDate(datePath, files, k, f) {
        var k :| FoundInDate(datePath, files, k, f);
        if k > 0 {
          assert FoundInDate(datePath, files[1..], k - 1, f);
        }
      }
    }
  }

  lemma {:induction false} FilesInDatesMembership(channelPath: string, dates: seq<Entry>, f: Found)
    ensures f in FilesInDates(channelPath, dates) <==> exists j, k :: FoundInChannel(channelPath, dates, j, k, f)
    decreases |dates|
  {
    if |dates| > 0 {
      FilesInDatesMembership(channelPath, dates[1..], f);
      if dates[0].Dir? {
        var datePath := Paths.Join(channelPath, dates[0].name);
        FilesInMembership(datePath, dates[0].children, f);
        if f in FilesIn(datePath, dates[0].children) {
          var k :| FoundInDate(datePath, dates[0].children, k, f);
          assert FoundInChannel(channelPath, dates, 0, k, f);
        }
      }
      if exists j, k :: FoundInChannel(channelPath, dates[1..], j, k, f) {
        var j, k :| FoundInChannel(channelPath, dates[1..], j, k, f);
        assert FoundInChannel(channelPath, dates, j + 1, k, f);
      }
      if exists j, k :: FoundInChannel(channelPath, dates, j, k, f) {
        var j, k :| FoundInChannel(channelPath, dates, j, k, f);
        if j > 0 {
          assert FoundInChannel(channelPath, dates[1..], j - 1, k, f);
        } else {
          assert FoundInDate(Paths.Join(channelPath, dates[0].name), dates[0].children, k, f);
        }
      }
    }
  }

  /** Exactly the `.json`-named entries lying at `base/<channel>/<date>/`, below
      entries that are directories, are loaded; a file at the channel or date
      level is skipped. */
  lemma {:induction false} FilesInChannelsMembership(basePath: string, channels: seq<Entry>, f: Found)
    ensures f in FilesInChannels(basePath, channels) <==> exists i, j, k :: FoundAt(basePath, channels, i, j, k, f)
    decreases |channels|
  {
    if |channels| > 0 {
      FilesInChannelsMembership(basePath, channels[1..], f);
      if channels[0].Dir? {
        var channelPath := Paths.Join(basePath, channels[0].name);
        FilesInDatesMembership(channelPath, channels[0].children, f);
        if f in FilesInDates(channelPath, channels[0].children) {
          var j, k :| FoundInChannel(channelPath, channels[0].children, j, k, f);
          assert FoundAt(basePath, channels, 0, j, k, f);
        }
      }
      if exists i, j, k :: FoundAt(basePath, channels[1..], i, j, k, f) {
        var i, j, k :| FoundAt(basePath, channels[1..], i, j, k, f);
        assert FoundAt(basePath, channels, i + 1, j, k, f);
      }
      if exists i, j, k :: FoundAt(basePath, channels, i, j, k, f) {
        var i, j, k :| FoundAt(basePath, channels, i, j, k, f);
        if i > 0 {
          assert FoundAt(basePath, channels[1..], i - 1, j, k, f);
        } else {
          assert FoundInChannel(Paths.Join(basePath, channels[0].name), channels[0].children, j, k, f);
        }
      }
    }
  }

  // ----- Reading everything first: a reference for the walk -----

  /** Every found file read in order, or the first one that raises. */
  function ReadAll(files: seq<Found>): (r: Result<seq<Record>, (string, LoadError)>)
    ensures r.Success? ==> |r.value| == |files| && forall i :: 0 <= i < |files| ==> Read(files[i].entry) == Success(r.value[i])
    ensures r.Failure? ==> exists i :: 0 <= i < |files| && files[i].path == r.error.0 && Read(files[i].entry) == Failure(r.error.1)
                                       && forall j :: 0 <= j < i ==> Read(files[j].entry).Success?
    decreases |files|
  {
    if |files| == 0 then Success([])
    else match Read(files[0].entry)
      case Failure(e) => Failure((files[0].path, e))
      case Success(rec) =>
        match ReadAll(files[1..])
        case Failure(err) =>
          ghost var i :| 0 <= i < |files[1..]| && files[1..][i].path == err.0 && Read(files[1..][i].entry) == Failure(err.1)
                         && forall j :: 0 <= j < i ==> Read(files[1..][j].entry).Success?;
          assert files[i + 1] == files[1..][i];
          assert forall j :: 1 <= j < i + 1 ==> files[j] == files[1..][j - 1];
          Failure(err)
        case Success(recs) => Success([rec] + recs)
  }

  /** Whether a file raises does not depend on the table, so the interleaved
      walk fails exactly where reading everything first would, and otherwise
      equals upserting every record in order. */
  lemma {:induction false} WalkIsReadThenUpsert(table: map<int, Row>, files: seq<Found>, now: int)
    ensures match ReadAll(files)
            case Success(recs) => Walk(table, files, now) == Loaded(UpsertAll(table, recs, now))
            case Failure(err) => Walk(table, files, now) == Failed(err.0, err.1)
    decreases |files|
  {
    if |files| > 0 {
      match Read(files[0].entry)
      case Failure(e) =>
      case Success(rec) =>
        WalkIsReadThenUpsert(Upsert(table, rec, now), files[1..], now);
        match ReadAll(files[1..])
        case Failure(err) =>
        case Success(recs) =>
          assert ([rec] + recs)[1..] == recs;
    }
  }

  /** When any found file raises, the run commits nothing: the table afterwards
      is the table before, and the failure names the first such file. */
  lemma FailedLoadCommitsNothing(channels: seq<Entry>, committed: map<int, Row>, now: int)
    requires exists i :: 0 <= i < |FilesInChannels(MessagesBase, channels)| && Read(FilesInChannels(MessagesBase, channels)[i].entry).Failure?
    ensures LoadDataToRaw(channels, committed, now).committed == committed
    ensures LoadDataToRaw(channels, committed, now).failure == Some(ReadAll(FilesInChannels(MessagesBase, channels)).error)
  {
    var files := FilesInChannels(MessagesBase, channels);
    WalkIsReadThenUpsert(committed, files, now);
  }

  // ----- Properties of the upserts -----

  /** Index of the first record with key `k`, or -1. */
  function FirstWith(recs: seq<Record>, k: int): (i: int)
    ensures -1 <= i < |recs|
    ensures i >= 0 ==> recs[i].key == k
    ensures forall j :: 0 <= j < |recs| && (i < 0 || j < i) ==> recs[j].key != k
  {
    if |recs| == 0 then -1
    else if recs[0].key == k then 0
    else var i := FirstWith(recs[1..], k); if i < 0 then -1 else i + 1
  }

  /** Index of the last record with key `k`, or -1. */
  function LastWith(recs: seq<Record>, k: int): (i: int)
    ensures -1 <= i < |recs|
    ensures i >= 0 ==> recs[i].key == k
    ensures forall j :: i < j < |recs| ==> recs[j].key != k
    ensures i < 0 <==> FirstWith(recs, k) < 0
  {
    if |recs| == 0 then -1
    else
      var i := LastWith(recs[1..], k);
      if i >= 0 then i + 1 else if recs[0].key == k then 0 else -1
  }

  /** After upserting `recs` in order: a key is present exactly when it was
      before or some record carries it; a key some record carries holds the
      `data` of the last such record, the shared load time, and the `channel`
      that was stored before, or else that of the first such record; every
      other row is untouched. */
  lemma {:induction false} UpsertAllRow(table: map<int, Row>, recs: seq<Record>, now: int, k: int)
    ensures k in UpsertAll(table, recs, now) <==> k in table || FirstWith(recs, k) >= 0
    ensures FirstWith(recs, k) >= 0 ==>
              UpsertAll(table, recs, now)[k]
              == Row(if k in table then table[k].channel else recs[FirstWith(recs, k)].channel,
                     recs[LastWith(recs, k)].data, now)
    ensures FirstWith(recs, k) < 0 && k in table ==> UpsertAll(table, recs, now)[k] == table[k]
    decreases |recs|
  {
    if |recs| > 0 {
      var next := Upsert(table, recs[0], now);
      UpsertAllRow(next, recs[1..], now, k);
    }
  }

  /** Loading the same records a second time keeps the same keys, and the same
      `channel` and `data` under each key; only `loaded_at` moves. */
  lemma LoadTwiceSameContent(table: map<int, Row>, recs: seq<Record>, now1: int, now2: int)
    ensures var once := UpsertAll(table, recs, now1);
            var twice := UpsertAll(once, recs, now2);
            && twice.Keys == once.Keys
            && forall k :: k in once ==> twice[k].channel == once[k].channel && twice[k].data == once[k].data
  {
    var once := UpsertAll(table, recs, now1);
    var twice := UpsertAll(once, recs, now2);
    forall k ensures (k in twice <==> k in once) && (k in once ==> twice[k].channel == once[k].channel && twice[k].data == once[k].data) {
      UpsertAllRow(table, recs, now1, k);
      UpsertAllRow(once, recs, now2, k);
    }
  }

  /** A file keyed like a stored row replaces its `data` and keeps its `channel`,
      even when the file names another channel. */
  lemma ConflictKeepsChannel(table: map<int, Row>, rec: Record, now: int)
    requires rec.key in table
    ensures Upsert(table, rec, now)[rec.key] == Row(table[rec.key].channel, rec.data, now)
  {
  }
}
