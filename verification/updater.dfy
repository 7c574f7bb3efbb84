/** `ConfigUpdater` of `src/config/updater.rs`: a cached configuration that is
    re-read from `erfps2.toml`, next to the mod's own DLL, when the file's
    modification time changes.

    The file system and the TOML parser are inputs: a `FileSystem` answers
    metadata and read requests by path at the moment of a call, and `parse`
    stands for `toml::from_str`. The Windows module queries are inputs too. */
module Updater {
  import opened Wrappers
  import opened Time
  import opened Machine

  /** A wide (UTF-16) Windows path, as `GetModuleFileNameW` writes it. */
  type Path = seq<U16>

  /** Length of the buffer handed to `GetModuleFileNameW`, in UTF-16 units. */
  const MAX_PATH_UNITS: int := 32767

  /** `ConfigUpdater::UPDATE_MS`: the polling interval in milliseconds. */
  const UPDATE_MS: int := 100

  const NANOS_PER_MILLI: int := 1_000_000

  /** `ConfigUpdater::CONFIG_NAME`, "erfps2.toml", in UTF-16 units. */
  const CONFIG_NAME: Path := [0x65, 0x72, 0x66, 0x70, 0x73, 0x32, 0x2e, 0x74, 0x6f, 0x6d, 0x6c]

  /** `windows::core::Error`, reduced to its error code. */
  datatype WinError = WinError(code: int)

  /** `std::io::Error`: an operating-system error, or `io::Error::other`
      wrapping another error's message (a TOML error here). */
  datatype IoError = Os(code: int) | Other(message: string)

  /** `toml::de::Error`, reduced to its message. */
  datatype TomlError = TomlError(message: string)

  /** `std::time::SystemTime`: a wall-clock file time, compared for equality only. */
  datatype SystemTime = SystemTime(nanosSinceEpoch: int)

  /** What the file system answers at the moment of a call: `fs::metadata(path)
      .and_then(|m| m.modified())` and `fs::read_to_string(path)`. */
  datatype FileSystem = FileSystem(
    modified: Path -> Result<SystemTime, IoError>,
    contents: Path -> Result<string, IoError>)

  /** The state of a `ConfigUpdater<Config>`. */
  datatype ConfigUpdater<C> = ConfigUpdater(
    configPath: Path,
    config: Result<C, IoError>,
    lastUpdate: Instant,
    lastTimestamp: Option<SystemTime>)

  /** What `get_or_update` leaves behind and what it returns. */
  datatype Update<C> = Update(state: ConfigUpdater<C>, result: Result<C, IoError>)

  /* ----- locating the file ----- */

  /** `current_module_path`: the module handle query may fail; otherwise
      `GetModuleFileNameW` has written `units` (the whole 32767-unit buffer)
      and returned `len`. A length of 0 (failure) or 32767 (the name did not
      fit) is an error carrying the thread's last error; otherwise the buffer
      is truncated to `len` units. */
  function CurrentModulePath(handle: Result<nat, WinError>, len: nat, units: seq<U16>, lastError: WinError)
    : (r: Result<Path, WinError>)
    requires |units| == MAX_PATH_UNITS
    ensures handle.Err? ==> r == Err(handle.error)
    ensures handle.Ok? ==> (r.Err? <==> len == 0 || len == MAX_PATH_UNITS)
    ensures handle.Ok? && r.Err? ==> r.error == lastError
    ensures r.Ok? && len < MAX_PATH_UNITS ==> |r.value| == len && r.value == units[..len]
  {
    match handle
    case Err(e) => Err(e)
    case Ok(_) =>
      if len == 0 || len == MAX_PATH_UNITS then Err(lastError)
      else Ok(Truncate(units, len))
  }

  /** `Vec::truncate`: keeps the first `len` units; a longer `len` keeps all. */
  function Truncate(units: seq<U16>, len: nat): (r: seq<U16>)
    ensures len <= |units| ==> |r| == len
    ensures |units| <= len ==> r == units
    ensures r <= units
  {
    if len <= |units| then units[..len] else units
  }

  /** Both separators a Windows path accepts: `\` and `/`. */
  predicate IsSeparator(u: U16) {
    u == 0x5c || u == 0x2f
  }

  /** The length of the directory part of `p`: everything up to and including
      its last separator, or nothing when it has none. */
  function DirLength(p: Path): (k: nat)
    ensures k <= |p|
    ensures k == 0 || IsSeparator(p[k - 1])
    ensures forall i :: k <= i < |p| ==> !IsSeparator(p[i])
  {
    if |p| == 0 then 0
    else if IsSeparator(p[|p| - 1]) then |p|
    else DirLength(p[..|p| - 1])
  }

  /** The last component of `p`. */
  function FileName(p: Path): Path {
    p[DirLength(p)..]
  }

  /** `PathBuf::set_file_name` on a path to a file: the last component is
      replaced by `name`. */
  function SetFileName(p: Path, name: Path): Path {
    p[..DirLength(p)] + name
  }

  /** The configuration file sits in the module's directory and is called `name`. */
  lemma SetFileNameKeepsDirectory(p: Path, name: Path)
    requires forall i :: 0 <= i < |name| ==> !IsSeparator(name[i])
    ensures DirLength(SetFileName(p, name)) == DirLength(p)
    ensures SetFileName(p, name)[..DirLength(p)] == p[..DirLength(p)]
    ensures FileName(SetFileName(p, name)) == name
  {
  }

  /* ----- reading and polling ----- */

  /** `ConfigUpdater::read_config`: a read error is returned as is, a parse
      error is wrapped with `io::Error::other`; only a complete parse gives a
      configuration. */
  function ReadConfig<C>(path: Path, fs: FileSystem, parse: string -> Result<C, TomlError>)
    : (r: Result<C, IoError>)
    ensures r.Ok? <==> fs.contents(path).Ok? && parse(fs.contents(path).value).Ok?
    ensures r.Ok? ==> r.value == parse(fs.contents(path).value).value
    ensures fs.contents(path).Err? ==> r == Err(fs.contents(path).error)
    ensures fs.contents(path).Ok? && parse(fs.contents(path).value).Err? ==>
      r == Err(Other(parse(fs.contents(path).value).error.message))
  {
    match fs.contents(path)
    case Err(e) => Err(e)
    case Ok(text) =>
      match parse(text)
      case Err(te) => Err(Other(te.message))
      case Ok(config) => Ok(config)
  }

  /** `ConfigUpdater::new`: fails only when the module path cannot be found;
      otherwise reads the configuration next to the module, records `now`, and
      then records the file's modification time, if the file system could give
      one. The read and the metadata query are separate requests: `readFs` is
      the file system as the read sees it and `statFs` as the later query sees it. */
  function NewUpdater<C>(handle: Result<nat, WinError>, len: nat, units: seq<U16>, lastError: WinError,
                         readFs: FileSystem, statFs: FileSystem, parse: string -> Result<C, TomlError>,
                         now: Instant)
    : (r: Result<ConfigUpdater<C>, WinError>)
    requires |units| == MAX_PATH_UNITS
    ensures r.Err? <==> CurrentModulePath(handle, len, units, lastError).Err?
    ensures r.Ok? ==>
      var modulePath := CurrentModulePath(handle, len, units, lastError).value;
      && DirLength(r.value.configPath) == DirLength(modulePath)
      && r.value.configPath[..DirLength(modulePath)] == modulePath[..DirLength(modulePath)]
      && FileName(r.value.configPath) == CONFIG_NAME
      && r.value.config == ReadConfig(r.value.configPath, readFs, parse)
      && r.value.lastUpdate == now
      && r.value.lastTimestamp == statFs.modified(r.value.configPath).ToOption()
  {
    match CurrentModulePath(handle, len, units, lastError)
    case Err(e) => Err(e)
    case Ok(modulePath) =>
      var configPath := SetFileName(modulePath, CONFIG_NAME);
      SetFileNameKeepsDirectory(modulePath, CONFIG_NAME);
      var config := ReadConfig(configPath, readFs, parse);
      Ok(ConfigUpdater(configPath, config, now, statFs.modified(configPath).ToOption()))
  }

  /** The window between the read and the metadata query of `new`: when the
      file is edited in between, the updater holds the old contents with the
      new modification time, and no later call that sees that time re-reads
      the file, whatever it now holds. */
  lemma EditDuringConstructionIsNeverRead<C>(handle: Result<nat, WinError>, len: nat, units: seq<U16>,
                                            lastError: WinError, readFs: FileSystem, statFs: FileSystem,
                                            parse: string -> Result<C, TomlError>, now: Instant,
                                            later: Instant, laterFs: FileSystem)
    requires |units| == MAX_PATH_UNITS
    requires NewUpdater(handle, len, units, lastError, readFs, statFs, parse, now).Ok?
    requires var u := NewUpdater(handle, len, units, lastError, readFs, statFs, parse, now).value;
      statFs.modified(u.configPath).Ok? && laterFs.modified(u.configPath) == statFs.modified(u.configPath)
    ensures var u := NewUpdater(handle, len, units, lastError, readFs, statFs, parse, now).value;
      && u.config == ReadConfig(u.configPath, readFs, parse)
      && GetOrUpdate(u, later, laterFs, parse).state.config == ReadConfig(u.configPath, readFs, parse)
      && GetOrUpdate(u, later, laterFs, parse).result == ReadConfig(u.configPath, readFs, parse)
  {
  }

  /** `last_update.elapsed().as_millis()`: whole milliseconds from `since` to
      `now`; `Instant` subtraction saturates, so an earlier `now` gives zero. */
  function ElapsedMillis(since: Instant, now: Instant): (ms: nat)
    ensures since.ticks <= now.ticks ==> ms == (now.ticks - since.ticks) / NANOS_PER_MILLI
    ensures now.ticks < since.ticks ==> ms == 0
  {
    if since.ticks <= now.ticks then
      var d := FromNanos(now.ticks - since.ticks);
      d.secs * 1000 + d.nanos / NANOS_PER_MILLI
    else 0
  }

  /** The interval has passed and `get_or_update` queries the file's metadata. */
  predicate PollDue<C>(u: ConfigUpdater<C>, now: Instant) {
    ElapsedMillis(u.lastUpdate, now) > UPDATE_MS
  }

  /** The poll is due exactly when at least 101 ms have passed. */
  lemma PollDueAfter101Millis<C>(u: ConfigUpdater<C>, now: Instant)
    ensures PollDue(u, now) <==> now.ticks - u.lastUpdate.ticks >= (UPDATE_MS + 1) * NANOS_PER_MILLI
  {
  }

  /** `ConfigUpdater::get_or_update`, as written: `last_update` is never
      refreshed, a metadata error is returned to the caller, and a changed
      file replaces the configuration with whatever `read_config` gives,
      errors included. */
  function GetOrUpdate<C>(u: ConfigUpdater<C>, now: Instant, fs: FileSystem,
                          parse: string -> Result<C, TomlError>): (r: Update<C>)
    ensures r.state.configPath == u.configPath && r.state.lastUpdate == u.lastUpdate
    ensures !PollDue(u, now) ==> r == Update(u, u.config)
    ensures PollDue(u, now) && fs.modified(u.configPath).Err? ==>
      r == Update(u, Err(fs.modified(u.configPath).error))
    ensures PollDue(u, now) && fs.modified(u.configPath).Ok? ==> r.result == r.state.config
    ensures PollDue(u, now) && fs.modified(u.configPath).Ok? ==>
      var t := fs.modified(u.configPath).value;
      && r.state.lastTimestamp == Some(t)
      && (u.lastTimestamp == Some(t) ==> r.state == u)
      && (u.lastTimestamp != Some(t) ==> r.state.config == ReadConfig(u.configPath, fs, parse))
  {
    if PollDue(u, now) then
      match fs.modified(u.configPath)
      case Err(e) => Update(u, Err(e))
      case Ok(timestamp) =>
        var u' :=
          if u.lastTimestamp != Some(timestamp) then
            u.(config := ReadConfig(u.configPath, fs, parse), lastTimestamp := Some(timestamp))
          else u;
        Update(u', u'.config)
    else
      Update(u, u.config)
  }

  /** Before the interval has passed nothing is asked of the file system:
      the outcome is the same whatever it would answer. */
  lemma FastPathIgnoresFileSystem<C>(u: ConfigUpdater<C>, now: Instant, fs1: FileSystem, fs2: FileSystem,
                                     parse: string -> Result<C, TomlError>)
    requires !PollDue(u, now)
    ensures GetOrUpdate(u, now, fs1, parse) == GetOrUpdate(u, now, fs2, parse)
  {
  }

  /** After a poll, a later poll that sees the same modification time
      re-reads nothing: the state is the one the first poll left, whatever the
      file now holds. */
  lemma UnchangedFileIsNotReread<C>(u: ConfigUpdater<C>, now1: Instant, now2: Instant,
                                    fs1: FileSystem, fs2: FileSystem, parse: string -> Result<C, TomlError>)
    requires PollDue(u, now1) && fs1.modified(u.configPath).Ok?
    requires fs2.modified(u.configPath) == fs1.modified(u.configPath)
    ensures var first := GetOrUpdate(u, now1, fs1, parse);
      var second := GetOrUpdate(first.state, now2, fs2, parse);
      second.state == first.state && second.result == first.state.config
  {
  }

  /** One call to `get_or_update` at `now` against the file system `fs`. */
  datatype Call = Call(now: Instant, fs: FileSystem)

  /** The state after `calls`, made in order, and how many of them queried
      the file's metadata. */
  function RunAsWritten<C>(u: ConfigUpdater<C>, calls: seq<Call>, parse: string -> Result<C, TomlError>)
    : (r: (ConfigUpdater<C>, nat))
    ensures r.0.configPath == u.configPath && r.0.lastUpdate == u.lastUpdate
    ensures r.1 <= |calls|
    decreases |calls|
  {
    if |calls| == 0 then (u, 0)
    else
      var polled := if PollDue(u, calls[0].now) then 1 else 0;
      var rest := RunAsWritten(GetOrUpdate(u, calls[0].now, calls[0].fs, parse).state, calls[1..], parse);
      (rest.0, polled + rest.1)
  }

  /** Since `last_update` keeps its construction time, every call made more
      than 100 ms after construction queries the metadata again. */
  lemma {:induction false} AsWrittenPollsEveryCall<C>(u: ConfigUpdater<C>, calls: seq<Call>,
                                                      parse: string -> Result<C, TomlError>)
    requires forall i :: 0 <= i < |calls| ==> PollDue(u, calls[i].now)
    ensures RunAsWritten(u, calls, parse).1 == |calls|
    decreases |calls|
  {
    if |calls| > 0 {
      var next := GetOrUpdate(u, calls[0].now, calls[0].fs, parse).state;
      forall i | 0 <= i < |calls[1..]|
        ensures PollDue(next, calls[1..][i].now)
      {
        assert calls[1..][i] == calls[i + 1];
      }
      AsWrittenPollsEveryCall(next, calls[1..], parse);
    }
  }

  /** A concrete case: 200 ms and 201 ms after construction both calls query. */
  lemma AsWrittenPollsTwiceInOneMillisecond<C>(u: ConfigUpdater<C>, fs: FileSystem,
                                               parse: string -> Result<C, TomlError>)
    requires u.lastUpdate == Instant(0)
    ensures RunAsWritten(u, [Call(Instant(200 * NANOS_PER_MILLI), fs), Call(Instant(201 * NANOS_PER_MILLI), fs)], parse).1 == 2
  {
  }

  /* ----- the throttle as intended ----- */

  /** `get_or_update` with the poll time recorded: when the interval has
      passed, `last_update` becomes `now` before the metadata is queried. */
  function GetOrUpdateThrottled<C>(u: ConfigUpdater<C>, now: Instant, fs: FileSystem,
                                   parse: string -> Result<C, TomlError>): (r: Update<C>)
    ensures r.state.configPath == u.configPath
    ensures PollDue(u, now) ==> r.state.lastUpdate == now
    ensures !PollDue(u, now) ==> r == Update(u, u.config)
    ensures PollDue(u, now) ==>
      r == (var u1 := GetOrUpdate(u, now, fs, parse); Update(u1.state.(lastUpdate := now), u1.result))
  {
    var r := GetOrUpdate(u, now, fs, parse);
    if PollDue(u, now) then Update(r.state.(lastUpdate := now), r.result) else r
  }

  /** The state after `calls` under the intended throttle, and how many of
      them queried the file's metadata. */
  function RunThrottled<C>(u: ConfigUpdater<C>, calls: seq<Call>, parse: string -> Result<C, TomlError>)
    : (r: (ConfigUpdater<C>, nat))
    ensures r.0.configPath == u.configPath
    ensures r.1 <= |calls|
    decreases |calls|
  {
    if |calls| == 0 then (u, 0)
    else
      var polled := if PollDue(u, calls[0].now) then 1 else 0;
      var rest := RunThrottled(GetOrUpdateThrottled(u, calls[0].now, calls[0].fs, parse).state, calls[1..], parse);
      (rest.0, polled + rest.1)
  }

  /** The calls are in clock order and all fall within `UPDATE_MS` of the first. */
  predicate WithinOneInterval(calls: seq<Call>) {
    && (forall i, j :: 0 <= i <= j < |calls| ==> calls[i].now.ticks <= calls[j].now.ticks)
    && (forall i :: 0 <= i < |calls| ==> calls[i].now.ticks - calls[0].now.ticks <= UPDATE_MS * NANOS_PER_MILLI)
  }

  /** No call that falls within the interval queries anything. */
  lemma {:induction false} ThrottledQuietWithinInterval<C>(u: ConfigUpdater<C>, calls: seq<Call>,
                                                           parse: string -> Result<C, TomlError>)
    requires forall i :: 0 <= i < |calls| ==> !PollDue(u, calls[i].now)
    ensures RunThrottled(u, calls, parse).1 == 0
    ensures RunThrottled(u, calls, parse).0 == u
    decreases |calls|
  {
    if |calls| > 0 {
      assert GetOrUpdateThrottled(u, calls[0].now, calls[0].fs, parse).state == u;
      forall i | 0 <= i < |calls[1..]|
        ensures !PollDue(u, calls[1..][i].now)
      {
        assert calls[1..][i] == calls[i + 1];
      }
      ThrottledQuietWithinInterval(u, calls[1..], parse);
    }
  }

  /** With the poll time recorded, calls that all fall within one interval
      query the metadata at most once between them. */
  lemma {:induction false} ThrottledPollsAtMostOncePerInterval<C>(u: ConfigUpdater<C>, calls: seq<Call>,
                                                                  parse: string -> Result<C, TomlError>)
    requires WithinOneInterval(calls)
    ensures RunThrottled(u, calls, parse).1 <= 1
    decreases |calls|
  {
    if |calls| > 0 {
      var next := GetOrUpdateThrottled(u, calls[0].now, calls[0].fs, parse).state;
      if PollDue(u, calls[0].now) {
        forall i | 0 <= i < |calls[1..]|
          ensures !PollDue(next, calls[1..][i].now)
        {
          assert calls[1..][i] == calls[i + 1];
          PollDueAfter101Millis(next, calls[i + 1].now);
        }
        ThrottledQuietWithinInterval(next, calls[1..], parse);
      } else {
        assert next == u;
        assert WithinOneInterval(calls[1..]) by {
          forall i | 0 <= i < |calls[1..]|
            ensures calls[1..][i].now.ticks - calls[1..][0].now.ticks <= UPDATE_MS * NANOS_PER_MILLI
          {
            assert calls[1..][i] == calls[i + 1];
            assert calls[0].now.ticks <= calls[1].now.ticks;
          }
        }
        ThrottledPollsAtMostOncePerInterval(next, calls[1..], parse);
      }
    }
  }
}
