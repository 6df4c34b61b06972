/** The path rules of qxdg/qxdgstandardpath.cpp (QXdgStandardPath): the XDG
    base directories from the environment, the KDE resource directories, and
    the xdg-user-dirs lookup. The environment, the home directory, the lines
    of `user-dirs.dirs`, QDir::cleanPath and the test for an existing
    directory are parameters. */
module StandardPath {
  import opened Wrappers
  import opened Strings

  /** QXdgStandardPath::StandardLocation; `OtherLocation` stands for a value
      outside the enumeration. */
  datatype StandardLocation =
    | DesktopLocation | DownloadLocation | TemplatesLocation | PublicShareLocation
    | DocumentsLocation | MusicLocation | PicturesLocation | VideosLocation
    | XdgConfigHomeLocation | XdgConfigDirsLocation | XdgDataDirsLocation | XdgDataHomeLocation | XdgCacheHomeLocation
    | Kf5ServicesLocation | Kf5SoundLocation | Kf5TemplatesLocation
    | OtherLocation(code: int)

  /** The eight xdg-user-dirs types. */
  predicate IsUserDir(t: StandardLocation)
  {
    t.DesktopLocation? || t.DownloadLocation? || t.TemplatesLocation? || t.PublicShareLocation? ||
    t.DocumentsLocation? || t.MusicLocation? || t.PicturesLocation? || t.VideosLocation?
  }

  /** The environment the rules read: the home directory and the values of
      XDG_CONFIG_HOME, XDG_CACHE_HOME, XDG_DATA_HOME, XDG_CONFIG_DIRS and
      XDG_DATA_DIRS, empty when unset. */
  datatype Env = Env(home: string, configHome: string, cacheHome: string, dataHome: string,
                     configDirs: string, dataDirs: string)

  /** xdgConfigHomeDir */
  function XdgConfigHomeDir(env: Env): (r: string)
    ensures r != []
    ensures env.configHome != [] ==> r == env.configHome
    ensures env.configHome == [] ==> r == env.home + "/.config"
  {
    if env.configHome == [] then env.home + "/.config" else env.configHome
  }

  /** xdgCacheHomeDir */
  function XdgCacheHomeDir(env: Env): (r: string)
    ensures r != []
    ensures env.cacheHome != [] ==> r == env.cacheHome
    ensures env.cacheHome == [] ==> r == env.home + "/.cache"
  {
    if env.cacheHome == [] then env.home + "/.cache" else env.cacheHome
  }

  /** xdgDataHomeDir */
  function XdgDataHomeDir(env: Env): (r: string)
    ensures r != []
    ensures env.dataHome != [] ==> r == env.dataHome
    ensures env.dataHome == [] ==> r == env.home + "/.local/share"
  {
    if env.dataHome == [] then env.home + "/.local/share" else env.dataHome
  }

  /** The parts joined back with the separator between them. */
  function Join(parts: seq<string>, sep: char): string
    decreases |parts|
  {
    if parts == [] then []
    else if |parts| == 1 then parts[0]
    else parts[0] + [sep] + Join(parts[1..], sep)
  }

  /** QString::split(sep), keeping empty parts: the separator-free parts that
      join back to `s`. */
  function Split(s: string, sep: char): (parts: seq<string>)
    ensures |parts| >= 1
    ensures forall i :: 0 <= i < |parts| ==> sep !in parts[i]
    ensures Join(parts, sep) == s
    decreases |s|
  {
    var i := IndexOf(s, sep, 0);
    if i < 0 then [s]
    else
      var rest := Split(s[i + 1..], sep);
      assert s == s[..i] + [sep] + s[i + 1..];
      assert ([s[..i]] + rest)[1..] == rest;
      [s[..i]] + rest
  }

  /** Splitting a join of separator-free parts gives the parts back. */
  lemma {:induction false} SplitJoin(parts: seq<string>, sep: char)
    requires |parts| >= 1 && forall i :: 0 <= i < |parts| ==> sep !in parts[i]
    ensures Split(Join(parts, sep), sep) == parts
    decreases |parts|
  {
    var s := Join(parts, sep);
    if |parts| == 1 {
      assert IndexOf(s, sep, 0) == -1;
    } else {
      var p := parts[0];
      assert s == p + [sep] + Join(parts[1..], sep);
      assert s[|p|] == sep;
      assert IndexOf(s, sep, 0) == |p|;
      assert s[|p| + 1..] == Join(parts[1..], sep);
      assert s[..|p|] == p;
      SplitJoin(parts[1..], sep);
      assert parts == [p] + parts[1..];
    }
  }

  /** xdgConfigDirs: `/etc/xdg` when XDG_CONFIG_DIRS is empty, otherwise its
      `:`-separated parts, empty ones included. */
  function XdgConfigDirs(env: Env): (dirs: seq<string>)
    ensures env.configDirs == [] ==> dirs == ["/etc/xdg"]
    ensures env.configDirs != [] ==> |dirs| >= 1 && Join(dirs, ':') == env.configDirs &&
                                     forall i :: 0 <= i < |dirs| ==> ':' !in dirs[i]
  {
    if env.configDirs == [] then ["/etc/xdg"] else Split(env.configDirs, ':')
  }

  /** QString::split(sep, QString::SkipEmptyParts). */
  function NonEmpty(parts: seq<string>): (r: seq<string>)
    ensures forall x :: x in r <==> x in parts && x != []
    decreases |parts|
  {
    if parts == [] then []
    else NonEmpty(parts[..|parts| - 1]) + (if parts[|parts| - 1] != [] then [parts[|parts| - 1]] else [])
  }

  /** The pass over XDG_DATA_DIRS: entries not starting with `/` are dropped,
      the others replaced by their cleaned form. */
  function Normalized(parts: seq<string>, clean: string -> string): (r: seq<string>)
    ensures |r| <= |parts|
    ensures forall x :: x in r <==> exists p :: p in parts && StartsWith(p, "/") && x == clean(p)
    decreases |parts|
  {
    if parts == [] then []
    else
      var p := parts[|parts| - 1];
      var init := parts[..|parts| - 1];
      assert forall q :: q in parts <==> q in init || q == p;
      Normalized(init, clean) + (if StartsWith(p, "/") then [clean(p)] else [])
  }

  /** QStringList::removeDuplicates: the first occurrence of each element, in order. */
  function Dedup(s: seq<string>): (r: seq<string>)
    ensures forall x :: x in r <==> x in s
    decreases |s|
  {
    if s == [] then []
    else
      var init := s[..|s| - 1];
      assert forall x :: x in s <==> x in init || x == s[|s| - 1];
      var d := Dedup(init);
      if s[|s| - 1] in d then d else d + [s[|s| - 1]]
  }

  predicate NoDuplicates(s: seq<string>)
  {
    forall i, j :: 0 <= i < j < |s| ==> s[i] != s[j]
  }

  lemma {:induction false} DedupNoDuplicates(s: seq<string>)
    ensures NoDuplicates(Dedup(s))
    decreases |s|
  {
    if s != [] {
      DedupNoDuplicates(s[..|s| - 1]);
    }
  }

  /** The index of the first occurrence of `x` in `s`. */
  function FirstIndex(s: seq<string>, x: string): (i: nat)
    requires x in s
    ensures i < |s| && s[i] == x && x !in s[..i]
    decreases |s|
  {
    if s[0] == x then 0
    else
      var i := FirstIndex(s[1..], x);
      assert s[..i + 1] == [s[0]] + s[1..][..i];
      i + 1
  }

  lemma FirstIndexPrefix(s: seq<string>, n: nat, x: string)
    requires n <= |s| && x in s[..n]
    ensures FirstIndex(s, x) == FirstIndex(s[..n], x)
  {
    var i := FirstIndex(s[..n], x);
    assert s[..i] == s[..n][..i];
    var j := FirstIndex(s, x);
    assert s[..n][i] == s[i];
    assert forall k :: 0 <= k < i ==> s[..n][..i][k] == s[k];
    assert forall k :: 0 <= k < j ==> s[..j][k] == s[k];
  }

  /** Every element of `r` occurs in `s`, and in `r` they stand in the order of
      their first occurrences in `s`. */
  predicate InFirstOccurrenceOrder(r: seq<string>, s: seq<string>)
  {
    (forall x :: x in r ==> x in s) &&
    forall i, j :: 0 <= i < j < |r| && r[i] in s && r[j] in s ==> FirstIndex(s, r[i]) < FirstIndex(s, r[j])
  }

  /** The elements keep the order of their first occurrences. */
  lemma {:induction false} DedupOrder(s: seq<string>)
    ensures InFirstOccurrenceOrder(Dedup(s), s)
    decreases |s|
  {
    if s != [] {
      var n := |s| - 1;
      var init := s[..n];
      DedupOrder(init);
      var d := Dedup(init);
      var r := Dedup(s);
      forall i, j | 0 <= i < j < |r| && r[i] in s && r[j] in s
        ensures FirstIndex(s, r[i]) < FirstIndex(s, r[j])
      {
        assert r[i] == d[i] && r[i] in d;
        FirstIndexPrefix(s, n, r[i]);
        if j < |d| {
          assert r[j] == d[j];
          FirstIndexPrefix(s, n, r[j]);
          assert d[i] in init && d[j] in init;
          assert FirstIndex(init, d[i]) < FirstIndex(init, d[j]);
        } else {
          assert r[j] == s[n] && s[n] !in init;
          assert FirstIndex(s, r[j]) == n;
        }
      }
    }
  }

  /** removeDuplicates, keeping the first occurrence of each path. */
  method RemoveDuplicates(s: seq<string>) returns (r: seq<string>)
    ensures r == Dedup(s)
    ensures NoDuplicates(r) && forall x :: x in r <==> x in s
  {
    r := [];
    var seen: set<string> := {};
    var i := 0;
    while i < |s|
      invariant 0 <= i <= |s| && r == Dedup(s[..i])
      invariant forall x :: x in seen <==> x in r
    {
      assert s[..i + 1][..i] == s[..i];
      if s[i] !in seen {
        seen := seen + {s[i]};
        r := r + [s[i]];
      }
      i := i + 1;
    }
    assert s[..|s|] == s;
    DedupNoDuplicates(s);
  }

  /** The data directories xdgDataDirs reports. */
  function DataDirList(env: Env, clean: string -> string): seq<string>
  {
    if env.dataDirs == [] then ["/usr/local/share", "/usr/share"]
    else Dedup(Normalized(NonEmpty(Split(env.dataDirs, ':')), clean))
  }

  /** xdgDataDirs: the two defaults when XDG_DATA_DIRS is empty; otherwise
      the cleaned forms of its absolute entries, each once, in order of
      first occurrence. */
  method XdgDataDirs(env: Env, clean: string -> string) returns (dirs: seq<string>)
    ensures dirs == DataDirList(env, clean)
    ensures env.dataDirs == [] ==> dirs == ["/usr/local/share", "/usr/share"]
    ensures env.dataDirs != [] ==> NoDuplicates(dirs)
    ensures env.dataDirs != [] ==>
              forall x :: x in dirs <==> exists p :: p in Split(env.dataDirs, ':') && p != [] && StartsWith(p, "/") && x == clean(p)
  {
    if env.dataDirs == [] {
      dirs := ["/usr/local/share", "/usr/share"];
      return;
    }
    dirs := NonEmpty(Split(env.dataDirs, ':'));
    ghost var parts := dirs;
    var i := 0;
    ghost var j := 0;
    while i < |dirs|
      invariant i <= |dirs| && j <= |parts|
      invariant dirs[..i] == Normalized(parts[..j], clean) && dirs[i..] == parts[j..]
      decreases |dirs| - i
    {
      assert parts[..j + 1][..j] == parts[..j] && parts[j] == dirs[i];
      var dir := dirs[i];
      if !StartsWith(dir, "/") {
        dirs := dirs[..i] + dirs[i + 1..];
      } else {
        dirs := dirs[..i] + [clean(dir)] + dirs[i + 1..];
        i := i + 1;
      }
      j := j + 1;
    }
    assert parts[..j] == parts;
    assert dirs[..i] == dirs;
    dirs := RemoveDuplicates(dirs);
  }

  /** The paths `d/type` of the directories `ds` for which `isDir` holds, in order. */
  function ExistingPaths(ds: seq<string>, type_: string, isDir: string -> bool): (r: seq<string>)
    ensures |r| <= |ds|
    ensures forall k :: 0 <= k < |r| ==> isDir(r[k]) && exists d :: d in ds && r[k] == d + "/" + type_
    decreases |ds|
  {
    if ds == [] then []
    else
      var init := ds[..|ds| - 1];
      var p := ds[|ds| - 1] + "/" + type_;
      assert forall d :: d in init ==> d in ds;
      ExistingPaths(init, type_, isDir) + (if isDir(p) then [p] else [])
  }

  lemma ExistingPathsSnoc(ds: seq<string>, k: nat, type_: string, isDir: string -> bool)
    requires k < |ds|
    ensures ExistingPaths(ds[..k + 1], type_, isDir) ==
            ExistingPaths(ds[..k], type_, isDir) + (if isDir(ds[k] + "/" + type_) then [ds[k] + "/" + type_] else [])
  {
    assert ds[..k + 1][..k] == ds[..k];
  }

  /** The directories kf5ResourceDirs reports for `type_`. */
  function Kf5Dirs(env: Env, clean: string -> string, isDir: string -> bool, type_: string): seq<string>
  {
    if type_ == [] then [] else [XdgDataHomeDir(env) + "/" + type_] + ExistingPaths(DataDirList(env, clean), type_, isDir)
  }

  /** The loop of kf5ResourceDirs: the first directory's `type` path is kept
      whether it exists or not, the later ones only when they exist. */
  method ResourcePaths(dirs: seq<string>, isDir: string -> bool, type_: string) returns (result: seq<string>)
    requires |dirs| >= 1
    ensures result == [dirs[0] + "/" + type_] + ExistingPaths(dirs[1..], type_, isDir)
  {
    var local := true;
    result := [];
    var i := 0;
    while i < |dirs|
      invariant 0 <= i <= |dirs| && (local <==> i == 0)
      invariant i == 0 ==> result == []
      invariant i > 0 ==> result == [dirs[0] + "/" + type_] + ExistingPaths(dirs[1..][..i - 1], type_, isDir)
    {
      var path := dirs[i] + "/" + type_;
      if i > 0 {
        assert dirs[i] == dirs[1..][i - 1];
        ExistingPathsSnoc(dirs[1..], i - 1, type_, isDir);
      }
      if local || isDir(path) {
        result := result + [path];
      }
      local := false;
      i := i + 1;
    }
    assert dirs[1..][..|dirs| - 1] == dirs[1..];
  }

  /** kf5ResourceDirs: for a non-empty type, the data home's `type` directory
      first, whether it exists or not, then the `type` directories of the
      data directories that exist. */
  method Kf5ResourceDirs(env: Env, clean: string -> string, isDir: string -> bool, type_: string) returns (result: seq<string>)
    ensures result == Kf5Dirs(env, clean, isDir, type_)
    ensures type_ == [] ==> result == []
    ensures type_ != [] ==> |result| >= 1 && result[0] == XdgDataHomeDir(env) + "/" + type_
    ensures forall k :: 1 <= k < |result| ==> isDir(result[k]) && exists d :: d in DataDirList(env, clean) && result[k] == d + "/" + type_
    ensures |result| <= 1 + |DataDirList(env, clean)|
  {
    var dirs := XdgDataDirs(env, clean);
    dirs := [XdgDataHomeDir(env)] + dirs;
    if type_ == [] {
      return [];
    }
    result := ResourcePaths(dirs, isDir, type_);
    assert dirs[1..] == DataDirList(env, clean);
  }

  /** The `XDG_<key>_DIR=<value>` parts of a line of `user-dirs.dirs`. */
  datatype UserDirLine = UserDirLine(key: string, value: string)

  /** `_DIR=` starts at index `p` of the line. */
  predicate MarkAt(line: string, p: int)
  {
    0 <= p && p + 5 <= |line| && line[p..p + 5] == "_DIR="
  }

  /** The last index in [4, hi] where `_DIR=` starts, or -1. */
  function LastMark(line: string, hi: int): (r: int)
    ensures r == -1 || (4 <= r <= hi && MarkAt(line, r))
    ensures forall q :: (if r == -1 then 4 else r + 1) <= q <= hi ==> !MarkAt(line, q)
    decreases hi
  {
    if hi < 4 then -1 else if MarkAt(line, hi) then hi else LastMark(line, hi - 1)
  }

  /** The match of `^XDG_(.*)_DIR=(.*)$` against one line: the greedy first
      group makes the key end at the last `_DIR=`. */
  function MatchUserDirLine(line: string): (m: Option<UserDirLine>)
    ensures m.Some? ==> line == "XDG_" + m.value.key + "_DIR=" + m.value.value
    ensures m.Some? ==> forall q :: 4 + |m.value.key| < q ==> !MarkAt(line, q)
    ensures m.None? ==> !StartsWith(line, "XDG_") || forall q :: 4 <= q ==> !MarkAt(line, q)
  {
    if |line| >= 4 && line[..4] == "XDG_" then
      var p := LastMark(line, |line| - 5);
      if p >= 0 then
        assert line == line[..4] + line[4..p] + line[p..p + 5] + line[p + 5..];
        Some(UserDirLine(line[4..p], line[p + 5..]))
      else None
    else None
  }

  /** A value longer than two characters loses its enclosing double quotes. */
  function StripQuotes(v: string): (r: string)
    ensures |v| > 2 && v[0] == '"' && v[|v| - 1] == '"' ==> r == v[1..|v| - 1]
    ensures !(|v| > 2 && v[0] == '"' && v[|v| - 1] == '"') ==> r == v
  {
    if |v| > 2 && v[0] == '"' && v[|v| - 1] == '"' then v[1..|v| - 1] else v
  }

  /** The entries the matching lines give, quotes stripped, in file order. */
  function UserDirEntries(lines: seq<string>): seq<UserDirLine>
    decreases |lines|
  {
    if lines == [] then []
    else
      var m := MatchUserDirLine(lines[|lines| - 1]);
      UserDirEntries(lines[..|lines| - 1]) + (if m.Some? then [UserDirLine(m.value.key, StripQuotes(m.value.value))] else [])
  }

  /** The hash the entries fill, each entry overwriting an earlier one of the same key. */
  function Stored(es: seq<UserDirLine>): map<string, string>
    decreases |es|
  {
    if es == [] then map[] else Stored(es[..|es| - 1])[es[|es| - 1].key := es[|es| - 1].value]
  }

  lemma StoredSnoc(es: seq<UserDirLine>, e: UserDirLine)
    ensures Stored(es + [e]) == Stored(es)[e.key := e.value]
  {
    assert (es + [e])[..|es|] == es && (es + [e])[|es|] == e;
  }

  /** `line` matches the pattern and names `key`. */
  predicate SetsKey(line: string, key: string)
  {
    MatchUserDirLine(line).Some? && MatchUserDirLine(line).value.key == key
  }

  /** The index of the last line that matches with `key`, or -1. */
  function LastLineFor(lines: seq<string>, key: string): (r: int)
    ensures r == -1 || (0 <= r < |lines| && SetsKey(lines[r], key))
    ensures forall i :: (if r == -1 then 0 else r + 1) <= i < |lines| ==> !SetsKey(lines[i], key)
    decreases |lines|
  {
    if lines == [] then -1
    else if SetsKey(lines[|lines| - 1], key) then |lines| - 1
    else
      var r := LastLineFor(lines[..|lines| - 1], key);
      assert forall i :: 0 <= i < |lines| - 1 ==> lines[..|lines| - 1][i] == lines[i];
      r
  }

  /** The last matching line for a key decides its stored value; a key no
      line matches with is absent. */
  lemma {:induction false} LastLineWins(lines: seq<string>, key: string)
    ensures var r := LastLineFor(lines, key);
            (key in Stored(UserDirEntries(lines)) <==> r >= 0) &&
            (r >= 0 ==> Stored(UserDirEntries(lines))[key] == StripQuotes(MatchUserDirLine(lines[r]).value.value))
    decreases |lines|
  {
    if lines != [] {
      var init := lines[..|lines| - 1];
      var es := UserDirEntries(init);
      var m := MatchUserDirLine(lines[|lines| - 1]);
      if m.Some? {
        var e := UserDirLine(m.value.key, StripQuotes(m.value.value));
        assert UserDirEntries(lines) == es + [e];
        StoredSnoc(es, e);
        if m.value.key != key {
          LastLineWins(init, key);
          var r := LastLineFor(init, key);
          assert LastLineFor(lines, key) == r;
          if r >= 0 {
            assert init[r] == lines[r];
          }
        }
      } else {
        assert UserDirEntries(lines) == es;
        LastLineWins(init, key);
        var r := LastLineFor(init, key);
        assert LastLineFor(lines, key) == r;
        if r >= 0 {
          assert init[r] == lines[r];
        }
      }
    }
  }

  /** The loop over the lines of `user-dirs.dirs` that fills the key/value hash. */
  method ReadUserDirs(lines: seq<string>) returns (m: map<string, string>)
    ensures m == Stored(UserDirEntries(lines))
  {
    m := map[];
    var i := 0;
    while i < |lines|
      invariant 0 <= i <= |lines| && m == Stored(UserDirEntries(lines[..i]))
    {
      var line := lines[i];
      assert lines[..i + 1][..i] == lines[..i] && lines[..i + 1][i] == line;
      var match_ := MatchUserDirLine(line);
      ghost var es := UserDirEntries(lines[..i]);
      if match_.Some? {
        var key := match_.value.key;
        var value := StripQuotes(match_.value.value);
        StoredSnoc(es, UserDirLine(key, value));
        m := m[key := value];
      } else {
        assert es + [] == es;
      }
      i := i + 1;
    }
    assert lines[..|lines|] == lines;
  }

  /** The `user-dirs.dirs` key of each user directory type; empty for the others. */
  function UserDirKey(t: StandardLocation): (key: string)
    ensures key != [] <==> IsUserDir(t)
  {
    match t
    case DesktopLocation => "DESKTOP"
    case DownloadLocation => "DOWNLOAD"
    case TemplatesLocation => "TEMPLATES"
    case PublicShareLocation => "PUBLICSHARE"
    case DocumentsLocation => "DOCUMENTS"
    case PicturesLocation => "PICTURES"
    case MusicLocation => "MUSIC"
    case VideosLocation => "VIDEOS"
    case _ => []
  }

  /** The fallback path of each user directory type under the home directory;
      empty for the others. */
  function Fallback(t: StandardLocation, home: string): (r: string)
    ensures IsUserDir(t) ==> |r| > |home| && StartsWith(r, home) && r[|home|] == '/'
    ensures !IsUserDir(t) ==> r == []
  {
    var suffix := match t
      case DesktopLocation => "/Desktop"
      case DownloadLocation => "/Downloads"
      case TemplatesLocation => "/.Templates"
      case PublicShareLocation => "/.Public"
      case DocumentsLocation => "/Documents"
      case PicturesLocation => "/Pictures"
      case MusicLocation => "/Music"
      case VideosLocation => "/Videos"
      case _ => [];
    if suffix == [] then [] else
      assert (home + suffix)[..|home|] == home;
      home + suffix
  }

  /** A stored value with a leading `$HOME` replaced by the home directory, and
      a trailing `/` chopped when more than one character is left. */
  function PostProcess(value: string, home: string): (r: string)
    ensures var v := if StartsWith(value, "$HOME") then home + value[5..] else value;
            (r == v || r + "/" == v) && (|v| > 1 && v[|v| - 1] == '/' <==> r != v) && (v != [] ==> r != [])
  {
    var v := if StartsWith(value, "$HOME") then home + value[5..] else value;
    if |v| > 1 && v[|v| - 1] == '/' then
      assert v[..|v| - 1] + "/" == v;
      v[..|v| - 1]
    else v
  }

  /** The path userDirLocation returns, with `file` the lines of
      `user-dirs.dirs`, or None when the file does not open. */
  function UserDirPath(t: StandardLocation, home: string, file: Option<seq<string>>): string
  {
    var key := UserDirKey(t);
    if file.Some? && key != [] then
      var stored := Stored(UserDirEntries(file.value));
      var value := if key in stored then stored[key] else [];
      if value != [] then PostProcess(value, home) else Fallback(t, home)
    else Fallback(t, home)
  }

  /** userDirLocation */
  method UserDirLocation(t: StandardLocation, home: string, file: Option<seq<string>>) returns (r: string)
    ensures r == UserDirPath(t, home, file)
    ensures !IsUserDir(t) ==> r == []
  {
    if file.Some? {
      var lines := ReadUserDirs(file.value);
      var key := UserDirKey(t);
      if key != [] {
        var value := if key in lines then lines[key] else [];
        if value != [] {
          r := PostProcess(value, home);
          return;
        }
      }
    }
    r := Fallback(t, home);
  }

  /** With a non-empty home directory the user directory path is empty exactly
      for the types that are not user directories. */
  lemma UserDirPathEmpty(t: StandardLocation, home: string, file: Option<seq<string>>)
    requires home != []
    ensures UserDirPath(t, home, file) == [] <==> !IsUserDir(t)
  {
    var key := UserDirKey(t);
    if file.Some? && key != [] {
      var stored := Stored(UserDirEntries(file.value));
      var value := if key in stored then stored[key] else [];
      if value != [] && StartsWith(value, "$HOME") {
        assert |home + value[5..]| >= |home|;
      }
    }
  }

  /** The value of the last line for the type's key decides the path; without
      such a line, or with an empty value, the fallback is used. */
  lemma UserDirPathFromLines(t: StandardLocation, home: string, lines: seq<string>)
    requires IsUserDir(t)
    ensures var r := LastLineFor(lines, UserDirKey(t));
            var value := if r >= 0 then StripQuotes(MatchUserDirLine(lines[r]).value.value) else [];
            UserDirPath(t, home, Some(lines)) == if value != [] then PostProcess(value, home) else Fallback(t, home)
  {
    LastLineWins(lines, UserDirKey(t));
  }

  /** standardLocations */
  method StandardLocations(t: StandardLocation, env: Env, clean: string -> string, isDir: string -> bool,
                           file: Option<seq<string>>) returns (r: seq<string>)
    ensures IsUserDir(t) ==> r == [UserDirPath(t, env.home, file)]
    ensures t == XdgConfigHomeLocation ==> r == [XdgConfigHomeDir(env)]
    ensures t == XdgConfigDirsLocation ==> r == XdgConfigDirs(env)
    ensures t == XdgDataDirsLocation ==> r == DataDirList(env, clean)
    ensures t == XdgDataHomeLocation ==> r == [XdgDataHomeDir(env)]
    ensures t == XdgCacheHomeLocation ==> r == [XdgCacheHomeDir(env)]
    ensures t == Kf5ServicesLocation ==> r == Kf5Dirs(env, clean, isDir, "kservices5")
    ensures t == Kf5SoundLocation ==> r == Kf5Dirs(env, clean, isDir, "sounds")
    ensures t == Kf5TemplatesLocation ==> r == Kf5Dirs(env, clean, isDir, "templates")
    ensures t.OtherLocation? ==> r == []
  {
    match t {
      case XdgConfigHomeLocation => r := [XdgConfigHomeDir(env)];
      case XdgConfigDirsLocation => r := XdgConfigDirs(env);
      case XdgDataDirsLocation => r := XdgDataDirs(env, clean);
      case XdgDataHomeLocation => r := [XdgDataHomeDir(env)];
      case XdgCacheHomeLocation => r := [XdgCacheHomeDir(env)];
      case Kf5ServicesLocation => r := Kf5ResourceDirs(env, clean, isDir, "kservices5");
      case Kf5SoundLocation => r := Kf5ResourceDirs(env, clean, isDir, "sounds");
      case Kf5TemplatesLocation => r := Kf5ResourceDirs(env, clean, isDir, "templates");
      case OtherLocation(_) => r := [];
      case _ =>
        var p := UserDirLocation(t, env.home, file);
        r := [p];
    }
  }
}
