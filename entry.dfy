/** A loaded desktop entry file (qxdg/qxdgdesktopentry.cpp, QXdgDesktopEntry
    and QXdgDesktopEntryPrivate): its groups, the load status, and the public
    lookup and update operations. */
module DesktopEntry {
  import opened Bytes
  import opened Strings
  import opened Tokenizer
  import opened SectionStore
  import opened Splitter
  import opened Order

  datatype Status = NoError | AccessError | FormatError

  /** setStatus: NoError always clears; an error replaces only NoError, so the
      first error is kept. */
  function NextStatus(current: Status, newStatus: Status): (r: Status)
    ensures newStatus == NoError ==> r == NoError
    ensures current == NoError ==> r == newStatus
    ensures current != NoError && newStatus != NoError ==> r == current
  {
    if newStatus == NoError || current == NoError then newStatus else current
  }

  /** The status after a run of setStatus calls, in order. */
  function StatusAfter(current: Status, calls: seq<Status>): Status
    decreases |calls|
  {
    if calls == [] then current else StatusAfter(NextStatus(current, calls[0]), calls[1..])
  }

  /** Starting clear, the first error reported is the one kept, as long as
      nothing clears it. */
  lemma {:induction false} FirstErrorSticks(current: Status, calls: seq<Status>)
    requires forall i :: 0 <= i < |calls| ==> calls[i] != NoError
    ensures StatusAfter(current, calls) == if current == NoError && calls != [] then calls[0] else current
    decreases |calls|
  {
    if calls != [] {
      FirstErrorSticks(NextStatus(current, calls[0]), calls[1..]);
    }
  }

  /** The file a document is loaded from: whether it exists, whether it
      opens for reading, and its bytes. */
  datatype FileState = FileState(present: bool, openable: bool, bytes: seq<Byte>)

  /** fuzzyLoad reads and splits the file only when it exists, opens and is not empty. */
  predicate Loads(f: FileState)
  {
    f.present && f.openable && f.bytes != []
  }

  /** The parsed contents of a group list. */
  function Parsed(groups: map<seq<Byte>, seq<Byte>>): (c: map<seq<Byte>, map<seq<Byte>, seq<Byte>>>)
    ensures c.Keys == groups.Keys
  {
    map n | n in groups :: Parse(groups[n])
  }

  /** The group contents of a document: group name to key/value map. */
  type Contents = map<seq<Byte>, map<seq<Byte>, seq<Byte>>>

  /** The value of `key` in group `section`, or `defaultValue`. */
  function Lookup(c: Contents, section: seq<Byte>, key: seq<Byte>, defaultValue: seq<Byte>): seq<Byte>
  {
    if section in c && key in c[section] then c[section][key] else defaultValue
  }

  /** A write to an existing key is read back, and leaves every other key as it was. */
  lemma LookupAfterWrite(c: Contents, section: seq<Byte>, key: seq<Byte>, value: seq<Byte>,
                         s: seq<Byte>, k: seq<Byte>, defaultValue: seq<Byte>)
    requires section in c && key in c[section]
    ensures var c' := c[section := c[section][key := value]];
            Lookup(c', s, k, defaultValue) == if s == section && k == key then value else Lookup(c, s, k, defaultValue)
  {
  }

  /** The key `key[locale]`. */
  function Localized(key: seq<Byte>, locale: seq<Byte>): (r: seq<Byte>)
    ensures |r| == |key| + |locale| + 2 && r[..|key|] == key && r[|key|] == LBRACKET && r[|r| - 1] == RBRACKET
  {
    key + [LBRACKET] + locale + [RBRACKET]
  }

  /** The locale names localizedValue knows: "C", "empty", "default" and "system". */
  const CLocale: seq<Byte> := [67]
  const EmptyLocale: seq<Byte> := [101, 109, 112, 116, 121]
  const DefaultLocale: seq<Byte> := [100, 101, 102, 97, 117, 108, 116]
  const SystemLocale: seq<Byte> := [115, 121, 115, 116, 101, 109]

  /** The locale the lookup falls back on. */
  const ActualLocaleKey: seq<Byte> := CLocale

  /** The keys localizedValue tries, in order: first the requested variant,
      then `key[C]` (twice: once for the fixed fallback locale and once more
      literally), then the bare key. */
  function Candidates(key: seq<Byte>, localeKey: seq<Byte>, processLocale: seq<Byte>, systemLocale: seq<Byte>): seq<seq<Byte>>
  {
    var requested :=
      if localeKey == [] then []
      else if localeKey == EmptyLocale then [key]
      else if localeKey == DefaultLocale then [Localized(key, processLocale)]
      else if localeKey == SystemLocale then [Localized(key, systemLocale)]
      else [Localized(key, localeKey)];
    var actual := if ActualLocaleKey != [] then [Localized(key, ActualLocaleKey)] else [];
    requested + actual + [Localized(key, CLocale), key]
  }

  /** The value of the first candidate key the group has, or `defaultValue`. */
  function FirstMatch(c: Contents, section: seq<Byte>, keys: seq<seq<Byte>>, defaultValue: seq<Byte>): seq<Byte>
    decreases |keys|
  {
    if keys == [] then defaultValue
    else if section in c && keys[0] in c[section] then c[section][keys[0]]
    else FirstMatch(c, section, keys[1..], defaultValue)
  }

  /** The first candidate key the group has decides the result. */
  lemma {:induction false} FirstMatchFirst(c: Contents, section: seq<Byte>, keys: seq<seq<Byte>>, defaultValue: seq<Byte>, i: nat)
    requires i < |keys| && section in c && keys[i] in c[section]
    requires forall j :: 0 <= j < i ==> keys[j] !in c[section]
    ensures FirstMatch(c, section, keys, defaultValue) == c[section][keys[i]]
    decreases i
  {
    if i > 0 {
      FirstMatchFirst(c, section, keys[1..], defaultValue, i - 1);
    }
  }

  /** When the group has none of the candidate keys, the default is the result. */
  lemma {:induction false} FirstMatchNone(c: Contents, section: seq<Byte>, keys: seq<seq<Byte>>, defaultValue: seq<Byte>)
    requires forall j :: 0 <= j < |keys| ==> !(section in c && keys[j] in c[section])
    ensures FirstMatch(c, section, keys, defaultValue) == defaultValue
    decreases |keys|
  {
    if keys != [] {
      FirstMatchNone(c, section, keys[1..], defaultValue);
    }
  }

  /** The default group of the lookups. */
  const DesktopEntryGroup: seq<Byte> := [68, 101, 115, 107, 116, 111, 112, 32, 69, 110, 116, 114, 121]
  /** "Name", "zh_CN" and "Foo Viewer". */
  const NameKey: seq<Byte> := [78, 97, 109, 101]
  const ZhCn: seq<Byte> := [122, 104, 95, 67, 78]
  const FooViewer: seq<Byte> := [70, 111, 111, 32, 86, 105, 101, 119, 101, 114]
  /** The UTF-8 bytes of the Chinese name in the sample file. */
  const FuViewer: seq<Byte> := [0xE7, 0xA6, 0x8F, 0xE6, 0x9F, 0xA5, 0xE7, 0x9C, 0x8B, 0xE5, 0x99, 0xA8]

  /** The lookups of the sample file's `Name` keys: `Name=Foo Viewer` and a
      `Name[zh_CN]` entry, with no `Name[C]`. */
  lemma SampleLocalizedNames(c: Contents, systemLocale: seq<Byte>, defaultValue: seq<Byte>)
    requires DesktopEntryGroup in c && NameKey in c[DesktopEntryGroup] && Localized(NameKey, ZhCn) in c[DesktopEntryGroup]
    requires c[DesktopEntryGroup][NameKey] == FooViewer && c[DesktopEntryGroup][Localized(NameKey, ZhCn)] == FuViewer
    requires Localized(NameKey, CLocale) !in c[DesktopEntryGroup]
    ensures FirstMatch(c, DesktopEntryGroup, Candidates(NameKey, ZhCn, ZhCn, systemLocale), defaultValue) == FuViewer
    ensures FirstMatch(c, DesktopEntryGroup, Candidates(NameKey, EmptyLocale, ZhCn, systemLocale), defaultValue) == FooViewer
    ensures FirstMatch(c, DesktopEntryGroup, Candidates(NameKey, DefaultLocale, ZhCn, systemLocale), defaultValue) == FuViewer
    ensures FirstMatch(c, DesktopEntryGroup, Candidates(NameKey, DefaultLocale, CLocale, systemLocale), defaultValue) == FooViewer
  {
    var nameC := Localized(NameKey, CLocale);
    assert Candidates(NameKey, DefaultLocale, CLocale, systemLocale) == [nameC, nameC, nameC, NameKey];
    FirstMatchFirst(c, DesktopEntryGroup, [nameC, nameC, nameC, NameKey], defaultValue, 3);
  }

  /** The document's open groups, where `sectionsMap` holds one distinct
      section object per group name. */
  class Document {
    var status: Status
    var sectionsMap: map<seq<Byte>, Section>

    ghost predicate Valid()
      reads this, sectionsMap.Values
    {
      (forall n :: n in sectionsMap ==> sectionsMap[n].name == n) &&
      (forall n, n' :: n in sectionsMap && n' in sectionsMap && n != n' ==> sectionsMap[n] != sectionsMap[n'])
    }

    /** What the groups hold, whether or not they are parsed yet. */
    ghost function Contents(): Contents
      reads this, sectionsMap.Values
    {
      map n | n in sectionsMap :: sectionsMap[n].Values()
    }

    /** setStatus */
    method SetStatus(newStatus: Status)
      modifies this
      ensures status == NextStatus(old(status), newStatus) && sectionsMap == old(sectionsMap)
      ensures Contents() == old(Contents()) && (Valid() <==> old(Valid()))
    {
      if newStatus == NoError || status == NoError {
        status := newStatus;
      }
    }

    /** The private contains: the const lookup hands out a copy of the group, so
        the parse it triggers is not kept. */
    method Contains(sectionName: seq<Byte>, key: seq<Byte>) returns (r: bool)
      ensures r <==> sectionName in Contents() && key in Contents()[sectionName]
    {
      if sectionName in sectionsMap {
        var copy := sectionsMap[sectionName].Copy();
        r := copy.Contains(key);
        return r;
      }
      return false;
    }

    /** The private get: reports whether the group has the key and, if so, its value. */
    method Get(sectionName: seq<Byte>, key: seq<Byte>, value: seq<Byte>) returns (r: bool, result: seq<Byte>)
      requires Valid()
      modifies sectionsMap.Values
      ensures Valid() && sectionsMap == old(sectionsMap) && Contents() == old(Contents())
      ensures r <==> sectionName in old(Contents()) && key in old(Contents())[sectionName]
      ensures result == if r then old(Contents())[sectionName][key] else value
    {
      var c := Contains(sectionName, key);
      if !c {
        return false, value;
      }
      if sectionName in sectionsMap {
        var sec := sectionsMap[sectionName];
        result := sec.Get(key, value);
        assert forall n :: n in sectionsMap && n != sectionName ==> sectionsMap[n] != sec;
        return true, result;
      }
      assert false;
    }

    /** The private set: writes an existing key of an existing group, and fails otherwise. */
    method Set(sectionName: seq<Byte>, key: seq<Byte>, value: seq<Byte>) returns (r: bool)
      requires Valid()
      modifies sectionsMap.Values
      ensures Valid() && sectionsMap == old(sectionsMap)
      ensures r <==> sectionName in old(Contents()) && key in old(Contents())[sectionName]
      ensures Contents() == if r then old(Contents())[sectionName := old(Contents())[sectionName][key := value]] else old(Contents())
    {
      var c := Contains(sectionName, key);
      if !c {
        return false;
      }
      if sectionName in sectionsMap {
        var sec := sectionsMap[sectionName];
        r := sec.Set(key, value);
        assert forall n :: n in sectionsMap && n != sectionName ==> sectionsMap[n] != sec;
        return r;
      }
      // the source creates a new group here; the check above rules it out
      assert false;
    }
 
    /** The group list as the splitter leaves it: raw bytes per group, nothing parsed. */
    ghost predicate Committed(groups: map<seq<Byte>, seq<Byte>>)
      reads this, sectionsMap.Values
    {
      sectionsMap.Keys == groups.Keys &&
      forall n :: n in sectionsMap ==> sectionsMap[n].unparsedDatas == groups[n] && sectionsMap[n].valuesMap == map[]
    }

    /** The lambda commitSection: a new group holding `length` bytes from `start`. */
    method CommitSection(data: seq<Byte>, name: seq<Byte>, start: nat, length: nat, ghost groups: map<seq<Byte>, seq<Byte>>)
      requires start + length <= |data| && Valid() && Committed(groups)
      modifies this
      ensures Valid() && Committed(groups[name := data[start..start + length]]) && status == old(status)
      ensures fresh(sectionsMap[name])
      ensures forall n :: n in sectionsMap && n != name ==> n in old(sectionsMap) && sectionsMap[n] == old(sectionsMap)[n]
    {
      var lastSection := new Section(name, data[start..start + length]);
      sectionsMap := sectionsMap[name := lastSection];
    }

    /** The header branch of initSectionsFromData: the group name of the `[`
        line at `ls`, and whether a `]` closes it within the line. */
    static method ReadSectionName(data: seq<Byte>, ls: nat, len: nat) returns (sectionName: seq<Byte>, closed: bool)
      requires ls < ls + len <= |data| && data[ls] == LBRACKET
      ensures Header(ls, sectionName, closed) == HeaderOf(data, ls, len)
    {
      var idx := IndexOf(data, RBRACKET, ls);
      if idx == -1 || idx >= ls + len {
        closed := false;
        sectionName := Trim(data[ls + 1..ls + len]);
      } else {
        closed := true;
        sectionName := Trim(data[ls + 1..idx]);
      }
    }

    /** The invariant of the splitting loop: the groups committed so far are
        the assignments `es`, and Splitting relates the loop state to the data. */
    ghost predicate SplitState(data: seq<Byte>, pos: nat, pending: seq<Byte>, pendingStart: nat, es: seq<Entry>, formatOk: bool)
      reads this, sectionsMap.Values
    {
      Splitting(data, pos, pending, pendingStart, es, formatOk) && Valid() && Committed(Assign(map[], es))
    }

    /** Commits the pending group, if it has a name, covering `data[start..end]`. */
    method CommitPending(data: seq<Byte>, name: seq<Byte>, start: nat, end: nat, ghost es: seq<Entry>) returns (ghost es': seq<Entry>)
      requires start <= end <= |data| && Valid() && Committed(Assign(map[], es))
      modifies this
      ensures Valid() && Committed(Assign(map[], es')) && status == old(status)
      ensures es' == if name != [] then es + [Entry(name, data[start..end])] else es
    {
      es' := es;
      if name != [] {
        ghost var e := Entry(name, data[start..end]);
        CommitSection(data, name, start, end - start, Assign(map[], es));
        AssignConcat(map[], es, [e]);
        AssignSingle(Assign(map[], es), e);
        es' := es + [e];
      }
    }

    /** The header branch of the splitting loop: commits the pending group and
        opens the one the `[` line at `ls` names. */
    method OpenSection(data: seq<Byte>, pos: nat, ls: nat, len: nat, lastSectionName: seq<Byte>, lastSectionStart: nat,
                       ghost es: seq<Entry>, formatOk: bool)
      returns (sectionName: seq<Byte>, ghost es': seq<Entry>, formatOk': bool)
      requires SplitState(data, pos, lastSectionName, lastSectionStart, es, formatOk)
      requires NextLine(data, pos).found && NextLine(data, pos).lineStart == ls && NextLine(data, pos).lineLen == len
      requires data[ls] == LBRACKET
      modifies this
      ensures SplitState(data, NextLine(data, pos).dataPos, sectionName, ls, es', formatOk') && status == old(status)
    {
      es' := CommitPending(data, lastSectionName, lastSectionStart, ls, es);
      var closed;
      sectionName, closed := ReadSectionName(data, ls, len);
      formatOk' := formatOk;
      if !closed {
        formatOk' := false;
      }
      SplitHeader(data, pos, lastSectionName, lastSectionStart, es, formatOk, es', sectionName, formatOk');
    }

    /** initSectionsFromData: rebuilds the group list from the file's bytes and
        reports whether every header was closed by a `]`. */
    method InitSectionsFromData(data: seq<Byte>) returns (formatOk: bool)
      modifies this
      ensures Valid() && status == old(status)
      ensures formatOk == FormatOk(data)
      ensures Committed(Groups(data))
    {
      sectionsMap := map[];
      var lastSectionName: seq<Byte> := [];
      var lastSectionStart: nat := 0;
      formatOk := true;
      var dataPos: nat := 0;
      var lineStart: nat := 0;
      ghost var es: seq<Entry> := [];
      SplitStart(data);
      while true
        invariant SplitState(data, dataPos, lastSectionName, lastSectionStart, es, formatOk) && status == old(status)
        decreases |data| - dataPos
      {
        var found, newDataPos, ls, len, equalsPos := ReadLineFromData(data, dataPos);
        lineStart := ls;
        if !found {
          break;
        }
        if data[ls] == LBRACKET {
          lastSectionName, es, formatOk := OpenSection(data, dataPos, ls, len, lastSectionName, lastSectionStart, es, formatOk);
          lastSectionStart := ls;
        } else {
          SplitOther(data, dataPos, lastSectionName, lastSectionStart, es, formatOk);
        }
        dataPos := newDataPos;
      }
      SplitEnd(data, dataPos, lastSectionName, lastSectionStart, es, formatOk);
      es := CommitPending(data, lastSectionName, lastSectionStart, lineStart, es);
    }

    /** The contents of a freshly split group list are the parses of the groups' bytes. */
    lemma CommittedContents(groups: map<seq<Byte>, seq<Byte>>)
      requires Committed(groups)
      ensures Contents() == Parsed(groups)
    {
      forall n | n in sectionsMap
        ensures sectionsMap[n].Values() == Parse(groups[n])
      {
        if groups[n] == [] {
          ParseEmpty();
        }
      }
    }

    /** fuzzyLoad: an existing file that does not open is an access error; a
        non-empty readable file is split into groups, and a malformed header
        is a format error that keeps the groups read. */
    method FuzzyLoad(f: FileState) returns (ok: bool)
      requires Valid()
      modifies this
      ensures Valid()
      ensures ok <==> !(f.present && !f.openable) && !(Loads(f) && !FormatOk(f.bytes))
      ensures status == if f.present && !f.openable then NextStatus(old(status), AccessError)
                        else if Loads(f) && !FormatOk(f.bytes) then NextStatus(old(status), FormatError)
                        else old(status)
      ensures Loads(f) ==> Contents() == Parsed(Groups(f.bytes))
      ensures !Loads(f) ==> Contents() == old(Contents())
    {
      if f.present && !f.openable {
        SetStatus(AccessError);
        return false;
      }
      if f.present && |f.bytes| != 0 {
        var data := f.bytes;
        ok := InitSectionsFromData(data);
        CommittedContents(Groups(data));
        if !ok {
          SetStatus(FormatError);
          return false;
        }
      }
      return true;
    }

    /** A document, loaded from `f` on construction; its status starts clear. */
    constructor (f: FileState)
      ensures Valid()
      ensures status == if f.present && !f.openable then AccessError
                        else if Loads(f) && !FormatOk(f.bytes) then FormatError
                        else NoError
      ensures Contents() == if Loads(f) then Parsed(Groups(f.bytes)) else map[]
    {
      status := NoError;
      sectionsMap := map[];
      new;
      var _ := FuzzyLoad(f);
    }

    /** allGroups: the group names, distinct and in ascending order. */
    method AllGroups() returns (r: seq<seq<Byte>>)
      ensures forall i, j :: 0 <= i < j < |r| ==> Less(r[i], r[j])
      ensures |r| == |sectionsMap.Keys| && (forall n :: n in r <==> n in sectionsMap)
    {
      var rest := sectionsMap.Keys;
      r := [];
      while rest != {}
        invariant rest <= sectionsMap.Keys && |r| + |rest| == |sectionsMap.Keys|
        invariant forall n :: n in sectionsMap ==> (n in r <==> n !in rest)
        invariant forall n :: n in r ==> n in sectionsMap
        invariant forall i, j :: 0 <= i < j < |r| ==> Less(r[i], r[j])
        invariant forall i, n :: 0 <= i < |r| && n in rest ==> Less(r[i], n)
        decreases |rest|
      {
        ghost var least := Least(rest);
        var m :| IsLeast(m, rest);
        assert IsLeast(m, rest);
        assert m in rest;
        forall i, n | 0 <= i < |r| + 1 && n in rest - {m}
          ensures Less((r + [m])[i], n)
        {
          if i == |r| {
            assert n in rest && n != m;
          }
        }
        rest := rest - {m};
        r := r + [m];
      }
    }

    /** value: the key's value in the group, or the default; an empty key or
        group name gives the default. */
    method Value(key: seq<Byte>, section: seq<Byte>, defaultValue: seq<Byte>) returns (r: seq<Byte>)
      requires Valid()
      modifies sectionsMap.Values
      ensures Valid() && sectionsMap == old(sectionsMap) && Contents() == old(Contents())
      ensures r == if key == [] || section == [] then defaultValue else Lookup(old(Contents()), section, key, defaultValue)
    {
      r := defaultValue;
      if key == [] || section == [] {
        return r;
      }
      var _, res := Get(section, key, r);
      r := res;
    }

    /** localizedValue: the value of the first candidate key the group has.
        The process and system locale names are parameters. */
    method LocalizedValue(key: seq<Byte>, localeKey: seq<Byte>, section: seq<Byte>, defaultValue: seq<Byte>,
                          processLocale: seq<Byte>, systemLocale: seq<Byte>) returns (r: seq<Byte>)
      requires Valid()
      modifies sectionsMap.Values
      ensures Valid() && sectionsMap == old(sectionsMap) && Contents() == old(Contents())
      ensures r == if key == [] || section == [] then defaultValue
                   else FirstMatch(old(Contents()), section, Candidates(key, localeKey, processLocale, systemLocale), defaultValue)
    {
      r := defaultValue;
      if key == [] || section == [] {
        return r;
      }
      var possibleKeys := Candidates(key, localeKey, processLocale, systemLocale);
      var i := 0;
      while i < |possibleKeys|
        invariant 0 <= i <= |possibleKeys|
        invariant Valid() && sectionsMap == old(sectionsMap) && Contents() == old(Contents()) && r == defaultValue
        invariant FirstMatch(Contents(), section, possibleKeys[i..], defaultValue) == FirstMatch(Contents(), section, possibleKeys, defaultValue)
      {
        var oneKey := possibleKeys[i];
        var c := Contains(section, oneKey);
        if c {
          var _, res := Get(section, oneKey, r);
          r := res;
          return r;
        }
        i := i + 1;
      }
    }

    /** setValue: writes an existing key; an empty key or group name fails. */
    method SetValue(value: seq<Byte>, key: seq<Byte>, section: seq<Byte>) returns (r: bool)
      requires Valid()
      modifies sectionsMap.Values
      ensures Valid() && sectionsMap == old(sectionsMap)
      ensures r <==> key != [] && section != [] && section in old(Contents()) && key in old(Contents())[section]
      ensures Contents() == if r then old(Contents())[section := old(Contents())[section][key := value]] else old(Contents())
    {
      if key == [] || section == [] {
        return false;
      }
      r := Set(section, key, value);
    }

    /** setLocalizedValue: writes `key[localeKey]`, or `key` for an empty locale. */
    method SetLocalizedValue(value: seq<Byte>, localeKey: seq<Byte>, key: seq<Byte>, section: seq<Byte>) returns (r: bool)
      requires Valid()
      modifies sectionsMap.Values
      ensures Valid() && sectionsMap == old(sectionsMap)
      ensures var actualKey := if localeKey == [] then key else Localized(key, localeKey);
              (r <==> key != [] && section != [] && section in old(Contents()) && actualKey in old(Contents())[section]) &&
              Contents() == if r then old(Contents())[section := old(Contents())[section][actualKey := value]] else old(Contents())
    {
      if key == [] || section == [] {
        return false;
      }
      var actualKey := if localeKey == [] then key else Localized(key, localeKey);
      r := Set(section, actualKey, value);
    }
  }
}
