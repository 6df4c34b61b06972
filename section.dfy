/** One `[Group]` of a desktop entry file (qxdg/qxdgdesktopentry.cpp,
    QXdgDesktopEntrySection): the raw bytes of the group are kept until the
    first lookup and then parsed, once, into a key/value map. */
module SectionStore {
  import opened Bytes
  import opened Tokenizer

  /** One `key=value` assignment read from a line. */
  datatype Entry = Entry(key: seq<Byte>, value: seq<Byte>)

  /** A line as NextLine reports it and as its bounds promise. */
  predicate IsLine(data: seq<Byte>, li: LineInfo)
  {
    li.found && 0 <= li.lineStart < li.lineStart + li.lineLen <= |data| &&
    (li.equalsPos == -1 || li.lineStart <= li.equalsPos < li.lineStart + li.lineLen)
  }

  /** The assignment of the line `data[lineStart..lineStart + lineLen]` whose `=` is at
      `equalsPos`: the trimmed bytes before and after it. */
  function LineEntry(data: seq<Byte>, lineStart: nat, lineLen: nat, equalsPos: nat): Entry
    requires lineStart <= equalsPos < lineStart + lineLen <= |data|
  {
    Entry(Trim(data[lineStart..equalsPos]), Trim(data[equalsPos + 1..lineStart + lineLen]))
  }

  /** What one line assigns: nothing for a `[` line or a line without `=`;
      otherwise the trimmed bytes before and after its `=`. */
  function LineEntries(data: seq<Byte>, li: LineInfo): (r: seq<Entry>)
    requires IsLine(data, li)
    ensures |r| <= 1
    ensures r == [] <==> data[li.lineStart] == LBRACKET || li.equalsPos == -1
  {
    if data[li.lineStart] == LBRACKET || li.equalsPos == -1 then []
    else [LineEntry(data, li.lineStart, li.lineLen, li.equalsPos)]
  }

  /** The assignments of the lines the reader returns from `pos` on, in order. */
  function EntriesFrom(data: seq<Byte>, pos: nat): seq<Entry>
    requires pos <= |data|
    decreases |data| - pos
  {
    var li := NextLine(data, pos);
    if !li.found then [] else LineEntries(data, li) + EntriesFrom(data, li.dataPos)
  }

  /** Applies the assignments in order to the map `m`. */
  function Assign(m: map<seq<Byte>, seq<Byte>>, es: seq<Entry>): map<seq<Byte>, seq<Byte>>
    decreases |es|
  {
    if es == [] then m else Assign(m[es[0].key := es[0].value], es[1..])
  }

  /** The key/value map of a group's raw bytes. */
  function Parse(data: seq<Byte>): map<seq<Byte>, seq<Byte>>
  {
    Assign(map[], EntriesFrom(data, 0))
  }

  /** Empty bytes hold no values. */
  lemma ParseEmpty()
    ensures Parse([]) == map[]
  {
    assert !NextLine([], 0).found;
  }

  lemma AssignSingle(m: map<seq<Byte>, seq<Byte>>, e: Entry)
    ensures Assign(m, [e]) == m[e.key := e.value]
  {
    assert [e][1..] == [];
  }

  lemma {:induction false} AssignConcat(m: map<seq<Byte>, seq<Byte>>, a: seq<Entry>, b: seq<Entry>)
    ensures Assign(m, a + b) == Assign(Assign(m, a), b)
    decreases |a|
  {
    if a == [] {
      assert a + b == b;
    } else {
      assert (a + b)[0] == a[0] && (a + b)[1..] == a[1..] + b;
      AssignConcat(m[a[0].key := a[0].value], a[1..], b);
    }
  }

  /** A key is in the result exactly when it is in `m` or some assignment writes it. */
  lemma {:induction false} AssignKeys(m: map<seq<Byte>, seq<Byte>>, es: seq<Entry>, k: seq<Byte>)
    ensures k in Assign(m, es) <==> k in m || exists i :: 0 <= i < |es| && es[i].key == k
    decreases |es|
  {
    if es != [] {
      AssignKeys(m[es[0].key := es[0].value], es[1..], k);
      if exists i :: 0 <= i < |es[1..]| && es[1..][i].key == k {
        var i :| 0 <= i < |es[1..]| && es[1..][i].key == k;
        assert es[i + 1].key == k;
      }
      if exists i :: 0 <= i < |es| && es[i].key == k && i > 0 {
        var i :| 0 <= i < |es| && es[i].key == k && i > 0;
        assert es[1..][i - 1].key == k;
      }
    }
  }

  /** The index of the last assignment to `k`, or -1. */
  function LastIndex(es: seq<Entry>, k: seq<Byte>): (r: int)
    ensures -1 <= r < |es|
    ensures r >= 0 ==> es[r].key == k
    ensures forall j :: r < j < |es| ==> es[j].key != k
  {
    if es == [] then -1
    else if es[|es| - 1].key == k then |es| - 1
    else LastIndex(es[..|es| - 1], k)
  }

  lemma {:induction false} LastIndexTail(es: seq<Entry>, k: seq<Byte>)
    requires es != []
    ensures LastIndex(es[1..], k) >= 0 ==> LastIndex(es, k) == LastIndex(es[1..], k) + 1
    ensures LastIndex(es[1..], k) < 0 ==> LastIndex(es, k) == (if es[0].key == k then 0 else -1)
  {
    var r := LastIndex(es, k);
    var t := LastIndex(es[1..], k);
    if t >= 0 {
      assert es[t + 1] == es[1..][t];
      assert forall j :: t + 1 < j < |es| ==> es[j] == es[1..][j - 1];
    } else {
      assert forall j :: 0 < j < |es| ==> es[j] == es[1..][j - 1];
    }
  }

  /** The last assignment to a key wins; a key never assigned keeps its value in `m`. */
  lemma {:induction false} AssignLastWins(m: map<seq<Byte>, seq<Byte>>, es: seq<Entry>, k: seq<Byte>)
    ensures LastIndex(es, k) >= 0 ==> k in Assign(m, es) && Assign(m, es)[k] == es[LastIndex(es, k)].value
    ensures LastIndex(es, k) < 0 ==> (k in Assign(m, es) <==> k in m) && (k in m ==> Assign(m, es)[k] == m[k])
    decreases |es|
  {
    if es != [] {
      AssignLastWins(m[es[0].key := es[0].value], es[1..], k);
      LastIndexTail(es, k);
      if LastIndex(es[1..], k) >= 0 {
        assert es[1..][LastIndex(es[1..], k)] == es[LastIndex(es, k)];
      }
    }
  }

  /** One pass of the parse loop: the line at `pos` turns `m` into `m'`, and what the
      remaining lines assign to `m'` is what the lines from `pos` on assign to `m`. */
  lemma ParseStep(data: seq<Byte>, pos: nat, newPos: nat, lineStart: nat, lineLen: nat, equalsPos: int,
                  m: map<seq<Byte>, seq<Byte>>, m': map<seq<Byte>, seq<Byte>>)
    requires pos <= |data| && NextLine(data, pos) == LineInfo(true, newPos, lineStart, lineLen, equalsPos)
    requires m' == if data[lineStart] == LBRACKET || equalsPos == -1 then m
                   else m[LineEntry(data, lineStart, lineLen, equalsPos).key := LineEntry(data, lineStart, lineLen, equalsPos).value]
    ensures Assign(m', EntriesFrom(data, newPos)) == Assign(m, EntriesFrom(data, pos))
  {
    var li := LineInfo(true, newPos, lineStart, lineLen, equalsPos);
    var es := LineEntries(data, li);
    var rest := EntriesFrom(data, newPos);
    assert EntriesFrom(data, pos) == es + rest;
    AssignConcat(m, es, rest);
    if es != [] {
      AssignSingle(m, LineEntry(data, lineStart, lineLen, equalsPos));
    } else {
      assert Assign(m, es) == m;
    }
  }

  /** A group of the file: its name, the parsed values and, until the first
      lookup, the raw bytes the values are parsed from. */
  class Section {
    var name: seq<Byte>
    var valuesMap: map<seq<Byte>, seq<Byte>>
    var unparsedDatas: seq<Byte>

    /** The values the group holds: the parsed map once the raw bytes are gone,
        and before that the map the raw bytes parse to. */
    ghost function Values(): map<seq<Byte>, seq<Byte>>
      reads this
    {
      if unparsedDatas == [] then valuesMap else Parse(unparsedDatas)
    }

    /** A group committed by the splitter: a name and its raw bytes. */
    constructor (name: seq<Byte>, raw: seq<Byte>)
      ensures this.name == name && valuesMap == map[] && unparsedDatas == raw
    {
      this.name := name;
      valuesMap := map[];
      unparsedDatas := raw;
    }

    /** The value copy a `QMap` hands out from a const lookup. */
    method Copy() returns (c: Section)
      ensures fresh(c)
      ensures c.name == name && c.valuesMap == valuesMap && c.unparsedDatas == unparsedDatas
    {
      c := new Section(name, unparsedDatas);
      c.valuesMap := valuesMap;
    }

    /** ensureSectionDataParsed: parses the raw bytes, if any are left, and drops them. */
    method EnsureSectionDataParsed() returns (ok: bool)
      modifies this
      ensures ok
      ensures valuesMap == old(Values()) && unparsedDatas == [] && name == old(name)
    {
      if unparsedDatas == [] {
        return true;
      }
      var data := unparsedDatas;
      valuesMap := map[];
      var dataPos: nat := 0;
      while true
        invariant dataPos <= |data| && data == unparsedDatas && name == old(name)
        invariant Assign(valuesMap, EntriesFrom(data, dataPos)) == Parse(data)
        decreases |data| - dataPos
      {
        var found, newDataPos, lineStart, lineLen, equalsPos := ReadLineFromData(data, dataPos);
        if !found {
          break;
        }
        ghost var before := valuesMap;
        ghost var pos := dataPos;
        dataPos := newDataPos;
        // a `[` line is the group's own header and assigns nothing
        if data[lineStart] != LBRACKET && equalsPos != -1 {
          var e := LineEntry(data, lineStart, lineLen, equalsPos);
          valuesMap := valuesMap[e.key := e.value];
        }
        ParseStep(data, pos, newDataPos, lineStart, lineLen, equalsPos, before, valuesMap);
      }
      unparsedDatas := [];
      return true;
    }

    method Contains(key: seq<Byte>) returns (r: bool)
      modifies this
      ensures r <==> key in old(Values())
      ensures valuesMap == old(Values()) && unparsedDatas == [] && name == old(name)
    {
      var _ := EnsureSectionDataParsed();
      r := key in valuesMap;
    }

    /** The value of `key`, or `defaultValue` when the group has no such key. */
    method Get(key: seq<Byte>, defaultValue: seq<Byte>) returns (r: seq<Byte>)
      modifies this
      ensures r == if key in old(Values()) then old(Values())[key] else defaultValue
      ensures valuesMap == old(Values()) && unparsedDatas == [] && name == old(name)
    {
      var c := Contains(key);
      if c {
        r := valuesMap[key];
      } else {
        r := defaultValue;
      }
    }

    /** Writes `key`, replacing any earlier value; it always succeeds. */
    method Set(key: seq<Byte>, value: seq<Byte>) returns (r: bool)
      modifies this
      ensures r
      ensures valuesMap == old(Values())[key := value] && unparsedDatas == [] && name == old(name)
    {
      var c := Contains(key);
      if c {
        valuesMap := valuesMap - {key};
      }
      valuesMap := valuesMap[key := value];
      return true;
    }
  }
}
