/** Splitting a desktop entry file into its groups (qxdg/qxdgdesktopentry.cpp,
    initSectionsFromData), stated over the list of the file's header lines. */
module Splitter {
  import opened Bytes
  import opened Strings
  import opened Tokenizer
  import opened SectionStore

  /** A `[...]` line: where it starts, the group name it gives, and whether a
      `]` closes it inside the line. */
  datatype Header = Header(start: nat, name: seq<Byte>, wellFormed: bool)

  /** The header a `[` line gives: the trimmed bytes between `[` and the first
      `]`, or, when the line has no `]`, the trimmed rest of the line. */
  function HeaderOf(data: seq<Byte>, ls: nat, len: nat): (h: Header)
    requires ls < ls + len <= |data| && data[ls] == LBRACKET
    ensures h.start == ls
  {
    var idx := IndexOf(data, RBRACKET, ls);
    if idx == -1 || idx >= ls + len then Header(ls, Trim(data[ls + 1..ls + len]), false)
    else Header(ls, Trim(data[ls + 1..idx]), true)
  }

  /** A header is well formed exactly when its line holds a `]`; its name is the
      trimmed text between the `[` and the first `]`, or after the `[` when there is none. */
  lemma HeaderName(data: seq<Byte>, ls: nat, len: nat)
    requires ls < ls + len <= |data| && data[ls] == LBRACKET
    ensures var h := HeaderOf(data, ls, len);
            h.wellFormed <==> exists k :: ls < k < ls + len && data[k] == RBRACKET
    ensures var h := HeaderOf(data, ls, len);
            h.wellFormed ==> exists idx :: ls < idx < ls + len && data[idx] == RBRACKET &&
                                          (forall k :: ls <= k < idx ==> data[k] != RBRACKET) &&
                                          h.name == Trim(data[ls + 1..idx])
    ensures var h := HeaderOf(data, ls, len);
            !h.wellFormed ==> h.name == Trim(data[ls + 1..ls + len])
  {
    var idx := IndexOf(data, RBRACKET, ls);
    if idx != -1 && idx < ls + len {
      assert ls < idx;
    }
  }

  /** Headers in strictly ascending order of start, all at or after `from`. */
  predicate Ordered(data: seq<Byte>, hs: seq<Header>, from: nat)
    decreases |hs|
  {
    hs == [] || (from <= hs[0].start < |data| && Ordered(data, hs[1..], hs[0].start + 1))
  }

  /** Every header starts inside the data, on a `[`. */
  predicate Brackets(data: seq<Byte>, hs: seq<Header>)
  {
    forall i :: 0 <= i < |hs| ==> hs[i].start < |data| && data[hs[i].start] == LBRACKET
  }

  lemma {:induction false} OrderedAt(data: seq<Byte>, hs: seq<Header>, from: nat, j: nat)
    requires Ordered(data, hs, from) && j < |hs|
    ensures from <= hs[j].start < |data|
    ensures j + 1 < |hs| ==> hs[j].start < hs[j + 1].start
    decreases j
  {
    if j > 0 {
      OrderedAt(data, hs[1..], hs[0].start + 1, j - 1);
      assert hs[1..][j - 1] == hs[j];
      if j + 1 < |hs| {
        assert hs[1..][j] == hs[j + 1];
      }
    } else if 1 < |hs| {
      assert hs[1..][0] == hs[1];
    }
  }

  /** The header lines the reader returns from `pos` on. */
  function HeadersFrom(data: seq<Byte>, pos: nat): (hs: seq<Header>)
    requires pos <= |data|
    decreases |data| - pos
    ensures Ordered(data, hs, pos) && Brackets(data, hs)
  {
    var li := NextLine(data, pos);
    if !li.found then []
    else
      var rest := HeadersFrom(data, li.dataPos);
      if data[li.lineStart] == LBRACKET then
        var h := HeaderOf(data, li.lineStart, li.lineLen);
        OrderedCons(data, h, rest, pos, li.dataPos);
        [h] + rest
      else rest
  }

  lemma OrderedWeaken(data: seq<Byte>, hs: seq<Header>, a: nat, b: nat)
    requires a <= b && Ordered(data, hs, b)
    ensures Ordered(data, hs, a)
  {
  }

  lemma OrderedCons(data: seq<Byte>, h: Header, rest: seq<Header>, from: nat, next: nat)
    requires from <= h.start < next && Ordered(data, rest, next)
    requires h.start < |data|
    ensures Ordered(data, [h] + rest, from)
  {
    assert ([h] + rest)[1..] == rest;
  }

  /** Where the group opened by header `j` ends: at the next header, or at the end of the data. */
  function End(data: seq<Byte>, hs: seq<Header>, j: nat): (e: nat)
    requires j < |hs| && Ordered(data, hs, 0)
    ensures hs[j].start < e <= |data|
  {
    OrderedAt(data, hs, 0, j);
    if j + 1 < |hs| then OrderedAt(data, hs, 0, j + 1); hs[j + 1].start else |data|
  }

  /** The groups committed, in order, when the pending group is `pending`
      (its name; empty for none) starting at `pendingStart`, and the headers `hs`
      are still to come. A group with an empty name is never committed. */
  function GroupEntries(data: seq<Byte>, pending: seq<Byte>, pendingStart: nat, hs: seq<Header>): seq<Entry>
    requires pendingStart <= |data| && Ordered(data, hs, pendingStart)
    decreases |hs|
  {
    var stop := if hs == [] then |data| else hs[0].start;
    var first := if pending != [] then [Entry(pending, data[pendingStart..stop])] else [];
    if hs == [] then first
    else
      OrderedWeaken(data, hs[1..], hs[0].start, hs[0].start + 1);
      first + GroupEntries(data, hs[0].name, hs[0].start, hs[1..])
  }

  /** The group map of a file: name to raw bytes, header line included. */
  function Groups(data: seq<Byte>): map<seq<Byte>, seq<Byte>>
  {
    Assign(map[], GroupEntries(data, [], 0, HeadersFrom(data, 0)))
  }

  /** Every header closes with a `]` inside its line. */
  predicate WellFormed(hs: seq<Header>)
    decreases |hs|
  {
    hs == [] || (hs[0].wellFormed && WellFormed(hs[1..]))
  }

  /** The splitter's verdict on a file: false exactly when some header has no `]`. */
  predicate FormatOk(data: seq<Byte>)
  {
    WellFormed(HeadersFrom(data, 0))
  }

  /** The index of the last header named `k`, or -1. */
  function LastHeader(hs: seq<Header>, k: seq<Byte>): (r: int)
    ensures -1 <= r < |hs|
    ensures r >= 0 ==> hs[r].name == k
    ensures forall j :: r < j < |hs| ==> hs[j].name != k
  {
    if hs == [] then -1
    else if hs[|hs| - 1].name == k then |hs| - 1
    else LastHeader(hs[..|hs| - 1], k)
  }

  lemma {:induction false} LastHeaderTail(hs: seq<Header>, k: seq<Byte>)
    requires hs != []
    ensures LastHeader(hs[1..], k) >= 0 ==> LastHeader(hs, k) == LastHeader(hs[1..], k) + 1
    ensures LastHeader(hs[1..], k) < 0 ==> LastHeader(hs, k) == (if hs[0].name == k then 0 else -1)
  {
    var t := LastHeader(hs[1..], k);
    if t >= 0 {
      assert hs[t + 1] == hs[1..][t];
      assert forall j :: t + 1 < j < |hs| ==> hs[j] == hs[1..][j - 1];
    } else {
      assert forall j :: 0 < j < |hs| ==> hs[j] == hs[1..][j - 1];
    }
  }

  /** What committing the groups does to key `k` of a map `m`: the last header
      named `k` gives its bytes; failing that, the pending group does; failing
      that, `m` is kept. */
  lemma {:induction false} GroupEntriesValue(data: seq<Byte>, m: map<seq<Byte>, seq<Byte>>, pending: seq<Byte>,
                                             pendingStart: nat, hs: seq<Header>, k: seq<Byte>)
    requires pendingStart <= |data| && Ordered(data, hs, pendingStart) && Ordered(data, hs, 0) && k != []
    requires hs != [] ==> pendingStart <= hs[0].start
    ensures var r := Assign(m, GroupEntries(data, pending, pendingStart, hs));
            var j := LastHeader(hs, k);
            if j >= 0 then
              var e := End(data, hs, j);
              k in r && r[k] == data[hs[j].start..e]
            else if k == pending then
              k in r && r[k] == data[pendingStart..if hs == [] then |data| else hs[0].start]
            else
              (k in r <==> k in m) && (k in m ==> r[k] == m[k])
    decreases |hs|
  {
    var stop := if hs == [] then |data| else hs[0].start;
    var first := if pending != [] then [Entry(pending, data[pendingStart..stop])] else [];
    var m' := Assign(m, first);
    if pending != [] {
      AssignSingle(m, Entry(pending, data[pendingStart..stop]));
    }
    if hs != [] {
      var rest := GroupEntries(data, hs[0].name, hs[0].start, hs[1..]);
      assert GroupEntries(data, pending, pendingStart, hs) == first + rest;
      AssignConcat(m, first, rest);
      OrderedWeaken(data, hs[1..], hs[0].start, hs[0].start + 1);
      OrderedWeaken(data, hs[1..], 0, hs[0].start + 1);
      GroupEntriesValue(data, m', hs[0].name, hs[0].start, hs[1..], k);
      LastHeaderTail(hs, k);
      var t := LastHeader(hs[1..], k);
      if t >= 0 {
        assert hs[1..][t] == hs[t + 1];
        assert End(data, hs[1..], t) == End(data, hs, t + 1);
      } else if hs[0].name == k {
        assert End(data, hs, 0) == if hs[1..] == [] then |data| else hs[1..][0].start;
      }
    }
  }

  /** Entries with non-empty names whose bytes start with `[`. */
  predicate Shaped(es: seq<Entry>)
  {
    forall i :: 0 <= i < |es| ==> es[i].key != [] && es[i].value != [] && es[i].value[0] == LBRACKET
  }

  /** The committed groups all have non-empty names, and each group's bytes
      start with its own header line's `[`. */
  lemma {:induction false} GroupEntriesShape(data: seq<Byte>, pending: seq<Byte>, pendingStart: nat, hs: seq<Header>)
    requires pendingStart <= |data| && Ordered(data, hs, pendingStart) && Brackets(data, hs)
    requires pending != [] ==> pendingStart < |data| && data[pendingStart] == LBRACKET && (hs == [] || pendingStart < hs[0].start)
    ensures Shaped(GroupEntries(data, pending, pendingStart, hs))
    decreases |hs|
  {
    var stop := if hs == [] then |data| else hs[0].start;
    var first := if pending != [] then [Entry(pending, data[pendingStart..stop])] else [];
    if hs != [] {
      var tl := hs[1..];
      assert Brackets(data, tl) by {
        assert forall i :: 0 <= i < |tl| ==> tl[i] == hs[i + 1];
      }
      assert Ordered(data, tl, hs[0].start + 1);
      OrderedWeaken(data, tl, hs[0].start, hs[0].start + 1);
      assert hs[0].start < |data| && data[hs[0].start] == LBRACKET;
      GroupEntriesShape(data, hs[0].name, hs[0].start, tl);
      var rest := GroupEntries(data, hs[0].name, hs[0].start, tl);
      var es := GroupEntries(data, pending, pendingStart, hs);
      assert es == first + rest;
      if pending != [] {
        assert first[0].value == data[pendingStart..hs[0].start];
        assert first[0].value[0] == LBRACKET;
      }
      assert forall i :: 0 <= i < |first| ==> es[i] == first[i];
      assert forall i :: |first| <= i < |es| ==> es[i] == rest[i - |first|];
    }
  }

  /** The group map has one entry per distinct non-empty header name: the
      bytes from the last header of that name up to the next header. */
  lemma GroupsByLastHeader(data: seq<Byte>, k: seq<Byte>)
    ensures var hs := HeadersFrom(data, 0);
            var j := LastHeader(hs, k);
            (k in Groups(data) <==> k != [] && j >= 0) &&
            (k in Groups(data) ==> Ordered(data, hs, 0) && var e := End(data, hs, j); Groups(data)[k] == data[hs[j].start..e])
  {
    var hs := HeadersFrom(data, 0);
    if k != [] {
      GroupEntriesValue(data, map[], [], 0, hs, k);
    } else {
      GroupEntriesShape(data, [], 0, hs);
      AssignKeys(map[], GroupEntries(data, [], 0, hs), k);
    }
  }

  /** The splitter's loop state at cursor `pos`: the groups `es` committed so
      far, followed by those the pending group and the headers still to come
      commit, are the file's groups; and `formatOk` accounts for the headers read. */
  ghost predicate Splitting(data: seq<Byte>, pos: nat, pending: seq<Byte>, pendingStart: nat, es: seq<Entry>, formatOk: bool)
  {
    pos <= |data| && pendingStart <= pos &&
    Ordered(data, HeadersFrom(data, pos), pendingStart) &&
    es + GroupEntries(data, pending, pendingStart, HeadersFrom(data, pos)) == GroupEntries(data, [], 0, HeadersFrom(data, 0)) &&
    (formatOk && WellFormed(HeadersFrom(data, pos))) == FormatOk(data)
  }

  lemma SplitStart(data: seq<Byte>)
    ensures Splitting(data, 0, [], 0, [], true)
  {
  }

  lemma ConcatAssoc(a: seq<Entry>, b: seq<Entry>, c: seq<Entry>)
    ensures a + (b + c) == (a + b) + c
  {
  }

  /** A line that is not a header changes nothing. */
  lemma SplitOther(data: seq<Byte>, pos: nat, pending: seq<Byte>, pendingStart: nat, es: seq<Entry>, formatOk: bool)
    requires Splitting(data, pos, pending, pendingStart, es, formatOk)
    requires NextLine(data, pos).found && data[NextLine(data, pos).lineStart] != LBRACKET
    ensures Splitting(data, NextLine(data, pos).dataPos, pending, pendingStart, es, formatOk)
  {
    var li := NextLine(data, pos);
    OrderedWeaken(data, HeadersFrom(data, li.dataPos), pendingStart, li.dataPos);
  }

  /** A header line commits the pending group, if it has a name, and opens a new one. */
  lemma SplitHeader(data: seq<Byte>, pos: nat, pending: seq<Byte>, pendingStart: nat, es: seq<Entry>, formatOk: bool,
                    es': seq<Entry>, name': seq<Byte>, formatOk': bool)
    requires Splitting(data, pos, pending, pendingStart, es, formatOk)
    requires NextLine(data, pos).found && data[NextLine(data, pos).lineStart] == LBRACKET
    requires var li := NextLine(data, pos);
             var h := HeaderOf(data, li.lineStart, li.lineLen);
             pendingStart <= li.lineStart &&
             es' == (if pending != [] then es + [Entry(pending, data[pendingStart..li.lineStart])] else es) &&
             name' == h.name && formatOk' == (formatOk && h.wellFormed)
    ensures Splitting(data, NextLine(data, pos).dataPos, name', NextLine(data, pos).lineStart, es', formatOk')
  {
    var li := NextLine(data, pos);
    var h := HeaderOf(data, li.lineStart, li.lineLen);
    var rest := HeadersFrom(data, li.dataPos);
    var hs := HeadersFrom(data, pos);
    assert hs == [h] + rest;
    assert hs[0] == h && hs[1..] == rest;
    OrderedWeaken(data, rest, li.lineStart, li.dataPos);
    var first := if pending != [] then [Entry(pending, data[pendingStart..li.lineStart])] else [];
    var g := GroupEntries(data, h.name, h.start, rest);
    assert GroupEntries(data, pending, pendingStart, hs) == first + g;
    ConcatAssoc(es, first, g);
    assert es' == es + first;
  }

  /** At the end of the data, committing the pending group completes the list. */
  lemma SplitEnd(data: seq<Byte>, pos: nat, pending: seq<Byte>, pendingStart: nat, es: seq<Entry>, formatOk: bool)
    requires Splitting(data, pos, pending, pendingStart, es, formatOk)
    requires !NextLine(data, pos).found
    ensures pendingStart <= |data|
    ensures (if pending != [] then es + [Entry(pending, data[pendingStart..|data|])] else es) == GroupEntries(data, [], 0, HeadersFrom(data, 0))
    ensures formatOk == FormatOk(data)
  {
    if pending == [] {
      assert es + [] == es;
    }
  }
}
