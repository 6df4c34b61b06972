/** The line reader shared by the section splitter and the section parser
    (qxdg/qxdgdesktopentry.cpp, readLineFromData).

    The reader is specified declaratively by NextLine: skip Space bytes, then
    blank-line terminators and whole-line comments, then run to the first line
    terminator (LF, CR or `#`) that is not inside quotes.  The bytes of a line are
    read in "units": a backslash takes the byte after it along with it, and a
    CR-LF or LF-CR pair after the backslash as a whole. */
module Tokenizer {
  import opened Bytes

  /** What one call of the reader reports: whether a line was found, the new
      cursor, the line's start and length, and the offset of its `=` or -1. */
  datatype LineInfo = LineInfo(found: bool, dataPos: int, lineStart: int, lineLen: int, equalsPos: int)

  predicate IsCrLfPair(a: Byte, b: Byte) {
    (a == LF && b == CR) || (a == CR && b == LF)
  }

  /** The first index at or after `p` whose byte is not a Space byte. */
  function SkipSpaces(data: seq<Byte>, p: nat): (r: nat)
    requires p <= |data|
    decreases |data| - p
    ensures p <= r <= |data| && (r == |data| || !IsSpace(data[r]))
    ensures forall k :: p <= k < r ==> IsSpace(data[k])
  {
    if p < |data| && IsSpace(data[p]) then SkipSpaces(data, p + 1) else p
  }

  /** Where a comment ends: the first LF or CR at or after `p`, or the end of the data. */
  function CommentEnd(data: seq<Byte>, p: nat): (r: nat)
    requires p <= |data|
    decreases |data| - p
    ensures p <= r <= |data| && (r == |data| || data[r] == LF || data[r] == CR)
    ensures forall k :: p <= k < r ==> data[k] != LF && data[k] != CR
  {
    if p < |data| && data[p] != LF && data[p] != CR then CommentEnd(data, p + 1) else p
  }

  /** Where the next line starts, from `p`: a terminator met first is a blank
      line and a `#` met first opens a comment running to the next LF or CR. */
  function LineStartFrom(data: seq<Byte>, p: nat): (r: nat)
    requires p <= |data|
    decreases |data| - p
    ensures p <= r <= |data|
    ensures r == |data| || !IsTerminator(data[r])
  {
    if p == |data| then p
    else if data[p] == LF || data[p] == CR then LineStartFrom(data, p + 1)
    else if data[p] == HASH then LineStartFrom(data, CommentEnd(data, p + 1))
    else p
  }

  /** The end of the unit that starts at `j`. */
  function UnitEnd(data: seq<Byte>, j: nat): (r: nat)
    requires j < |data|
    ensures j < r <= |data|
    ensures data[j] != BACKSLASH ==> r == j + 1
    ensures data[j] == BACKSLASH && j + 1 < |data| ==> j + 2 <= r
  {
    if data[j] != BACKSLASH || j + 1 == |data| then j + 1
    else if j + 2 < |data| && IsCrLfPair(data[j + 1], data[j + 2]) then j + 3
    else j + 2
  }

  /** Reading units from `j` in quote state `inQuotes`: the first unit start that
      is a terminator outside quotes, or the end of the data. */
  function LineEndFrom(data: seq<Byte>, j: nat, inQuotes: bool): (r: nat)
    requires j <= |data|
    decreases |data| - j
    ensures j <= r <= |data|
    ensures r == |data| || IsTerminator(data[r])
  {
    if j == |data| then j
    else if IsTerminator(data[j]) && !inQuotes then j
    else LineEndFrom(data, UnitEnd(data, j), inQuotes != (data[j] == QUOTE))
  }

  /** Reading units from `j` up to `end`: the first unit start holding `=` outside quotes, or -1. */
  function EqualsFrom(data: seq<Byte>, j: nat, end: nat, inQuotes: bool): (r: int)
    requires j <= |data| && end <= |data|
    decreases |data| - j
    ensures r == -1 || (j <= r < end && data[r] == EQUALS)
  {
    if j >= end then -1
    else if data[j] == EQUALS && !inQuotes then j
    else EqualsFrom(data, UnitEnd(data, j), end, inQuotes != (data[j] == QUOTE))
  }

  /** A backslash unit hides the byte after it: that byte neither ends the line
      nor counts as the line's `=`. */
  lemma EscapedByteHidden(data: seq<Byte>, j: nat, end: nat, inQuotes: bool)
    requires j + 1 < |data| && data[j] == BACKSLASH && end <= |data|
    ensures UnitEnd(data, j) >= j + 2
    ensures LineEndFrom(data, j, inQuotes) == LineEndFrom(data, UnitEnd(data, j), inQuotes)
    ensures EqualsFrom(data, j, end, inQuotes) != j + 1
  {
  }

  /** Over bytes with no backslash and no quote, the line's `=` is the first `=`. */
  lemma {:induction false} EqualsFirstPlain(data: seq<Byte>, j: nat, end: nat, k: nat)
    requires j <= k < end <= |data| && data[k] == EQUALS
    requires forall i :: j <= i < k ==> data[i] != BACKSLASH && data[i] != QUOTE && data[i] != EQUALS
    ensures EqualsFrom(data, j, end, false) == k
    decreases k - j
  {
    if j < k {
      EqualsFirstPlain(data, j + 1, end, k);
    }
  }

  /** Over bytes with no backslash and no quote, a line ends at the first LF, CR or `#`. */
  lemma {:induction false} LineEndFirstPlain(data: seq<Byte>, j: nat, k: nat)
    requires j <= k <= |data| && (k == |data| || IsTerminator(data[k]))
    requires forall i :: j <= i < k ==> data[i] != BACKSLASH && data[i] != QUOTE && !IsTerminator(data[i])
    ensures LineEndFrom(data, j, false) == k
    decreases k - j
  {
    if j < k {
      LineEndFirstPlain(data, j + 1, k);
    }
  }

  /** The line the reader returns when called with cursor `pos`. */
  function NextLine(data: seq<Byte>, pos: nat): (r: LineInfo)
    requires pos <= |data|
    ensures pos <= r.lineStart && 0 <= r.lineLen && r.dataPos == r.lineStart + r.lineLen <= |data|
    ensures r.found <==> r.lineLen > 0
    ensures !r.found ==> r.lineStart == r.dataPos == |data|
    ensures r.equalsPos == -1 || (r.lineStart <= r.equalsPos < r.dataPos && data[r.equalsPos] == EQUALS)
    ensures r.found ==> !IsTerminator(data[r.lineStart])
    ensures r.found ==> r.dataPos == |data| || IsTerminator(data[r.dataPos])
  {
    var s := LineStartFrom(data, SkipSpaces(data, pos));
    if s == |data| then LineInfo(false, s, s, 0, -1)
    else
      var e := LineEndFrom(data, s, false);
      LineInfo(true, e, s, e - s, EqualsFrom(data, s, e, false))
  }

  /** The state of the reader's main loop: before the line's first unit is read
      (`lineStart == i`) the line start is still being searched for; after it,
      the line start is fixed and the rest of the line runs from `i` in quote
      state `inQuotes`. */
  ghost predicate Scanning(data: seq<Byte>, s: nat, e: nat, lineStart: nat, i: nat, inQuotes: bool, equalsPos: int)
  {
    lineStart <= i <= |data| && s <= |data| &&
    (s < |data| ==> e == LineEndFrom(data, s, false)) &&
    (lineStart == i ==> !inQuotes && equalsPos == -1 && LineStartFrom(data, lineStart) == s) &&
    (lineStart < i ==>
       lineStart == s && s < |data| && i <= e && LineEndFrom(data, i, inQuotes) == e &&
       (if equalsPos == -1 then EqualsFrom(data, s, e, false) == EqualsFrom(data, i, e, inQuotes)
        else EqualsFrom(data, s, e, false) == equalsPos))
  }

  /** Reading one unit at `i` that does not end the line keeps the loop state. */
  lemma ConsumeUnit(data: seq<Byte>, s: nat, e: nat, lineStart: nat, i: nat, inQuotes: bool, equalsPos: int,
                    i': nat, inQuotes': bool, equalsPos': int)
    requires Scanning(data, s, e, lineStart, i, inQuotes, equalsPos) && i < |data|
    requires !IsTerminator(data[i]) || (lineStart < i && inQuotes)
    requires i' == UnitEnd(data, i) && inQuotes' == (inQuotes != (data[i] == QUOTE))
    requires equalsPos' == if data[i] == EQUALS && !inQuotes && equalsPos == -1 then i else equalsPos
    ensures Scanning(data, s, e, lineStart, i', inQuotes', equalsPos')
  {
    if lineStart == i {
      assert LineStartFrom(data, lineStart) == lineStart;
    }
    assert LineEndFrom(data, i, inQuotes) == LineEndFrom(data, UnitEnd(data, i), inQuotes != (data[i] == QUOTE));
  }

  /** A terminator read as the line's first byte is a blank line. */
  lemma ConsumeBlank(data: seq<Byte>, s: nat, e: nat, lineStart: nat, i: nat, inQuotes: bool, equalsPos: int)
    requires Scanning(data, s, e, lineStart, i, inQuotes, equalsPos) && i < |data|
    requires lineStart == i && (data[i] == LF || data[i] == CR)
    ensures Scanning(data, s, e, lineStart + 1, i + 1, inQuotes, equalsPos)
  {
  }

  /** A `#` read as the line's first byte starts a comment, skipped to its end. */
  lemma ConsumeComment(data: seq<Byte>, s: nat, e: nat, lineStart: nat, i: nat, inQuotes: bool, equalsPos: int)
    requires Scanning(data, s, e, lineStart, i, inQuotes, equalsPos) && i < |data|
    requires lineStart == i && data[i] == HASH
    ensures Scanning(data, s, e, CommentEnd(data, i + 1), CommentEnd(data, i + 1), inQuotes, equalsPos)
  {
  }

  /** When the loop stops, its outputs are those NextLine describes. */
  lemma Finish(data: seq<Byte>, pos: nat, s: nat, e: nat, lineStart: nat, i: nat, inQuotes: bool, equalsPos: int)
    requires pos <= |data| && s == LineStartFrom(data, SkipSpaces(data, pos))
    requires Scanning(data, s, e, lineStart, i, inQuotes, equalsPos)
    requires i == |data| || (lineStart < i && IsTerminator(data[i]) && !inQuotes)
    ensures LineInfo(lineStart < i, i, lineStart, i - lineStart, equalsPos) == NextLine(data, pos)
  {
    if lineStart < i {
      assert LineEndFrom(data, i, inQuotes) == i;
    }
  }

  /** The state of the reader's main loop; `stop` marks the terminator that ends the line. */
  datatype ReadState = ReadState(lineStart: nat, i: nat, inQuotes: bool, equalsPos: int, stop: bool)

  /** One pass of the reader's main loop over the byte at `i`. */
  ghost function Step(data: seq<Byte>, lineStart: nat, i: nat, inQuotes: bool, equalsPos: int): (st: ReadState)
    requires lineStart <= i < |data|
    ensures st.lineStart <= st.i <= |data|
    ensures st.stop || i < st.i
  {
    var ch := data[i];
    if !IsSpecial(ch) then ReadState(lineStart, i + 1, inQuotes, equalsPos, false)
    else if ch == EQUALS then
      ReadState(lineStart, i + 1, inQuotes, if !inQuotes && equalsPos == -1 then i else equalsPos, false)
    else if ch == LF || ch == CR then
      if i == lineStart then ReadState(lineStart + 1, i + 1, inQuotes, equalsPos, false)
      else ReadState(lineStart, if inQuotes then i + 1 else i, inQuotes, equalsPos, !inQuotes)
    else if ch == BACKSLASH then ReadState(lineStart, UnitEnd(data, i), inQuotes, equalsPos, false)
    else if ch == QUOTE then ReadState(lineStart, i + 1, !inQuotes, equalsPos, false)
    else if ch == SEMICOLON then ReadState(lineStart, i + 1, inQuotes, equalsPos, false)
    else if i == lineStart then
      var c := CommentEnd(data, i + 1);
      ReadState(c, c, inQuotes, equalsPos, false)
    else ReadState(lineStart, if inQuotes then i + 1 else i, inQuotes, equalsPos, !inQuotes)
  }

  /** The reader's main loop as a function of its state. */
  ghost function Run(data: seq<Byte>, lineStart: nat, i: nat, inQuotes: bool, equalsPos: int): LineInfo
    requires lineStart <= i <= |data|
    decreases |data| - i
  {
    if i == |data| then LineInfo(lineStart < i, i, lineStart, i - lineStart, equalsPos)
    else
      var st := Step(data, lineStart, i, inQuotes, equalsPos);
      if st.stop then LineInfo(st.lineStart < st.i, st.i, st.lineStart, st.i - st.lineStart, st.equalsPos)
      else Run(data, st.lineStart, st.i, st.inQuotes, st.equalsPos)
  }

  /** One pass of the loop keeps the loop state, or stops on the line NextLine describes. */
  lemma StepMatches(data: seq<Byte>, pos: nat, s: nat, e: nat, lineStart: nat, i: nat, inQuotes: bool, equalsPos: int)
    requires pos <= |data| && s == LineStartFrom(data, SkipSpaces(data, pos))
    requires Scanning(data, s, e, lineStart, i, inQuotes, equalsPos) && i < |data|
    ensures var st := Step(data, lineStart, i, inQuotes, equalsPos);
      if st.stop then LineInfo(st.lineStart < st.i, st.i, st.lineStart, st.i - st.lineStart, st.equalsPos) == NextLine(data, pos)
      else Scanning(data, s, e, st.lineStart, st.i, st.inQuotes, st.equalsPos)
  {
    var ch := data[i];
    var st := Step(data, lineStart, i, inQuotes, equalsPos);
    if (ch == LF || ch == CR) && i == lineStart {
      assert st == ReadState(lineStart + 1, i + 1, inQuotes, equalsPos, false);
      ConsumeBlank(data, s, e, lineStart, i, inQuotes, equalsPos);
    } else if ch == HASH && i == lineStart {
      var c := CommentEnd(data, i + 1);
      assert st == ReadState(c, c, inQuotes, equalsPos, false);
      ConsumeComment(data, s, e, lineStart, i, inQuotes, equalsPos);
    } else if IsTerminator(ch) && !inQuotes {
      assert st == ReadState(lineStart, i, inQuotes, equalsPos, true);
      Finish(data, pos, s, e, lineStart, i, inQuotes, equalsPos);
    } else {
      var eq' := if ch == EQUALS && !inQuotes && equalsPos == -1 then i else equalsPos;
      assert st == ReadState(lineStart, UnitEnd(data, i), inQuotes != (ch == QUOTE), eq', false);
      ConsumeUnit(data, s, e, lineStart, i, inQuotes, equalsPos, UnitEnd(data, i), inQuotes != (ch == QUOTE), eq');
    }
  }

  /** The loop, started in a state the reader can reach, returns the line NextLine describes. */
  lemma {:induction false} RunMatches(data: seq<Byte>, pos: nat, s: nat, e: nat, lineStart: nat, i: nat, inQuotes: bool, equalsPos: int)
    requires pos <= |data| && s == LineStartFrom(data, SkipSpaces(data, pos))
    requires Scanning(data, s, e, lineStart, i, inQuotes, equalsPos)
    ensures Run(data, lineStart, i, inQuotes, equalsPos) == NextLine(data, pos)
    decreases |data| - i
  {
    if i == |data| {
      Finish(data, pos, s, e, lineStart, i, inQuotes, equalsPos);
    } else {
      var st := Step(data, lineStart, i, inQuotes, equalsPos);
      StepMatches(data, pos, s, e, lineStart, i, inQuotes, equalsPos);
      if !st.stop {
        RunMatches(data, pos, s, e, st.lineStart, st.i, st.inQuotes, st.equalsPos);
      }
    }
  }

  /** From the cursor after the Space bytes, the loop returns NextLine. */
  lemma RunFromStart(data: seq<Byte>, pos: nat)
    requires pos <= |data|
    ensures Run(data, SkipSpaces(data, pos), SkipSpaces(data, pos), false, -1) == NextLine(data, pos)
  {
    var p := SkipSpaces(data, pos);
    var s := LineStartFrom(data, p);
    var e := if s < |data| then LineEndFrom(data, s, false) else 0;
    RunMatches(data, pos, s, e, p, p, false, -1);
  }

  /** The reader's inner loop over bytes that are not Special; those bytes leave
      the loop state as it is. */
  method SkipPlain(data: seq<Byte>, from: nat, ghost lineStart: nat, ghost inQuotes: bool, ghost equalsPos: int)
    returns (i: nat)
    requires lineStart <= from <= |data|
    ensures from <= i <= |data| && (i == |data| || IsSpecial(data[i]))
    ensures forall k :: from <= k < i ==> !IsSpecial(data[k])
    ensures Run(data, lineStart, i, inQuotes, equalsPos) == Run(data, lineStart, from, inQuotes, equalsPos)
  {
    i := from;
    while i < |data| && !IsSpecial(data[i])
      invariant from <= i <= |data|
      invariant forall k :: from <= k < i ==> !IsSpecial(data[k])
      invariant Run(data, lineStart, i, inQuotes, equalsPos) == Run(data, lineStart, from, inQuotes, equalsPos)
    {
      i := i + 1;
    }
  }

  /** The comment loop of the reader: runs to the next LF or CR. */
  method SkipComment(data: seq<Byte>, from: nat) returns (i: nat)
    requires from <= |data|
    ensures i == CommentEnd(data, from)
  {
    i := from;
    while i < |data| && data[i] != LF && data[i] != CR
      invariant from <= i <= |data|
      invariant CommentEnd(data, i) == CommentEnd(data, from)
    {
      i := i + 1;
    }
  }

  /** The backslash branch of the reader: the byte after a backslash is taken
      along, and so is a CR-LF or LF-CR partner after it. */
  method SkipEscaped(data: seq<Byte>, i0: nat) returns (i: nat)
    requires 0 < i0 <= |data| && data[i0 - 1] == BACKSLASH
    ensures i == UnitEnd(data, i0 - 1)
  {
    i := i0;
    if i < |data| {
      var ch1 := data[i];
      i := i + 1;
      if i < |data| {
        var ch2 := data[i];
        if (ch1 == LF && ch2 == CR) || (ch1 == CR && ch2 == LF) {
          i := i + 1;
        }
      }
    }
  }

  /** One pass of the reader's main loop over the Special byte at `i`; `stop`
      reports that it is the terminator ending the line, with `i` left on it. */
  method ReadSpecial(data: seq<Byte>, lineStart0: nat, i0: nat, inQuotes0: bool, equalsPos0: int)
    returns (lineStart: nat, i: nat, inQuotes: bool, equalsPos: int, stop: bool)
    requires lineStart0 <= i0 < |data| && IsSpecial(data[i0])
    ensures ReadState(lineStart, i, inQuotes, equalsPos, stop) == Step(data, lineStart0, i0, inQuotes0, equalsPos0)
  {
    lineStart, i, inQuotes, equalsPos, stop := lineStart0, i0, inQuotes0, equalsPos0, false;
    var dataLen := |data|;
    var ch := data[i];
    i := i + 1;
    if ch == EQUALS {
      if !inQuotes && equalsPos == -1 {
        equalsPos := i - 1;
      }
    } else if ch == LF || ch == CR {
      if i == lineStart + 1 {
        lineStart := lineStart + 1;
      } else if !inQuotes {
        i := i - 1;
        stop := true;
      }
    } else if ch == BACKSLASH {
      i := SkipEscaped(data, i);
    } else if ch == QUOTE {
      inQuotes := !inQuotes;
    } else if ch == SEMICOLON {
      // multiple values are separated by semicolons; nothing to do at this level
    } else {
      assert ch == HASH;
      if i == lineStart + 1 {
        i := SkipComment(data, i);
        lineStart := i;
      } else if !inQuotes {
        i := i - 1;
        stop := true;
      }
    }
  }

  /** readLineFromData: the cursor `dataPos` is passed in and the new cursor is
      returned; the two breaks stand for the source's goto. */
  method ReadLineFromData(data: seq<Byte>, dataPos: nat)
    returns (found: bool, newDataPos: nat, lineStart: nat, lineLen: nat, equalsPos: int)
    requires dataPos <= |data|
    ensures LineInfo(found, newDataPos, lineStart, lineLen, equalsPos) == NextLine(data, dataPos)
  {
    var dataLen := |data|;
    var inQuotes := false;
    equalsPos := -1;

    lineStart := dataPos;
    while lineStart < dataLen && IsSpace(data[lineStart])
      invariant dataPos <= lineStart <= dataLen
      invariant SkipSpaces(data, lineStart) == SkipSpaces(data, dataPos)
    {
      lineStart := lineStart + 1;
    }

    RunFromStart(data, dataPos);
    ghost var r := Run(data, lineStart, lineStart, false, -1);
    var i := lineStart;
    while i < dataLen
      invariant lineStart <= i <= dataLen
      invariant Run(data, lineStart, i, inQuotes, equalsPos) == r
    {
      i := SkipPlain(data, i, lineStart, inQuotes, equalsPos);
      if i == dataLen {
        break;
      }
      var stop;
      lineStart, i, inQuotes, equalsPos, stop := ReadSpecial(data, lineStart, i, inQuotes, equalsPos);
      if stop {
        break;
      }
    }

    newDataPos := i;
    lineLen := i - lineStart;
    found := lineLen > 0;
  }
}
