/** The escape codec of qxdg/qxdgdesktopentry.cpp: doEscape and doUnescape,
    table-driven substitution passes over a string, and the four public
    wrappers escape, escapeExec, unescape and unescapeExec. */
module EscapeCodec {
  import opened Strings

  /** One entry of a replacement table: `from` is written as, or read back
      from, a backslash followed by `to`. */
  datatype Repl = Repl(from: char, to: char)

  /** The first entry of `t` whose key is `c`, or -1: QHash::contains and QHash::value. */
  function Find(t: seq<Repl>, c: char): (r: int)
    ensures -1 <= r < |t|
    ensures r >= 0 ==> t[r].from == c
    ensures forall j :: 0 <= j < |t| && (r == -1 || j < r) ==> t[j].from != c
  {
    if t == [] then -1
    else if t[0].from == c then 0
    else var r := Find(t[1..], c); if r == -1 then -1 else r + 1
  }

  lemma {:induction false} FindAppend(t: seq<Repl>, e: Repl, c: char)
    ensures Find(t + [e], c) == if Find(t, c) >= 0 then Find(t, c) else if e.from == c then |t| else -1
    decreases |t|
  {
    if t != [] && t[0].from != c {
      assert (t + [e])[0] == t[0] && (t + [e])[1..] == t[1..] + [e];
      FindAppend(t[1..], e, c);
    }
  }

  /** A lookup in two tables one after the other. */
  lemma {:induction false} FindConcat(a: seq<Repl>, b: seq<Repl>, c: char)
    ensures Find(a + b, c) == if Find(a, c) >= 0 then Find(a, c) else if Find(b, c) >= 0 then |a| + Find(b, c) else -1
    decreases |a|
  {
    if a == [] {
      assert a + b == b;
    } else if a[0].from != c {
      assert (a + b)[0] == a[0] && (a + b)[1..] == a[1..] + b;
      FindConcat(a[1..], b, c);
    }
  }

  /** The entry at `i` is the first keyed by `c`. */
  lemma FindAt(t: seq<Repl>, c: char, i: nat)
    requires i < |t| && t[i].from == c && forall j :: 0 <= j < i ==> t[j].from != c
    ensures Find(t, c) == i
  {
  }

  /** In a distinct table, no entry before `i` has the key of entry `i`, nor its value. */
  lemma FindDistinct(t: seq<Repl>, i: nat)
    requires DistinctTable(t) && i < |t|
    ensures Find(t[..i], t[i].from) == -1
    ensures forall j :: 0 <= j < i ==> t[..i][j].to != t[i].from
  {
    assert forall j :: 0 <= j < i ==> t[..i][j] == t[j];
  }

  /** QString::replace(c, r): every `c` of `s` replaced by `r`. */
  function ReplaceChar(s: string, c: char, r: string): string
    decreases |s|
  {
    if s == [] then [] else (if s[0] == c then r else [s[0]]) + ReplaceChar(s[1..], c, r)
  }

  lemma {:induction false} ReplaceConcat(a: string, b: string, c: char, r: string)
    ensures ReplaceChar(a + b, c, r) == ReplaceChar(a, c, r) + ReplaceChar(b, c, r)
    decreases |a|
  {
    if a == [] {
      assert a + b == b;
    } else {
      assert (a + b)[0] == a[0] && (a + b)[1..] == a[1..] + b;
      ReplaceConcat(a[1..], b, c, r);
    }
  }

  lemma {:induction false} ReplaceAbsent(s: string, c: char, r: string)
    requires forall i :: 0 <= i < |s| ==> s[i] != c
    ensures ReplaceChar(s, c, r) == s
    decreases |s|
  {
    if s != [] {
      ReplaceAbsent(s[1..], c, r);
    }
  }

  /** A run of backslashes, the marker written before an escaped character. */
  predicate AllBackslashes(p: string)
  {
    forall i :: 0 <= i < |p| ==> p[i] == '\\'
  }

  /** The marker doEscape writes: two backslashes. */
  const DoubleBackslash: string := ['\\', '\\']
  /** The marker of the escape sequences themselves: one backslash. */
  const SingleBackslash: string := ['\\']

  /** What the escape pass makes of one character: a backslash is doubled, a
      key of the table becomes `prefix` and its value, anything else stays. */
  function EscChar(c: char, t: seq<Repl>, prefix: string): string
  {
    if c == '\\' then ['\\', '\\']
    else var j := Find(t, c); if j >= 0 then prefix + [t[j].to] else [c]
  }

  /** The escape pass as one character-by-character substitution. */
  function Escaped(s: string, t: seq<Repl>, prefix: string): string
    decreases |s|
  {
    if s == [] then [] else EscChar(s[0], t, prefix) + Escaped(s[1..], t, prefix)
  }

  lemma {:induction false} EscapedConcat(a: string, b: string, t: seq<Repl>, prefix: string)
    ensures Escaped(a + b, t, prefix) == Escaped(a, t, prefix) + Escaped(b, t, prefix)
    decreases |a|
  {
    if a == [] {
      assert a + b == b;
    } else {
      assert (a + b)[0] == a[0] && (a + b)[1..] == a[1..] + b;
      EscapedConcat(a[1..], b, t, prefix);
    }
  }

  /** A table has distinct keys, and no value equals the key of a later entry,
      so each substitution of the pass leaves the earlier ones alone. */
  predicate DistinctTable(t: seq<Repl>)
  {
    forall i, j :: 0 <= i < j < |t| ==> t[i].from != t[j].from && t[i].to != t[j].from
  }

  /** The first step of doEscape doubles the backslashes. */
  lemma {:induction false} ReplaceBackslash(s: string, prefix: string)
    ensures ReplaceChar(s, '\\', DoubleBackslash) == Escaped(s, [], prefix)
    decreases |s|
  {
    if s != [] {
      ReplaceBackslash(s[1..], prefix);
    }
  }

  /** A table entry keyed by a backslash changes nothing: backslashes are
      doubled before the table is read. */
  lemma {:induction false} EscapedBackslashKey(s: string, done: seq<Repl>, e: Repl, prefix: string)
    requires e.from == '\\'
    ensures Escaped(s, done + [e], prefix) == Escaped(s, done, prefix)
    decreases |s|
  {
    if s != [] {
      FindAppend(done, e, s[0]);
      if Find(done, s[0]) >= 0 {
        assert (done + [e])[Find(done, s[0])] == done[Find(done, s[0])];
      }
      EscapedBackslashKey(s[1..], done, e, prefix);
    }
  }

  lemma ReplaceUnit(c: char, done: seq<Repl>, k: char, v: char, prefix: string)
    requires k != '\\' && Find(done, k) == -1 && AllBackslashes(prefix)
    requires forall j :: 0 <= j < |done| ==> done[j].to != k
    ensures ReplaceChar(EscChar(c, done, prefix), k, prefix + [v]) == EscChar(c, done + [Repl(k, v)], prefix)
  {
    if c == '\\' {
      ReplaceAbsent(['\\', '\\'], k, prefix + [v]);
    } else if Find(done, c) >= 0 {
      ReplaceKept(c, done, k, v, prefix);
    } else if c == k {
      ReplaceSingle(done, k, v, prefix);
    } else {
      ReplaceOther(c, done, k, v, prefix);
    }
  }

  /** A character an earlier entry already substitutes keeps its substitute. */
  lemma ReplaceKept(c: char, done: seq<Repl>, k: char, v: char, prefix: string)
    requires c != '\\' && Find(done, c) >= 0 && k != '\\' && AllBackslashes(prefix)
    requires forall j :: 0 <= j < |done| ==> done[j].to != k
    ensures ReplaceChar(EscChar(c, done, prefix), k, prefix + [v]) == EscChar(c, done + [Repl(k, v)], prefix)
  {
    var j := Find(done, c);
    FindAppend(done, Repl(k, v), c);
    assert (done + [Repl(k, v)])[j] == done[j];
    ReplaceAbsent(prefix + [done[j].to], k, prefix + [v]);
  }

  /** The key of the new entry gets its substitute. */
  lemma ReplaceSingle(done: seq<Repl>, k: char, v: char, prefix: string)
    requires k != '\\' && Find(done, k) == -1
    ensures ReplaceChar(EscChar(k, done, prefix), k, prefix + [v]) == EscChar(k, done + [Repl(k, v)], prefix)
  {
    FindAppend(done, Repl(k, v), k);
    assert EscChar(k, done, prefix) == [k];
    assert [k][1..] == [];
    assert (prefix + [v]) + [] == prefix + [v];
  }

  /** Any other character stays as it is. */
  lemma ReplaceOther(c: char, done: seq<Repl>, k: char, v: char, prefix: string)
    requires c != '\\' && c != k && Find(done, c) == -1
    ensures ReplaceChar(EscChar(c, done, prefix), k, prefix + [v]) == EscChar(c, done + [Repl(k, v)], prefix)
  {
    FindAppend(done, Repl(k, v), c);
    assert EscChar(c, done, prefix) == [c];
    assert [c][1..] == [];
  }

  /** One substitution of the table extends the pass by one entry. */
  lemma {:induction false} ReplaceStep(s: string, done: seq<Repl>, k: char, v: char, prefix: string)
    requires k != '\\' && Find(done, k) == -1 && AllBackslashes(prefix)
    requires forall j :: 0 <= j < |done| ==> done[j].to != k
    ensures ReplaceChar(Escaped(s, done, prefix), k, prefix + [v]) == Escaped(s, done + [Repl(k, v)], prefix)
    decreases |s|
  {
    if s != [] {
      ReplaceConcat(EscChar(s[0], done, prefix), Escaped(s[1..], done, prefix), k, prefix + [v]);
      ReplaceUnit(s[0], done, k, v, prefix);
      ReplaceStep(s[1..], done, k, v, prefix);
    }
  }

  /** doEscape: doubles every backslash, then replaces each other key of the
      table by `prefix` and the key's value. The source writes two
      backslashes as the prefix. */
  method DoEscape(s: string, repl: seq<Repl>, prefix: string) returns (str: string)
    requires DistinctTable(repl) && AllBackslashes(prefix)
    ensures str == Escaped(s, repl, prefix)
  {
    str := ReplaceChar(s, '\\', DoubleBackslash);
    ReplaceBackslash(s, prefix);
    var i := 0;
    while i < |repl|
      invariant 0 <= i <= |repl| && str == Escaped(s, repl[..i], prefix)
    {
      assert repl[..i + 1] == repl[..i] + [repl[i]];
      if repl[i].from != '\\' {
        FindDistinct(repl, i);
        ReplaceStep(s, repl[..i], repl[i].from, repl[i].to, prefix);
        str := ReplaceChar(str, repl[i].from, prefix + [repl[i].to]);
      } else {
        EscapedBackslashKey(s, repl[..i], repl[i], prefix);
      }
      i := i + 1;
    }
    assert repl[..|repl|] == repl;
  }

  /** The unescape pass: a backslash followed by a key of the table becomes the
      key's value; any other backslash, a trailing one included, stays. */
  function Unesc(s: string, t: seq<Repl>): (r: string)
    ensures |r| <= |s|
    decreases |s|
  {
    if |s| < 2 then s
    else if s[0] == '\\' && Find(t, s[1]) >= 0 then [t[Find(t, s[1])].to] + Unesc(s[2..], t)
    else [s[0]] + Unesc(s[1..], t)
  }

  /** Text without a backslash passes through the unescape pass unchanged. */
  lemma {:induction false} UnescPlain(a: string, b: string, t: seq<Repl>)
    requires forall i :: 0 <= i < |a| ==> a[i] != '\\'
    ensures Unesc(a + b, t) == a + Unesc(b, t)
    decreases |a|
  {
    if a == [] {
      assert a + b == b;
    } else if |a + b| >= 2 {
      var ab := a + b;
      assert ab[0] == a[0] && ab[0] != '\\';
      assert ab[1..] == a[1..] + b;
      assert Unesc(ab, t) == [a[0]] + Unesc(ab[1..], t);
      UnescPlain(a[1..], b, t);
      assert [a[0]] + a[1..] == a;
    } else {
      assert b == [] && a + b == a;
    }
  }

  /** A string whose only backslash, if any, is its last character is left unchanged. */
  lemma {:induction false} UnescNoEscape(s: string, t: seq<Repl>)
    requires forall i :: 0 <= i < |s| - 1 ==> s[i] != '\\'
    ensures Unesc(s, t) == s
    decreases |s|
  {
    if |s| >= 2 {
      UnescNoEscape(s[1..], t);
    }
  }

  /** The scan stops: no escape sequence starts at or after `n`. */
  lemma UnescExit(str: string, n: nat, t: seq<Repl>)
    requires n <= |str| && forall i :: n <= i < |str| - 1 ==> str[i] != '\\'
    ensures str[..n] + Unesc(str[n..], t) == str
  {
    UnescNoEscape(str[n..], t);
    assert str[..n] + str[n..] == str;
  }

  /** The backslash at `k` starts an escape sequence of the table, replaced in place. */
  lemma UnescReplace(str: string, n: nat, k: nat, t: seq<Repl>)
    requires n <= k && k + 1 < |str| && str[k] == '\\' && Find(t, str[k + 1]) >= 0
    requires forall i :: n <= i < k ==> str[i] != '\\'
    ensures var str' := str[..k] + [t[Find(t, str[k + 1])].to] + str[k + 2..];
            k + 1 <= |str'| && str'[..k + 1] + Unesc(str'[k + 1..], t) == str[..n] + Unesc(str[n..], t)
  {
    var v := t[Find(t, str[k + 1])].to;
    var str' := str[..k] + [v] + str[k + 2..];
    assert str[n..] == str[n..k] + str[k..];
    UnescPlain(str[n..k], str[k..], t);
    assert str[k..][2..] == str[k + 2..];
    assert str'[..k + 1] == str[..k] + [v] && str'[k + 1..] == str[k + 2..];
    assert str[..n] + str[n..k] == str[..k];
  }

  /** The backslash at `k` starts no escape sequence of the table and is kept. */
  lemma UnescSkip(str: string, n: nat, k: nat, t: seq<Repl>)
    requires n <= k && k + 1 < |str| && str[k] == '\\' && Find(t, str[k + 1]) < 0
    requires forall i :: n <= i < k ==> str[i] != '\\'
    ensures str[..k + 1] + Unesc(str[k + 1..], t) == str[..n] + Unesc(str[n..], t)
  {
    assert str[n..] == str[n..k] + str[k..];
    UnescPlain(str[n..k], str[k..], t);
    assert str[k..][1..] == str[k + 1..];
    assert str[..n] + str[n..k] + [str[k]] == str[..k + 1];
  }

  /** doUnescape: scans for backslashes and replaces each escape sequence of
      the table in place, resuming after the replacement. */
  method DoUnescape(s: string, repl: seq<Repl>) returns (str: string)
    ensures str == Unesc(s, repl)
  {
    str := s;
    var n: nat := 0;
    while true
      invariant n <= |str|
      invariant str[..n] + Unesc(str[n..], repl) == Unesc(s, repl)
      decreases |str| - n
    {
      var k := IndexOf(str, '\\', n);
      if k < 0 || k > |str| - 2 {
        UnescExit(str, n, repl);
        break;
      }
      var j := Find(repl, str[k + 1]);
      if j >= 0 {
        UnescReplace(str, n, k, repl);
        str := str[..k] + [repl[j].to] + str[k + 2..];
      } else {
        UnescSkip(str, n, k, repl);
      }
      n := k + 1;
    }
  }

  /** A lone backslash at the end survives the unescape pass. */
  lemma {:induction false} UnescTrailingBackslash(s: string, t: seq<Repl>)
    requires s == [] || s[|s| - 1] != '\\'
    ensures Unesc(s + ['\\'], t) == Unesc(s, t) + ['\\']
    decreases |s|
  {
    if s != [] {
      var s' := s + ['\\'];
      if s[0] == '\\' && Find(t, s'[1]) >= 0 {
        assert |s| >= 2;
        assert s'[2..] == s[2..] + ['\\'];
        UnescTrailingBackslash(s[2..], t);
      } else {
        assert s'[1..] == s[1..] + ['\\'];
        UnescTrailingBackslash(s[1..], t);
      }
    }
  }

  /** The number of escape sequences the unescape pass replaces. */
  function Replacements(s: string, t: seq<Repl>): nat
    decreases |s|
  {
    if |s| < 2 then 0
    else if s[0] == '\\' && Find(t, s[1]) >= 0 then 1 + Replacements(s[2..], t)
    else Replacements(s[1..], t)
  }

  /** Each replacement shortens the string by exactly one character. */
  lemma {:induction false} UnescLength(s: string, t: seq<Repl>)
    ensures |Unesc(s, t)| + Replacements(s, t) == |s|
    decreases |s|
  {
    if |s| >= 2 {
      if s[0] == '\\' && Find(t, s[1]) >= 0 {
        UnescLength(s[2..], t);
      } else {
        UnescLength(s[1..], t);
      }
    }
  }

  /** `u` undoes the single-backslash escapes of `t`: it reads a doubled
      backslash as one, and each value of `t` back as its key. */
  predicate Inverts(t: seq<Repl>, u: seq<Repl>)
  {
    Find(u, '\\') >= 0 && u[Find(u, '\\')].to == '\\' &&
    forall i :: 0 <= i < |t| && t[i].from != '\\' ==> Find(u, t[i].to) >= 0 && u[Find(u, t[i].to)].to == t[i].from
  }

  /** Escaping with one backslash and unescaping with an inverse table gives back the string. */
  lemma {:induction false} UnescEscaped(s: string, t: seq<Repl>, u: seq<Repl>)
    requires Inverts(t, u)
    ensures Unesc(Escaped(s, t, SingleBackslash), u) == s
    decreases |s|
  {
    if s != [] {
      var c := s[0];
      var rest := Escaped(s[1..], t, SingleBackslash);
      UnescEscaped(s[1..], t, u);
      var j := Find(t, c);
      if c == '\\' {
        assert (['\\', '\\'] + rest)[2..] == rest;
      } else if j >= 0 {
        assert EscChar(c, t, SingleBackslash) == ['\\', t[j].to];
        assert (['\\', t[j].to] + rest)[2..] == rest;
      } else {
        UnescPlain([c], rest, t);
        UnescPlain([c], rest, u);
      }
      assert s == [c] + s[1..];
    }
  }

  /** A string with none of the table's keys escapes as if the table were empty. */
  lemma {:induction false} EscapedNoKeys(s: string, t: seq<Repl>, prefix: string, prefix': string)
    requires forall i :: 0 <= i < |s| ==> s[i] == '\\' || Find(t, s[i]) == -1
    ensures Escaped(s, t, prefix) == Escaped(s, [], prefix')
    decreases |s|
  {
    if s != [] {
      EscapedNoKeys(s[1..], t, prefix, prefix');
    }
  }

  /** The table of escape: newline, tab and carriage return. */
  const EscapeTable: seq<Repl> := [Repl('\n', 'n'), Repl('\t', 't'), Repl('\r', 'r')]

  /** The table of escapeExec: double quote, single quote, backslash and dollar sign. */
  const ExecQuoteTable: seq<Repl> := [Repl('"', '"'), Repl('\'', '\''), Repl('\\', '\\'), Repl('$', '$')]

  /** The table of unescape: `\\`, `\s`, `\n`, `\t` and `\r`. */
  const UnescapeTable: seq<Repl> := [Repl('\\', '\\'), Repl('s', ' '), Repl('n', '\n'), Repl('t', '\t'), Repl('r', '\r')]

  /** The second table of unescapeExec: an escaped space, tab or newline
      becomes the marker character 1, 2 or 3; each other reserved character
      of an Exec argument stands for itself. */
  const UnescapeExecTable: seq<Repl> := ExecMarkers + ExecQuotes + ExecRedirects + ExecShellChars

  const ExecMarkers: seq<Repl> := [Repl(' ', 1 as char), Repl('\t', 2 as char), Repl('\n', 3 as char)]
  const ExecQuotes: seq<Repl> := [Repl('"', '"'), Repl('\'', '\''), Repl('\\', '\\')]
  const ExecRedirects: seq<Repl> := [Repl('>', '>'), Repl('<', '<'), Repl('~', '~'), Repl('|', '|'), Repl('&', '&'), Repl(';', ';')]
  const ExecShellChars: seq<Repl> :=
    [Repl('$', '$'), Repl('*', '*'), Repl('?', '?'), Repl('#', '#'), Repl('(', '('), Repl(')', ')'), Repl('`', '`')]

  /** escape */
  method Escape(str: string) returns (r: string)
    ensures r == Escaped(str, EscapeTable, DoubleBackslash)
    ensures NoControls(r)
  {
    r := DoEscape(str, EscapeTable, DoubleBackslash);
    EscapeNoControls(str);
  }

  /** No newline, tab or carriage return. */
  predicate NoControls(s: string)
  {
    forall i :: 0 <= i < |s| ==> s[i] != '\n' && s[i] != '\t' && s[i] != '\r'
  }

  /** The output of escape holds no newline, tab or carriage return. */
  lemma {:induction false} EscapeNoControls(s: string)
    ensures NoControls(Escaped(s, EscapeTable, DoubleBackslash))
    decreases |s|
  {
    if s != [] {
      EscapeNoControls(s[1..]);
      var u := EscChar(s[0], EscapeTable, DoubleBackslash);
      var rest := Escaped(s[1..], EscapeTable, DoubleBackslash);
      assert NoControls(u);
      assert Escaped(s, EscapeTable, DoubleBackslash) == u + rest;
      assert forall i :: 0 <= i < |u + rest| ==> (u + rest)[i] == if i < |u| then u[i] else rest[i - |u|];
    }
  }

  /** escapeExec */
  method EscapeExec(str: string) returns (r: string)
    ensures r == Escaped(str, ExecQuoteTable, DoubleBackslash)
  {
    r := DoEscape(str, ExecQuoteTable, DoubleBackslash);
  }

  /** unescape */
  method Unescape(str: string) returns (r: string)
    ensures r == Unesc(str, UnescapeTable)
  {
    r := DoUnescape(str, UnescapeTable);
  }

  /** unescapeExec: unescape, then the Exec quoting table. */
  method UnescapeExec(str: string) returns (r: string)
    ensures r == Unesc(Unesc(str, UnescapeTable), UnescapeExecTable)
  {
    r := Unescape(str);
    r := DoUnescape(r, UnescapeExecTable);
  }

  /** unescape undoes escape on every string without a newline, tab or carriage return. */
  lemma EscapeRoundTrip(s: string)
    requires NoControls(s)
    ensures Unesc(Escaped(s, EscapeTable, DoubleBackslash), UnescapeTable) == s
  {
    EscapedNoKeys(s, EscapeTable, DoubleBackslash, SingleBackslash);
    UnescEscaped(s, [], UnescapeTable);
  }

  /** As written, escape marks a newline with two backslashes, so unescape
      reads back a backslash and `n` instead of the newline. */
  lemma EscapeLosesNewline()
    ensures Escaped("\n", EscapeTable, DoubleBackslash) == ['\\', '\\', 'n']
    ensures Unesc(['\\', '\\', 'n'], UnescapeTable) == ['\\', 'n']
  {
    assert Unesc(['\\', '\\', 'n'], UnescapeTable) == ['\\'] + Unesc(['n'], UnescapeTable);
  }

  /** escape with the one-backslash marker the escape sequences call for:
      unescape undoes it on every string. */
  method EscapeCorrected(str: string) returns (r: string)
    ensures r == Escaped(str, EscapeTable, SingleBackslash)
    ensures Unesc(r, UnescapeTable) == str
  {
    r := DoEscape(str, EscapeTable, SingleBackslash);
    EscapeTablesInvert();
    UnescEscaped(str, EscapeTable, UnescapeTable);
  }

  /** unescapeExec undoes escapeExec on every string without a backslash. */
  lemma EscapeExecRoundTrip(s: string)
    requires forall i :: 0 <= i < |s| ==> s[i] != '\\'
    ensures Unesc(Unesc(Escaped(s, ExecQuoteTable, DoubleBackslash), UnescapeTable), UnescapeExecTable) == s
  {
    ExecAsCorrected(s);
    CorrectedExecRoundTrip(s);
  }

  /** As written, escapeExec gives a backslash only the string-level escape,
      so unescapeExec reads two backslashes back as one. */
  lemma EscapeExecLosesBackslash()
    ensures Escaped(['\\', '\\'], ExecQuoteTable, DoubleBackslash) == ['\\', '\\', '\\', '\\']
    ensures Unesc(Unesc(['\\', '\\', '\\', '\\'], UnescapeTable), UnescapeExecTable) == ['\\']
  {
    assert Unesc(['\\', '\\', '\\', '\\'], UnescapeTable) == ['\\'] + Unesc(['\\', '\\'], UnescapeTable);
    assert Unesc(['\\', '\\'], UnescapeTable) == ['\\'];
    ExecQuotePositions();
    assert Unesc(['\\', '\\'], UnescapeExecTable) == ['\\'];
  }

  /** Where the quoting characters sit in the table of unescapeExec. */
  lemma ExecQuotePositions()
    ensures Find(UnescapeExecTable, '"') == 3 && Find(UnescapeExecTable, '\'') == 4
    ensures Find(UnescapeExecTable, '\\') == 5
  {
    FindAt(ExecQuotes, '"', 0);
    ExecQuotePosition('"', 0);
    FindAt(ExecQuotes, '\'', 1);
    ExecQuotePosition('\'', 1);
    FindAt(ExecQuotes, '\\', 2);
    ExecQuotePosition('\\', 2);
  }

  /** A quoting character the space markers do not hold sits after them. */
  lemma ExecQuotePosition(c: char, i: nat)
    requires Find(ExecMarkers, c) == -1 && Find(ExecQuotes, c) == i
    ensures Find(UnescapeExecTable, c) == 3 + i
  {
    var a := ExecMarkers + ExecQuotes;
    FindConcat(ExecMarkers, ExecQuotes, c);
    FindConcat(a, ExecRedirects, c);
    FindConcat(a + ExecRedirects, ExecShellChars, c);
  }

  /** Where `$` sits in the table of unescapeExec. */
  lemma ExecDollarPosition()
    ensures Find(UnescapeExecTable, '$') == 12
  {
    var a := ExecMarkers + ExecQuotes + ExecRedirects;
    assert Find(ExecMarkers, '$') == -1 && Find(ExecQuotes, '$') == -1 && Find(ExecRedirects, '$') == -1;
    FindConcat(ExecMarkers, ExecQuotes, '$');
    FindConcat(ExecMarkers + ExecQuotes, ExecRedirects, '$');
    FindAt(ExecShellChars, '$', 0);
    FindConcat(a, ExecShellChars, '$');
  }

  /** The Exec table reads back what the quoting rule writes. */
  lemma ExecTablesInvert()
    ensures Inverts(ExecQuoteTable, UnescapeExecTable)
  {
    ExecQuotePositions();
    ExecDollarPosition();
  }

  /** unescape reads back what escape writes with one backslash. */
  lemma EscapeTablesInvert()
    ensures Inverts(EscapeTable, UnescapeTable)
  {
    FindAt(UnescapeTable, '\\', 0);
    FindAt(UnescapeTable, 'n', 2);
    FindAt(UnescapeTable, 't', 3);
    FindAt(UnescapeTable, 'r', 4);
  }

  /** The two-stage quoting the Exec key calls for: the quoting rule (one
      backslash before each of `"`, `'`, `$` and a backslash), then the string
      escape rule (a backslash doubled), so a backslash becomes four. */
  function CorrectedExecEscaped(s: string): string
  {
    Escaped(Escaped(s, ExecQuoteTable, SingleBackslash), [], SingleBackslash)
  }

  lemma CorrectedExecRoundTrip(s: string)
    ensures Unesc(Unesc(CorrectedExecEscaped(s), UnescapeTable), UnescapeExecTable) == s
  {
    UnescEscaped(Escaped(s, ExecQuoteTable, SingleBackslash), [], UnescapeTable);
    ExecTablesInvert();
    UnescEscaped(s, ExecQuoteTable, UnescapeExecTable);
  }

  /** Without backslashes, escapeExec as written agrees with the two-stage quoting. */
  lemma {:induction false} ExecAsCorrected(s: string)
    requires forall i :: 0 <= i < |s| ==> s[i] != '\\'
    ensures Escaped(s, ExecQuoteTable, DoubleBackslash) == CorrectedExecEscaped(s)
    decreases |s|
  {
    if s != [] {
      ExecAsCorrected(s[1..]);
      var q := EscChar(s[0], ExecQuoteTable, SingleBackslash);
      var q' := Escaped(s[1..], ExecQuoteTable, SingleBackslash);
      EscapedConcat(q, q', [], SingleBackslash);
      var j := Find(ExecQuoteTable, s[0]);
      if j >= 0 {
        assert q == ['\\', ExecQuoteTable[j].to] && ExecQuoteTable[j].to != '\\';
        assert Escaped(q, [], SingleBackslash) == ['\\', '\\'] + [ExecQuoteTable[j].to];
      } else {
        assert Escaped(q, [], SingleBackslash) == [s[0]];
      }
    }
  }

  /** escapeExec with the four backslashes the Exec key calls for: unescapeExec
      undoes it on every string. */
  method EscapeExecCorrected(str: string) returns (r: string)
    ensures r == CorrectedExecEscaped(str)
    ensures Unesc(Unesc(r, UnescapeTable), UnescapeExecTable) == str
  {
    r := DoEscape(str, ExecQuoteTable, SingleBackslash);
    r := DoEscape(r, [], SingleBackslash);
    CorrectedExecRoundTrip(str);
  }
}
