/** Bytes of a desktop entry file and the byte-level helpers the reader uses:
    the character-traits table and QByteArray::trimmed. */
module Bytes {

  newtype Byte = x: int | 0 <= x < 256

  const TAB: Byte := 9
  const LF: Byte := 10
  const VT: Byte := 11
  const FF: Byte := 12
  const CR: Byte := 13
  const SPACE: Byte := 32
  const QUOTE: Byte := 34
  const HASH: Byte := 35
  const SEMICOLON: Byte := 59
  const EQUALS: Byte := 61
  const LBRACKET: Byte := 91
  const BACKSLASH: Byte := 92
  const RBRACKET: Byte := 93

  /** Bit flags of the traits table. */
  const SpaceTrait: int := 1
  const SpecialTrait: int := 2

  /** The 256-entry traits table: every entry not listed here is 0. */
  function CharTraits(b: Byte): (t: int)
    ensures 0 <= t < 4
  {
    if b == TAB || b == SPACE then SpaceTrait
    else if b == LF || b == CR then SpaceTrait + SpecialTrait
    else if b == QUOTE || b == HASH || b == SEMICOLON || b == EQUALS || b == BACKSLASH then SpecialTrait
    else 0
  }

  /** The Space bit of the table entry is set: TAB, LF, CR or space. */
  predicate IsSpace(b: Byte) { b == TAB || b == SPACE || b == LF || b == CR }

  /** The Special bit of the table entry is set: LF, CR, `"`, `#`, `;`, `=` or a backslash. */
  predicate IsSpecial(b: Byte) { b == LF || b == CR || b == QUOTE || b == HASH || b == SEMICOLON || b == EQUALS || b == BACKSLASH }

  /** The two predicates read the table's bits. */
  lemma TraitBits(b: Byte)
    ensures IsSpace(b) <==> CharTraits(b) % 2 == 1
    ensures IsSpecial(b) <==> CharTraits(b) / 2 == 1
  {
  }

  /** A line terminator for the tokenizer: LF, CR or a comment mark. */
  predicate IsTerminator(b: Byte) { b == LF || b == CR || b == HASH }

  /** The bytes QByteArray::trimmed removes: TAB, LF, VT, FF, CR and space. */
  predicate IsWhite(b: Byte) { b == TAB || b == LF || b == VT || b == FF || b == CR || b == SPACE }

  function TrimEnd(s: seq<Byte>): (r: seq<Byte>)
    ensures |r| <= |s| && r == s[..|r|]
    ensures r == [] || !IsWhite(r[|r| - 1])
    ensures forall i :: |r| <= i < |s| ==> IsWhite(s[i])
  {
    if s != [] && IsWhite(s[|s| - 1]) then TrimEnd(s[..|s| - 1]) else s
  }

  /** The number of white bytes at the front of `s`. */
  function LeadingWhite(s: seq<Byte>): (n: nat)
    ensures n <= |s| && (n == |s| || !IsWhite(s[n]))
    ensures forall k :: 0 <= k < n ==> IsWhite(s[k])
  {
    if s != [] && IsWhite(s[0]) then 1 + LeadingWhite(s[1..]) else 0
  }

  /** QByteArray::trimmed: the infix left after removing white bytes at both ends. */
  function Trim(s: seq<Byte>): (r: seq<Byte>)
    ensures r == [] || (!IsWhite(r[0]) && !IsWhite(r[|r| - 1]))
    ensures LeadingWhite(s) + |r| <= |s| && r == s[LeadingWhite(s)..LeadingWhite(s) + |r|]
    ensures forall k :: LeadingWhite(s) + |r| <= k < |s| ==> IsWhite(s[k])
  {
    var n := LeadingWhite(s);
    var r := TrimEnd(s[n..]);
    TrimmedSlice(s, n, r);
    r
  }

  /** What TrimEnd keeps of the suffix `s[n..]` is an infix of `s`, followed by white bytes only. */
  lemma TrimmedSlice(s: seq<Byte>, n: nat, r: seq<Byte>)
    requires n <= |s| && |r| <= |s| - n && r == s[n..][..|r|]
    requires forall i :: |r| <= i < |s| - n ==> IsWhite(s[n..][i])
    ensures r == s[n..n + |r|]
    ensures forall k :: n + |r| <= k < |s| ==> IsWhite(s[k])
  {
    assert s[n..][..|r|] == s[n..n + |r|];
    forall k | n + |r| <= k < |s|
      ensures IsWhite(s[k])
    {
      assert s[k] == s[n..][k - n];
    }
  }

  /** The bytes of an ASCII string literal. */
  function Ascii(s: string): (r: seq<Byte>)
    requires forall i :: 0 <= i < |s| ==> s[i] as int < 128
    ensures |r| == |s| && forall i :: 0 <= i < |s| ==> r[i] as int == s[i] as int
  {
    if s == [] then [] else [s[0] as int as Byte] + Ascii(s[1..])
  }
}
