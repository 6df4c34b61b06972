/** The order of `QMap<QString, ...>` keys: lexicographic on code units, a
    proper prefix before the longer string. */
module Order {
  import opened Bytes

  predicate Less(a: seq<Byte>, b: seq<Byte>)
    decreases |a|
  {
    if a == [] then b != []
    else if b == [] then false
    else a[0] < b[0] || (a[0] == b[0] && Less(a[1..], b[1..]))
  }

  lemma {:induction false} LessIrreflexive(a: seq<Byte>)
    ensures !Less(a, a)
    decreases |a|
  {
    if a != [] {
      LessIrreflexive(a[1..]);
    }
  }

  lemma {:induction false} LessTransitive(a: seq<Byte>, b: seq<Byte>, c: seq<Byte>)
    requires Less(a, b) && Less(b, c)
    ensures Less(a, c)
    decreases |a|
  {
    if a != [] && b != [] && c != [] && a[0] == b[0] && b[0] == c[0] {
      LessTransitive(a[1..], b[1..], c[1..]);
    }
  }

  lemma {:induction false} LessTotal(a: seq<Byte>, b: seq<Byte>)
    requires a != b
    ensures Less(a, b) || Less(b, a)
    decreases |a|
  {
    if a != [] && b != [] && a[0] == b[0] {
      assert a == [a[0]] + a[1..] && b == [b[0]] + b[1..];
      LessTotal(a[1..], b[1..]);
    }
  }

  /** `m` is the least key of `s`. */
  predicate IsLeast(m: seq<Byte>, s: set<seq<Byte>>)
  {
    m in s && forall x :: x in s && x != m ==> Less(m, x)
  }

  /** A finite non-empty set of keys has a least element. */
  lemma {:induction false} Least(s: set<seq<Byte>>) returns (m: seq<Byte>)
    requires s != {}
    ensures IsLeast(m, s)
    decreases |s|
  {
    var y :| y in s;
    if s == {y} {
      return y;
    }
    var m' := Least(s - {y});
    if Less(y, m') {
      forall x | x in s && x != y
        ensures Less(y, x)
      {
        if x != m' {
          LessTransitive(y, m', x);
        }
      }
      return y;
    } else {
      LessTotal(y, m');
      return m';
    }
  }
}
