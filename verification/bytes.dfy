/**
  Byte strings and the order a bolt bucket keeps its keys in.

  A Go `string` is an immutable sequence of bytes, and `[]byte(s)` / `string(b)`
  convert without changing a byte, so hook names and bucket keys are both
  modelled as `seq<byte>`. A bucket cursor visits keys in the order of
  `bytes.Compare`: byte-wise lexicographic, a proper prefix first.
 */
module Bytes {

  newtype byte = x: int | 0 <= x < 256

  /** The bytes of a Go string literal written in ASCII. */
  function FromAscii(s: string): (b: seq<byte>)
    requires forall i :: 0 <= i < |s| ==> s[i] as int < 128
    ensures |b| == |s| && forall i :: 0 <= i < |s| ==> b[i] as int == s[i] as int
  {
    seq(|s|, i requires 0 <= i < |s| => s[i] as int as byte)
  }

  /** `bytes.Compare(a, b) < 0`. */
  predicate Less(a: seq<byte>, b: seq<byte>)
    decreases |a|
  {
    if a == [] then b != []
    else b != [] && (a[0] < b[0] || (a[0] == b[0] && Less(a[1..], b[1..])))
  }

  lemma {:induction false} LessIrreflexive(a: seq<byte>)
    ensures !Less(a, a)
    decreases |a|
  {
    if a != [] {
      LessIrreflexive(a[1..]);
    }
  }

  lemma {:induction false} LessAsymmetric(a: seq<byte>, b: seq<byte>)
    requires Less(a, b)
    ensures !Less(b, a)
    decreases |a|
  {
    if a != [] && a[0] == b[0] {
      LessAsymmetric(a[1..], b[1..]);
    }
  }

  lemma {:induction false} LessTransitive(a: seq<byte>, b: seq<byte>, c: seq<byte>)
    requires Less(a, b) && Less(b, c)
    ensures Less(a, c)
    decreases |a|
  {
    if a != [] && a[0] == b[0] && b[0] == c[0] {
      LessTransitive(a[1..], b[1..], c[1..]);
    }
  }

  /** Any two different byte strings are ordered one way or the other. */
  lemma {:induction false} LessTotal(a: seq<byte>, b: seq<byte>)
    requires a != b
    ensures Less(a, b) || Less(b, a)
    decreases |a|
  {
    if a != [] && b != [] && a[0] == b[0] {
      assert a == [a[0]] + a[1..] && b == [b[0]] + b[1..];
      LessTotal(a[1..], b[1..]);
    }
  }

  /** Every element of `s` is in strictly ascending order: no repeats, no inversions. */
  predicate StrictlySorted(s: seq<seq<byte>>)
  {
    forall i, j :: 0 <= i < j < |s| ==> Less(s[i], s[j])
  }

  function Elements(s: seq<seq<byte>>): set<seq<byte>>
  {
    set x | x in s
  }

  lemma ElementsAppend(s: seq<seq<byte>>, x: seq<byte>)
    ensures Elements(s + [x]) == Elements(s) + {x}
  {
    assert forall y :: y in s + [x] <==> y in s || y == x;
  }

  /** `k` is the smallest key of `keys`: where a cursor on `keys` stands after `First()`. */
  predicate IsLeast(k: seq<byte>, keys: set<seq<byte>>)
  {
    k in keys && forall j :: j in keys && j != k ==> Less(k, j)
  }

  /** A non-empty finite set of keys has a least key, so a cursor always has a next key to visit. */
  lemma {:induction false} LeastExists(keys: set<seq<byte>>)
    requires keys != {}
    ensures exists k :: IsLeast(k, keys)
    decreases keys
  {
    var x :| x in keys;
    if keys == {x} {
      assert IsLeast(x, keys);
    } else {
      LeastExists(keys - {x});
      var m :| IsLeast(m, keys - {x});
      if Less(x, m) {
        forall j | j in keys && j != x
          ensures Less(x, j)
        {
          if j != m {
            LessTransitive(x, m, j);
          }
        }
        assert IsLeast(x, keys);
      } else {
        LessTotal(x, m);
        assert IsLeast(m, keys);
      }
    }
  }

  /** A set of keys has exactly one strictly ascending enumeration. */
  lemma {:induction false} SortedUnique(a: seq<seq<byte>>, b: seq<seq<byte>>)
    requires StrictlySorted(a) && StrictlySorted(b)
    requires Elements(a) == Elements(b)
    ensures a == b
    decreases |a|
  {
    if a != [] {
      assert a[0] in Elements(b);
      assert b != [];
      if a[0] != b[0] {
        var j :| 0 <= j < |b| && b[j] == a[0];
        assert b[0] in Elements(a);
        var i :| 0 <= i < |a| && a[i] == b[0];
        assert Less(b[0], a[0]) && Less(a[0], b[0]);
        LessAsymmetric(a[0], b[0]);
      }
      forall k | 1 <= k < |a|
        ensures a[k] != a[0]
      {
        LessIrreflexive(a[0]);
      }
      forall k | 1 <= k < |b|
        ensures b[k] != b[0]
      {
        LessIrreflexive(b[0]);
      }
      assert Elements(a[1..]) == Elements(a) - {a[0]} by {
        assert a == [a[0]] + a[1..];
      }
      assert Elements(b[1..]) == Elements(b) - {b[0]} by {
        assert b == [b[0]] + b[1..];
      }
      SortedUnique(a[1..], b[1..]);
      assert a == [a[0]] + a[1..] && b == [b[0]] + b[1..];
    } else {
      ElementsEmpty(b);
    }
  }

  /** Only the empty sequence has no elements. */
  lemma ElementsEmpty(s: seq<seq<byte>>)
    ensures Elements(s) == {} ==> s == []
  {
    if s != [] {
      assert s[0] in Elements(s);
    }
  }
}
