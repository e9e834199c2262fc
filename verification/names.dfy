/**
  The two checks createHook makes on a hook name before it opens a transaction
  (admin_handler.go, lines 101-110): `strings.TrimSpace(name) == ""` and
  `regexp.MatchString("^[a-z0-9-]+$", name)`, written out over the bytes of the name.
 */
module Names {
  import opened Bytes

  // ---------------------------------------------------------------------------
  // White space, as strings.TrimSpace sees it
  // ---------------------------------------------------------------------------

  /** The bytes Go's `asciiSpace` table marks: '\t', '\n', '\v', '\f', '\r' and ' '. */
  predicate IsAsciiSpace(b: byte)
  {
    b == 0x09 || b == 0x0A || b == 0x0B || b == 0x0C || b == 0x0D || b == 0x20
  }

  /** The two-byte white-space runes: U+0085 and U+00A0. */
  predicate IsSpace2(a: byte, b: byte)
  {
    a == 0xC2 && (b == 0x85 || b == 0xA0)
  }

  /** The three-byte white-space runes: U+1680, U+2000-U+200A, U+2028, U+2029, U+202F, U+205F, U+3000. */
  predicate IsSpace3(a: byte, b: byte, c: byte)
  {
    (a == 0xE1 && b == 0x9A && c == 0x80) ||
    (a == 0xE2 && b == 0x80 && ((0x80 <= c <= 0x8A) || c == 0xA8 || c == 0xA9 || c == 0xAF)) ||
    (a == 0xE2 && b == 0x81 && c == 0x9F) ||
    (a == 0xE3 && b == 0x80 && c == 0x80)
  }

  /**
    `e` is the UTF-8 encoding of one rune for which `unicode.IsSpace` holds:
    the six ASCII spaces, U+0085, U+00A0, U+1680, U+2000 to U+200A, U+2028,
    U+2029, U+202F, U+205F and U+3000.
   */
  predicate IsSpaceRune(e: seq<byte>)
  {
    match |e|
    case 1 => IsAsciiSpace(e[0])
    case 2 => IsSpace2(e[0], e[1])
    case 3 => IsSpace3(e[0], e[1], e[2])
    case _ => false
  }

  // The scans below work on one string `s` and a window `[i, j)` of it, the
  // way Go's loops move `start` and `stop` over `s` without copying.

  /**
    The width of the white-space rune that starts at `i` and lies within
    `[i, j)`, or 0 when there is none: what `utf8.DecodeRuneInString` on
    `s[i:j]` followed by `unicode.IsSpace` decides. The lead byte fixes which
    width can apply.
   */
  function RuneAt(s: seq<byte>, i: nat, j: nat): (n: nat)
    requires i <= j <= |s|
    ensures n <= 3 && n <= j - i
  {
    if i + 1 <= j && IsAsciiSpace(s[i]) then 1
    else if i + 2 <= j && IsSpace2(s[i], s[i + 1]) then 2
    else if i + 3 <= j && IsSpace3(s[i], s[i + 1], s[i + 2]) then 3
    else 0
  }

  /**
    The width of the white-space rune that ends at `j` and lies within
    `[i, j)`, or 0: what `utf8.DecodeLastRuneInString` on `s[i:j]` followed by
    `unicode.IsSpace` decides.
   */
  function RuneBefore(s: seq<byte>, i: nat, j: nat): (n: nat)
    requires i <= j <= |s|
    ensures n <= 3 && n <= j - i
  {
    if i + 1 <= j && IsAsciiSpace(s[j - 1]) then 1
    else if i + 2 <= j && IsSpace2(s[j - 2], s[j - 1]) then 2
    else if i + 3 <= j && IsSpace3(s[j - 3], s[j - 2], s[j - 1]) then 3
    else 0
  }

  /** A rune found fits in any window that still holds it. */
  lemma RuneAtBound(s: seq<byte>, i: nat, j: nat, k: nat)
    requires i <= j <= |s| && k <= |s| && 0 < RuneAt(s, i, j) <= k - i
    ensures RuneAt(s, i, k) == RuneAt(s, i, j)
  {
  }

  /** A rune read backwards from `j` is the same rune read forwards from where it starts. */
  lemma RuneBeforeAt(s: seq<byte>, i: nat, j: nat)
    requires i <= j <= |s| && RuneBefore(s, i, j) > 0
    ensures RuneAt(s, j - RuneBefore(s, i, j), j) == RuneBefore(s, i, j)
  {
  }

  /** `s[i..j]` is a concatenation of white-space runes (the empty window included). */
  predicate SpaceBetween(s: seq<byte>, i: nat, j: nat)
    requires i <= j <= |s|
    decreases j - i
  {
    i == j || (RuneAt(s, i, j) > 0 && SpaceBetween(s, i + RuneAt(s, i, j), j))
  }

  /** Two adjacent windows of white space make one. */
  lemma {:induction false} SpaceBetweenJoin(s: seq<byte>, a: nat, b: nat, c: nat)
    requires a <= b <= c <= |s| && SpaceBetween(s, a, b) && SpaceBetween(s, b, c)
    ensures SpaceBetween(s, a, c)
    decreases b - a
  {
    if a < b {
      var n := RuneAt(s, a, b);
      RuneAtBound(s, a, b, c);
      SpaceBetweenJoin(s, a + n, b, c);
    }
  }

  /** Looking at a window of `s` through the slice `s[a..b]` changes no rune. */
  lemma RuneShift(s: seq<byte>, a: nat, b: nat, i: nat, j: nat)
    requires a <= i <= j <= b <= |s|
    ensures RuneAt(s[a..b], i - a, j - a) == RuneAt(s, i, j)
    ensures RuneBefore(s[a..b], i - a, j - a) == RuneBefore(s, i, j)
  {
    var t := s[a..b];
    if i < j {
      assert t[i - a] == s[i] && t[j - a - 1] == s[j - 1];
    }
    if i + 2 <= j {
      assert t[i - a + 1] == s[i + 1] && t[j - a - 2] == s[j - 2];
    }
    if i + 3 <= j {
      assert t[i - a + 2] == s[i + 2] && t[j - a - 3] == s[j - 3];
    }
  }

  /** Looking at a window of `s` through the slice `s[a..b]` changes no white space. */
  lemma {:induction false} SpaceBetweenShift(s: seq<byte>, a: nat, b: nat, i: nat, j: nat)
    requires a <= i <= j <= b <= |s|
    ensures SpaceBetween(s[a..b], i - a, j - a) == SpaceBetween(s, i, j)
    decreases j - i
  {
    RuneShift(s, a, b, i, j);
    var n := RuneAt(s, i, j);
    if i < j && n > 0 {
      SpaceBetweenShift(s, a, b, i + n, j);
    }
  }

  /**
    Where the scan from `i` rightwards stops within `[i, j)`: `s[i..k]` is
    white space and no white-space rune starts at `k`. This is the first loop
    of `strings.TrimSpace`, or `TrimLeftFunc(s, unicode.IsSpace)`.
   */
  function LeadingEnd(s: seq<byte>, i: nat, j: nat): (k: nat)
    requires i <= j <= |s|
    ensures i <= k <= j
    ensures SpaceBetween(s, i, k)
    ensures RuneAt(s, k, j) == 0
    decreases j - i
  {
    var n := RuneAt(s, i, j);
    if n == 0 then i
    else
      var k := LeadingEnd(s, i + n, j);
      RuneAtBound(s, i, j, k);
      k
  }

  /**
    Where the scan from `j` leftwards stops within `[i, j)`: `s[k..j]` is
    white space and no white-space rune ends at `k`. This is the second loop
    of `strings.TrimSpace`, or `TrimRightFunc(s[i:j], unicode.IsSpace)`.
   */
  function TrailingStart(s: seq<byte>, i: nat, j: nat): (k: nat)
    requires i <= j <= |s|
    ensures i <= k <= j
    ensures SpaceBetween(s, k, j)
    ensures RuneBefore(s, i, k) == 0
    decreases j - i
  {
    var n := RuneBefore(s, i, j);
    if n == 0 then j
    else
      var k := TrailingStart(s, i, j - n);
      RuneBeforeAt(s, i, j);
      assert SpaceBetween(s, j - n, j) by {
        assert SpaceBetween(s, j, j);
      }
      SpaceBetweenJoin(s, k, j - n, j);
      k
  }

  /** The width of the white-space rune `s` starts with, or 0. */
  function LeadingSpace(s: seq<byte>): nat
  {
    RuneAt(s, 0, |s|)
  }

  /** The width of the white-space rune `s` ends with, or 0. */
  function TrailingSpace(s: seq<byte>): nat
  {
    RuneBefore(s, 0, |s|)
  }

  /** `s` is a concatenation of white-space runes (the empty string included). */
  predicate SpaceRunes(s: seq<byte>)
  {
    SpaceBetween(s, 0, |s|)
  }

  /**
    `LeadingSpace` finds a white-space rune exactly when `s` starts with one:
    when it answers `n > 0` the first `n` bytes are one, and when it answers 0
    no prefix of `s` is one.
   */
  lemma LeadingSpaceIsRune(s: seq<byte>)
    ensures LeadingSpace(s) > 0 ==> IsSpaceRune(s[..LeadingSpace(s)])
    ensures LeadingSpace(s) == 0 ==> forall m :: 1 <= m <= |s| ==> !IsSpaceRune(s[..m])
  {
    forall m | 1 <= m <= |s|
      ensures IsSpaceRune(s[..m]) <==> LeadingSpace(s) == m
    {
      PrefixRune(s, m);
    }
  }

  /** The first `m` bytes of `s` are a white-space rune exactly when `LeadingSpace` answers `m`. */
  lemma PrefixRune(s: seq<byte>, m: nat)
    requires 1 <= m <= |s|
    ensures IsSpaceRune(s[..m]) <==> LeadingSpace(s) == m
  {
    var e := s[..m];
    assert e[0] == s[0];
    assert m >= 2 ==> e[1] == s[1];
    assert m >= 3 ==> e[2] == s[2];
  }

  /** `s` has at least `m` bytes and its last `m` bytes encode a white-space rune. */
  predicate EndsWithSpaceRune(s: seq<byte>, m: nat)
  {
    m <= |s| && IsSpaceRune(s[|s| - m..])
  }

  /**
    `TrailingSpace` finds a white-space rune exactly when `s` ends with one:
    when it answers `n > 0` the last `n` bytes are one, and when it answers 0
    no suffix of `s` is one.
   */
  lemma TrailingSpaceIsRune(s: seq<byte>)
    ensures TrailingSpace(s) > 0 ==> EndsWithSpaceRune(s, TrailingSpace(s))
    ensures TrailingSpace(s) == 0 ==> forall m :: 1 <= m ==> !EndsWithSpaceRune(s, m)
  {
    forall m | 1 <= m <= |s|
      ensures EndsWithSpaceRune(s, m) <==> TrailingSpace(s) == m
    {
      SuffixRune(s, m);
    }
  }

  /** The last `m` bytes of `s` are a white-space rune exactly when `TrailingSpace` answers `m`. */
  lemma SuffixRune(s: seq<byte>, m: nat)
    requires 1 <= m <= |s|
    ensures IsSpaceRune(s[|s| - m..]) <==> TrailingSpace(s) == m
  {
    var e := s[|s| - m..];
    assert e[m - 1] == s[|s| - 1];
    assert m >= 2 ==> e[m - 2] == s[|s| - 2];
    assert m >= 3 ==> e[m - 3] == s[|s| - 3];
  }

  /**
    `strings.TrimSpace`: leading and trailing white space removed. Go scans
    ASCII bytes first and falls back to `TrimFunc(s[start:], unicode.IsSpace)`
    at the first byte of 0x80 or above; both paths strip whole white-space
    runes, first from the front and then from the back of what is left, which
    is what this does. The result neither starts nor ends with a white-space
    rune.
   */
  function TrimSpace(s: seq<byte>): (r: seq<byte>)
    ensures |r| <= |s|
    ensures r == [] || (LeadingSpace(r) == 0 && TrailingSpace(r) == 0)
  {
    var i := LeadingEnd(s, 0, |s|);
    var j := TrailingStart(s, i, |s|);
    TrimmedEnds(s, i, j);
    s[i..j]
  }

  /** The window the two scans leave starts and ends with no white-space rune. */
  lemma TrimmedEnds(s: seq<byte>, i: nat, j: nat)
    requires i <= j <= |s|
    requires RuneAt(s, i, |s|) == 0 && RuneBefore(s, i, j) == 0
    ensures s[i..j] == [] || (LeadingSpace(s[i..j]) == 0 && TrailingSpace(s[i..j]) == 0)
  {
    RuneShift(s, i, j, i, j);
    if RuneAt(s, i, j) > 0 {
      RuneAtBound(s, i, j, |s|);
    }
  }

  /** What `TrimSpace` returns starts with no white-space rune and ends with none. */
  lemma TrimSpaceEnds(s: seq<byte>)
    ensures forall m :: 1 <= m <= |TrimSpace(s)| ==> !IsSpaceRune(TrimSpace(s)[..m])
    ensures forall m :: 1 <= m ==> !EndsWithSpaceRune(TrimSpace(s), m)
  {
    LeadingSpaceIsRune(TrimSpace(s));
    TrailingSpaceIsRune(TrimSpace(s));
  }

  /** A string that neither starts nor ends with white space is left as it is. */
  lemma TrimSpaceUnchanged(s: seq<byte>)
    requires s != [] && LeadingSpace(s) == 0 && TrailingSpace(s) == 0
    ensures TrimSpace(s) == s
  {
    assert LeadingEnd(s, 0, |s|) == 0;
    assert TrailingStart(s, 0, |s|) == |s|;
    assert s[0..|s|] == s;
  }

  /** Trimming twice trims no more than trimming once. */
  lemma TrimSpaceIdempotent(s: seq<byte>)
    ensures TrimSpace(TrimSpace(s)) == TrimSpace(s)
  {
    if TrimSpace(s) != [] {
      TrimSpaceUnchanged(TrimSpace(s));
    }
  }

  /** What trimming removes from either end is white space and nothing else. */
  lemma TrimSpaceStrips(s: seq<byte>)
    ensures exists i, j :: 0 <= i <= j <= |s| && TrimSpace(s) == s[i..j] && SpaceRunes(s[..i]) && SpaceRunes(s[j..])
  {
    var i := LeadingEnd(s, 0, |s|);
    var j := TrailingStart(s, i, |s|);
    SpaceBetweenShift(s, 0, i, 0, i);
    SpaceBetweenShift(s, j, |s|, j, |s|);
    assert s[..i] == s[0..i] && s[j..] == s[j..|s|];
    assert TrimSpace(s) == s[i..j] && SpaceRunes(s[..i]) && SpaceRunes(s[j..]);
  }

  /** A window of white space is consumed entirely by the scan from its left end. */
  lemma {:induction false} SpaceBetweenLeadingEnd(s: seq<byte>, i: nat)
    requires i <= |s| && SpaceBetween(s, i, |s|)
    ensures LeadingEnd(s, i, |s|) == |s|
    decreases |s| - i
  {
    if i < |s| {
      SpaceBetweenLeadingEnd(s, i + RuneAt(s, i, |s|));
    }
  }

  /** Trimming leaves the empty string exactly when the name is empty or only white space. */
  lemma TrimSpaceBlank(s: seq<byte>)
    ensures TrimSpace(s) == [] <==> SpaceRunes(s)
  {
    var i := LeadingEnd(s, 0, |s|);
    var j := TrailingStart(s, i, |s|);
    if TrimSpace(s) == [] {
      assert i == j;
      SpaceBetweenJoin(s, 0, i, |s|);
    }
    if SpaceRunes(s) {
      SpaceBetweenLeadingEnd(s, 0);
    }
  }

  // ---------------------------------------------------------------------------
  // The character check
  // ---------------------------------------------------------------------------

  /** A byte of the class `[a-z0-9-]`. */
  predicate IsNameByte(b: byte)
  {
    ('a' as byte <= b <= 'z' as byte) || ('0' as byte <= b <= '9' as byte) || b == '-' as byte
  }

  /**
    The hook-name rule: non-empty, and every byte in `a`-`z`, `0`-`9` or `-`.
    On a Go string `^[a-z0-9-]+$` means exactly this: any byte of 0x80 or above
    decodes to a rune (or to U+FFFD) outside the class.
   */
  predicate ValidName(s: seq<byte>)
  {
    |s| > 0 && forall i :: 0 <= i < |s| ==> IsNameByte(s[i])
  }

  /**
    `regexp.MatchString("^[a-z0-9-]+$", name)`: the anchored pattern run over
    the name, one byte of the class and then either the end of the text or a
    match of the rest. The pattern is a constant that compiles, so the call
    never returns an error.
   */
  function MatchString(s: seq<byte>): bool
    decreases |s|
  {
    |s| > 0 && IsNameByte(s[0]) && (|s| == 1 || MatchString(s[1..]))
  }

  /** The pattern matches exactly the names the hook-name rule admits. */
  lemma {:induction false} MatchStringIsValidName(s: seq<byte>)
    ensures MatchString(s) <==> ValidName(s)
    decreases |s|
  {
    if |s| > 1 {
      MatchStringIsValidName(s[1..]);
      assert ValidName(s) <==> IsNameByte(s[0]) && ValidName(s[1..]) by {
        assert forall i :: 1 <= i < |s| ==> s[i] == s[1..][i - 1];
      }
    }
  }

  /** A valid name neither starts nor ends with white space: its first and last bytes are ASCII name bytes. */
  lemma ValidNameIsTrimmed(s: seq<byte>)
    requires ValidName(s)
    ensures TrimSpace(s) == s
    ensures !SpaceRunes(s)
  {
    assert IsNameByte(s[0]) && IsNameByte(s[|s| - 1]);
    TrimSpaceUnchanged(s);
  }
}
