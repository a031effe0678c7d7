/** The parts of Go's `strings` package that the repository picker uses,
    over Go strings seen as byte sequences. */
module GoStrings {

  /** One byte of a Go string. It is written as a character below 256 so that
      literals stay readable and `|s|` is exactly Go's `len(s)`. */
  type Byte = c: char | c as int < 256

  type GoString = seq<Byte>

  /** The bytes `strings.TrimSpace` removes from ASCII text: tab, line feed,
      vertical tab, form feed, carriage return and space. */
  predicate IsSpace(b: Byte) {
    b == ' ' || 9 <= b as int <= 13
  }

  /** Neither end of `s` is white space. */
  predicate IsTrimmed(s: GoString) {
    s == [] || (!IsSpace(s[0]) && !IsSpace(s[|s| - 1]))
  }

  /** `s` without its leading white space. */
  function TrimLeft(s: GoString): (r: GoString)
    ensures |r| <= |s| && r == s[|s| - |r|..]
    ensures r == [] || !IsSpace(r[0])
    ensures forall i :: 0 <= i < |s| - |r| ==> IsSpace(s[i])
  {
    if s != [] && IsSpace(s[0]) then TrimLeft(s[1..]) else s
  }

  /** `s` without its trailing white space. */
  function TrimRight(s: GoString): (r: GoString)
    ensures |r| <= |s| && r == s[..|r|]
    ensures r == [] || !IsSpace(r[|r| - 1])
    ensures forall i :: |r| <= i < |s| ==> IsSpace(s[i])
  {
    if s != [] && IsSpace(s[|s| - 1]) then TrimRight(s[..|s| - 1]) else s
  }

  /** strings.TrimSpace: `s` without leading and trailing white space. */
  function TrimSpace(s: GoString): (r: GoString)
    ensures IsTrimmed(r) && |r| <= |s|
    ensures r == [] <==> forall i :: 0 <= i < |s| ==> IsSpace(s[i])
    ensures IsTrimmed(s) ==> r == s
    ensures exists lo :: TrimmedAt(s, r, lo)
  {
    var left := TrimLeft(s);
    var r := TrimRight(left);
    assert r != [] ==> r[0] == left[0];
    assert r == [] ==> left == [];
    var lo := |s| - |left|;
    assert r == left[..|r|] == s[lo..lo + |r|];
    forall i | lo + |r| <= i < |s| ensures IsSpace(s[i]) {
      assert s[i] == left[i - lo];
    }
    assert TrimmedAt(s, r, lo);
    r
  }

  /** `r` is `s` without `lo` bytes of white space at its start and without
      the white space after `lo + |r|`. */
  predicate TrimmedAt(s: GoString, r: GoString, lo: int) {
    0 <= lo && lo + |r| <= |s| && r == s[lo..lo + |r|] &&
    (forall i :: 0 <= i < lo ==> IsSpace(s[i])) &&
    (forall i :: lo + |r| <= i < |s| ==> IsSpace(s[i]))
  }

  /** strings.HasSuffix. */
  predicate HasSuffix(s: GoString, suffix: GoString) {
    |suffix| <= |s| && s[|s| - |suffix|..] == suffix
  }

  /** strings.TrimSuffix: `s` with `suffix` removed once from its end, if it ends with it. */
  function TrimSuffix(s: GoString, suffix: GoString): (r: GoString)
    ensures HasSuffix(s, suffix) ==> r + suffix == s
    ensures !HasSuffix(s, suffix) ==> r == s
  {
    if HasSuffix(s, suffix) then s[..|s| - |suffix|] else s
  }

  /** `sep` occurs in `s` starting at offset `i`. */
  predicate OccursAt(s: GoString, sep: GoString, i: int) {
    0 <= i && i + |sep| <= |s| && s[i..i + |sep|] == sep
  }

  ghost predicate Contains(s: GoString, sep: GoString) {
    exists i :: OccursAt(s, sep, i)
  }

  /** The first occurrence of `sep` in `s` at or after offset `from`, or -1. */
  function IndexFrom(s: GoString, sep: GoString, from: nat): (r: int)
    ensures r == -1 || from <= r
    ensures r == -1 <==> forall i :: from <= i ==> !OccursAt(s, sep, i)
    ensures r != -1 ==> OccursAt(s, sep, r) && forall i :: from <= i < r ==> !OccursAt(s, sep, i)
    decreases |s| - from
  {
    if |s| < from + |sep| then -1
    else if s[from..from + |sep|] == sep then assert OccursAt(s, sep, from); from
    else IndexFrom(s, sep, from + 1)
  }

  /** strings.Index: the offset of the first occurrence of `sep` in `s`, or -1. */
  function Index(s: GoString, sep: GoString): (r: int)
    ensures r == -1 <==> !Contains(s, sep)
    ensures r != -1 ==> OccursAt(s, sep, r) && forall i :: 0 <= i < r ==> !OccursAt(s, sep, i)
  {
    IndexFrom(s, sep, 0)
  }

  /** strings.Split(s, sep)[0] for a non-empty `sep`: the text of `s` before
      the first occurrence of `sep`, or all of `s` when there is none. */
  function FirstField(s: GoString, sep: GoString): (r: GoString)
    requires sep != []
    ensures |r| <= |s| && r == s[..|r|]
    ensures !Contains(r, sep)
    ensures |r| < |s| ==> OccursAt(s, sep, |r|)
    ensures forall i :: 0 <= i < |r| ==> !OccursAt(s, sep, i)
  {
    var k := Index(s, sep);
    if k == -1 then s
    else
      var r := s[..k];
      assert !Contains(r, sep) by {
        forall i | OccursAt(r, sep, i) ensures false {
          assert s[i..i + |sep|] == r[i..i + |sep|];
          assert OccursAt(s, sep, i);
        }
      }
      r
  }

  /** strings.Repeat(" ", n). */
  function Spaces(n: nat): (r: GoString)
    ensures |r| == n && forall i :: 0 <= i < n ==> r[i] == ' '
  {
    if n == 0 then [] else Spaces(n - 1) + [' ']
  }

  /** Removing trailing white space from `a + b`: if `b` is all white space,
      the trimming reaches into `a`; otherwise it stays within `b`. */
  lemma {:induction false} TrimRightAppend(a: GoString, b: GoString)
    ensures TrimRight(a + b) == if TrimRight(b) == [] then TrimRight(a) else a + TrimRight(b)
    decreases |b|
  {
    if b == [] {
      assert a + b == a;
    } else if IsSpace(b[|b| - 1]) {
      assert (a + b)[..|a + b| - 1] == a + b[..|b| - 1];
      TrimRightAppend(a, b[..|b| - 1]);
    }
  }

  /** Trimming text that starts and ends with non-white-space bytes and is
      followed by `rest` only trims `rest` at its end. */
  lemma TrimSpaceAfterTrimmed(head: GoString, rest: GoString)
    requires head != [] && IsTrimmed(head)
    ensures TrimSpace(head + rest) == head + TrimRight(rest)
  {
    var text := head + rest;
    assert text[0] == head[0];
    assert TrimLeft(text) == text;
    TrimRightAppend(head, rest);
    assert TrimRight(head) == head;
  }

  /** Trailing white space trimmed from `n` spaces followed by `after` leaves
      either nothing or text that still starts with those `n` spaces. */
  lemma TrimRightAfterSpaces(n: nat, after: GoString)
    ensures var t := TrimRight(Spaces(n) + after);
            t == [] || (|t| >= n && forall k :: 0 <= k < n ==> t[k] == ' ')
  {
    var gap := Spaces(n);
    TrimRightAppend(gap, after);
    assert TrimRight(gap) == [];
  }

  /** A slice of text in which `sep` does not occur does not contain it either. */
  lemma AbsentFromSlice(s: GoString, sep: GoString, lo: nat, hi: nat)
    requires lo <= hi <= |s| && !Contains(s, sep)
    ensures !Contains(s[lo..hi], sep)
  {
    var t := s[lo..hi];
    forall i | OccursAt(t, sep, i) ensures OccursAt(s, sep, lo + i) {
      assert forall j :: 0 <= j < |sep| ==> sep[j] == t[i + j] == s[lo + i + j];
      assert s[lo + i..lo + i + |sep|] == sep;
    }
  }

  /** Trimming white space cannot create an occurrence of `sep`. */
  lemma AbsentAfterTrimSpace(s: GoString, sep: GoString)
    requires !Contains(s, sep)
    ensures !Contains(TrimSpace(s), sep)
  {
    var r := TrimSpace(s);
    var lo :| TrimmedAt(s, r, lo);
    AbsentFromSlice(s, sep, lo, lo + |r|);
  }
}
