/** Go's `filepath.Base` on a Unix system, where the separator is '/' and
    every volume name is empty. */
module GoFilepath {
  import opened GoStrings

  const Separator: Byte := '/'

  /** The length of `p[..end]` once its trailing separators are removed. */
  function StrippedLength(p: GoString, end: nat): (n: nat)
    requires end <= |p|
    ensures n <= end
    ensures n == 0 || p[n - 1] != Separator
    ensures forall j :: n <= j < end ==> p[j] == Separator
    decreases end
  {
    if end > 0 && p[end - 1] == Separator then StrippedLength(p, end - 1) else end
  }

  /** The offset of the last separator in `p[..end]`, or -1 when there is none. */
  function LastSeparatorBefore(p: GoString, end: nat): (i: int)
    requires end <= |p|
    ensures -1 <= i < end
    ensures i != -1 ==> p[i] == Separator
    ensures forall j :: i < j < end ==> p[j] != Separator
    decreases end
  {
    if end == 0 then -1
    else if p[end - 1] == Separator then end - 1
    else LastSeparatorBefore(p, end - 1)
  }

  /** `e` is an element of `p` at offset `k` followed by separators only: it
      starts the path or follows a separator, and nothing but separators
      comes after it. */
  predicate ElementAt(p: GoString, e: GoString, k: int) {
    0 <= k && k + |e| <= |p| && e == p[k..k + |e|] &&
    (k == 0 || p[k - 1] == Separator) &&
    forall j :: k + |e| <= j < |p| ==> p[j] == Separator
  }

  /** filepath.Base: the last element of `p` once trailing separators are
      removed; "." for the empty path and "/" for a path of separators only. */
  function Base(p: GoString): (r: GoString)
    ensures r != []
    ensures r == [Separator] || Separator !in r
    ensures p == [] ==> r == "."
    ensures p != [] && (forall j :: 0 <= j < |p| ==> p[j] == Separator) ==> r == [Separator]
    ensures p != [] && r != [Separator] ==> exists k :: ElementAt(p, r, k)
  {
    if p == [] then "."
    else
      var n := StrippedLength(p, |p|);
      var i := LastSeparatorBefore(p, n);
      var last := p[i + 1..n];
      assert forall j :: 0 <= j < |last| ==> last[j] == p[i + 1 + j];
      if last == [] then [Separator]
      else
        assert ElementAt(p, last, i + 1);
        last
  }

  /** A path holding a byte other than a separator has a base other than "/":
      its last element. */
  lemma BaseOfNonSeparators(p: GoString, j: nat)
    requires j < |p| && p[j] != Separator
    ensures Base(p) != [Separator] && exists k :: ElementAt(p, Base(p), k)
  {
  }

  /** The base of a directory path written with a trailing separator,
      `dir/name/`, is `name`, whatever `dir` is. */
  lemma BaseOfDirectory(dir: GoString, name: GoString)
    requires name != [] && Separator !in name
    ensures Base(dir + [Separator] + name + [Separator]) == name
  {
    var p := dir + [Separator] + name + [Separator];
    var q := dir + [Separator] + name;
    assert p[..|q|] == q;
    assert p[|q| - 1] == name[|name| - 1] != Separator;
    assert StrippedLength(p, |p|) == |q|;
    assert forall i :: |dir| < i < |q| ==> p[i] == name[i - |dir| - 1];
    assert p[|dir|] == Separator;
    assert LastSeparatorBefore(p, |q|) == |dir|;
    assert p[|dir| + 1..|q|] == name;
  }
}
