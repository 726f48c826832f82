/**
 * Byte strings and the pieces of Go's `strings` and `bufio` packages the
 * header codec relies on: searching for a delimiter, `strings.Split` and
 * `strings.Join` with a one-byte separator.
 */
module Strings {
  import opened Wrappers

  /** A Go byte: a character whose code is below 256, so one element is one byte on the wire. */
  type byte = c: char | c as int < 256

  /** A Go `string` or `[]byte`. */
  type Bytes = seq<byte>

  /** The index of the first `d` in `s[from..]`, or None when `s[from..]` holds no `d`. */
  function IndexFrom(s: Bytes, from: nat, d: byte): (r: Option<nat>)
    requires from <= |s|
    ensures r.Some? ==> from <= r.value < |s|
    decreases |s| - from
  {
    if from == |s| then None
    else if s[from] == d then Some(from)
    else IndexFrom(s, from + 1, d)
  }

  /** IndexFrom finds an occurrence of `d`, and no earlier one; None means there is none. */
  lemma {:induction false} IndexFromFirst(s: Bytes, from: nat, d: byte)
    requires from <= |s|
    ensures IndexFrom(s, from, d).Some? ==>
      var i := IndexFrom(s, from, d).value;
      s[i] == d && forall k :: from <= k < i ==> s[k] != d
    ensures IndexFrom(s, from, d).None? ==> forall k :: from <= k < |s| ==> s[k] != d
    decreases |s| - from
  {
    if from < |s| && s[from] != d {
      IndexFromFirst(s, from + 1, d);
    }
  }

  /** So IndexFrom is determined by where the first `d` is. */
  lemma IndexFromIs(s: Bytes, from: nat, d: byte, r: Option<nat>)
    requires from <= |s|
    requires r.Some? ==> from <= r.value < |s| && s[r.value] == d
    requires r.Some? ==> forall k :: from <= k < r.value ==> s[k] != d
    requires r.None? ==> forall k :: from <= k < |s| ==> s[k] != d
    ensures IndexFrom(s, from, d) == r
  {
    IndexFromFirst(s, from, d);
  }

  /** `strings.Join(parts, string(sep))`: the parts with one `sep` between neighbours. */
  function Join(parts: seq<Bytes>, sep: byte): (r: Bytes)
  {
    if |parts| == 0 then []
    else if |parts| == 1 then parts[0]
    else parts[0] + [sep] + Join(parts[1..], sep)
  }

  /**
   * `strings.Split(s, string(sep))`: the maximal pieces of `s` between
   * occurrences of `sep`; a string without `sep` is one piece.
   */
  function Split(s: Bytes, sep: byte): (r: seq<Bytes>)
    decreases |s|
  {
    match IndexFrom(s, 0, sep)
    case None => [s]
    case Some(i) => [s[..i]] + Split(s[i + 1..], sep)
  }

  /** IndexFrom looks no further than the delimiter it finds: buffers agreeing up to there agree on it. */
  lemma IndexFromPrefix(s: Bytes, t: Bytes, from: nat, n: nat, d: byte)
    requires from <= |s| && IndexFrom(s, from, d).Some? && IndexFrom(s, from, d).value < n
    requires n <= |s| && n <= |t| && t[..n] == s[..n]
    ensures from <= |t| && IndexFrom(t, from, d) == IndexFrom(s, from, d)
    ensures t[from..IndexFrom(s, from, d).value] == s[from..IndexFrom(s, from, d).value]
  {
    var i := IndexFrom(s, from, d).value;
    IndexFromFirst(s, from, d);
    forall k | from <= k <= i
      ensures t[k] == s[k]
    {
      assert t[..n][k] == s[..n][k];
    }
    IndexFromIs(t, from, d, Some(i));
  }

  /** A slice holding `x + y` holds `x`, then `y`. */
  lemma SliceParts(s: Bytes, pos: nat, x: Bytes, y: Bytes)
    requires pos + |x| + |y| <= |s| && s[pos..pos + |x| + |y|] == x + y
    ensures s[pos..pos + |x|] == x && s[pos + |x|..pos + |x| + |y|] == y
  {
    assert s[pos..pos + |x|] == s[pos..pos + |x| + |y|][..|x|];
    assert s[pos + |x|..pos + |x| + |y|] == s[pos..pos + |x| + |y|][|x|..];
  }

  /** The pieces of `a + b + c + d` sit where their lengths put them. */
  lemma ConcatParts(a: Bytes, b: Bytes, c: Bytes, d: Bytes)
    ensures var s := a + b + c + d;
      && s[..|a|] == a
      && s[|a|..|a| + |b|] == b
      && s[|a| + |b|..|a| + |b| + |c|] == c
  {
    var s := a + b + c + d;
    assert s == a + (b + (c + d));
    assert s[|a|..] == b + (c + d);
    assert s[|a|..|a| + |b|] == s[|a|..][..|b|];
    assert s[|a| + |b|..] == c + d;
    assert s[|a| + |b|..|a| + |b| + |c|] == s[|a| + |b|..][..|c|];
  }

  /** A buffer's tail holding a prefix of `x + y` that covers `x` holds `x`, then a prefix of `y`. */
  lemma PrefixParts(s: Bytes, pos: nat, x: Bytes, y: Bytes)
    requires pos + |x| <= |s| && |s| - pos <= |x| + |y| && s[pos..] == (x + y)[..|s| - pos]
    ensures s[pos..pos + |x|] == x && s[pos + |x|..] == y[..|s| - pos - |x|]
  {
    var m := |s| - pos;
    assert s[pos..pos + |x|] == s[pos..][..|x|];
    assert (x + y)[..m][..|x|] == x;
    assert s[pos + |x|..] == s[pos..][|x|..];
    assert (x + y)[..m][|x|..] == y[..m - |x|];
  }

  /** Joining the pieces of a split with the separator gives back the string. */
  lemma {:induction false} SplitJoin(s: Bytes, sep: byte)
    ensures Join(Split(s, sep), sep) == s
    decreases |s|
  {
    IndexFromFirst(s, 0, sep);
    match IndexFrom(s, 0, sep)
    case None =>
    case Some(i) =>
      SplitJoin(s[i + 1..], sep);
      SplitPieces(s[i + 1..], sep);
      assert s == s[..i] + [sep] + s[i + 1..];
  }

  /**
   * A split has at least one piece, no piece holds the separator, and there
   * are two or more pieces exactly when the string holds the separator.
   */
  lemma {:induction false} SplitPieces(s: Bytes, sep: byte)
    ensures |Split(s, sep)| >= 1
    ensures forall i :: 0 <= i < |Split(s, sep)| ==> sep !in Split(s, sep)[i]
    ensures |Split(s, sep)| >= 2 <==> sep in s
    decreases |s|
  {
    IndexFromFirst(s, 0, sep);
    match IndexFrom(s, 0, sep)
    case None =>
    case Some(i) =>
      SplitPieces(s[i + 1..], sep);
      var parts := Split(s, sep);
      assert parts == [s[..i]] + Split(s[i + 1..], sep);
      forall j | 0 <= j < |parts| ensures sep !in parts[j] {
        if j == 0 {
          assert forall k :: 0 <= k < i ==> s[..i][k] != sep;
        } else {
          assert parts[j] == Split(s[i + 1..], sep)[j - 1];
        }
      }
  }

  /** Splitting at every `sep` and re-joining all but the first piece cuts `s` at its first `sep`. */
  lemma SplitAtFirst(s: Bytes, sep: byte, i: nat)
    requires IndexFrom(s, 0, sep) == Some(i)
    ensures |Split(s, sep)| >= 2
    ensures Split(s, sep)[0] == s[..i]
    ensures Join(Split(s, sep)[1..], sep) == s[i + 1..]
  {
    var parts := Split(s, sep);
    assert parts == [s[..i]] + Split(s[i + 1..], sep);
    assert parts[1..] == Split(s[i + 1..], sep);
    SplitPieces(s[i + 1..], sep);
    SplitJoin(s[i + 1..], sep);
  }
}
