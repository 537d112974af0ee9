/**
 * The few operations on Python `str` values that the connection-URL handling
 * uses: `c in s`, `s.find(c)`, `s.rfind(c)`, `s.split(c)`, `s.startswith(p)`,
 * `t in s` for a substring and `s.replace(pattern, replacement, 1)`.
 */
module Text {

  /** `s.find(c)` for a single character: the first index of `c`, or -1. */
  function Find(s: string, c: char): (r: int)
    ensures -1 <= r < |s|
    ensures r == -1 <==> c !in s
    ensures 0 <= r ==> s[r] == c && c !in s[..r]
  {
    if |s| == 0 then -1
    else if s[0] == c then 0
    else
      var k := Find(s[1..], c);
      if k == -1 then -1
      else
        assert s[..k + 1] == [s[0]] + s[1..][..k];
        k + 1
  }

  /** `s.rfind(c)` for a single character: the last index of `c`, or -1. */
  function RFind(s: string, c: char): (r: int)
    ensures -1 <= r < |s|
    ensures r == -1 <==> c !in s
    ensures 0 <= r ==> s[r] == c && c !in s[r + 1..]
  {
    if |s| == 0 then -1
    else if s[|s| - 1] == c then |s| - 1
    else
      var k := RFind(s[..|s| - 1], c);
      assert k == -1 ==> forall i | 0 <= i < |s| :: s[i] != c by {
        forall i | 0 <= i < |s| ensures k == -1 ==> s[i] != c {
          if i < |s| - 1 { assert s[i] == s[..|s| - 1][i]; }
        }
      }
      if k == -1 then -1
      else
        assert s[k + 1..] == s[..|s| - 1][k + 1..] + [s[|s| - 1]];
        k
  }

  /** The text of `s` before the first `c`; all of `s` when `c` does not occur. */
  function Before(s: string, c: char): (r: string)
    ensures c !in r
    ensures |r| <= |s| && r == s[..|r|]
    ensures |r| < |s| ==> s[|r|] == c
  {
    var i := Find(s, c);
    if i < 0 then s else s[..i]
  }

  /** The text of `s` after its first `c`. */
  function After(s: string, c: char): (r: string)
    requires c in s
    ensures s == Before(s, c) + [c] + r
  {
    s[Find(s, c) + 1..]
  }

  /** An index that holds `c` with no `c` before it is what `Find` returns. */
  lemma FindIs(s: string, c: char, i: int)
    requires 0 <= i < |s| && s[i] == c && c !in s[..i]
    ensures Find(s, c) == i
  {
    var r := Find(s, c);
    forall j | 0 <= j < i ensures s[j] != c { assert s[j] == s[..i][j]; }
    forall j | 0 <= j < r ensures s[j] != c { assert s[j] == s[..r][j]; }
  }

  /** The text before an index that holds the first `c`. */
  lemma BeforeIs(s: string, c: char, i: int)
    requires 0 <= i < |s| && s[i] == c && c !in s[..i]
    ensures Before(s, c) == s[..i]
  {
    FindIs(s, c, i);
  }

  /** The text before the first `c` is the same in `s` and in a prefix of `s` that holds a `c`. */
  lemma BeforeInPrefix(s: string, n: int, c: char)
    requires 0 <= n <= |s| && c in s[..n]
    ensures Before(s[..n], c) == Before(s, c)
  {
    var i := Find(s[..n], c);
    assert s[i] == c;
    assert s[..i] == s[..n][..i];
    FindIs(s, c, i);
  }

  /** An index that holds `c` with no `c` after it is what `RFind` returns. */
  lemma RFindIs(s: string, c: char, i: int)
    requires 0 <= i < |s| && s[i] == c && c !in s[i + 1..]
    ensures RFind(s, c) == i
  {
    var r := RFind(s, c);
    forall j | i < j < |s| ensures s[j] != c { assert s[j] == s[i + 1..][j - i - 1]; }
    forall j | r < j < |s| ensures s[j] != c { assert s[j] == s[r + 1..][j - r - 1]; }
  }

  /**
   * `s.split(sep)` for a one-character separator: the maximal pieces of `s`
   * that do not contain `sep`, in order, one more piece than there are
   * occurrences of `sep`.
   */
  function Split(s: string, sep: char): (parts: seq<string>)
    ensures |parts| >= 1
    ensures sep in s <==> |parts| >= 2
    ensures parts[0] == Before(s, sep)
    ensures sep in s ==> parts[1] == Before(After(s, sep), sep)
    decreases |s|
  {
    if sep !in s then [s]
    else [Before(s, sep)] + Split(After(s, sep), sep)
  }

  /** No piece of a split holds the separator. */
  lemma {:induction false} SplitPiecesLackSeparator(s: string, sep: char)
    ensures forall i | 0 <= i < |Split(s, sep)| :: sep !in Split(s, sep)[i]
    decreases |s|
  {
    if sep in s {
      var rest := After(s, sep);
      SplitPiecesLackSeparator(rest, sep);
      var parts, tail := Split(s, sep), Split(rest, sep);
      assert parts[1..] == tail;
      forall k | 0 <= k < |parts| ensures sep !in parts[k] {
        if k > 0 { assert parts[k] == parts[1..][k - 1]; }
      }
    }
  }

  /** `sep.join(parts)`: the pieces with `sep` between consecutive ones. */
  function Join(parts: seq<string>, sep: char): (r: string)
    decreases |parts|
  {
    if |parts| == 0 then ""
    else if |parts| == 1 then parts[0]
    else parts[0] + [sep] + Join(parts[1..], sep)
  }

  /** Splitting loses nothing: joining the pieces again gives back the text. */
  lemma {:induction false} JoinSplit(s: string, sep: char)
    ensures Join(Split(s, sep), sep) == s
    decreases |s|
  {
    if sep in s {
      var rest := After(s, sep);
      JoinSplit(rest, sep);
      assert Split(s, sep)[1..] == Split(rest, sep);
    }
  }

  /** Joining pieces free of `sep` and splitting again gives back the pieces. */
  lemma {:induction false} SplitJoin(parts: seq<string>, sep: char)
    requires |parts| >= 1
    requires forall i | 0 <= i < |parts| :: sep !in parts[i]
    ensures Split(Join(parts, sep), sep) == parts
    decreases |parts|
  {
    if |parts| > 1 {
      var tail := Join(parts[1..], sep);
      var s := parts[0] + [sep] + tail;
      var n := |parts[0]|;
      assert s[n] == sep && s[..n] == parts[0];
      FindIs(s, sep, n);
      assert After(s, sep) == tail;
      SplitJoin(parts[1..], sep);
    }
  }

  /** `s.startswith(p)`. */
  predicate StartsWith(s: string, p: string) {
    |p| <= |s| && s[..|p|] == p
  }

  /** `t` occurs in `s` at index `i`. */
  predicate OccursAt(s: string, t: string, i: int) {
    0 <= i && i + |t| <= |s| && s[i..i + |t|] == t
  }

  /** Python's substring test `t in s`. */
  predicate Contains(s: string, t: string) {
    exists i | 0 <= i <= |s| - |t| :: OccursAt(s, t, i)
  }

  /** `s.find(t)` for a substring: the first index where `t` occurs, or -1. */
  function FindSub(s: string, t: string): (r: int)
    ensures r == -1 || 0 <= r <= |s| - |t|
    ensures r == -1 <==> !Contains(s, t)
    ensures 0 <= r ==> OccursAt(s, t, r)
    ensures 0 <= r ==> forall j | 0 <= j < r :: !OccursAt(s, t, j)
    decreases |s|
  {
    if |t| > |s| then -1
    else if s[..|t|] == t then
      assert OccursAt(s, t, 0);
      0
    else
      var k := FindSub(s[1..], t);
      forall j | 1 <= j <= |s| - |t| ensures OccursAt(s, t, j) == OccursAt(s[1..], t, j - 1) {
        OccursAtTail(s, t, j);
      }
      if k == -1 then -1
      else
        assert OccursAt(s[1..], t, k);
        assert OccursAt(s, t, k + 1);
        k + 1
  }

  /** An occurrence at `j` > 0 is an occurrence at `j - 1` in the tail. */
  lemma OccursAtTail(s: string, t: string, j: int)
    requires 1 <= j <= |s| - |t|
    ensures OccursAt(s, t, j) == OccursAt(s[1..], t, j - 1)
  {
    var here, there := s[j..j + |t|], s[1..][j - 1..j - 1 + |t|];
    forall k | 0 <= k < |t| ensures here[k] == there[k] {
      assert here[k] == s[j + k] && there[k] == s[1..][j - 1 + k];
    }
    assert here == there;
  }

  /** `s.replace(pattern, replacement, 1)`: the first occurrence of `pattern` replaced by `replacement`. */
  function ReplaceFirst(s: string, pattern: string, replacement: string): (r: string)
    ensures !Contains(s, pattern) ==> r == s
    ensures StartsWith(s, pattern) ==> r == replacement + s[|pattern|..]
  {
    var i := FindSub(s, pattern);
    if i < 0 then s
    else
      assert StartsWith(s, pattern) ==> OccursAt(s, pattern, 0);
      s[..i] + replacement + s[i + |pattern|..]
  }
}
