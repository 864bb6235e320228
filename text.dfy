/**
 * The string and sequence operations the header code borrows from Rust's core
 * library: `Iterator::position`, `str::split` on one character and `str::trim`.
 * The header's `splitn(2, '=')` is a cut at the first `=` found by `Position`.
 */
module Text {
  import opened Wrappers

  /** Index of the first `x` in `s`, or None when `s` has no `x`. */
  function Position<T(==)>(s: seq<T>, x: T): (r: Option<nat>)
    ensures r.None? <==> x !in s
    ensures r.Some? ==> r.value < |s| && s[r.value] == x && x !in s[..r.value]
  {
    if |s| == 0 then None
    else if s[0] == x then Some(0)
    else
      match Position(s[1..], x)
      case None => None
      case Some(i) =>
        assert s[..i + 1] == [s[0]] + s[1..][..i];
        Some(i + 1)
  }

  /** The first `x` of `pre + [x] + post` is the one right after `pre` when `pre` has none. */
  lemma PositionAfterPrefix<T>(pre: seq<T>, x: T, post: seq<T>)
    requires x !in pre
    ensures Position(pre + [x] + post, x) == Some(|pre|)
  {
    var s := pre + [x] + post;
    assert s[|pre|] == x;
    var r := Position(s, x);
    assert r.Some?;
    assert forall k :: 0 <= k < |pre| ==> s[k] == pre[k];
    forall j | |pre| < j <= |s|
      ensures x in s[..j]
    {
      assert s[..j][|pre|] == x;
    }
  }

  /** The inverse of Split: the parts glued back together with `sep` between them. */
  function Join<T>(parts: seq<seq<T>>, sep: T): seq<T>
  {
    if |parts| == 0 then []
    else if |parts| == 1 then parts[0]
    else parts[0] + [sep] + Join(parts[1..], sep)
  }

  lemma JoinThree<T>(parts: seq<seq<T>>, sep: T)
    requires |parts| == 3
    ensures Join(parts, sep) == parts[0] + [sep] + parts[1] + [sep] + parts[2]
  {
    assert parts[1..][1..] == [parts[2]];
    assert Join(parts[1..], sep) == parts[1] + [sep] + parts[2];
  }

  /** `f` applied to every element, in order. */
  function Map<A, B>(f: A -> B, s: seq<A>): (r: seq<B>)
    ensures |r| == |s|
    ensures forall i :: 0 <= i < |s| ==> r[i] == f(s[i])
  {
    seq(|s|, i requires 0 <= i < |s| => f(s[i]))
  }

  lemma MapAppend<A, B>(f: A -> B, a: seq<A>, b: seq<A>)
    ensures Map(f, a + b) == Map(f, a) + Map(f, b)
  {
    var l, r := Map(f, a + b), Map(f, a) + Map(f, b);
    forall i | 0 <= i < |l|
      ensures l[i] == r[i]
    {
      if i < |a| {
        assert (a + b)[i] == a[i];
      } else {
        assert (a + b)[i] == b[i - |a|];
      }
    }
  }

  /** Rust's `split(sep)`: the maximal runs between separators, empty ones included. */
  function Split<T(==)>(s: seq<T>, sep: T): (parts: seq<seq<T>>)
    ensures |parts| >= 1
    ensures forall i :: 0 <= i < |parts| ==> sep !in parts[i]
    ensures Join(parts, sep) == s
    decreases |s|
  {
    match Position(s, sep)
    case None => [s]
    case Some(i) =>
      var rest := Split(s[i + 1..], sep);
      assert ([s[..i]] + rest)[1..] == rest;
      assert s == s[..i] + [sep] + s[i + 1..];
      [s[..i]] + rest
  }

  /** Split undoes Join whenever no part holds the separator. */
  lemma {:induction false} SplitJoin<T>(parts: seq<seq<T>>, sep: T)
    requires |parts| >= 1
    requires forall i :: 0 <= i < |parts| ==> sep !in parts[i]
    ensures Split(Join(parts, sep), sep) == parts
  {
    if |parts| == 1 {
      assert Position(parts[0], sep) == None;
    } else {
      var head, tail := parts[0], Join(parts[1..], sep);
      var s := head + [sep] + tail;
      assert Join(parts, sep) == s;
      PositionAfterPrefix(head, sep, tail);
      assert s[..|head|] == head;
      assert s[|head| + 1..] == tail;
      assert Split(s, sep) == [head] + Split(tail, sep);
      SplitJoin(parts[1..], sep);
      assert parts == [head] + parts[1..];
    }
  }

  /** Unicode White_Space, the set Rust's `char::is_whitespace` accepts. */
  predicate IsWhitespace(c: char)
  {
    var n := c as int;
    (9 <= n <= 13) || n == 0x20 || n == 0x85 || n == 0xA0 || n == 0x1680
    || (0x2000 <= n <= 0x200A) || n == 0x2028 || n == 0x2029 || n == 0x202F
    || n == 0x205F || n == 0x3000
  }

  predicate AllWhitespace(s: string)
  {
    forall k :: 0 <= k < |s| ==> IsWhitespace(s[k])
  }

  /** Neither end of `s` is whitespace. */
  predicate IsTrimmed(s: string)
  {
    |s| == 0 || (!IsWhitespace(s[0]) && !IsWhitespace(s[|s| - 1]))
  }

  /** Length of the whitespace run that starts `s`. */
  function WhitespacePrefixLen(s: string): (n: nat)
    ensures n <= |s|
    ensures AllWhitespace(s[..n])
    ensures n < |s| ==> !IsWhitespace(s[n])
  {
    if |s| > 0 && IsWhitespace(s[0]) then 1 + WhitespacePrefixLen(s[1..]) else 0
  }

  /** Length of the whitespace run that ends `s`. */
  function WhitespaceSuffixLen(s: string): (n: nat)
    ensures n <= |s|
    ensures AllWhitespace(s[|s| - n..])
    ensures n < |s| ==> !IsWhitespace(s[|s| - 1 - n])
  {
    if |s| > 0 && IsWhitespace(s[|s| - 1]) then 1 + WhitespaceSuffixLen(s[..|s| - 1]) else 0
  }

  /** Rust's `str::trim`: `s` without its leading and trailing whitespace. */
  function Trim(s: string): (r: string)
    ensures IsTrimmed(r)
    ensures |r| <= |s|
  {
    var a := WhitespacePrefixLen(s);
    var rest := s[a..];
    var b := WhitespaceSuffixLen(rest);
    assert |rest| > 0 ==> !IsWhitespace(rest[0]);
    assert b == |rest| ==> rest[|rest| - b..] == rest;
    rest[..|rest| - b]
  }

  /** What Trim removes is whitespace at the two ends, and nothing else. */
  lemma TrimRemovesOnlyEdgeWhitespace(s: string)
    ensures exists i :: 0 <= i <= |s| - |Trim(s)| && s[i..i + |Trim(s)|] == Trim(s)
                        && AllWhitespace(s[..i]) && AllWhitespace(s[i + |Trim(s)|..])
  {
    var a := WhitespacePrefixLen(s);
    var rest := s[a..];
    var b := WhitespaceSuffixLen(rest);
    var r := Trim(s);
    assert r == rest[..|rest| - b];
    assert |r| == |rest| - b && a + |rest| == |s|;
    assert s[a..a + |r|] == r;
    assert s[a + |r|..] == rest[|rest| - b..];
    assert AllWhitespace(s[..a]) && AllWhitespace(s[a + |r|..]);
  }

  /** Trim only removes characters, so whatever `s` lacks its trimmed form lacks too. */
  lemma TrimKeepsAbsence(s: string, c: char)
    requires c !in s
    ensures c !in Trim(s)
  {
    var a := WhitespacePrefixLen(s);
    var rest := s[a..];
    var b := WhitespaceSuffixLen(rest);
    assert Trim(s) == rest[..|rest| - b];
    assert forall k :: 0 <= k < |Trim(s)| ==> Trim(s)[k] == s[a + k];
  }

  /**
   * Trim is determined by its contract: whatever lies between a whitespace
   * prefix and a whitespace suffix, with no whitespace at either end, is the
   * trimmed string.
   */
  lemma TrimUnique(pre: string, mid: string, post: string)
    requires AllWhitespace(pre) && AllWhitespace(post) && IsTrimmed(mid)
    ensures Trim(pre + mid + post) == mid
  {
    var s := pre + mid + post;
    if mid == [] {
      assert s == pre + post;
      assert AllWhitespace(s);
    } else {
      assert s == pre + (mid + post);
      WhitespacePrefixLenOf(pre, mid + post);
      assert s[|pre|..] == mid + post;
      WhitespaceSuffixLenOf(mid, post);
      assert (mid + post)[..|mid|] == mid;
    }
  }

  lemma {:induction false} WhitespacePrefixLenOf(pre: string, rest: string)
    requires AllWhitespace(pre) && |rest| > 0 && !IsWhitespace(rest[0])
    ensures WhitespacePrefixLen(pre + rest) == |pre|
  {
    if pre != [] {
      assert (pre + rest)[1..] == pre[1..] + rest;
      WhitespacePrefixLenOf(pre[1..], rest);
    }
  }

  lemma {:induction false} WhitespaceSuffixLenOf(rest: string, post: string)
    requires AllWhitespace(post) && |rest| > 0 && !IsWhitespace(rest[|rest| - 1])
    ensures WhitespaceSuffixLen(rest + post) == |post|
  {
    if post != [] {
      var s := rest + post;
      assert s[..|s| - 1] == rest + post[..|post| - 1];
      WhitespaceSuffixLenOf(rest, post[..|post| - 1]);
    }
  }

  /** A string with no whitespace at either end is its own trimmed form. */
  lemma TrimOfTrimmed(s: string)
    requires IsTrimmed(s)
    ensures Trim(s) == s
  {
    TrimUnique([], s, []);
    assert [] + s + [] == s;
  }

  /** Trimming twice is trimming once. */
  lemma TrimIdempotent(s: string)
    ensures Trim(Trim(s)) == Trim(s)
  {
    TrimOfTrimmed(Trim(s));
  }
}
