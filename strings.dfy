/**
 * The Python string operations the workspace scanner relies on, written out
 * over sequences: `str.count` for a one-character needle, `str.find`, the
 * substring operator `in`, `str.endswith`, `str.split` on one separator and
 * `sep.join`, and the "drop the last segment" expression built from them.
 */
module Strings {

  /** Number of occurrences of `x` in `s` (Python's `s.count(x)` for a one-character `x`). */
  function Count<T(==)>(s: seq<T>, x: T): (n: nat)
    ensures n <= |s|
    ensures n == 0 <==> x !in s
  {
    if s == [] then 0 else (if s[0] == x then 1 else 0) + Count(s[1..], x)
  }

  /** Count agrees with the multiplicity of `x` in the multiset of `s`. */
  lemma {:induction false} CountIsMultiplicity<T>(s: seq<T>, x: T)
    ensures Count(s, x) == multiset(s)[x]
  {
    if s != [] {
      CountIsMultiplicity(s[1..], x);
      assert s == [s[0]] + s[1..];
      assert multiset(s) == multiset([s[0]]) + multiset(s[1..]);
    }
  }

  /** Counting distributes over concatenation. */
  lemma {:induction false} CountConcat<T>(s: seq<T>, t: seq<T>, x: T)
    ensures Count(s + t, x) == Count(s, x) + Count(t, x)
  {
    if s == [] {
      assert s + t == t;
    } else {
      assert (s + t)[1..] == s[1..] + t;
      CountConcat(s[1..], t, x);
    }
  }

  /** `pat` occurs in `s` starting at index `i`. */
  predicate OccursAt<T(==)>(s: seq<T>, pat: seq<T>, i: nat)
  {
    i + |pat| <= |s| && s[i..i + |pat|] == pat
  }

  lemma OccursAtTail<T>(s: seq<T>, pat: seq<T>, k: nat)
    requires s != []
    ensures OccursAt(s, pat, k + 1) <==> OccursAt(s[1..], pat, k)
  {
    if k + 1 + |pat| <= |s| {
      assert s[1..][k..k + |pat|] == s[k + 1..k + 1 + |pat|];
    }
  }

  /**
   * Python's `s.find(pat)`: the least index at which `pat` occurs in `s`,
   * or -1 when it occurs nowhere.
   */
  function Find<T(==)>(s: seq<T>, pat: seq<T>): (r: int)
    ensures -1 <= r <= |s|
    decreases |s|
  {
    if OccursAt(s, pat, 0) then 0
    else if s == [] then -1
    else
      var r := Find(s[1..], pat);
      if r < 0 then -1 else r + 1
  }

  /** `Find` returns the first index at which `pat` occurs, and -1 exactly when it occurs nowhere. */
  lemma {:induction false} FindSpec<T>(s: seq<T>, pat: seq<T>)
    ensures Find(s, pat) >= 0 ==> OccursAt(s, pat, Find(s, pat))
    ensures Find(s, pat) >= 0 ==> forall k: nat :: k < Find(s, pat) ==> !OccursAt(s, pat, k)
    ensures Find(s, pat) == -1 ==> forall k: nat :: k <= |s| ==> !OccursAt(s, pat, k)
    decreases |s|
  {
    if !OccursAt(s, pat, 0) && s != [] {
      FindSpec(s[1..], pat);
      FindStep(s, pat, Find(s[1..], pat));
    }
  }

  /** An occurrence with none before it is what `Find` returns. */
  lemma FindFirst<T>(s: seq<T>, pat: seq<T>, i: nat)
    requires OccursAt(s, pat, i)
    requires forall k: nat :: k < i ==> !OccursAt(s, pat, k)
    ensures Find(s, pat) == i
  {
    FindSpec(s, pat);
  }

  /** One step of the search: what holds of the tail carries over to the whole sequence. */
  lemma FindStep<T>(s: seq<T>, pat: seq<T>, r: int)
    requires s != [] && !OccursAt(s, pat, 0)
    requires -1 <= r <= |s| - 1
    requires r >= 0 ==> OccursAt(s[1..], pat, r)
    requires r >= 0 ==> forall k: nat :: k < r ==> !OccursAt(s[1..], pat, k)
    requires r == -1 ==> forall k: nat :: k <= |s| - 1 ==> !OccursAt(s[1..], pat, k)
    ensures r >= 0 ==> OccursAt(s, pat, r + 1)
    ensures r >= 0 ==> forall k: nat :: k < r + 1 ==> !OccursAt(s, pat, k)
    ensures r == -1 ==> forall k: nat :: k <= |s| ==> !OccursAt(s, pat, k)
  {
    forall k: nat | k < |s| ensures OccursAt(s, pat, k + 1) <==> OccursAt(s[1..], pat, k) {
      OccursAtTail(s, pat, k);
    }
    if r >= 0 {
      OccursAtTail(s, pat, r);
      forall k: nat | 0 < k < r + 1 ensures !OccursAt(s, pat, k) {
        OccursAtTail(s, pat, k - 1);
      }
    } else {
      forall k: nat | 0 < k <= |s| ensures !OccursAt(s, pat, k) {
        OccursAtTail(s, pat, k - 1);
      }
    }
  }

  /** Extending a sequence keeps the first occurrence of a pattern it already holds. */
  lemma FindExtend<T>(s: seq<T>, t: seq<T>, pat: seq<T>)
    requires Find(s, pat) >= 0
    ensures Find(s + t, pat) == Find(s, pat)
  {
    var r := Find(s, pat);
    FindSpec(s, pat);
    assert (s + t)[r..r + |pat|] == s[r..r + |pat|];
    assert OccursAt(s + t, pat, r);
    forall k: nat | k < r ensures !OccursAt(s + t, pat, k) {
      assert !OccursAt(s, pat, k);
      assert (s + t)[k..k + |pat|] == s[k..k + |pat|];
    }
    FindFirst(s + t, pat, r);
  }

  /** Python's `pat in s`: some occurrence of `pat` anywhere in `s`. */
  predicate Contains<T(==)>(s: seq<T>, pat: seq<T>)
  {
    Find(s, pat) != -1
  }

  /** `pat in s` holds exactly when `pat` occurs in `s` at some index. */
  lemma ContainsIff<T>(s: seq<T>, pat: seq<T>)
    ensures Contains(s, pat) <==> exists i: nat :: i <= |s| && OccursAt(s, pat, i)
  {
    FindSpec(s, pat);
    if Contains(s, pat) {
      assert OccursAt(s, pat, Find(s, pat));
    }
  }

  /** An occurrence at a known index is found. */
  lemma OccursAtContains<T>(s: seq<T>, pat: seq<T>, i: nat)
    requires OccursAt(s, pat, i)
    ensures Contains(s, pat)
  {
    ContainsIff(s, pat);
  }

  /** Python's `s.endswith(suffix)`, comparing from the last element backwards. */
  predicate EndsWith<T(==)>(s: seq<T>, suffix: seq<T>): (r: bool)
    ensures r <==> |suffix| <= |s| && s[|s| - |suffix|..] == suffix
    decreases |suffix|
  {
    if suffix == [] then true
    else if s == [] then false
    else s[|s| - 1] == suffix[|suffix| - 1] && EndsWith(s[..|s| - 1], suffix[..|suffix| - 1])
  }

  /** A concatenation ends with its second part. */
  lemma EndsWithAppend<T>(x: seq<T>, y: seq<T>)
    ensures EndsWith(x + y, y)
  {
    assert (x + y)[|x + y| - |y|..] == y;
  }

  /**
   * Python's `s.split(sep)` for a one-element separator: the maximal
   * separator-free pieces between separators, empty pieces included.
   */
  function Split<T(==)>(s: seq<T>, sep: T): (parts: seq<seq<T>>)
    ensures |parts| >= 1
    decreases |s|
  {
    if s == [] then [[]]
    else
      var rest := Split(s[1..], sep);
      if s[0] == sep then [[]] + rest
      else [[s[0]] + rest[0]] + rest[1..]
  }

  /** A split has one piece more than there are separators, and no piece holds a separator. */
  lemma {:induction false} SplitShape<T>(s: seq<T>, sep: T)
    ensures |Split(s, sep)| == Count(s, sep) + 1
    ensures forall i :: 0 <= i < |Split(s, sep)| ==> sep !in Split(s, sep)[i]
    decreases |s|
  {
    if s != [] {
      SplitShape(s[1..], sep);
      var rest := Split(s[1..], sep);
      var parts := Split(s, sep);
      if s[0] == sep {
        assert forall i :: 1 <= i < |parts| ==> parts[i] == rest[i - 1];
      } else {
        assert forall i :: 1 <= i < |parts| ==> parts[i] == rest[i];
        assert parts[0] == [s[0]] + rest[0];
      }
    }
  }

  /** Python's `sep.join(parts)`. */
  function Join<T>(parts: seq<seq<T>>, sep: T): (s: seq<T>)
    ensures |parts| == 1 ==> s == parts[0]
    decreases |parts|
  {
    if |parts| == 0 then []
    else if |parts| == 1 then parts[0]
    else parts[0] + [sep] + Join(parts[1..], sep)
  }

  /** Joining the pieces of a split gives back the original sequence. */
  lemma {:induction false} JoinSplit<T>(s: seq<T>, sep: T)
    ensures Join(Split(s, sep), sep) == s
    decreases |s|
  {
    if s != [] {
      var rest := Split(s[1..], sep);
      JoinSplit(s[1..], sep);
      if s[0] == sep {
        assert Split(s, sep) == [[]] + rest;
        assert ([[]] + rest)[1..] == rest;
        assert s == [sep] + s[1..];
      } else if |rest| == 1 {
        assert s == [s[0]] + s[1..];
      } else {
        var parts := Split(s, sep);
        assert parts[1..] == rest[1..];
        assert Join(rest, sep) == rest[0] + [sep] + Join(rest[1..], sep);
        assert s == [s[0]] + s[1..];
      }
    }
  }

  /** A sequence free of the separator splits into itself alone. */
  lemma {:induction false} SplitNoSep<T>(s: seq<T>, sep: T)
    requires sep !in s
    ensures Split(s, sep) == [s]
    decreases |s|
  {
    if s != [] {
      assert sep !in s[1..];
      SplitNoSep(s[1..], sep);
      assert s == [s[0]] + s[1..];
    }
  }

  /** Splitting past a leading separator starts with an empty piece. */
  lemma SplitConsSep<T>(t: seq<T>, sep: T)
    ensures Split([sep] + t, sep) == [[]] + Split(t, sep)
  {
    assert ([sep] + t)[1..] == t;
  }

  /** Any other leading element joins the first piece. */
  lemma SplitConsOther<T>(x: T, t: seq<T>, sep: T)
    requires x != sep
    ensures Split([x] + t, sep) == [[x] + Split(t, sep)[0]] + Split(t, sep)[1..]
  {
    assert ([x] + t)[1..] == t;
  }

  /** Splitting `a + [sep] + b` splits `a` and `b` separately and concatenates the pieces. */
  lemma {:induction false} SplitAppend<T>(a: seq<T>, sep: T, b: seq<T>)
    ensures Split(a + [sep] + b, sep) == Split(a, sep) + Split(b, sep)
    decreases |a|
  {
    if a == [] {
      assert a + [sep] + b == [sep] + b;
      SplitConsSep(b, sep);
    } else {
      var tail := a[1..];
      assert a == [a[0]] + tail;
      assert a + [sep] + b == [a[0]] + (tail + [sep] + b);
      SplitAppend(tail, sep, b);
      SplitConsAppend(a[0], Split(tail, sep), Split(b, sep), tail + [sep] + b, tail, sep);
    }
  }

  /** The inductive step of `SplitAppend`, with the pieces of the tail given names. */
  lemma SplitConsAppend<T>(x: T, pa: seq<seq<T>>, pb: seq<seq<T>>, u: seq<T>, tail: seq<T>, sep: T)
    requires |pa| >= 1
    requires pa == Split(tail, sep) && Split(u, sep) == pa + pb
    ensures Split([x] + u, sep) == Split([x] + tail, sep) + pb
  {
    if x != sep {
      SplitConsOtherAppend(x, pa, pb, u, tail, sep);
    } else {
      SplitConsSepAppend(pa, pb, u, tail, sep);
    }
  }

  /** The case of `SplitConsAppend` where the new element is not a separator. */
  lemma SplitConsOtherAppend<T>(x: T, pa: seq<seq<T>>, pb: seq<seq<T>>, u: seq<T>, tail: seq<T>, sep: T)
    requires x != sep && |pa| >= 1
    requires pa == Split(tail, sep) && Split(u, sep) == pa + pb
    ensures Split([x] + u, sep) == Split([x] + tail, sep) + pb
  {
    SplitConsOther(x, tail, sep);
    SplitConsOther(x, u, sep);
    ExtendHead([x], pa, pb);
  }

  /** The case of `SplitConsAppend` where the new element is a separator. */
  lemma SplitConsSepAppend<T>(pa: seq<seq<T>>, pb: seq<seq<T>>, u: seq<T>, tail: seq<T>, sep: T)
    requires pa == Split(tail, sep) && Split(u, sep) == pa + pb
    ensures Split([sep] + u, sep) == Split([sep] + tail, sep) + pb
  {
    SplitConsSep(tail, sep);
    SplitConsSep(u, sep);
    ConsAssoc([], pa, pb);
  }

  /** Appending nothing changes nothing. */
  lemma AppendEmpty<T>(a: seq<T>)
    ensures a + [] == a
  {
  }

  /** Concatenation is associative. */
  lemma AppendAssoc<T>(a: seq<T>, b: seq<T>, c: seq<T>)
    ensures (a + b) + c == a + (b + c)
  {
  }

  /** Prepending an element commutes with appending more elements. */
  lemma ConsAssoc<T>(h: T, p: seq<T>, q: seq<T>)
    ensures [h] + (p + q) == ([h] + p) + q
  {
  }

  /** Prepending to the first piece commutes with appending more pieces. */
  lemma ExtendHead<T>(y: seq<T>, p: seq<seq<T>>, q: seq<seq<T>>)
    requires |p| >= 1
    ensures [y + (p + q)[0]] + (p + q)[1..] == ([y + p[0]] + p[1..]) + q
  {
    assert (p + q)[1..] == p[1..] + q;
  }

  /** Splitting a join of separator-free pieces gives back the pieces. */
  lemma {:induction false} SplitJoin<T>(parts: seq<seq<T>>, sep: T)
    requires |parts| >= 1
    requires forall i :: 0 <= i < |parts| ==> sep !in parts[i]
    ensures Split(Join(parts, sep), sep) == parts
    decreases |parts|
  {
    if |parts| == 1 {
      SplitNoSep(parts[0], sep);
    } else {
      SplitJoin(parts[1..], sep);
      SplitAppend(parts[0], sep, Join(parts[1..], sep));
      SplitNoSep(parts[0], sep);
      assert parts == [parts[0]] + parts[1..];
    }
  }

  /** Joining all but the last piece, then the separator and the last piece, is the whole join. */
  lemma {:induction false} JoinSnoc<T>(parts: seq<seq<T>>, sep: T)
    requires |parts| >= 2
    ensures Join(parts, sep) == Join(parts[..|parts| - 1], sep) + [sep] + parts[|parts| - 1]
    decreases |parts|
  {
    if |parts| > 2 {
      JoinSnoc(parts[1..], sep);
      assert parts[1..][..|parts| - 2] == parts[..|parts| - 1][1..];
    }
  }

  /** `sep.join(s.split(sep)[:-1])`: `s` with its last separator-delimited segment removed. */
  function DropLastSegment<T(==)>(s: seq<T>, sep: T): (parent: seq<T>)
  {
    var parts := Split(s, sep);
    Join(parts[..|parts| - 1], sep)
  }

  /** The last separator-delimited segment of `s`. */
  function LastSegment<T(==)>(s: seq<T>, sep: T): (last: seq<T>)
    ensures sep !in last
  {
    SplitShape(s, sep);
    var parts := Split(s, sep);
    parts[|parts| - 1]
  }

  /**
   * When `s` holds the separator, the dropped-segment prefix, the separator
   * and the last segment put back together are `s`.
   */
  lemma DropLastSegmentDecomposes<T>(s: seq<T>, sep: T)
    requires sep in s
    ensures DropLastSegment(s, sep) + [sep] + LastSegment(s, sep) == s
  {
    var parts := Split(s, sep);
    SplitShape(s, sep);
    assert |parts| >= 2;
    JoinSnoc(parts, sep);
    JoinSplit(s, sep);
  }

  /** Without a separator, nothing is left once the only segment is dropped. */
  lemma DropLastSegmentNoSep<T>(s: seq<T>, sep: T)
    requires sep !in s
    ensures DropLastSegment(s, sep) == []
  {
    SplitNoSep(s, sep);
  }

  /** The parent of `prefix + [sep] + last`, for a separator-free `last`, is exactly `prefix`. */
  lemma DropLastSegmentOfAppend<T>(prefix: seq<T>, sep: T, last: seq<T>)
    requires sep !in last
    ensures DropLastSegment(prefix + [sep] + last, sep) == prefix
    ensures LastSegment(prefix + [sep] + last, sep) == last
  {
    SplitAppend(prefix, sep, last);
    SplitNoSep(last, sep);
    var parts := Split(prefix + [sep] + last, sep);
    assert parts[..|parts| - 1] == Split(prefix, sep);
    JoinSplit(prefix, sep);
  }
}
