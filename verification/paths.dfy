/** String arithmetic on `/`-separated paths, as the file tree performs it:
    `split('/')`, `join('/')`, `filter(Boolean).length`, `startsWith` and the
    relational `<` on strings. Every structural fact of the tree (depth,
    parent, ancestry) is derived from these, never from explicit links. */
module Paths {

  const Separator: char := '/'

  /** The root folder's path: the separator alone. */
  const Root: string := [Separator]

  /** JavaScript's `s.startsWith(prefix)`. */
  predicate StartsWith(s: string, prefix: string) {
    prefix <= s
  }

  /** JavaScript's `a < b` on strings: lexicographic order on character
      ordinals, where a proper prefix is smaller. */
  predicate Less(a: string, b: string)
    decreases |a|
  {
    if |b| == 0 then false
    else if |a| == 0 then true
    else if a[0] != b[0] then a[0] < b[0]
    else Less(a[1..], b[1..])
  }

  lemma {:induction false} LessAsymmetric(a: string, b: string)
    ensures !(Less(a, b) && Less(b, a))
    decreases |a|
  {
    if |a| > 0 && |b| > 0 && a[0] == b[0] {
      LessAsymmetric(a[1..], b[1..]);
    }
  }

  /** Two different strings are always ordered one way or the other. */
  lemma {:induction false} LessTotal(a: string, b: string)
    requires a != b
    ensures Less(a, b) || Less(b, a)
    decreases |a|
  {
    if |a| > 0 && |b| > 0 && a[0] == b[0] {
      assert a == [a[0]] + a[1..] && b == [b[0]] + b[1..];
      LessTotal(a[1..], b[1..]);
    }
  }

  /** `a < b` holds when `a` agrees with `b` up to position `k` and then
      either ends or has a smaller character there. */
  lemma {:induction false} LessByFirstDifference(a: string, b: string, k: nat)
    requires k <= |a| && k < |b| && a[..k] == b[..k]
    requires k == |a| || a[k] < b[k]
    ensures Less(a, b)
    decreases k
  {
    if k > 0 {
      assert a[0] == a[..k][0] && b[0] == b[..k][0];
      assert a[1..][..k - 1] == a[..k][1..] && b[1..][..k - 1] == b[..k][1..];
      LessByFirstDifference(a[1..], b[1..], k - 1);
    }
  }

  /** Conversely, whenever `a < b` there is such a position: `a` is a
      proper prefix of `b` or has the smaller character at the first place
      where the two differ. */
  lemma {:induction false} LessHasFirstDifference(a: string, b: string)
    requires Less(a, b)
    ensures exists k: nat :: k <= |a| && k < |b| && a[..k] == b[..k] &&
                             (k == |a| || a[k] < b[k])
    decreases |a|
  {
    if |a| == 0 || a[0] != b[0] {
      assert a[..0] == b[..0];
    } else {
      LessHasFirstDifference(a[1..], b[1..]);
      var k: nat :| k <= |a[1..]| && k < |b[1..]| && a[1..][..k] == b[1..][..k] &&
                    (k == |a[1..]| || a[1..][k] < b[1..][k]);
      assert a[..k + 1] == [a[0]] + a[1..][..k];
      assert b[..k + 1] == [b[0]] + b[1..][..k];
      assert k + 1 == |a| || a[k + 1] < b[k + 1];
    }
  }

  /** Exactly one of `a < b` and `b < a` holds for different strings. */
  lemma LessStrictTotal(a: string, b: string)
    requires a != b
    ensures Less(a, b) <==> !Less(b, a)
  {
    LessTotal(a, b);
    LessAsymmetric(a, b);
  }

  /** Number of separators in `s`. */
  function CountSep(s: string): nat
    decreases |s|
  {
    if |s| == 0 then 0
    else (if s[0] == Separator then 1 else 0) + CountSep(s[1..])
  }

  lemma {:induction false} CountSepAppend(a: string, b: string)
    ensures CountSep(a + b) == CountSep(a) + CountSep(b)
    decreases |a|
  {
    if |a| == 0 {
      assert a + b == b;
    } else {
      assert (a + b)[1..] == a[1..] + b;
      CountSepAppend(a[1..], b);
    }
  }

  /** JavaScript's `s.split('/')`: the pieces between separators, one more
      piece than there are separators, empty pieces included. */
  function Split(s: string): (r: seq<string>)
    ensures |r| == CountSep(s) + 1
    ensures forall i :: 0 <= i < |r| ==> Separator !in r[i]
    decreases |s|
  {
    if |s| == 0 then [""]
    else
      var rest := Split(s[1..]);
      if s[0] == Separator then [""] + rest
      else [[s[0]] + rest[0]] + rest[1..]
  }

  /** JavaScript's `parts.join('/')`; joining no parts gives the empty string. */
  function Join(parts: seq<string>): string
  {
    if |parts| == 0 then ""
    else if |parts| == 1 then parts[0]
    else parts[0] + [Separator] + Join(parts[1..])
  }

  /** Splitting and re-joining gives back the original string. */
  lemma {:induction false} JoinSplit(s: string)
    ensures Join(Split(s)) == s
    decreases |s|
  {
    if |s| > 0 {
      var rest := Split(s[1..]);
      JoinSplit(s[1..]);
      assert s == [s[0]] + s[1..];
      if s[0] == Separator {
        assert Split(s) == [""] + rest;
        assert ([""] + rest)[1..] == rest;
        assert Join([""] + rest) == "" + [Separator] + Join(rest);
      } else {
        assert Split(s) == [[s[0]] + rest[0]] + rest[1..];
        JoinConsHead(s[0], rest[0], rest[1..]);
        assert [rest[0]] + rest[1..] == rest;
      }
    }
  }

  lemma JoinConsHead(c: char, p: string, ys: seq<string>)
    ensures Join([[c] + p] + ys) == [c] + Join([p] + ys)
  {
    if |ys| > 0 {
      assert ([[c] + p] + ys)[1..] == ys;
      assert ([p] + ys)[1..] == ys;
    }
  }

  lemma {:induction false} SplitNoSep(p: string)
    requires Separator !in p
    ensures Split(p) == [p]
    decreases |p|
  {
    if |p| > 0 {
      SplitNoSep(p[1..]);
      assert p == [p[0]] + p[1..];
    }
  }

  lemma {:induction false} SplitSegmentThenSep(p: string, t: string)
    requires Separator !in p
    ensures Split(p + [Separator] + t) == [p] + Split(t)
    decreases |p|
  {
    var s := p + [Separator] + t;
    if |p| == 0 {
      assert s[1..] == t;
    } else {
      assert s[1..] == p[1..] + [Separator] + t;
      SplitSegmentThenSep(p[1..], t);
      assert p == [p[0]] + p[1..];
    }
  }

  /** Joining separator-free parts and splitting again gives back the parts. */
  lemma {:induction false} SplitJoin(parts: seq<string>)
    requires |parts| >= 1
    requires forall i :: 0 <= i < |parts| ==> Separator !in parts[i]
    ensures Split(Join(parts)) == parts
    decreases |parts|
  {
    if |parts| == 1 {
      SplitNoSep(parts[0]);
    } else {
      SplitSegmentThenSep(parts[0], Join(parts[1..]));
      SplitJoin(parts[1..]);
      assert parts == [parts[0]] + parts[1..];
    }
  }

  /** Index of the last separator in `s`, or -1 when there is none. */
  function LastSep(s: string): (r: int)
    ensures -1 <= r < |s|
    ensures r >= 0 ==> s[r] == Separator
    ensures forall i :: r < i < |s| ==> s[i] != Separator
    ensures r < 0 <==> CountSep(s) == 0
    decreases |s|
  {
    if |s| == 0 then -1
    else
      var k := LastSep(s[1..]);
      if k >= 0 then k + 1
      else if s[0] == Separator then 0
      else -1
  }

  /** The path with its last segment removed; `/` when nothing is left. */
  function Dirname(path: string): string
  {
    var k := LastSep(path);
    if k <= 0 then Root else path[..k]
  }

  /** The last segment of the path. */
  function Basename(path: string): string
  {
    path[LastSep(path) + 1..]
  }

  /** `pathSplit.filter(Boolean).length`: the number of non-empty parts. */
  function NonEmptyCount(parts: seq<string>): nat
    decreases |parts|
  {
    if |parts| == 0 then 0
    else (if parts[0] != "" then 1 else 0) + NonEmptyCount(parts[1..])
  }

  /** The tree's `depth` of a path: split at `/`, count the non-empty parts. */
  function Depth(path: string): nat
  {
    NonEmptyCount(Split(path))
  }

  /** The tree's `parentPath`: split at `/`, drop the last part, join the
      rest with `/`, and use `/` when that leaves the empty string. */
  function ParentPath(path: string): string
  {
    var parts := Split(path);
    var joined := Join(parts[..|parts| - 1]);
    if joined == "" then Root else joined
  }

  /** Number of segment starts in `s`: positions holding a non-separator
      that begin `s` or follow a separator. `afterSep` says whether the
      character before `s` was a separator (or there was none). */
  function SegmentStarts(s: string, afterSep: bool): nat
    decreases |s|
  {
    if |s| == 0 then 0
    else (if s[0] != Separator && afterSep then 1 else 0) + SegmentStarts(s[1..], s[0] == Separator)
  }

  lemma {:induction false} SegmentStartsSplit(s: string)
    ensures SegmentStarts(s, true) == NonEmptyCount(Split(s))
    ensures SegmentStarts(s, false) == NonEmptyCount(Split(s)[1..])
    decreases |s|
  {
    if |s| > 0 {
      var rest := Split(s[1..]);
      SegmentStartsSplit(s[1..]);
      if s[0] == Separator {
        assert Split(s) == [""] + rest;
        assert Split(s)[1..] == rest;
      } else {
        assert Split(s) == [[s[0]] + rest[0]] + rest[1..];
        assert Split(s)[1..] == rest[1..];
      }
    }
  }

  /** `depth` counts the segments of the path: the positions where a
      non-separator begins the path or follows a separator. */
  lemma DepthCountsSegments(path: string)
    ensures Depth(path) == SegmentStarts(path, true)
  {
    SegmentStartsSplit(path);
  }

  /** Joining all parts of a split but the last gives the text before the
      last separator, or nothing when there is none. */
  predicate DropsLast(s: string) {
    var parts := Split(s);
    Join(parts[..|parts| - 1]) == (if LastSep(s) < 0 then "" else s[..LastSep(s)])
  }

  lemma {:induction false} JoinDropLast(s: string)
    ensures DropsLast(s)
    decreases |s|
  {
    if |s| > 0 {
      JoinDropLast(s[1..]);
      if s[0] == Separator {
        DropLastAfterSep(s);
      } else {
        DropLastInSegment(s);
      }
    }
  }

  lemma DropLastAfterSep(s: string)
    requires |s| > 0 && s[0] == Separator
    requires DropsLast(s[1..])
    ensures DropsLast(s)
  {
    var rest := Split(s[1..]);
    var n := |rest|;
    var k := LastSep(s[1..]);
    assert Split(s)[..n] == [""] + rest[..n - 1];
    if n == 1 {
      assert LastSep(s) == 0;
    } else {
      assert ([""] + rest[..n - 1])[1..] == rest[..n - 1];
      assert s[..k + 1] == [s[0]] + s[1..][..k];
    }
  }

  lemma DropLastInSegment(s: string)
    requires |s| > 0 && s[0] != Separator
    requires DropsLast(s[1..])
    ensures DropsLast(s)
  {
    var rest := Split(s[1..]);
    var n := |rest|;
    var k := LastSep(s[1..]);
    if n > 1 {
      var ys := rest[1..n - 1];
      assert Split(s)[..n - 1] == [[s[0]] + rest[0]] + ys;
      assert rest[..n - 1] == [rest[0]] + ys;
      JoinConsHead(s[0], rest[0], ys);
      assert s[..k + 1] == [s[0]] + s[1..][..k];
    }
  }

  /** `parentPath` as the tree computes it is the path with its last
      segment removed, and `/` when that leaves nothing. */
  lemma ParentPathIsDirname(path: string)
    ensures ParentPath(path) == Dirname(path)
  {
    JoinDropLast(path);
  }

  /** A well-formed absolute path: starts with `/`, has at least one
      segment, no trailing `/` and no empty segment in between. */
  predicate Canonical(p: string) {
    && |p| >= 2
    && p[0] == Separator
    && p[|p| - 1] != Separator
    && NoDoubleSep(p)
  }

  predicate NoDoubleSep(p: string) {
    forall i :: 0 <= i < |p| - 1 ==> !(p[i] == Separator && p[i + 1] == Separator)
  }

  lemma {:induction false} SegmentStartsNoDoubleSep(t: string, afterSep: bool)
    requires NoDoubleSep(t)
    requires |t| > 0 ==> t[|t| - 1] != Separator
    ensures SegmentStarts(t, afterSep)
            == CountSep(t) + (if |t| > 0 && t[0] != Separator && afterSep then 1 else 0)
    decreases |t|
  {
    if |t| > 0 {
      var rest := t[1..];
      assert NoDoubleSep(rest) by {
        forall i | 0 <= i < |rest| - 1
          ensures !(rest[i] == Separator && rest[i + 1] == Separator)
        {
          assert rest[i] == t[i + 1] && rest[i + 1] == t[i + 2];
        }
      }
      if t[0] == Separator {
        assert |t| > 1 && t[1] != Separator;
      }
      SegmentStartsNoDoubleSep(rest, t[0] == Separator);
    }
  }

  /** For a well-formed path, `depth` is the number of separators. */
  lemma CanonicalDepth(p: string)
    requires Canonical(p)
    ensures Depth(p) == CountSep(p)
  {
    DepthCountsSegments(p);
    SegmentStartsNoDoubleSep(p, true);
  }

  lemma {:induction false} CountSepNone(s: string)
    requires forall i :: 0 <= i < |s| ==> s[i] != Separator
    ensures CountSep(s) == 0
    decreases |s|
  {
    if |s| > 0 {
      CountSepNone(s[1..]);
    }
  }

  /** Splits a path around its last separator. */
  lemma CountSepAroundLast(p: string)
    requires LastSep(p) >= 0
    ensures CountSep(p) == CountSep(p[..LastSep(p)]) + 1
  {
    var k := LastSep(p);
    assert p == p[..k] + ([p[k]] + p[k + 1..]);
    CountSepAppend(p[..k], [p[k]] + p[k + 1..]);
    CountSepNone(p[k + 1..]);
    assert ([p[k]] + p[k + 1..])[1..] == p[k + 1..];
  }

  /** For a well-formed path, the parent is `/` exactly for the top-level
      paths (depth 1); otherwise the parent is itself well-formed and one
      level shallower. */
  lemma CanonicalParent(p: string)
    requires Canonical(p)
    ensures Depth(p) >= 1
    ensures ParentPath(p) == Root <==> Depth(p) == 1
    ensures Depth(p) >= 2 ==> Canonical(ParentPath(p)) && Depth(ParentPath(p)) == Depth(p) - 1
  {
    ParentPathIsDirname(p);
    CanonicalDepth(p);
    var k := LastSep(p);
    CountSepAroundLast(p);
    assert CountSep(p) >= 1 by {
      assert p == [p[0]] + p[1..];
    }
    if k == 0 {
      assert p[..0] == "";
    } else {
      assert !(p[0] == Separator && p[1] == Separator);
      assert k >= 2;
      var q := p[..k];
      assert q[0] == Separator;
      assert CountSep(q) >= 1 by {
        assert q == [q[0]] + q[1..];
      }
      assert p[k - 1] != Separator;
      assert Canonical(q);
      CanonicalDepth(q);
    }
  }

  /** Two well-formed paths with the same parent and the same last segment
      are the same path. */
  lemma CanonicalSameParentSameName(p: string, q: string)
    requires Canonical(p) && Canonical(q)
    requires Dirname(p) == Dirname(q)
    requires Basename(p) == Basename(q)
    ensures p == q
  {
    var k := LastSep(p);
    var l := LastSep(q);
    assert !(p[0] == Separator && p[1] == Separator);
    assert !(q[0] == Separator && q[1] == Separator);
    assert k >= 2 || k == 0;
    assert l >= 2 || l == 0;
    assert p == p[..k] + [Separator] + p[k + 1..];
    assert q == q[..l] + [Separator] + q[l + 1..];
    assert k > 0 ==> |Dirname(p)| == k;
    assert l > 0 ==> |Dirname(q)| == l;
  }
}
