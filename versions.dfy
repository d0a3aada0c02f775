/** Version names: the formal-release test, the `rsplit('.', 1)` that drops
    a name's last component, and the ordering the matcher and the symlink
    maintainer sort by. */
module Versions {
  import opened Wrappers

  predicate IsDigit(c: char) {
    '0' <= c <= '9'
  }

  predicate AllDigits(s: string) {
    |s| > 0 && forall i :: 0 <= i < |s| ==> IsDigit(s[i])
  }

  /** A directory entry the tool treats as a version: its name starts with a
      digit (and so not with '.'). */
  predicate IsDigitName(n: string) {
    |n| > 0 && n[0] != '.' && IsDigit(n[0])
  }

  /** The string with every '.' removed, as `str.replace('.', '')`. */
  function RemoveDots(s: string): (r: string)
    ensures forall c :: c in r <==> c in s && c != '.'
  {
    if s == [] then []
    else (if s[0] == '.' then [] else [s[0]]) + RemoveDots(s[1..])
  }

  /** is_release_version: removing the dots leaves a non-empty run of digits. */
  predicate IsReleaseVersion(v: string)
    ensures IsReleaseVersion(v) ==> exists c :: c in v && IsDigit(c)
    ensures IsReleaseVersion(v) ==> forall c :: c in v && c != '.' ==> IsDigit(c)
  {
    var r := RemoveDots(v);
    assert |r| > 0 ==> r[0] in r;
    AllDigits(r)
  }

  /** A formal release is exactly a name built from digits and dots that
      holds at least one digit, so `3.12.3` is one and `3.13.0rc1`, `3.` with
      a letter, or `...` are not. */
  lemma ReleaseVersionChars(v: string)
    ensures IsReleaseVersion(v) <==>
              (exists c :: c in v && IsDigit(c)) && (forall c :: c in v ==> IsDigit(c) || c == '.')
  {
    var r := RemoveDots(v);
    if IsReleaseVersion(v) {
      assert r[0] in r;
      forall c | c in v
        ensures IsDigit(c) || c == '.'
      {
        if c != '.' {
          assert c in r;
          var i :| 0 <= i < |r| && r[i] == c;
        }
      }
    }
    if (exists c :: c in v && IsDigit(c)) && (forall c :: c in v ==> IsDigit(c) || c == '.') {
      var d :| d in v && IsDigit(d);
      assert d in r;
      forall i | 0 <= i < |r|
        ensures IsDigit(r[i])
      {
        assert r[i] in r;
      }
    }
  }

  /** Index of the last '.' in s, if there is one. */
  function LastDot(s: string): (r: Option<nat>)
    ensures r.Some? ==> r.value < |s| && s[r.value] == '.' && '.' !in s[r.value + 1..]
    ensures r.None? <==> '.' !in s
  {
    if s == [] then None
    else if s[|s| - 1] == '.' then Some(|s| - 1)
    else
      var r := LastDot(s[..|s| - 1]);
      assert s == s[..|s| - 1] + [s[|s| - 1]];
      r
  }

  /** `s.rsplit('.', 1)[0]`: s without its last dot-separated component
      (s itself when it has no '.'). */
  function Head(s: string): string {
    match LastDot(s)
    case Some(k) => s[..k]
    case None => s
  }

  /** `s.rsplit('.', 1)[-1]`: the last dot-separated component of s. */
  function Tail(s: string): string {
    match LastDot(s)
    case Some(k) => s[k + 1..]
    case None => s
  }

  /** Splitting at the last dot and joining again gives back the name, and
      the dropped component holds no dot. */
  lemma RsplitJoin(s: string)
    requires '.' in s
    ensures s == Head(s) + "." + Tail(s)
    ensures '.' !in Tail(s)
    ensures |Head(s)| < |s|
  {
    var k := LastDot(s).value;
    assert s == s[..k] + [s[k]] + s[k + 1..];
  }

  /** `'.' in s[:-1]`: the loop test of the prefix walk in
      update_version_symlinks. */
  predicate HasInnerDot(s: string) {
    |s| > 0 && '.' in s[..|s| - 1]
  }

  lemma InnerDotIsDot(s: string)
    requires HasInnerDot(s)
    ensures '.' in s && LastDot(s).Some? && |Head(s)| < |s|
  {
    var i :| 0 <= i < |s| - 1 && s[..|s| - 1][i] == '.';
    assert s[i] == '.';
  }

  /** Joining a head and a last component without '.': rsplit gives the
      head back. */
  lemma HeadOfJoin(h: string, t: string)
    requires t != "" && '.' !in t
    ensures HasInnerDot(h + "." + t) && Head(h + "." + t) == h
  {
    var x := h + "." + t;
    assert x[..|x| - 1][|h|] == '.';
    var k := LastDot(x).value;
    assert forall j :: |h| < j < |x| ==> x[j] == t[j - |h| - 1];
    assert x[|h|] == '.';
    assert k == |h| by {
      assert forall j :: k < j < |x| ==> x[j] in x[k + 1..];
    }
    assert x[..k] == h;
  }

  /** Dropping the last component of a name that starts with a digit leaves
      a name that starts with the same digit. */
  lemma HeadKeepsDigitName(s: string)
    requires IsDigitName(s) && '.' in s
    ensures IsDigitName(Head(s)) && Head(s)[0] == s[0]
  {
    var k := LastDot(s).value;
    assert k != 0;
  }

  // ---------------------------------------------------------------------
  // Ordering. The source sorts by `packaging.version.parse`, PEP 440's
  // order, in which `3.12.3rc1` sorts below `3.12.3`. The model takes that
  // order as a parameter `lt` that is a strict total order on the names.

  ghost predicate StrictTotalOrder(lt: (string, string) -> bool) {
    && (forall a :: !lt(a, a))
    && (forall a, b, c :: lt(a, b) && lt(b, c) ==> lt(a, c))
    && (forall a, b :: a != b ==> lt(a, b) || lt(b, a))
  }

  /** Greatest first, as `sorted(..., reverse=True)` leaves it. */
  ghost predicate SortedDesc(lt: (string, string) -> bool, s: seq<string>) {
    forall i, j :: 0 <= i < j < |s| ==> lt(s[j], s[i])
  }

  ghost predicate IsGreatest(lt: (string, string) -> bool, m: string, s: set<string>) {
    m in s && forall x :: x in s && x != m ==> lt(x, m)
  }

  /** Under a strict total order a set has at most one greatest element. */
  lemma GreatestUnique(lt: (string, string) -> bool, m1: string, m2: string, s: set<string>)
    requires StrictTotalOrder(lt)
    requires IsGreatest(lt, m1, s) && IsGreatest(lt, m2, s)
    ensures m1 == m2
  {
  }

  /** The head of a descending sequence is the greatest of its elements. */
  lemma SortedDescHead(lt: (string, string) -> bool, s: seq<string>)
    requires SortedDesc(lt, s) && |s| > 0
    ensures IsGreatest(lt, s[0], set x | x in s)
  {
    forall x | x in s && x != s[0]
      ensures lt(x, s[0])
    {
      var j :| 0 <= j < |s| && s[j] == x;
    }
  }

  /** `sorted(names, key=parse_version, reverse=True)`: the names, each once,
      greatest first. Each name is inserted before the first smaller one. */
  method SortDescending(names: set<string>, lt: (string, string) -> bool) returns (s: seq<string>)
    requires StrictTotalOrder(lt)
    ensures SortedDesc(lt, s)
    ensures forall x :: x in s <==> x in names
    ensures |s| == |names|
  {
    s := [];
    var rest := names;
    while rest != {}
      invariant rest <= names
      invariant SortedDesc(lt, s)
      invariant forall x :: x in s <==> x in names && x !in rest
      invariant |s| + |rest| == |names|
      decreases |rest|
    {
      var x :| x in rest;
      var i := 0;
      while i < |s| && !lt(s[i], x)
        invariant 0 <= i <= |s|
        invariant forall j :: 0 <= j < i ==> lt(x, s[j])
      {
        assert s[i] in s;
        i := i + 1;
      }
      forall j | i <= j < |s|
        ensures lt(s[j], x)
      {
        if j > i {
          assert lt(s[j], s[i]);
        }
      }
      s := s[..i] + [x] + s[i..];
      rest := rest - {x};
    }
  }

  /** The sequence back to front: `sorted(...)` ascending from a
      descending one. */
  function Reverse(s: seq<string>): (r: seq<string>)
    ensures |r| == |s| && forall i :: 0 <= i < |s| ==> r[i] == s[|s| - 1 - i]
  {
    if s == [] then [] else Reverse(s[1..]) + [s[0]]
  }
}
