/** The link map of update_version_symlinks: every dotted prefix of an
    installed version name points at the newest name one component longer,
    preferring names with no pre-release beneath them. */
module Links {
  import opened Versions

  /** The names the prefix walk visits from v: v itself, then each
      `rsplit('.', 1)[0]` for as long as the name has a '.' before its last
      character. */
  function Chain(v: string): (c: seq<string>)
    ensures |c| > 0 && c[0] == v
    decreases |v|
  {
    if HasInnerDot(v) then
      InnerDotIsDot(v);
      [v] + Chain(Head(v))
    else [v]
  }

  /** Every name the walk leaves has an inner dot and is followed by its
      head; the walk stops at the first name without one. */
  lemma {:induction false} ChainSteps(v: string)
    ensures forall k :: 0 <= k < |Chain(v)| - 1 ==>
              HasInnerDot(Chain(v)[k]) && Chain(v)[k + 1] == Head(Chain(v)[k])
    ensures !HasInnerDot(Chain(v)[|Chain(v)| - 1])
    decreases |v|
  {
    if HasInnerDot(v) {
      InnerDotIsDot(v);
      ChainSteps(Head(v));
      var c := Chain(v);
      assert c == [v] + Chain(Head(v));
      forall k | 0 <= k < |c| - 1
        ensures HasInnerDot(c[k]) && c[k + 1] == Head(c[k])
      {
        if k > 0 {
          assert c[k] == Chain(Head(v))[k - 1];
        }
      }
    }
  }

  /** The walk from v passes through the head of every name on it that
      has an inner dot. */
  lemma {:induction false} HeadInChain(v: string, x: string)
    requires x in Chain(v) && HasInnerDot(x)
    ensures Head(x) in Chain(v)
    decreases |v|
  {
    InnerDotIsDot(x);
    if HasInnerDot(v) {
      InnerDotIsDot(v);
      assert Chain(v) == [v] + Chain(Head(v));
      if x != v {
        HeadInChain(Head(v), x);
      }
    }
  }

  /** A name with an inner dot walks on to its head. */
  lemma ChainHead(v: string)
    requires HasInnerDot(v)
    ensures Chain(v) == [v] + Chain(Head(v))
  {
  }

  /** Every name the walk reaches from any of `vers`. */
  ghost function Walked(vs: set<string>): set<string> {
    set v, c | v in vs && c in Chain(v) :: c
  }

  /** The names the walk files under their head: the walked names with an
      inner dot. */
  ghost function Linked(vs: set<string>): set<string> {
    set c | c in Walked(vs) && HasInnerDot(c)
  }

  ghost function ChainLinks(v: string): set<string> {
    set c | c in Chain(v) && HasInnerDot(c)
  }

  ghost function HeadsOf(w: set<string>): set<string> {
    set c | c in w :: Head(c)
  }

  ghost function CandsIn(w: set<string>, p: string): set<string> {
    set c | c in w && Head(c) == p
  }

  /** `newlinks_all` once the names `w` are filed: each head maps to the
      names filed under it. */
  ghost function Group(w: set<string>): map<string, set<string>> {
    map p | p in HeadsOf(w) :: CandsIn(w, p)
  }

  /** The link names: every head the walk files a name under. */
  ghost function LinkNames(vs: set<string>): set<string> {
    HeadsOf(Linked(vs))
  }

  /** The pre-release names at the start of the walk. */
  ghost function InitPre(vs: set<string>): set<string> {
    set v | v in vs && !IsReleaseVersion(v)
  }

  /** `pre_releases` once every name is walked: every name on the walk from
      a pre-release version. */
  ghost function Pre(vs: set<string>): set<string> {
    set v, c | v in vs && !IsReleaseVersion(v) && c in Chain(v) :: c
  }

  ghost predicate UpClosed(up: set<string>) {
    forall x :: x in up && HasInnerDot(x) ==> Head(x) in up
  }

  /** The candidates a link picks its target from: the names without a
      pre-release beneath them when the link name has one and such names
      exist, all the names filed under it otherwise. */
  function Choose(cands: set<string>, pre: set<string>, p: string): set<string> {
    if p in pre && cands - pre != {} then cands - pre else cands
  }

  /** What `newlinks` is: one link per link name, to the greatest of its
      chosen candidates. */
  ghost predicate IsLinkMap(lt: (string, string) -> bool, vs: set<string>, links: map<string, string>) {
    && links.Keys == LinkNames(vs)
    && forall p :: p in links ==> IsGreatest(lt, links[p], Choose(CandsIn(Linked(vs), p), Pre(vs), p))
  }

  // ---------------------------------------------------------------------
  // Facts about the walk.

  lemma HeadsAdd(w: set<string>, c: string)
    ensures HeadsOf(w + {c}) == HeadsOf(w) + {Head(c)}
  {
  }

  lemma CandsAdd(w: set<string>, c: string, p: string)
    ensures CandsIn(w + {c}, p) == CandsIn(w, p) + (if Head(c) == p then {c} else {})
  {
  }

  lemma CandsAbsent(w: set<string>, p: string)
    requires p !in HeadsOf(w)
    ensures CandsIn(w, p) == {}
  {
    forall x | x in w
      ensures Head(x) != p
    {
      assert Head(x) in HeadsOf(w);
    }
  }

  /** Filing one more name c: `newlinks_all[Head(c)].add(c)`. */
  lemma GroupAdd(w: set<string>, c: string)
    ensures var g := Group(w);
            g[Head(c) := (if Head(c) in g then g[Head(c)] else {}) + {c}] == Group(w + {c})
  {
    var g := Group(w);
    var g' := g[Head(c) := (if Head(c) in g then g[Head(c)] else {}) + {c}];
    var g2 := Group(w + {c});
    HeadsAdd(w, c);
    assert g'.Keys == g2.Keys;
    forall p | p in g'
      ensures g'[p] == g2[p]
    {
      CandsAdd(w, c, p);
      if p == Head(c) && p !in g {
        CandsAbsent(w, p);
      }
    }
  }

  lemma GroupNonEmpty(w: set<string>, p: string)
    requires p in Group(w)
    ensures Group(w)[p] != {}
  {
    var c :| c in w && Head(c) == p;
    assert c in CandsIn(w, p);
  }

  lemma WalkedAdd(vs: set<string>, v: string)
    ensures Walked(vs + {v}) == Walked(vs) + set c | c in Chain(v)
    ensures Linked(vs + {v}) == Linked(vs) + ChainLinks(v)
  {
    forall c | c in Walked(vs + {v})
      ensures c in Walked(vs) || c in Chain(v)
    {
      var u :| u in vs + {v} && c in Chain(u);
    }
  }

  /** Pre-release status passes up: the head of a name in Pre is in Pre. */
  lemma PreUpClosed(vs: set<string>)
    ensures UpClosed(Pre(vs))
    ensures InitPre(vs) <= Pre(vs)
  {
    forall x | x in Pre(vs) && HasInnerDot(x)
      ensures Head(x) in Pre(vs)
    {
      var v :| v in vs && !IsReleaseVersion(v) && x in Chain(v);
      HeadInChain(v, x);
    }
    forall v | v in InitPre(vs)
      ensures v in Pre(vs)
    {
      assert v in Chain(v);
    }
  }

  /** A set that holds v and is closed under Head along v's walk holds the
      whole walk. */
  lemma {:induction false} ChainInClosed(v: string, pre: set<string>)
    requires v in pre
    requires forall x :: x in Chain(v) && x in pre && HasInnerDot(x) ==> Head(x) in pre
    ensures forall x :: x in Chain(v) ==> x in pre
    decreases |v|
  {
    if HasInnerDot(v) {
      InnerDotIsDot(v);
      ChainHead(v);
      ChainInClosed(Head(v), pre);
    }
  }

  lemma PreFromClosure(vs: set<string>, pre: set<string>)
    requires InitPre(vs) <= pre
    requires forall x :: x in Walked(vs) && x in pre && HasInnerDot(x) ==> Head(x) in pre
    ensures Pre(vs) <= pre
  {
    forall c | c in Pre(vs)
      ensures c in pre
    {
      var v :| v in vs && !IsReleaseVersion(v) && c in Chain(v);
      assert v in InitPre(vs);
      forall x | x in Chain(v) && x in pre && HasInnerDot(x)
        ensures Head(x) in pre
      {
        assert x in Walked(vs);
      }
      ChainInClosed(v, pre);
    }
  }

  /** Walking one more name keeps `pre` closed under Head on every walked
      name: the names it adds lie on that walk, which is closed itself. */
  lemma ClosureKept(walked: set<string>, c: seq<string>, pre0: set<string>, pre: set<string>)
    requires forall x :: x in walked && x in pre0 && HasInnerDot(x) ==> Head(x) in pre0
    requires pre0 <= pre && forall x :: x in pre && x !in pre0 ==> x in c
    requires forall x :: x in c && x in pre && HasInnerDot(x) ==> Head(x) in pre
    ensures forall x :: x in walked + (set y | y in c) && x in pre && HasInnerDot(x) ==> Head(x) in pre
  {
    forall x | x in walked + (set y | y in c) && x in pre && HasInnerDot(x)
      ensures Head(x) in pre
    {
      if x !in c {
        assert x in pre0;
      }
    }
  }

  /** One step of the walk files cur and moves on to its head. */
  lemma ChainStep(v: string, cur: string, filed: set<string>)
    requires HasInnerDot(cur)
    requires forall x :: x in Chain(v) <==> x in filed || x in Chain(cur)
    requires forall x :: x in filed ==> HasInnerDot(x) && |cur| < |x|
    ensures forall x :: x in Chain(v) <==> x in filed + {cur} || x in Chain(Head(cur))
    ensures forall x :: x in filed + {cur} ==> HasInnerDot(x) && |Head(cur)| < |x|
    ensures Head(cur) in Chain(v)
  {
    InnerDotIsDot(cur);
    ChainHead(cur);
    assert Head(cur) in Chain(Head(cur));
  }

  /** One step of the walk keeps `pre` inside `up`, closed under Head on
      the names filed so far, and grown only along the walk. */
  lemma PreStep(v: string, cur: string, filed: set<string>, pre: set<string>, pre1: set<string>, up: set<string>)
    requires HasInnerDot(cur) && Head(cur) in Chain(v)
    requires pre <= pre1 <= up && UpClosed(up)
    requires forall x :: x in filed ==> |cur| < |x|
    requires forall x :: x in filed && x in pre1 ==> Head(x) in pre1
    requires forall x :: x in pre1 && x !in pre ==> x in Chain(v)
    ensures var pre2 := if cur in pre1 then pre1 + {Head(cur)} else pre1;
            && pre <= pre2 <= up
            && (forall x :: x in filed + {cur} && x in pre2 ==> Head(x) in pre2)
            && (forall x :: x in pre2 && x !in pre ==> x in Chain(v))
  {
    InnerDotIsDot(cur);
  }

  // ---------------------------------------------------------------------
  // The computation.

  /** The `while` walk of update_version_symlinks for one version name:
      each name with an inner dot is filed under its head, and when it is a
      pre-release so becomes its head. `up` is any head-closed set holding
      `pre`; `pre` never leaves it. */
  method WalkPrefixes(v: string, acc: map<string, set<string>>, pre: set<string>, ghost w: set<string>, ghost up: set<string>)
    returns (acc': map<string, set<string>>, pre': set<string>)
    requires acc == Group(w)
    requires pre <= up && UpClosed(up)
    ensures acc' == Group(w + ChainLinks(v))
    ensures pre <= pre' <= up
    ensures forall x :: x in Chain(v) && x in pre' && HasInnerDot(x) ==> Head(x) in pre'
    ensures forall x :: x in pre' && x !in pre ==> x in Chain(v)
  {
    acc', pre' := acc, pre;
    var cur := v;
    ghost var filed: set<string> := {};
    assert w + filed == w;
    while HasInnerDot(cur)
      invariant forall x :: x in Chain(v) <==> x in filed || x in Chain(cur)
      invariant forall x :: x in filed ==> HasInnerDot(x) && |cur| < |x|
      invariant acc' == Group(w + filed)
      invariant pre <= pre' <= up
      invariant forall x :: x in filed && x in pre' ==> Head(x) in pre'
      invariant forall x :: x in pre' && x !in pre ==> x in Chain(v)
      decreases |cur|
    {
      var major := Head(cur);
      ChainStep(v, cur, filed);
      GroupAdd(w + filed, cur);
      assert w + (filed + {cur}) == (w + filed) + {cur};
      acc' := acc'[major := (if major in acc' then acc'[major] else {}) + {cur}];
      PreStep(v, cur, filed, pre, pre', up);
      if cur in pre' {
        pre' := pre' + {major};
      }
      filed := filed + {cur};
      cur := major;
    }
    assert Chain(cur) == [cur];
    assert ChainLinks(v) == filed;
  }

  /** The first half of update_version_symlinks: every version name is
      walked, giving `newlinks_all` and the final `pre_releases`. */
  method GroupPrefixes(vs: set<string>) returns (acc: map<string, set<string>>, pre: set<string>)
    ensures acc == Group(Linked(vs))
    ensures pre == Pre(vs)
  {
    acc := map[];
    pre := set v | v in vs && !IsReleaseVersion(v);
    PreUpClosed(vs);
    var todo := vs;
    ghost var seen: set<string> := {};
    ghost var walked: set<string> := {};
    ghost var linked: set<string> := {};
    while todo != {}
      invariant todo <= vs && seen == vs - todo
      invariant walked == Walked(seen) && linked == Linked(seen)
      invariant acc == Group(linked)
      invariant InitPre(vs) <= pre <= Pre(vs)
      invariant forall x :: x in walked && x in pre && HasInnerDot(x) ==> Head(x) in pre
      decreases |todo|
    {
      var v :| v in todo;
      WalkedAdd(seen, v);
      ghost var pre0 := pre;
      acc, pre := WalkPrefixes(v, acc, pre, linked, Pre(vs));
      ClosureKept(walked, Chain(v), pre0, pre);
      todo := todo - {v};
      seen := seen + {v};
      walked := walked + set c | c in Chain(v);
      linked := linked + ChainLinks(v);
    }
    assert seen == vs;
    PreFromClosure(vs, pre);
  }

  /** The second half: each link name gets the greatest of its chosen
      candidates, `sorted(cands, key=parse_version)[-1]`. */
  method PickTargets(acc: map<string, set<string>>, pre: set<string>, lt: (string, string) -> bool)
    returns (links: map<string, string>)
    requires StrictTotalOrder(lt)
    requires forall p :: p in acc ==> acc[p] != {}
    ensures links.Keys == acc.Keys
    ensures forall p :: p in links ==> IsGreatest(lt, links[p], Choose(acc[p], pre, p))
  {
    links := map[];
    var todo := acc.Keys;
    while todo != {}
      invariant todo <= acc.Keys
      invariant links.Keys == acc.Keys - todo
      invariant forall p :: p in links ==> IsGreatest(lt, links[p], Choose(acc[p], pre, p))
      decreases |todo|
    {
      var p :| p in todo;
      var cands := acc[p];
      var rels := cands - pre;
      if p in pre && rels != {} {
        cands := rels;
      }
      assert cands == Choose(acc[p], pre, p);
      var descending := SortDescending(cands, lt);
      SortedDescHead(lt, descending);
      assert (set x | x in descending) == cands;
      var ascending := Reverse(descending);
      links := links[p := ascending[|ascending| - 1]];
      todo := todo - {p};
    }
  }

  /** The link map update_version_symlinks computes from the version names
      `vs` (the non-link entries whose names start with a digit). */
  method NewLinks(vs: set<string>, lt: (string, string) -> bool) returns (links: map<string, string>)
    requires StrictTotalOrder(lt)
    ensures IsLinkMap(lt, vs, links)
  {
    var acc, pre := GroupPrefixes(vs);
    forall p | p in acc
      ensures acc[p] != {}
    {
      GroupNonEmpty(Linked(vs), p);
    }
    links := PickTargets(acc, pre, lt);
  }

  // ---------------------------------------------------------------------
  // What the link map promises.

  /** Every name on a walk other than its start is the head of an earlier
      name on it that has an inner dot. */
  lemma {:induction false} ChainPredecessor(u: string, x: string)
    requires x in Chain(u) && x != u
    ensures exists y :: y in Chain(u) && HasInnerDot(y) && Head(y) == x
    decreases |u|
  {
    if HasInnerDot(u) {
      InnerDotIsDot(u);
      ChainHead(u);
      if x != Head(u) {
        ChainPredecessor(Head(u), x);
      }
    }
  }

  /** The walk from a formal release whose name starts with a digit meets
      only such names. */
  lemma {:induction false} ChainRelease(u: string)
    requires IsReleaseVersion(u) && IsDigitName(u)
    ensures forall x :: x in Chain(u) ==> IsReleaseVersion(x) && IsDigitName(x)
    decreases |u|
  {
    if HasInnerDot(u) {
      InnerDotIsDot(u);
      ChainHead(u);
      var h := Head(u);
      HeadKeepsDigitName(u);
      ReleaseVersionChars(u);
      assert h == u[..LastDot(u).value];
      forall c | c in h
        ensures IsDigit(c) || c == '.'
      {
        var i :| 0 <= i < |h| && h[i] == c;
        assert u[i] in u;
      }
      assert h[0] in h;
      ReleaseVersionChars(h);
      ChainRelease(h);
    }
  }

  /** The walk from a name that starts with a digit meets only such names. */
  lemma {:induction false} ChainDigitName(u: string)
    requires IsDigitName(u)
    ensures forall x :: x in Chain(u) ==> IsDigitName(x)
    decreases |u|
  {
    if HasInnerDot(u) {
      InnerDotIsDot(u);
      ChainHead(u);
      HeadKeepsDigitName(u);
      ChainDigitName(Head(u));
    }
  }

  /** Link names of digit-named versions start with a digit: a link never
      lands on an entry update_version_symlinks does not list. */
  lemma LinkNamesDigit(vs: set<string>)
    requires forall v :: v in vs ==> IsDigitName(v)
    ensures forall p :: p in LinkNames(vs) ==> IsDigitName(p)
  {
    forall p | p in LinkNames(vs)
      ensures IsDigitName(p)
    {
      var c :| c in Linked(vs) && Head(c) == p;
      var u :| u in vs && c in Chain(u);
      ChainDigitName(u);
      InnerDotIsDot(c);
      HeadKeepsDigitName(c);
    }
  }

  /** A link name is its target cut just before the target's last '.':
      `p + "." + last component`. */
  lemma LinkShape(lt: (string, string) -> bool, vs: set<string>, links: map<string, string>, p: string)
    requires IsLinkMap(lt, vs, links) && p in links
    ensures HasInnerDot(links[p]) && Head(links[p]) == p
    ensures links[p] == p + "." + Tail(links[p]) && '.' !in Tail(links[p])
  {
    var t := links[p];
    assert t in CandsIn(Linked(vs), p);
    InnerDotIsDot(t);
    RsplitJoin(t);
  }

  /** A target is a version name or itself a link name: the walk files the
      intermediate names, so `3` may point at the link `3.12`. */
  lemma LinkTargetKnown(lt: (string, string) -> bool, vs: set<string>, links: map<string, string>, p: string)
    requires IsLinkMap(lt, vs, links) && p in links
    ensures links[p] in vs || links[p] in links
  {
    var t := links[p];
    assert t in Linked(vs);
    var u :| u in vs && t in Chain(u);
    if t != u {
      ChainPredecessor(u, t);
      var y :| y in Chain(u) && HasInnerDot(y) && Head(y) == t;
      assert y in Linked(vs);
    }
  }

  /** A walked name with no pre-release beneath it is a formal release. */
  lemma NotPreIsRelease(vs: set<string>, c: string)
    requires forall v :: v in vs ==> IsDigitName(v)
    requires c in Walked(vs) && c !in Pre(vs)
    ensures IsReleaseVersion(c)
  {
    var u :| u in vs && c in Chain(u);
    ChainRelease(u);
  }

  /** When any candidate of a link has no pre-release beneath it, neither
      has the target, and the target is a formal release. */
  lemma FormalPreferred(lt: (string, string) -> bool, vs: set<string>, links: map<string, string>, p: string, c: string)
    requires IsLinkMap(lt, vs, links) && p in links
    requires forall v :: v in vs ==> IsDigitName(v)
    requires c in CandsIn(Linked(vs), p) && c !in Pre(vs)
    ensures links[p] !in Pre(vs) && IsReleaseVersion(links[p])
  {
    var t := links[p];
    var cands := CandsIn(Linked(vs), p);
    if p in Pre(vs) {
      assert c in cands - Pre(vs);
      assert t in cands - Pre(vs);
    } else {
      assert t in cands;
      assert t in Linked(vs) && Head(t) == p;
      PreUpClosed(vs);
    }
    assert t in Walked(vs);
    NotPreIsRelease(vs, t);
  }

  /** The version names determine the link map. */
  lemma LinkMapUnique(lt: (string, string) -> bool, vs: set<string>, l1: map<string, string>, l2: map<string, string>)
    requires StrictTotalOrder(lt)
    requires IsLinkMap(lt, vs, l1) && IsLinkMap(lt, vs, l2)
    ensures l1 == l2
  {
    forall p | p in l1
      ensures l1[p] == l2[p]
    {
      GreatestUnique(lt, l1[p], l2[p], Choose(CandsIn(Linked(vs), p), Pre(vs), p));
    }
  }

  /** Every filed name gives its head a link, even when all the candidates
      under that head are pre-releases: then the link goes to the greatest
      of them. */
  lemma PreOnlyLinked(lt: (string, string) -> bool, vs: set<string>, links: map<string, string>, v: string)
    requires IsLinkMap(lt, vs, links) && v in Linked(vs)
    requires forall c :: c in CandsIn(Linked(vs), Head(v)) ==> c in Pre(vs)
    ensures Head(v) in links
    ensures IsGreatest(lt, links[Head(v)], CandsIn(Linked(vs), Head(v)))
  {
    assert Head(v) in LinkNames(vs);
    var cands := CandsIn(Linked(vs), Head(v));
    assert cands - Pre(vs) == {};
  }
}
