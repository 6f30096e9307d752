/**
 * The profiler's call tree as an arena of frames addressed by index.
 *
 * `children[n]` lists the frames that frame `n` called, in call order, and
 * `parent[n]` is the frame that called `n` (None for a root, and for a frame that
 * hoisting has detached). Frames are numbered so that every callee has a smaller
 * index than its caller; hoisting keeps that numbering (a grandchild is smaller than
 * its grandparent), and every walk below terminates on it.
 *
 * This module holds the value-level definitions and laws: the depth-first order of a
 * list of subtrees (Walk), the frames that survive the exclusion of a set of frames
 * (Tops, Kept) and the effect of hoisting one frame (Hoist). The in-place operations
 * that the renderer performs are in module FrameFilter.
 */
module FrameForest {
  import opened Wrappers

  type FrameId = nat

  datatype Forest = Forest(children: seq<seq<FrameId>>, parent: seq<Option<FrameId>>)

  /** Every frame listed in `cs` is numbered below `bound`. */
  ghost predicate AllBelow(cs: seq<FrameId>, bound: nat)
  {
    forall i :: 0 <= i < |cs| ==> cs[i] < bound
  }

  /** Callees are numbered below their callers. */
  ghost predicate Ordered(ch: seq<seq<FrameId>>)
  {
    forall n :: 0 <= n < |ch| ==> AllBelow(ch[n], n)
  }

  /** A well-formed arena: child lists and parent links agree, and no child list repeats a frame. */
  ghost predicate Valid(f: Forest)
  {
    && |f.children| == |f.parent|
    && Ordered(f.children)
    && (forall n, j :: 0 <= n < |f.children| && 0 <= j < |f.children[n]| ==>
          f.parent[f.children[n][j]] == Some(n))
    && (forall c :: 0 <= c < |f.parent| && f.parent[c].Some? ==>
          f.parent[c].value < |f.children| && c in f.children[f.parent[c].value])
    && (forall n :: 0 <= n < |f.children| ==> Distinct(f.children[n]))
  }

  /** No frame is listed twice. */
  ghost predicate Distinct(s: seq<FrameId>)
  {
    forall i, j :: 0 <= i < j < |s| ==> s[i] != s[j]
  }

  lemma ChildBelow(ch: seq<seq<FrameId>>, n: FrameId)
    requires Ordered(ch) && n < |ch|
    ensures AllBelow(ch[n], n)
  {
  }

  // ---------------------------------------------------------------------------
  // Depth-first order
  // ---------------------------------------------------------------------------

  /** Pre-order of the subtrees rooted at `cs`, left to right; `bound` exceeds every root. */
  function WalkBelow(ch: seq<seq<FrameId>>, cs: seq<FrameId>, bound: nat): (r: seq<FrameId>)
    requires Ordered(ch) && bound <= |ch| && AllBelow(cs, bound)
    ensures AllBelow(r, bound)
    decreases bound, |cs|
  {
    if cs == [] then []
    else
      ChildBelow(ch, cs[0]);
      [cs[0]] + WalkBelow(ch, ch[cs[0]], cs[0]) + WalkBelow(ch, cs[1..], bound)
  }

  /** Depth-first pre-order of the forest whose roots are `cs`, in order. */
  function Walk(ch: seq<seq<FrameId>>, cs: seq<FrameId>): (r: seq<FrameId>)
    requires Ordered(ch) && AllBelow(cs, |ch|)
    ensures AllBelow(r, |ch|)
  {
    WalkBelow(ch, cs, |ch|)
  }

  /** Depth-first pre-order of the subtree rooted at `n`. */
  function Dfs(ch: seq<seq<FrameId>>, n: FrameId): (r: seq<FrameId>)
    requires Ordered(ch) && n < |ch|
  {
    Walk(ch, [n])
  }

  lemma WalkBelowAnyBound(ch: seq<seq<FrameId>>, cs: seq<FrameId>, b1: nat, b2: nat)
    requires Ordered(ch) && b1 <= |ch| && b2 <= |ch|
    requires AllBelow(cs, b1) && AllBelow(cs, b2)
    ensures WalkBelow(ch, cs, b1) == WalkBelow(ch, cs, b2)
    decreases |cs|
  {
    if cs != [] {
      WalkBelowAnyBound(ch, cs[1..], b1, b2);
    }
  }

  lemma WalkCons(ch: seq<seq<FrameId>>, cs: seq<FrameId>)
    requires Ordered(ch) && cs != [] && AllBelow(cs, |ch|)
    ensures AllBelow(ch[cs[0]], |ch|)
    ensures Walk(ch, cs) == [cs[0]] + Walk(ch, ch[cs[0]]) + Walk(ch, cs[1..])
  {
    ChildBelow(ch, cs[0]);
    WalkBelowAnyBound(ch, ch[cs[0]], cs[0], |ch|);
  }

  lemma DfsUnfold(ch: seq<seq<FrameId>>, n: FrameId)
    requires Ordered(ch) && n < |ch|
    ensures AllBelow(ch[n], |ch|)
    ensures Dfs(ch, n) == [n] + Walk(ch, ch[n])
  {
    WalkCons(ch, [n]);
  }

  lemma {:induction false} WalkAppend(ch: seq<seq<FrameId>>, a: seq<FrameId>, b: seq<FrameId>)
    requires Ordered(ch) && AllBelow(a, |ch|) && AllBelow(b, |ch|)
    ensures Walk(ch, a + b) == Walk(ch, a) + Walk(ch, b)
    decreases |a|
  {
    if a == [] {
      assert a + b == b;
      assert Walk(ch, a) == [];
    } else {
      assert AllBelow(a[1..], |ch|) && AllBelow(a[1..] + b, |ch|);
      WalkCons(ch, a);
      var x, y, z := [a[0]] + Walk(ch, ch[a[0]]), Walk(ch, a[1..]), Walk(ch, b);
      assert Walk(ch, a + b) == x + Walk(ch, a[1..] + b) by {
        assert (a + b)[0] == a[0] && (a + b)[1..] == a[1..] + b;
        WalkCons(ch, a + b);
      }
      assert Walk(ch, a[1..] + b) == y + z by {
        WalkAppend(ch, a[1..], b);
      }
      assert x + (y + z) == x + y + z;
    }
  }

  /** A frame is in the walk of a forest iff it is in the subtree of one of its roots. */
  lemma {:induction false} WalkMem(ch: seq<seq<FrameId>>, cs: seq<FrameId>, y: FrameId)
    requires Ordered(ch) && AllBelow(cs, |ch|)
    ensures y in Walk(ch, cs) <==> exists j :: 0 <= j < |cs| && y in Dfs(ch, cs[j])
    decreases |cs|
  {
    if cs != [] {
      WalkAppend(ch, [cs[0]], cs[1..]);
      assert [cs[0]] + cs[1..] == cs;
      WalkMem(ch, cs[1..], y);
      if y in Walk(ch, cs[1..]) {
        var j :| 0 <= j < |cs[1..]| && y in Dfs(ch, cs[1..][j]);
        assert cs[j + 1] == cs[1..][j];
      }
      if exists j :: 0 <= j < |cs| && y in Dfs(ch, cs[j]) {
        var j :| 0 <= j < |cs| && y in Dfs(ch, cs[j]);
        if j > 0 {
          assert cs[1..][j - 1] == cs[j];
        }
      }
    }
  }

  /** Every frame of a subtree is numbered at most as high as its root. */
  lemma DfsAtMostRoot(ch: seq<seq<FrameId>>, n: FrameId)
    requires Ordered(ch) && n < |ch|
    ensures forall y <- Dfs(ch, n) :: y <= n
    ensures forall y <- Walk(ch, ch[n]) :: y < n
  {
    WalkBelowAnyBound(ch, [n], n + 1, |ch|);
    DfsUnfold(ch, n);
    ChildBelow(ch, n);
    WalkBelowAnyBound(ch, ch[n], n, |ch|);
  }

  lemma {:induction false} WalkBelowFrame(ch1: seq<seq<FrameId>>, ch2: seq<seq<FrameId>>, cs: seq<FrameId>, bound: nat)
    requires Ordered(ch1) && Ordered(ch2) && |ch1| == |ch2| && bound <= |ch1|
    requires AllBelow(cs, bound)
    requires forall y <- WalkBelow(ch1, cs, bound) :: ch2[y] == ch1[y]
    ensures WalkBelow(ch2, cs, bound) == WalkBelow(ch1, cs, bound)
    decreases bound, |cs|
  {
    if cs != [] {
      var c := cs[0];
      assert c in WalkBelow(ch1, cs, bound);
      ChildBelow(ch1, c);
      WalkBelowFrame(ch1, ch2, ch1[c], c);
      WalkBelowFrame(ch1, ch2, cs[1..], bound);
    }
  }

  /** A walk reads only the child lists of the frames it visits. */
  lemma WalkFrame(ch1: seq<seq<FrameId>>, ch2: seq<seq<FrameId>>, cs: seq<FrameId>)
    requires Ordered(ch1) && Ordered(ch2) && |ch1| == |ch2|
    requires AllBelow(cs, |ch1|)
    requires forall y <- Walk(ch1, cs) :: ch2[y] == ch1[y]
    ensures Walk(ch2, cs) == Walk(ch1, cs)
  {
    WalkBelowFrame(ch1, ch2, cs, |ch1|);
  }

  // ---------------------------------------------------------------------------
  // Exclusion: the frames that survive and the order they keep
  // ---------------------------------------------------------------------------

  /** `s` with every frame of `x` deleted, order kept. */
  function Kept(s: seq<FrameId>, x: set<FrameId>): (r: seq<FrameId>)
    ensures forall y :: y in r <==> y in s && y !in x
    ensures |r| <= |s|
  {
    if s == [] then []
    else (if s[0] in x then [] else [s[0]]) + Kept(s[1..], x)
  }

  lemma {:induction false} KeptAppend(a: seq<FrameId>, b: seq<FrameId>, x: set<FrameId>)
    ensures Kept(a + b, x) == Kept(a, x) + Kept(b, x)
    decreases |a|
  {
    if a == [] {
      assert a + b == b;
    } else {
      assert (a + b)[1..] == a[1..] + b;
      KeptAppend(a[1..], b, x);
    }
  }

  /** The highest surviving frames under the roots `cs`: a root outside `x` survives itself,
      a root in `x` is replaced by the survivors among its children. */
  function TopsBelow(ch: seq<seq<FrameId>>, x: set<FrameId>, cs: seq<FrameId>, bound: nat): (r: seq<FrameId>)
    requires Ordered(ch) && bound <= |ch| && AllBelow(cs, bound)
    ensures AllBelow(r, bound) && forall y <- r :: y !in x
    decreases bound, |cs|
  {
    if cs == [] then []
    else
      ChildBelow(ch, cs[0]);
      (if cs[0] in x then TopsBelow(ch, x, ch[cs[0]], cs[0]) else [cs[0]])
      + TopsBelow(ch, x, cs[1..], bound)
  }

  function Tops(ch: seq<seq<FrameId>>, x: set<FrameId>, cs: seq<FrameId>): (r: seq<FrameId>)
    requires Ordered(ch) && AllBelow(cs, |ch|)
  {
    TopsBelow(ch, x, cs, |ch|)
  }

  lemma TopsBelowAnyBound(ch: seq<seq<FrameId>>, x: set<FrameId>, cs: seq<FrameId>, b1: nat, b2: nat)
    requires Ordered(ch) && b1 <= |ch| && b2 <= |ch|
    requires AllBelow(cs, b1) && AllBelow(cs, b2)
    ensures TopsBelow(ch, x, cs, b1) == TopsBelow(ch, x, cs, b2)
    decreases |cs|
  {
    if cs != [] {
      TopsBelowAnyBound(ch, x, cs[1..], b1, b2);
    }
  }

  lemma TopsCons(ch: seq<seq<FrameId>>, x: set<FrameId>, cs: seq<FrameId>)
    requires Ordered(ch) && cs != [] && AllBelow(cs, |ch|)
    ensures AllBelow(ch[cs[0]], |ch|)
    ensures Tops(ch, x, cs) ==
      (if cs[0] in x then Tops(ch, x, ch[cs[0]]) else [cs[0]]) + Tops(ch, x, cs[1..])
  {
    ChildBelow(ch, cs[0]);
    TopsBelowAnyBound(ch, x, ch[cs[0]], cs[0], |ch|);
  }

  lemma TopsOne(ch: seq<seq<FrameId>>, x: set<FrameId>, n: FrameId)
    requires Ordered(ch) && n < |ch|
    ensures AllBelow(ch[n], |ch|)
    ensures Tops(ch, x, [n]) == if n in x then Tops(ch, x, ch[n]) else [n]
  {
    TopsCons(ch, x, [n]);
  }

  lemma {:induction false} TopsAppend(ch: seq<seq<FrameId>>, x: set<FrameId>, a: seq<FrameId>, b: seq<FrameId>)
    requires Ordered(ch) && AllBelow(a, |ch|) && AllBelow(b, |ch|)
    ensures Tops(ch, x, a + b) == Tops(ch, x, a) + Tops(ch, x, b)
    decreases |a|
  {
    if a == [] {
      assert a + b == b;
    } else {
      assert (a + b)[0] == a[0] && (a + b)[1..] == a[1..] + b;
      assert AllBelow(a + b, |ch|);
      TopsCons(ch, x, a);
      TopsCons(ch, x, a + b);
      TopsAppend(ch, x, a[1..], b);
      var head := if a[0] in x then Tops(ch, x, ch[a[0]]) else [a[0]];
      calc {
        Tops(ch, x, a + b);
        head + Tops(ch, x, a[1..] + b);
        head + (Tops(ch, x, a[1..]) + Tops(ch, x, b));
        (head + Tops(ch, x, a[1..])) + Tops(ch, x, b);
      }
    }
  }

  lemma {:induction false} TopsBelowInWalkBelow(ch: seq<seq<FrameId>>, x: set<FrameId>, cs: seq<FrameId>, bound: nat)
    requires Ordered(ch) && bound <= |ch| && AllBelow(cs, bound)
    ensures forall y <- TopsBelow(ch, x, cs, bound) :: y in WalkBelow(ch, cs, bound)
    decreases bound, |cs|
  {
    if cs != [] {
      ChildBelow(ch, cs[0]);
      if cs[0] in x {
        TopsBelowInWalkBelow(ch, x, ch[cs[0]], cs[0]);
      }
      TopsBelowInWalkBelow(ch, x, cs[1..], bound);
    }
  }

  /** Every surviving top frame lies in the walk of the roots it was taken from. */
  lemma TopsInWalk(ch: seq<seq<FrameId>>, x: set<FrameId>, cs: seq<FrameId>)
    requires Ordered(ch) && AllBelow(cs, |ch|)
    ensures forall y <- Tops(ch, x, cs) :: y in Walk(ch, cs)
  {
    TopsBelowInWalkBelow(ch, x, cs, |ch|);
  }

  lemma {:induction false} TopsBelowFrame(ch1: seq<seq<FrameId>>, ch2: seq<seq<FrameId>>, x: set<FrameId>, cs: seq<FrameId>, bound: nat)
    requires Ordered(ch1) && Ordered(ch2) && |ch1| == |ch2| && bound <= |ch1|
    requires AllBelow(cs, bound)
    requires forall y <- WalkBelow(ch1, cs, bound) :: ch2[y] == ch1[y]
    ensures TopsBelow(ch2, x, cs, bound) == TopsBelow(ch1, x, cs, bound)
    decreases bound, |cs|
  {
    if cs != [] {
      var c := cs[0];
      assert c in WalkBelow(ch1, cs, bound);
      ChildBelow(ch1, c);
      TopsBelowFrame(ch1, ch2, x, ch1[c], c);
      TopsBelowFrame(ch1, ch2, x, cs[1..], bound);
    }
  }

  /** The surviving tops read only the child lists of the frames walked. */
  lemma TopsFrame(ch1: seq<seq<FrameId>>, ch2: seq<seq<FrameId>>, x: set<FrameId>, cs: seq<FrameId>)
    requires Ordered(ch1) && Ordered(ch2) && |ch1| == |ch2|
    requires AllBelow(cs, |ch1|)
    requires forall y <- Walk(ch1, cs) :: ch2[y] == ch1[y]
    ensures Tops(ch2, x, cs) == Tops(ch1, x, cs)
  {
    TopsBelowFrame(ch1, ch2, x, cs, |ch1|);
  }

  // ---------------------------------------------------------------------------
  // Subtrees of distinct siblings are disjoint
  // ---------------------------------------------------------------------------

  /** Every frame strictly inside a subtree has its parent inside that subtree. */
  lemma {:induction false} ParentInSubtree(f: Forest, a: FrameId, y: FrameId)
    requires Valid(f) && a < |f.children|
    requires y in Dfs(f.children, a) && y != a
    ensures y < |f.parent| && f.parent[y].Some? && f.parent[y].value in Dfs(f.children, a)
    decreases a
  {
    var ch := f.children;
    DfsUnfold(ch, a);
    WalkMem(ch, ch[a], y);
    var j :| 0 <= j < |ch[a]| && y in Dfs(ch, ch[a][j]);
    var c := ch[a][j];
    if y == c {
      assert f.parent[c] == Some(a);
    } else {
      ParentInSubtree(f, c, y);
      var q := f.parent[y].value;
      WalkMem(ch, ch[a], q);
    }
  }

  /** The subtrees of two distinct frames with the same parent share no frame. */
  lemma {:induction false} SiblingsDisjoint(f: Forest, a: FrameId, b: FrameId, y: FrameId)
    requires Valid(f) && a < |f.children| && b < |f.children| && a != b
    requires f.parent[a].Some? && f.parent[a] == f.parent[b]
    requires y in Dfs(f.children, a)
    ensures y !in Dfs(f.children, b)
    decreases a - y
  {
    var ch := f.children;
    DfsAtMostRoot(ch, a);
    DfsAtMostRoot(ch, b);
    var p := f.parent[a].value;
    assert a in ch[p] && b in ch[p];
    assert a < p && b < p;
    if y in Dfs(ch, b) {
      if y == a {
        ParentInSubtree(f, b, a);
        assert false;
      } else if y == b {
        ParentInSubtree(f, a, b);
        assert false;
      } else {
        ParentInSubtree(f, a, y);
        ParentInSubtree(f, b, y);
        var q := f.parent[y].value;
        assert y in ch[q];
        assert y < q;
        SiblingsDisjoint(f, a, b, q);
        assert false;
      }
    }
  }

  /** The subtree of a frame shares nothing with the walk of any list of its siblings. */
  lemma {:induction false} SubtreeOutsideSiblings(f: Forest, c: FrameId, cs: seq<FrameId>)
    requires Valid(f) && c < |f.children| && f.parent[c].Some?
    requires AllBelow(cs, |f.children|)
    requires forall j :: 0 <= j < |cs| ==> cs[j] != c && f.parent[cs[j]] == f.parent[c]
    ensures forall y <- Dfs(f.children, c) :: y !in Walk(f.children, cs)
  {
    var ch := f.children;
    forall y <- Dfs(ch, c) ensures y !in Walk(ch, cs) {
      WalkMem(ch, cs, y);
      forall j | 0 <= j < |cs| ensures y !in Dfs(ch, cs[j]) {
        SiblingsDisjoint(f, c, cs[j], y);
      }
    }
  }

  /** A subtree contains the subtree of each of its frames. */
  lemma {:induction false} DfsClosed(ch: seq<seq<FrameId>>, a: FrameId, y: FrameId)
    requires Ordered(ch) && a < |ch| && y in Dfs(ch, a)
    ensures y < |ch| && forall z <- Dfs(ch, y) :: z in Dfs(ch, a)
    decreases a
  {
    DfsUnfold(ch, a);
    if y != a {
      WalkMem(ch, ch[a], y);
      var j :| 0 <= j < |ch[a]| && y in Dfs(ch, ch[a][j]);
      ChildBelow(ch, a);
      DfsClosed(ch, ch[a][j], y);
      forall z <- Dfs(ch, y) ensures z in Dfs(ch, a) {
        WalkMem(ch, ch[a], z);
      }
    }
  }

  // ---------------------------------------------------------------------------
  // Hoisting one frame
  // ---------------------------------------------------------------------------

  /** Position of the first occurrence of `v` in `s`. */
  function IndexOf(s: seq<FrameId>, v: FrameId): (i: nat)
    requires v in s
    ensures i < |s| && s[i] == v && v !in s[..i]
  {
    if s[0] == v then 0
    else
      var j := IndexOf(s[1..], v);
      assert s[..j + 1] == [s[0]] + s[1..][..j];
      1 + j
  }

  /** The first occurrence is the only position before which `v` does not occur. */
  lemma IndexOfAt(s: seq<FrameId>, v: FrameId, i: nat)
    requires i < |s| && s[i] == v && v !in s[..i]
    ensures IndexOf(s, v) == i
  {

  }

  /** `s` with its element at `i` replaced by the list `r`. */
  function Splice(s: seq<FrameId>, i: nat, r: seq<FrameId>): seq<FrameId>
    requires i < |s|
  {
    s[..i] + r + s[i + 1..]
  }

  datatype HoistError = RootFrameCannotBeHoisted

  /** Removes frame `v` from its parent's children, putting `v`'s children in its place.
      A frame without a parent cannot be hoisted. */
  function Hoist(f: Forest, v: FrameId): Result<Forest, HoistError>
    requires Valid(f) && v < |f.children|
  {
    match f.parent[v]
    case None => Failure(RootFrameCannotBeHoisted)
    case Some(p) =>
      var i := IndexOf(f.children[p], v);
      Success(Forest(f.children[p := Splice(f.children[p], i, f.children[v])][v := []], Relink(f.parent, v, p)))
  }

  /** Parent links once `v` is hoisted into `p`: `v` is detached and its children point to `p`. */
  function Relink(par: seq<Option<FrameId>>, v: FrameId, p: FrameId): (r: seq<Option<FrameId>>)
    ensures |r| == |par|
  {
    seq(|par|, k requires 0 <= k < |par| => if k == v then None else if par[k] == Some(v) then Some(p) else par[k])
  }

  lemma {:induction false} KeptNothing(s: seq<FrameId>, x: set<FrameId>)
    requires forall y <- s :: y !in x
    ensures Kept(s, x) == s
    decreases |s|
  {
    if s != [] {
      KeptNothing(s[1..], x);
    }
  }

  /** Deleting a frame that occurs once is cutting it out at its position. */
  lemma {:induction false} KeptOnce(s: seq<FrameId>, i: nat)
    requires i < |s| && Distinct(s)
    ensures Kept(s, {s[i]}) == s[..i] + s[i + 1..]
  {
    var v, p, q := s[i], s[..i], s[i + 1..];
    DistinctApart(s, i);
    KeptCutsOut(p, v, [], q);
    assert p + (([v] + []) + q) == s;
    assert p + ([] + q) == p + q;
  }

  /** A list is what comes before position `i`, the element there, and what comes after. */
  lemma Around(s: seq<FrameId>, i: nat)
    requires i < |s|
    ensures s == s[..i] + [s[i]] + s[i + 1..]
  {
  }

  /** In a list without repeats, an element occurs neither before nor after its position. */
  lemma DistinctApart(s: seq<FrameId>, i: nat)
    requires i < |s| && Distinct(s)
    ensures s[i] !in s[..i] && s[i] !in s[i + 1..]
  {
    var p, q := s[..i], s[i + 1..];
    forall k | 0 <= k < |p| ensures p[k] != s[i] {
      assert p[k] == s[k];
    }
    forall k | 0 <= k < |q| ensures q[k] != s[i] {
      assert q[k] == s[i + 1 + k];
    }
  }

  lemma {:induction false} DistinctSplice(s: seq<FrameId>, i: nat, r: seq<FrameId>)
    requires i < |s| && Distinct(s) && Distinct(r)
    requires forall a, b :: 0 <= a < |r| && 0 <= b < |s| ==> r[a] != s[b]
    ensures Distinct(Splice(s, i, r)) && s[i] !in Splice(s, i, r)
  {
    var t := Splice(s, i, r);
    forall a, b | 0 <= a < b < |t| ensures t[a] != t[b] {
      if a < i && b < i + |r| && b >= i {
        assert t[b] == r[b - i];
      } else if a < i && b >= i + |r| {
        assert t[b] == s[b - |r| + 1];
      } else if i <= a < i + |r| && b >= i + |r| {
        assert t[a] == r[a - i] && t[b] == s[b - |r| + 1];
      } else if a >= i + |r| {
        assert t[a] == s[a - |r| + 1] && t[b] == s[b - |r| + 1];
      } else if i <= a < i + |r| && b < i + |r| {
        assert t[a] == r[a - i] && t[b] == r[b - i];
      }
    }
    forall a | 0 <= a < |t| ensures t[a] != s[i] {
      if a < i {
      } else if a < i + |r| {
        assert t[a] == r[a - i];
      } else {
        assert t[a] == s[a - |r| + 1];
      }
    }
  }

  /** The parts of a hoisted arena, one by one. */
  lemma {:induction false} HoistShape(f: Forest, v: FrameId)
    requires Valid(f) && v < |f.children| && f.parent[v].Some?
    ensures var p, g := f.parent[v].value, Hoist(f, v);
      && v < p < |f.children| && g.Success?
      && |g.value.children| == |f.children| && |g.value.parent| == |f.parent|
      && g.value.children[p] == Splice(f.children[p], IndexOf(f.children[p], v), f.children[v])
      && g.value.children[v] == []
      && (forall n :: 0 <= n < |f.children| && n != p && n != v ==> g.value.children[n] == f.children[n])
      && (forall k :: 0 <= k < |f.parent| ==>
            g.value.parent[k] == if k == v then None else if f.parent[k] == Some(v) then Some(p) else f.parent[k])
  {
    var p := f.parent[v].value;
    assert v in f.children[p];
  }

  /** Hoisting keeps the arena well formed: callees stay below callers, parent links and
      child lists agree, and no child list repeats a frame. */
  lemma {:induction false} HoistPreservesValid(f: Forest, v: FrameId)
    requires Valid(f) && v < |f.children| && f.parent[v].Some?
    ensures Hoist(f, v).Success? && Valid(Hoist(f, v).value)
  {
    HoistShape(f, v);
    var ch, par := f.children, f.parent;
    var p := par[v].value;
    var s := ch[p];
    var i := IndexOf(s, v);
    var kids := ch[v];
    var g := Hoist(f, v).value;
    var gch, gpar := g.children, g.parent;
    assert gch[p] == s[..i] + kids + s[i + 1..];
    assert Ordered(gch) by {
      assert AllBelow(kids, v) && AllBelow(s, p);
      forall a | 0 <= a < |gch[p]| ensures gch[p][a] < p {
        if a < i {
          assert gch[p][a] == s[a];
        } else if a < i + |kids| {
          assert gch[p][a] == kids[a - i];
        } else {
          assert gch[p][a] == s[a - |kids| + 1];
        }
      }
      forall n | 0 <= n < |gch| ensures AllBelow(gch[n], n) {
        if n != p && n != v {
          assert gch[n] == ch[n];
        }
      }
    }
    assert forall n :: 0 <= n < |gch| ==> Distinct(gch[n]) by {
      forall a, b | 0 <= a < |kids| && 0 <= b < |s| ensures kids[a] != s[b] {
        assert par[kids[a]] == Some(v) && par[s[b]] == Some(p);
      }
      DistinctSplice(s, i, kids);
      forall n | 0 <= n < |gch| ensures Distinct(gch[n]) {
        if n != p && n != v {
          assert gch[n] == ch[n];
        }
      }
    }
    HoistPointsUp(f, v);
    HoistPointsDown(f, v);
  }

  lemma {:induction false} HoistPointsUp(f: Forest, v: FrameId)
    requires Valid(f) && v < |f.children| && f.parent[v].Some?
    ensures Hoist(f, v).Success?
    ensures var g := Hoist(f, v).value;
      forall n, j :: 0 <= n < |g.children| && 0 <= j < |g.children[n]| ==>
        g.children[n][j] < |g.parent| && g.parent[g.children[n][j]] == Some(n)
  {
    HoistShape(f, v);
    var ch, par := f.children, f.parent;
    var p := par[v].value;
    var s := ch[p];
    var i := IndexOf(s, v);
    var kids := ch[v];
    var g := Hoist(f, v).value;
    var gch, gpar := g.children, g.parent;
    assert gch[p] == s[..i] + kids + s[i + 1..];
    forall n, j | 0 <= n < |gch| && 0 <= j < |gch[n]|
      ensures gch[n][j] < |gpar| && gpar[gch[n][j]] == Some(n)
    {
      var e := gch[n][j];
      if n == p {
        if j < i {
          assert e == s[j] && par[e] == Some(p);
        } else if j < i + |kids| {
          assert e == kids[j - i] && par[e] == Some(v);
        } else {
          assert e == s[j - |kids| + 1] && par[e] == Some(p);
          assert j - |kids| + 1 != i;
        }
      } else {
        assert gch[n] == ch[n] && par[e] == Some(n);
      }
    }
  }

  lemma {:induction false} HoistPointsDown(f: Forest, v: FrameId)
    requires Valid(f) && v < |f.children| && f.parent[v].Some?
    ensures Hoist(f, v).Success?
    ensures var g := Hoist(f, v).value;
      forall c :: 0 <= c < |g.parent| && g.parent[c].Some? ==>
        g.parent[c].value < |g.children| && c in g.children[g.parent[c].value]
  {
    HoistShape(f, v);
    var p := f.parent[v].value;
    var g := Hoist(f, v).value;
    forall c | 0 <= c < |g.parent| && g.parent[c].Some?
      ensures g.parent[c].value < |g.children| && c in g.children[g.parent[c].value]
    {
      if f.parent[c] == Some(v) {
        assert c in f.children[v];
        SpliceHas(f.children[p], IndexOf(f.children[p], v), f.children[v], c);
      } else if f.parent[c] == Some(p) {
        assert c in f.children[p] && c != v;
        SpliceHas(f.children[p], IndexOf(f.children[p], v), f.children[v], c);
      } else {
        var q := f.parent[c].value;
        assert g.parent[c] == f.parent[c] && c in f.children[q] && q != p && q != v;
      }
    }
  }

  /** A splice holds the spliced-in list and every other element of the original list. */
  lemma SpliceHas(s: seq<FrameId>, i: nat, r: seq<FrameId>, c: FrameId)
    requires i < |s| && (c in r || (c in s && c != s[i]))
    ensures c in Splice(s, i, r)
  {
    var t := Splice(s, i, r);
    if c in r {
      var a :| 0 <= a < |r| && r[a] == c;
      assert t[i + a] == c;
    } else {
      var b :| 0 <= b < |s| && s[b] == c;
      if b < i {
        assert t[b] == c;
      } else {
        assert t[b + |r| - 1] == c;
      }
    }
  }

  /** The splice law: the hoisted frame's children take its place among its parent's
      children, in their own order; the parent's child count changes by k - 1 for k
      hoisted children and the hoisted frame is no longer among them. The hoisted frame is
      left detached and childless; its children now point to the parent; every other child
      list is unchanged. */
  lemma {:induction false} HoistSplicesChildren(f: Forest, v: FrameId)
    requires Valid(f) && v < |f.children| && f.parent[v].Some?
    ensures Hoist(f, v).Success?
    ensures var p, g := f.parent[v].value, Hoist(f, v).value;
      && p < |f.children|
      && (exists i :: 0 <= i < |f.children[p]| && f.children[p][i] == v &&
            g.children[p] == f.children[p][..i] + f.children[v] + f.children[p][i + 1..])
      && |g.children[p]| == |f.children[p]| + |f.children[v]| - 1
      && v !in g.children[p]
      && g.children[v] == [] && g.parent[v].None?
      && (forall c <- f.children[v] :: g.parent[c] == Some(p))
      && (forall n :: 0 <= n < |f.children| && n != p && n != v ==> g.children[n] == f.children[n])
  {
    var p := f.parent[v].value;
    var s := f.children[p];
    var i := IndexOf(s, v);
    forall a, b | 0 <= a < |f.children[v]| && 0 <= b < |s| ensures f.children[v][a] != s[b] {
      assert f.parent[f.children[v][a]] == Some(v) && f.parent[s[b]] == Some(p);
    }
    DistinctSplice(s, i, f.children[v]);
    forall c <- f.children[v] ensures Hoist(f, v).value.parent[c] == Some(p) {
      assert f.parent[c] == Some(v);
    }
  }

  /** Hoisting a childless frame is deleting it: the other siblings keep their order. */
  lemma {:induction false} HoistChildlessDeletes(f: Forest, v: FrameId)
    requires Valid(f) && v < |f.children| && f.parent[v].Some? && f.children[v] == []
    ensures Hoist(f, v).Success?
    ensures var p := f.parent[v].value;
      && p < |f.children|
      && Hoist(f, v).value.children[p] == Kept(f.children[p], {v})
      && |Hoist(f, v).value.children[p]| == |f.children[p]| - 1
  {
    HoistShape(f, v);
    var s := f.children[f.parent[v].value];
    var i := IndexOf(s, v);
    assert Splice(s, i, []) == s[..i] + s[i + 1..];
    KeptOnce(s, i);
  }

  /** Hoisting the middle one of three siblings that has two children: the children take
      positions 1 and 2 and the third sibling moves to position 3. */
  lemma {:induction false} HoistMiddleOfThree(f: Forest, v: FrameId)
    requires Valid(f) && v < |f.children| && f.parent[v].Some?
    requires |f.children[f.parent[v].value]| == 3 && f.children[f.parent[v].value][1] == v
    requires |f.children[v]| == 2
    ensures Hoist(f, v).Success?
    ensures var s, kids := f.children[f.parent[v].value], f.children[v];
      Hoist(f, v).value.children[f.parent[v].value] == [s[0], kids[0], kids[1], s[2]]
  {
    HoistShape(f, v);
    var s := f.children[f.parent[v].value];
    assert Distinct(s);
    assert s[0] != v;
    IndexOfAt(s, v, 1);
  }

  /** Deleting a frame that occurs once, between `a` and `b + c`, leaves `a + (b + c)`. */
  lemma {:induction false} KeptCutsOut(a: seq<FrameId>, v: FrameId, b: seq<FrameId>, c: seq<FrameId>)
    requires v !in a && v !in b && v !in c
    ensures Kept(a + (([v] + b) + c), {v}) == a + (b + c)
  {
    assert a + (([v] + b) + c) == (a + [v]) + (b + c);
    KeptAppend(a + [v], b + c, {v});
    assert Kept(a + [v], {v}) == a by {
      KeptAppend(a, [v], {v});
      KeptNothing(a, {v});
      assert Kept([v], {v}) == [] by {
        assert [v][1..] == [];
      }
    }
    KeptNothing(b + c, {v});
  }

  /** The walk of three consecutive runs of roots is the three walks in a row. */
  lemma {:induction false} WalkSplit(ch: seq<seq<FrameId>>, a: seq<FrameId>, b: seq<FrameId>, c: seq<FrameId>)
    requires Ordered(ch) && AllBelow(a, |ch|) && AllBelow(b, |ch|) && AllBelow(c, |ch|)
    ensures Walk(ch, a + b + c) == Walk(ch, a) + (Walk(ch, b) + Walk(ch, c))
  {
    assert a + b + c == a + (b + c);
    assert AllBelow(b + c, |ch|);
    WalkAppend(ch, b, c);
    WalkAppend(ch, a, b + c);
  }

  /** Every frame walked from roots below `b` is below `b`. */
  lemma {:induction false} WalkStaysBelow(ch: seq<seq<FrameId>>, cs: seq<FrameId>, b: nat)
    requires Ordered(ch) && b <= |ch| && AllBelow(cs, b)
    ensures AllBelow(cs, |ch|) && forall y <- Walk(ch, cs) :: y < b
  {
    WalkBelowAnyBound(ch, cs, b, |ch|);
  }

  /** A walk over the frames beside or below the hoisted one is the same before and after,
      and never meets the hoisted frame. */
  lemma {:induction false} HoistKeepsPart(f: Forest, v: FrameId, cs: seq<FrameId>, b: nat)
    requires Valid(f) && v < |f.children| && f.parent[v].Some?
    requires b <= |f.children| && AllBelow(cs, b)
    requires b == v || (b == f.parent[v].value &&
      forall j :: 0 <= j < |cs| ==> cs[j] != v && f.parent[cs[j]] == f.parent[v])
    ensures Hoist(f, v).Success? && Valid(Hoist(f, v).value)
    ensures AllBelow(cs, |f.children|)
    ensures Walk(Hoist(f, v).value.children, cs) == Walk(f.children, cs)
    ensures v !in Walk(f.children, cs)
  {
    HoistShape(f, v);
    HoistPreservesValid(f, v);
    var ch, gch := f.children, Hoist(f, v).value.children;
    WalkStaysBelow(ch, cs, b);
    if b != v {
      DfsUnfold(ch, v);
      SubtreeOutsideSiblings(f, v, cs);
    }
    WalkFrame(ch, gch, cs);
  }

  /** Hoisting deletes exactly the hoisted frame from the depth-first order of its
      parent's subtree. */
  lemma {:induction false} HoistKeepsWalk(f: Forest, v: FrameId)
    requires Valid(f) && v < |f.children| && f.parent[v].Some?
    ensures Hoist(f, v).Success? && Valid(Hoist(f, v).value)
    ensures var p, g := f.parent[v].value, Hoist(f, v).value;
      && p < |f.children| && AllBelow(g.children[p], |g.children|)
      && Walk(g.children, g.children[p]) == Kept(Walk(f.children, f.children[p]), {v})
  {
    HoistParentWalk(f, v);
    ParentWalkBefore(f, v);
    var ch := f.children;
    var s := ch[f.parent[v].value];
    var i := IndexOf(s, v);
    KeptCutsOut(Walk(ch, s[..i]), v, Walk(ch, ch[v]), Walk(ch, s[i + 1..]));
    HoistPreservesValid(f, v);
  }

  /** Before hoisting, the walk of the parent's children is the walk of the siblings before
      `v`, then `v` and its subtree, then the walk of the siblings after it. */
  lemma {:induction false} ParentWalkBefore(f: Forest, v: FrameId)
    requires Valid(f) && v < |f.children| && f.parent[v].Some?
    ensures var ch, p := f.children, f.parent[v].value;
      && p < |ch| && v in ch[p] && AllBelow(ch[p], |ch|)
      && var s := ch[p];
      var i := IndexOf(s, v);
      && AllBelow(s[..i], |ch|) && AllBelow(s[i + 1..], |ch|) && AllBelow(ch[v], |ch|)
      && Walk(ch, s) == Walk(ch, s[..i]) + (([v] + Walk(ch, ch[v])) + Walk(ch, s[i + 1..]))
  {
    var ch := f.children;
    var p := f.parent[v].value;
    var s := ch[p];
    assert v in s;
    var i := IndexOf(s, v);
    ChildBelow(ch, p);
    Around(s, i);
    WalkSplit(ch, s[..i], [v], s[i + 1..]);
    DfsUnfold(ch, v);
  }

  /** After hoisting, the walk of the parent's children is the walk of the siblings before
      the hoisted frame, then of its children, then of the siblings after it; none of the
      three meets the hoisted frame. */
  lemma {:induction false} HoistParentWalk(f: Forest, v: FrameId)
    requires Valid(f) && v < |f.children| && f.parent[v].Some?
    ensures Hoist(f, v).Success? && Ordered(Hoist(f, v).value.children)
    ensures var ch, p, gch := f.children, f.parent[v].value, Hoist(f, v).value.children;
      && v < p < |ch| && v in ch[p]
      && var s := ch[p];
      var i := IndexOf(s, v);
      var pre, post := s[..i], s[i + 1..];
      && AllBelow(pre, |ch|) && AllBelow(post, |ch|) && AllBelow(gch[p], |gch|)
      && Walk(gch, gch[p]) == Walk(ch, pre) + (Walk(ch, ch[v]) + Walk(ch, post))
      && v !in Walk(ch, pre) && v !in Walk(ch, ch[v]) && v !in Walk(ch, post)
  {
    HoistPreservesValid(f, v);
    HoistShape(f, v);
    var ch := f.children;
    var p := f.parent[v].value;
    var s := ch[p];
    var i := IndexOf(s, v);
    var kids := ch[v];
    var gch := Hoist(f, v).value.children;
    var pre, post := s[..i], s[i + 1..];
    ChildBelow(ch, p);
    assert gch[p] == pre + kids + post;
    forall j | 0 <= j < |post| ensures post[j] != v {
      assert post[j] == s[i + 1 + j];
    }
    HoistKeepsPart(f, v, pre, p);
    HoistKeepsPart(f, v, post, p);
    HoistKeepsPart(f, v, kids, v);
    WalkSplit(gch, pre, kids, post);
  }
}
