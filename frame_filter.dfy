/**
 * Removing the test framework's own frames from a profiled call tree.
 *
 * A frame is excluded when its file lies under one of the framework's install
 * locations (a substring test on the file path). Excluded frames are hoisted out of
 * the tree one by one, after their own subtrees have been filtered: each excluded
 * frame's children take its place among its parent's children. The call tree is the
 * arena of module FrameForest, held in a FrameArena object whose child lists and
 * parent links the operations update in place.
 */
module FrameFilter {
  import opened Wrappers
  import opened FrameForest

  /** What the profiler recorded about one frame. */
  datatype FrameInfo = FrameInfo(name: Option<string>, filePath: Option<string>, line: Option<int>)

  // ---------------------------------------------------------------------------
  // Which frames are excluded
  // ---------------------------------------------------------------------------

  /** `needle` occurs in `hay` starting at position `i`. */
  ghost predicate OccursAt(hay: string, needle: string, i: int)
  {
    0 <= i && i + |needle| <= |hay| && hay[i..i + |needle|] == needle
  }

  /** Substring containment, as Python's `needle in hay` on strings. */
  function Contains(hay: string, needle: string): (r: bool)
    ensures r <==> exists i :: OccursAt(hay, needle, i)
    decreases |hay|
  {
    if |hay| < |needle| then false
    else if hay[..|needle|] == needle then
      assert OccursAt(hay, needle, 0);
      true
    else
      var r := Contains(hay[1..], needle);
      assert forall i :: OccursAt(hay[1..], needle, i) <==> OccursAt(hay, needle, i + 1) by {
        forall i ensures OccursAt(hay[1..], needle, i) <==> OccursAt(hay, needle, i + 1) {
          if 0 <= i && i + |needle| <= |hay| - 1 {
            assert hay[1..][i..i + |needle|] == hay[i + 1..i + 1 + |needle|];
          }
        }
      }
      assert !OccursAt(hay, needle, 0);
      assert (exists i :: OccursAt(hay, needle, i)) ==> exists i :: OccursAt(hay[1..], needle, i) by {
        if exists i :: OccursAt(hay, needle, i) {
          var i :| OccursAt(hay, needle, i);
          assert OccursAt(hay[1..], needle, i - 1);
        }
      }
      r
  }

  /** A frame belongs to the test framework iff it has a non-empty file path that
      contains one of the framework's locations. */
  function IsPytestRelatedFrame(filePath: Option<string>, locations: seq<string>): (r: bool)
    ensures r <==>
      (filePath.Some? && filePath.value != [] &&
       exists j :: 0 <= j < |locations| && Contains(filePath.value, locations[j]))
  {
    if locations == [] then false
    else
      (filePath.Some? && filePath.value != [] && Contains(filePath.value, locations[0]))
      || IsPytestRelatedFrame(filePath, locations[1..])
  }

  /** The frames of the arena that are excluded. */
  ghost function Excluded(frames: seq<FrameInfo>, locations: seq<string>): (x: set<FrameId>)
    ensures forall n: FrameId :: n in x <==> n < |frames| && IsPytestRelatedFrame(frames[n].filePath, locations)
  {
    set n | 0 <= n < |frames| && IsPytestRelatedFrame(frames[n].filePath, locations)
  }

  // ---------------------------------------------------------------------------
  // What filtering one subtree achieves
  // ---------------------------------------------------------------------------

  /** Every surviving frame of `region` has, in `ch`, the surviving tops of its children
      in `ch0` as its children: the children of each excluded frame below it spliced in
      at that frame's old position. */
  ghost predicate Regrouped(ch0: seq<seq<FrameId>>, x: set<FrameId>, region: seq<FrameId>, ch: seq<seq<FrameId>>)
    requires Ordered(ch0) && AllBelow(region, |ch0|) && |ch| == |ch0|
  {
    forall y <- region :: y !in x ==> ch[y] == Tops(ch0, x, ch0[y])
  }

  /** `g` is `f0` after the subtree of `v` has been filtered of the frames in `x`:
      - the survivors that take `v`'s place walk in the original depth-first order
        with the excluded frames deleted;
      - every surviving frame of the subtree has the surviving tops of its children as
        children, so the survivors keep their original nesting;
      - a surviving or parentless `v` keeps its parent and now has the surviving tops
        of its children as children;
      - an excluded `v` with a parent has been hoisted: the surviving tops of its
        children stand in its place among the parent's children;
      - nothing outside the subtree changed, except that parent's child list. */
  ghost predicate Filtered(f0: Forest, x: set<FrameId>, v: FrameId, g: Forest)
    requires Valid(f0) && v < |f0.children|
  {
    var ch0 := f0.children;
    && Valid(g) && |g.children| == |ch0|
    && AllBelow(ch0[v], |ch0|)
    && Walk(g.children, Tops(ch0, x, [v])) == Kept(Dfs(ch0, v), x)
    && Regrouped(ch0, x, Dfs(ch0, v), g.children)
    && (v !in x || f0.parent[v].None? ==>
          g.children[v] == Tops(ch0, x, ch0[v]) && g.parent[v] == f0.parent[v])
    && (v in x && f0.parent[v].Some? ==>
          var p := f0.parent[v].value;
          && p < |ch0| && v in ch0[p]
          && g.children[p] == Splice(ch0[p], IndexOf(ch0[p], v), Tops(ch0, x, ch0[v]))
          && g.children[v] == [] && g.parent[v].None?)
    && (forall y :: 0 <= y < |ch0| && y !in Dfs(ch0, v) && !(v in x && f0.parent[v] == Some(y)) ==>
          g.children[y] == ch0[y])
    && (forall y :: 0 <= y < |ch0| && y !in Dfs(ch0, v) ==> g.parent[y] == f0.parent[y])
  }

  /** Filtering the subtree of `v` of the frames in `x` turned `f0` into `g` and left
      `roots` in `v`'s place: `v` itself when it survives, the surviving tops of its
      children when it is an excluded frame without a parent, and nothing when it was
      hoisted into its parent. */
  ghost predicate FilteredRoots(f0: Forest, x: set<FrameId>, v: FrameId, g: Forest, roots: seq<FrameId>)
    requires Valid(f0) && v < |f0.children|
  {
    && Filtered(f0, x, v, g)
    && (v !in x ==> roots == [v])
    && (v in x && f0.parent[v].None? ==> roots == Tops(f0.children, x, f0.children[v]))
    && (v in x && f0.parent[v].Some? ==> roots == [])
  }

  /** The state after the first `k` children of `root` (as they stood before the loop)
      have been filtered. */
  ghost predicate LoopInv(f0: Forest, x: set<FrameId>, root: FrameId, k: nat, cur: Forest)
    requires Valid(f0) && root < |f0.children| && k <= |f0.children[root]|
  {
    var ch0, kids := f0.children, f0.children[root];
    && AllBelow(kids[..k], root) && AllBelow(kids[..k], |ch0|)
    && Valid(cur) && |cur.children| == |ch0|
    && cur.children[root] == Tops(ch0, x, kids[..k]) + kids[k..]
    && Walk(cur.children, Tops(ch0, x, kids[..k])) == Kept(Walk(ch0, kids[..k]), x)
    && Regrouped(ch0, x, Walk(ch0, kids[..k]), cur.children)
    && (forall y :: 0 <= y < |ch0| && y != root && y !in Walk(ch0, kids[..k]) ==> cur.children[y] == ch0[y])
    && (forall y :: 0 <= y < |ch0| && y !in Walk(ch0, kids[..k]) ==> cur.parent[y] == f0.parent[y])
  }

  lemma {:induction false} LoopStart(f0: Forest, x: set<FrameId>, root: FrameId)
    requires Valid(f0) && root < |f0.children|
    ensures LoopInv(f0, x, root, 0, f0)
  {
    var kids := f0.children[root];
    assert kids[..0] == [] && kids[0..] == kids;
    assert Walk(f0.children, []) == [];
    assert Tops(f0.children, x, []) == [];
  }

  /** Facts about the next child `c` before it is filtered: its subtree is untouched so
      far and shares nothing with the part already filtered. */
  lemma {:induction false} StepBefore(f0: Forest, x: set<FrameId>, root: FrameId, k: nat, cur: Forest)
    requires Valid(f0) && root < |f0.children| && k < |f0.children[root]|
    requires LoopInv(f0, x, root, k, cur)
    ensures f0.children[root][k] < root && AllBelow(f0.children[f0.children[root][k]], |f0.children|)
    ensures cur.parent[f0.children[root][k]] == Some(root)
    ensures cur.children[f0.children[root][k]] == f0.children[f0.children[root][k]]
    ensures Dfs(cur.children, f0.children[root][k]) == Dfs(f0.children, f0.children[root][k])
    ensures Tops(cur.children, x, [f0.children[root][k]]) == Tops(f0.children, x, [f0.children[root][k]])
    ensures Tops(cur.children, x, cur.children[f0.children[root][k]]) ==
      Tops(f0.children, x, f0.children[f0.children[root][k]])
    ensures forall y <- Dfs(f0.children, f0.children[root][k]) ::
      y !in Walk(f0.children, f0.children[root][..k]) && y < root
    ensures forall y <- Tops(f0.children, x, f0.children[root][..k]) :: y in Walk(f0.children, f0.children[root][..k])
  {
    var ch0, kids := f0.children, f0.children[root];
    var c := kids[k];
    var pre := kids[..k];
    ChildBelow(ch0, root);
    DfsAtMostRoot(ch0, c);
    DfsUnfold(ch0, c);
    assert c in Dfs(ch0, c);
    forall j | 0 <= j < |pre| ensures pre[j] != c && f0.parent[pre[j]] == f0.parent[c] {
      assert pre[j] == kids[j];
    }
    SubtreeOutsideSiblings(f0, c, pre);
    assert forall y <- Dfs(ch0, c) :: cur.children[y] == ch0[y];
    WalkFrame(ch0, cur.children, [c]);
    TopsFrame(ch0, cur.children, x, [c]);
    TopsFrame(ch0, cur.children, x, ch0[c]);
    TopsInWalk(ch0, x, pre);
  }

  /** Replacing the first `c` after a `c`-free prefix. */
  lemma SpliceAfter(t: seq<FrameId>, c: FrameId, rest: seq<FrameId>, r: seq<FrameId>)
    requires c !in t
    ensures c in t + ([c] + rest)
    ensures Splice(t + ([c] + rest), IndexOf(t + ([c] + rest), c), r) == t + r + rest
  {
    var s := t + ([c] + rest);
    assert s[|t|] == c && s[..|t|] == t && s[|t| + 1..] == rest;
    IndexOfAt(s, c, |t|);
  }

  /** The slices on either side of position `k`. */
  lemma SliceAt(s: seq<FrameId>, k: nat)
    requires k < |s|
    ensures s[..k + 1] == s[..k] + [s[k]] && s[k..] == [s[k]] + s[k + 1..]
  {
  }

  /** Regrouping a concatenation. */
  lemma Regroup(a: seq<FrameId>, b: seq<FrameId>, c: seq<FrameId>)
    ensures a + (b + c) == (a + b) + c
  {
  }

  /** The parent's child list after the `k`-th child has been filtered. */
  lemma {:induction false} StepRoot(f0: Forest, x: set<FrameId>, root: FrameId, k: nat, cur: Forest, nw: Forest)
    requires Valid(f0) && root < |f0.children| && k < |f0.children[root]|
    requires LoopInv(f0, x, root, k, cur)
    requires f0.children[root][k] < |cur.children| && Filtered(cur, x, f0.children[root][k], nw)
    ensures var ch0, kids := f0.children, f0.children[root];
      && AllBelow(kids[..k + 1], |ch0|)
      && nw.children[root] == Tops(ch0, x, kids[..k + 1]) + kids[k + 1..]
  {
    var ch0, kids := f0.children, f0.children[root];
    var c := kids[k];
    var t := Tops(ch0, x, kids[..k]);
    var rest := kids[k + 1..];
    StepRootBefore(f0, x, root, k, cur);
    if c in x {
      SpliceAfter(t, c, rest, Tops(ch0, x, ch0[c]));
    } else {
      Regroup(t, [c], rest);
    }
  }

  /** The parent's child list before the `k`-th child is filtered: the surviving tops so
      far, then the child itself, then the children still to come. */
  lemma {:induction false} StepRootBefore(f0: Forest, x: set<FrameId>, root: FrameId, k: nat, cur: Forest)
    requires Valid(f0) && root < |f0.children| && k < |f0.children[root]|
    requires LoopInv(f0, x, root, k, cur)
    ensures var ch0, kids := f0.children, f0.children[root];
      var c, t := kids[k], Tops(ch0, x, kids[..k]);
      && AllBelow(kids[..k + 1], |ch0|) && c < root && c < |cur.children|
      && Tops(ch0, x, kids[..k + 1]) == t + Tops(ch0, x, [c])
      && Tops(ch0, x, [c]) == (if c in x then Tops(ch0, x, ch0[c]) else [c])
      && cur.children[root] == t + ([c] + kids[k + 1..]) && c !in t
      && cur.parent[c] == Some(root) && root !in Dfs(cur.children, c)
      && Tops(cur.children, x, cur.children[c]) == Tops(ch0, x, ch0[c])
  {
    var ch0, kids := f0.children, f0.children[root];
    var c := kids[k];
    var pre := kids[..k];
    var t := Tops(ch0, x, pre);
    StepBefore(f0, x, root, k, cur);
    StepSplit(f0, x, root, k, cur);
    assert Tops(ch0, x, kids[..k + 1]) == t + Tops(ch0, x, [c]) by {
      SliceAt(kids, k);
      TopsAppend(ch0, x, pre, [c]);
    }
    assert cur.children[root] == t + ([c] + kids[k + 1..]) by {
      SliceAt(kids, k);
    }
    TopsOne(ch0, x, c);
    assert root !in Dfs(cur.children, c) by {
      DfsAtMostRoot(ch0, c);
    }
    assert c !in t by {
      DfsUnfold(ch0, c);
    }
  }

  /** The depth-first order of the filtered part after the `k`-th child has been filtered. */
  lemma {:induction false} StepWalk(f0: Forest, x: set<FrameId>, root: FrameId, k: nat, cur: Forest, nw: Forest)
    requires Valid(f0) && root < |f0.children| && k < |f0.children[root]|
    requires LoopInv(f0, x, root, k, cur)
    requires f0.children[root][k] < |cur.children| && Filtered(cur, x, f0.children[root][k], nw)
    ensures var ch0, kids := f0.children, f0.children[root];
      && AllBelow(kids[..k + 1], |ch0|)
      && Walk(nw.children, Tops(ch0, x, kids[..k + 1])) == Kept(Walk(ch0, kids[..k + 1]), x)
  {
    var ch0, kids := f0.children, f0.children[root];
    var c := kids[k];
    var pre := kids[..k];
    var t, tc := Tops(ch0, x, pre), Tops(ch0, x, [c]);
    StepBefore(f0, x, root, k, cur);
    StepSplit(f0, x, root, k, cur);
    assert Tops(ch0, x, kids[..k + 1]) == t + tc by {
      SliceAt(kids, k);
      TopsAppend(ch0, x, pre, [c]);
    }
    assert AllBelow(t, |ch0|) && AllBelow(tc, |ch0|);
    WalkAppend(nw.children, t, tc);
    // the part already filtered is left alone by filtering c
    assert Walk(nw.children, t) == Kept(Walk(ch0, pre), x) by {
      forall y <- Walk(cur.children, t) ensures nw.children[y] == cur.children[y] {
        assert y in Kept(Walk(ch0, pre), x);
        WalkStaysBelow(ch0, pre, root);
      }
      WalkFrame(cur.children, nw.children, t);
    }
    assert Walk(nw.children, tc) == Kept(Dfs(ch0, c), x);
    KeptAppend(Walk(ch0, pre), Dfs(ch0, c), x);
  }

  /** Outside the part filtered so far, no child list has changed but the parent's. */
  lemma {:induction false} StepFrame(f0: Forest, x: set<FrameId>, root: FrameId, k: nat, cur: Forest, nw: Forest)
    requires Valid(f0) && root < |f0.children| && k < |f0.children[root]|
    requires LoopInv(f0, x, root, k, cur)
    requires f0.children[root][k] < |cur.children| && Filtered(cur, x, f0.children[root][k], nw)
    ensures AllBelow(f0.children[root][..k + 1], |f0.children|)
    ensures forall y :: 0 <= y < |f0.children| && y != root && y !in Walk(f0.children, f0.children[root][..k + 1]) ==>
      nw.children[y] == f0.children[y]
  {
    StepSplit(f0, x, root, k, cur);
    var ch0, kids := f0.children, f0.children[root];
    forall y | 0 <= y < |ch0| && y != root && y !in Walk(ch0, kids[..k + 1])
      ensures nw.children[y] == ch0[y]
    {
      assert y !in Dfs(cur.children, kids[k]) && y !in Walk(ch0, kids[..k]);
    }
  }

  /** Outside the part filtered so far, no parent link has changed. */
  lemma {:induction false} StepParents(f0: Forest, x: set<FrameId>, root: FrameId, k: nat, cur: Forest, nw: Forest)
    requires Valid(f0) && root < |f0.children| && k < |f0.children[root]|
    requires LoopInv(f0, x, root, k, cur)
    requires f0.children[root][k] < |cur.children| && Filtered(cur, x, f0.children[root][k], nw)
    ensures AllBelow(f0.children[root][..k + 1], |f0.children|)
    ensures forall y :: 0 <= y < |f0.children| && y !in Walk(f0.children, f0.children[root][..k + 1]) ==>
      nw.parent[y] == f0.parent[y]
  {
    StepSplit(f0, x, root, k, cur);
    var ch0, kids := f0.children, f0.children[root];
    forall y | 0 <= y < |ch0| && y !in Walk(ch0, kids[..k + 1])
      ensures nw.parent[y] == f0.parent[y]
    {
      assert y !in Dfs(cur.children, kids[k]) && y !in Walk(ch0, kids[..k]);
    }
  }

  /** The part filtered after the `k`-th child is the part before it and the child's subtree. */
  lemma {:induction false} StepSplit(f0: Forest, x: set<FrameId>, root: FrameId, k: nat, cur: Forest)
    requires Valid(f0) && root < |f0.children| && k < |f0.children[root]|
    requires LoopInv(f0, x, root, k, cur)
    ensures var ch0, kids := f0.children, f0.children[root];
      && AllBelow(kids[..k + 1], |ch0|) && kids[k] < root && kids[k] < |cur.children|
      && Walk(ch0, kids[..k + 1]) == Walk(ch0, kids[..k]) + Dfs(ch0, kids[k])
      && (forall y :: 0 <= y < |ch0| && y != root && y !in Walk(ch0, kids[..k]) ==> cur.children[y] == ch0[y])
      && (forall y :: 0 <= y < |ch0| && y !in Walk(ch0, kids[..k]) ==> cur.parent[y] == f0.parent[y])
      && (forall y <- Dfs(ch0, kids[k]) :: y !in Walk(ch0, kids[..k]) && y < root)
      && cur.parent[kids[k]] == Some(root) && Dfs(cur.children, kids[k]) == Dfs(ch0, kids[k])
  {
    var ch0, kids := f0.children, f0.children[root];
    var c := kids[k];
    var pre := kids[..k];
    StepBefore(f0, x, root, k, cur);
    ChildBelow(ch0, root);
    SliceAt(kids, k);
    assert AllBelow(kids[..k + 1], |ch0|);
    WalkAppend(ch0, pre, [c]);
  }

  /** After the `k`-th child has been filtered, every survivor of the part filtered so far
      has its surviving tops as children. */
  lemma {:induction false} StepRegrouped(f0: Forest, x: set<FrameId>, root: FrameId, k: nat, cur: Forest, nw: Forest)
    requires Valid(f0) && root < |f0.children| && k < |f0.children[root]|
    requires LoopInv(f0, x, root, k, cur)
    requires f0.children[root][k] < |cur.children| && Filtered(cur, x, f0.children[root][k], nw)
    ensures AllBelow(f0.children[root][..k + 1], |f0.children|)
    ensures Regrouped(f0.children, x, Walk(f0.children, f0.children[root][..k + 1]), nw.children)
  {
    var ch0, kids := f0.children, f0.children[root];
    var c := kids[k];
    var pre := kids[..k];
    StepSplit(f0, x, root, k, cur);
    WalkStaysBelow(ch0, pre, root);
    forall y <- Walk(ch0, kids[..k + 1]) | y !in x
      ensures nw.children[y] == Tops(ch0, x, ch0[y])
    {
      if y in Dfs(ch0, c) {
        // filtering `c` regrouped `y`, whose subtree was still as it stood before
        DfsClosed(ch0, c, y);
        DfsUnfold(ch0, y);
        forall z <- Walk(ch0, ch0[y]) ensures cur.children[z] == ch0[z] {
          assert z in Dfs(ch0, y);
        }
        TopsFrame(ch0, cur.children, x, ch0[y]);
      } else {
        // `y` was regrouped earlier and lies outside the subtree of `c`
        assert y in Walk(ch0, pre);
      }
    }
  }

  /** Filtering the `k`-th child keeps the loop invariant. */
  lemma {:induction false} LoopStep(f0: Forest, x: set<FrameId>, root: FrameId, k: nat, cur: Forest, nw: Forest)
    requires Valid(f0) && root < |f0.children| && k < |f0.children[root]|
    requires LoopInv(f0, x, root, k, cur)
    requires f0.children[root][k] < |cur.children| && Filtered(cur, x, f0.children[root][k], nw)
    ensures LoopInv(f0, x, root, k + 1, nw)
  {
    var kids := f0.children[root];
    StepRoot(f0, x, root, k, cur, nw);
    StepWalk(f0, x, root, k, cur, nw);
    StepFrame(f0, x, root, k, cur, nw);
    StepParents(f0, x, root, k, cur, nw);
    StepRegrouped(f0, x, root, k, cur, nw);
    ChildBelow(f0.children, root);
    SliceAt(kids, k);
    assert AllBelow(kids[..k + 1], root);
  }

  /** A surviving root, once its children are filtered, is filtered. */
  lemma {:induction false} DoneKept(f0: Forest, x: set<FrameId>, root: FrameId, cur: Forest)
    requires Valid(f0) && root < |f0.children| && root !in x
    requires LoopInv(f0, x, root, |f0.children[root]|, cur)
    ensures Filtered(f0, x, root, cur)
  {
    var ch0, kids := f0.children, f0.children[root];
    assert kids[..|kids|] == kids && kids[|kids|..] == [];
    DoneCommon(f0, x, root, cur);
    DoneRegrouped(f0, x, root, cur, cur);
    TopsOne(ch0, x, root);
    DfsUnfold(ch0, root);
    DfsUnfold(cur.children, root);
    KeptAppend([root], Walk(ch0, kids), x);
    assert Kept([root], x) == [root] by {
      assert [root][1..] == [];
    }
  }

  /** An excluded root without a parent, once its children are filtered, is filtered. */
  lemma {:induction false} DoneRoot(f0: Forest, x: set<FrameId>, root: FrameId, cur: Forest)
    requires Valid(f0) && root < |f0.children| && root in x
    requires LoopInv(f0, x, root, |f0.children[root]|, cur) && cur.parent[root].None?
    ensures f0.parent[root].None? && Filtered(f0, x, root, cur)
  {
    var ch0, kids := f0.children, f0.children[root];
    assert kids[..|kids|] == kids && kids[|kids|..] == [];
    DoneCommon(f0, x, root, cur);
    DoneRegrouped(f0, x, root, cur, cur);
    TopsOne(ch0, x, root);
    DfsUnfold(ch0, root);
    KeptAppend([root], Walk(ch0, kids), x);
    assert Kept([root], x) == [] by {
      assert [root][1..] == [];
    }
  }

  /** Once every child of `root` is filtered, every survivor of its subtree has its
      surviving tops as children, in any tree that agrees with the current one below
      `root` (and at `root` when it survives). */
  lemma {:induction false} DoneRegrouped(f0: Forest, x: set<FrameId>, root: FrameId, cur: Forest, g: Forest)
    requires Valid(f0) && root < |f0.children|
    requires LoopInv(f0, x, root, |f0.children[root]|, cur) && |g.children| == |f0.children|
    requires forall y <- Dfs(f0.children, root) :: y != root ==> g.children[y] == cur.children[y]
    requires root !in x ==> g.children[root] == cur.children[root]
    ensures Regrouped(f0.children, x, Dfs(f0.children, root), g.children)
  {
    var ch0, kids := f0.children, f0.children[root];
    assert kids[..|kids|] == kids;
    DoneCommon(f0, x, root, cur);
    DfsUnfold(ch0, root);
  }

  /** Hoisting the root leaves the child lists of its subtree's other frames alone. */
  lemma {:induction false} DoneHoistRegrouped(f0: Forest, x: set<FrameId>, root: FrameId, cur: Forest)
    requires Valid(f0) && root < |f0.children| && root in x
    requires LoopInv(f0, x, root, |f0.children[root]|, cur) && cur.parent[root].Some?
    ensures Hoist(cur, root).Success?
    ensures Regrouped(f0.children, x, Dfs(f0.children, root), Hoist(cur, root).value.children)
  {
    HoistShape(cur, root);
    DfsAtMostRoot(f0.children, root);
    DoneRegrouped(f0, x, root, cur, Hoist(cur, root).value);
  }

  /** What holds once every child of `root` is filtered: the root itself is untouched
      and nothing outside its subtree changed. */
  lemma {:induction false} DoneCommon(f0: Forest, x: set<FrameId>, root: FrameId, cur: Forest)
    requires Valid(f0) && root < |f0.children|
    requires LoopInv(f0, x, root, |f0.children[root]|, cur)
    ensures var ch0, kids := f0.children, f0.children[root];
      && AllBelow(kids, |ch0|) && AllBelow(kids, root)
      && cur.children[root] == Tops(ch0, x, kids)
      && Walk(cur.children, Tops(ch0, x, kids)) == Kept(Walk(ch0, kids), x)
      && cur.parent[root] == f0.parent[root]
      && (forall y :: 0 <= y < |ch0| && y !in Dfs(ch0, root) && y != root ==> cur.children[y] == ch0[y])
      && (forall y :: 0 <= y < |ch0| && y !in Dfs(ch0, root) ==> cur.parent[y] == f0.parent[y])
      && (forall y <- Tops(ch0, x, kids) :: y in Dfs(ch0, root) && y < root)
  {
    var ch0, kids := f0.children, f0.children[root];
    assert kids[..|kids|] == kids && kids[|kids|..] == [];
    ChildBelow(ch0, root);
    DfsUnfold(ch0, root);
    WalkStaysBelow(ch0, kids, root);
    TopsInWalk(ch0, x, kids);
  }

  /** An excluded root with a parent, once its children are filtered, is filtered by
      hoisting it. */
  lemma {:induction false} DoneHoist(f0: Forest, x: set<FrameId>, root: FrameId, cur: Forest)
    requires Valid(f0) && root < |f0.children| && root in x
    requires LoopInv(f0, x, root, |f0.children[root]|, cur) && cur.parent[root].Some?
    ensures f0.parent[root] == cur.parent[root] && Hoist(cur, root).Success?
    ensures Filtered(f0, x, root, Hoist(cur, root).value)
  {
    DoneCommon(f0, x, root, cur);
    HoistShape(cur, root);
    HoistPreservesValid(cur, root);
    DoneHoistWalk(f0, x, root, cur);
    DoneHoistSplice(f0, x, root, cur);
    DoneHoistChildren(f0, x, root, cur);
    DoneHoistParents(f0, x, root, cur);
    DoneHoistRegrouped(f0, x, root, cur);
  }

  /** Hoisting the root leaves the walk of its surviving tops as it was. */
  lemma {:induction false} DoneHoistWalk(f0: Forest, x: set<FrameId>, root: FrameId, cur: Forest)
    requires Valid(f0) && root < |f0.children| && root in x
    requires LoopInv(f0, x, root, |f0.children[root]|, cur) && cur.parent[root].Some?
    ensures Hoist(cur, root).Success? && Valid(Hoist(cur, root).value)
    ensures Walk(Hoist(cur, root).value.children, Tops(f0.children, x, [root])) == Kept(Dfs(f0.children, root), x)
  {
    var ch0, kids := f0.children, f0.children[root];
    DoneCommon(f0, x, root, cur);
    var t := Tops(ch0, x, kids);
    HoistKeepsPart(cur, root, t, root);
    TopsOne(ch0, x, root);
    DfsUnfold(ch0, root);
    KeptAppend([root], Walk(ch0, kids), x);
    assert Kept([root], x) == [] by {
      assert [root][1..] == [];
    }
  }

  /** Hoisting the root puts its surviving tops in its place among its parent's children. */
  lemma {:induction false} DoneHoistSplice(f0: Forest, x: set<FrameId>, root: FrameId, cur: Forest)
    requires Valid(f0) && root < |f0.children| && root in x
    requires LoopInv(f0, x, root, |f0.children[root]|, cur) && cur.parent[root].Some?
    ensures f0.parent[root] == cur.parent[root] && Hoist(cur, root).Success?
    ensures var ch0, p, g := f0.children, f0.parent[root].value, Hoist(cur, root).value;
      && p < |ch0| && root in ch0[p]
      && g.children[p] == Splice(ch0[p], IndexOf(ch0[p], root), Tops(ch0, x, ch0[root]))
      && g.children[root] == [] && g.parent[root].None?
  {
    var ch0 := f0.children;
    DoneCommon(f0, x, root, cur);
    HoistShape(cur, root);
    var p := f0.parent[root].value;
    assert root in ch0[p] && root < p;
    DfsAtMostRoot(ch0, root);
    assert p !in Dfs(ch0, root);
    assert cur.children[p] == ch0[p];
  }

  /** Hoisting the root changes no child list outside its subtree but its parent's. */
  lemma {:induction false} DoneHoistChildren(f0: Forest, x: set<FrameId>, root: FrameId, cur: Forest)
    requires Valid(f0) && root < |f0.children| && root in x
    requires LoopInv(f0, x, root, |f0.children[root]|, cur) && cur.parent[root].Some?
    ensures Hoist(cur, root).Success?
    ensures var ch0, g := f0.children, Hoist(cur, root).value;
      forall y :: 0 <= y < |ch0| && y !in Dfs(ch0, root) && f0.parent[root] != Some(y) ==>
        g.children[y] == ch0[y]
  {
    DoneCommon(f0, x, root, cur);
    HoistShape(cur, root);
    DfsUnfold(f0.children, root);
  }

  /** Hoisting the root changes no parent link outside its subtree. */
  lemma {:induction false} DoneHoistParents(f0: Forest, x: set<FrameId>, root: FrameId, cur: Forest)
    requires Valid(f0) && root < |f0.children| && root in x
    requires LoopInv(f0, x, root, |f0.children[root]|, cur) && cur.parent[root].Some?
    ensures Hoist(cur, root).Success?
    ensures var ch0, g := f0.children, Hoist(cur, root).value;
      forall y :: 0 <= y < |ch0| && y !in Dfs(ch0, root) ==> g.parent[y] == f0.parent[y]
  {
    var ch0 := f0.children;
    DoneCommon(f0, x, root, cur);
    HoistShape(cur, root);
    DfsUnfold(ch0, root);
  }

  /** When the root of a tree is filtered, what takes its place holds exactly the
      surviving frames of the tree, in their original depth-first order. */
  lemma {:induction false} FilteredSurvivors(f0: Forest, x: set<FrameId>, root: FrameId, g: Forest)
    requires Valid(f0) && root < |f0.children| && f0.parent[root].None?
    requires Filtered(f0, x, root, g)
    ensures var roots := if root in x then g.children[root] else [root];
      && AllBelow(roots, |g.children|)
      && Walk(g.children, roots) == Kept(Dfs(f0.children, root), x)
      && forall y <- Walk(g.children, roots) :: y < |g.children| && y !in x
  {
    TopsOne(f0.children, x, root);
  }

  /** A frame of the arena outside the excluded set is not the framework's. */
  lemma NotExcluded(frames: seq<FrameInfo>, locations: seq<string>, ys: seq<FrameId>)
    requires forall y <- ys :: y < |frames| && y !in Excluded(frames, locations)
    ensures forall y <- ys :: !IsPytestRelatedFrame(frames[y].filePath, locations)
  {
  }

  // ---------------------------------------------------------------------------
  // The call tree, updated in place
  // ---------------------------------------------------------------------------

  /** The profiled call tree: per-frame records and the child lists and parent links
      that hoisting rewrites. */
  class FrameArena {
    var children: seq<seq<FrameId>>
    var parent: seq<Option<FrameId>>
    const frames: seq<FrameInfo>

    /** The current shape of the tree, as a value. */
    function Tree(): (f: Forest)
      reads this
      ensures f.children == children && f.parent == parent
    {
      Forest(children, parent)
    }

    ghost predicate Valid()
      reads this
    {
      FrameForest.Valid(Tree()) && |frames| == |children|
    }

    constructor (frames: seq<FrameInfo>, children: seq<seq<FrameId>>, parent: seq<Option<FrameId>>)
      requires FrameForest.Valid(Forest(children, parent)) && |frames| == |children|
      ensures Valid()
      ensures this.frames == frames && this.children == children && this.parent == parent
    {
      this.frames := frames;
      this.children := children;
      this.parent := parent;
    }

    /** Removes frame `v`, putting its children in its place among its parent's children;
        a frame without a parent cannot be hoisted and nothing changes. */
    method Hoist(v: FrameId) returns (outcome: Result<(), HoistError>)
      requires Valid() && v < |children|
      modifies this
      ensures Valid()
      ensures outcome.Failure? <==> old(parent[v]).None?
      ensures outcome.Failure? ==>
        outcome.error == RootFrameCannotBeHoisted && children == old(children) && parent == old(parent)
      ensures outcome.Success? ==> Tree() == FrameForest.Hoist(old(Tree()), v).value
    {
      if parent[v].None? {
        return Failure(RootFrameCannotBeHoisted);
      }
      ghost var f := Tree();
      var p := parent[v].value;
      var i := IndexOf(children[p], v);
      // the children are added to the parent right after `v`, then `v` leaves the parent
      children := children[p := Splice(children[p], i, children[v])][v := []];
      parent := Relink(parent, v, p);
      HoistPreservesValid(f, v);
      outcome := Success(());
    }

    /** Filters the subtree of `root` of the framework's frames, bottom-up over the
        children as they stood before, and returns what takes `root`'s place: `root`
        itself when it survives, its filtered children when it is an excluded root of
        the tree, and nothing when it was hoisted into its parent. */
    method RemovePytestRelatedFrames(root: FrameId, locations: seq<string>) returns (roots: seq<FrameId>)
      requires Valid() && root < |children|
      modifies this
      decreases root
      ensures Valid()
      ensures AllBelow(old(children[root]), |children|)
      ensures Filtered(old(Tree()), Excluded(frames, locations), root, Tree())
      ensures !IsPytestRelatedFrame(frames[root].filePath, locations) ==> roots == [root]
      ensures IsPytestRelatedFrame(frames[root].filePath, locations) && old(parent[root]).None? ==>
        roots == Tops(old(children), Excluded(frames, locations), old(children[root]))
      ensures IsPytestRelatedFrame(frames[root].filePath, locations) && old(parent[root]).Some? ==>
        roots == []
      ensures old(parent[root]).None? ==>
        && AllBelow(roots, |children|)
        && Walk(children, roots) == Kept(Dfs(old(children), root), Excluded(frames, locations))
        && forall y <- Walk(children, roots) :: !IsPytestRelatedFrame(frames[y].filePath, locations)
    {
      ghost var f0 := Tree();
      ghost var x := Excluded(frames, locations);
      var kids := children[root];
      LoopStart(f0, x, root);
      ChildBelow(f0.children, root);
      var k := 0;
      while k < |kids|
        invariant 0 <= k <= |kids| && kids == f0.children[root]
        invariant LoopInv(f0, x, root, k, Tree())
        invariant |frames| == |children|
      {
        ghost var cur := Tree();
        var _ := RemovePytestRelatedFrames(kids[k], locations);
        LoopStep(f0, x, root, k, cur, Tree());
        k := k + 1;
      }
      var related := IsPytestRelatedFrame(frames[root].filePath, locations);
      ghost var cur := Tree();
      if related && parent[root].Some? {
        DoneHoist(f0, x, root, cur);
        var _ := Hoist(root);
        roots := [];
      } else if related {
        DoneRoot(f0, x, root, cur);
        roots := children[root];
      } else {
        DoneKept(f0, x, root, cur);
        roots := [root];
      }
      if f0.parent[root].None? {
        FilteredSurvivors(f0, x, root, Tree());
        NotExcluded(frames, locations, Walk(children, roots));
      }
    }
  }
}
