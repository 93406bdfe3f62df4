/**
 * What the recursive folder deletion does, as a function of the tables before it runs:
 * the post-order of the folder's subtree, the rows it soft-deletes, and the order of its writes.
 */
module Cascade {
  import opened Wrappers
  import opened Folders
  import opened Bookmarks
  import opened Tables

  /** Following `k` parent links (`folder_id`) from folder `x` lands on folder `f`. */
  predicate Reaches(rows: map<nat, Folder>, x: nat, f: nat, k: nat)
    decreases k
  {
    if k == 0 then x == f
    else x in rows && rows[x].parent.Some? && Reaches(rows, rows[x].parent.value, f, k - 1)
  }

  /** Folder `x` is `f` or lies below it: some number of parent links leads from `x` to `f`. */
  ghost predicate InSubtree(rows: map<nat, Folder>, x: nat, f: nat)
  {
    exists k: nat :: Reaches(rows, x, f, k)
  }

  /** `rank` grows strictly along every parent link, so the parent links have no cycle. */
  ghost predicate Ranking(rows: map<nat, Folder>, rank: map<nat, nat>)
  {
    forall c :: c in rows && rows[c].parent.Some? ==>
      c in rank && rows[c].parent.value in rank && rank[c] < rank[rows[c].parent.value]
  }

  function Measure(rank: map<nat, nat>, f: nat): nat
  {
    if f in rank then rank[f] + 1 else 0
  }

  /** Every key lies below the id counter `n`. */
  ghost predicate Bounded(rows: map<nat, Folder>, n: nat)
  {
    forall id :: id in rows ==> id < n
  }

  /** Same keys, same parent link for every key: the only thing the subtree depends on. */
  ghost predicate SameLinks(r1: map<nat, Folder>, r2: map<nat, Folder>)
  {
    r1.Keys == r2.Keys && forall id :: id in r1 ==> r1[id].parent == r2[id].parent
  }

  /**
   * The folders the deletion of `f` visits, in the order it soft-deletes them: the subtrees of the
   * children of `f` one after another, in the order `fetchAllByFolderId` lists them, then `f` itself.
   */
  function PostOrder(rows: map<nat, Folder>, n: nat, rank: map<nat, nat>, f: nat): seq<nat>
    requires Ranking(rows, rank)
    decreases Measure(rank, f), 1, 0
  {
    Subtrees(rows, n, rank, f, |ChildIds(rows, n, f)|) + [f]
  }

  /** The post-orders of the first `i` children of `f`, concatenated. */
  function Subtrees(rows: map<nat, Folder>, n: nat, rank: map<nat, nat>, f: nat, i: nat): seq<nat>
    requires Ranking(rows, rank) && i <= |ChildIds(rows, n, f)|
    decreases Measure(rank, f), 0, i
  {
    if i == 0 then []
    else
      var c := ChildIds(rows, n, f)[i - 1];
      assert c in ChildIds(rows, n, f);
      Subtrees(rows, n, rank, f, i - 1) + PostOrder(rows, n, rank, c)
  }

  /** The folder table after deleting `f`. */
  function CascadeFolders(rows: map<nat, Folder>, n: nat, rank: map<nat, nat>, f: nat): map<nat, Folder>
    requires Ranking(rows, rank)
  {
    MarkDeleted(rows, PostOrder(rows, n, rank, f))
  }

  /** The bookmark table after deleting folder `f`. */
  function CascadeBookmarks(rows: map<nat, Folder>, n: nat, rank: map<nat, nat>, marks: map<nat, Bookmark>, f: nat): map<nat, Bookmark>
    requires Ranking(rows, rank)
  {
    MarkInFolders(marks, PostOrder(rows, n, rank, f))
  }

  /** One write of the deletion: the soft delete of a folder row, or of the bookmarks filed in it. */
  datatype Step = FolderMarked(folder: nat) | BookmarksMarked(folder: nat)

  /** The writes for folders visited in `order`: each folder row, then that folder's bookmarks. */
  function Steps(order: seq<nat>): (r: seq<Step>)
    ensures |r| == 2 * |order|
    ensures forall i :: 0 <= i < |order| ==> r[2 * i] == FolderMarked(order[i]) && r[2 * i + 1] == BookmarksMarked(order[i])
  {
    if order == [] then []
    else Steps(order[..|order| - 1]) + [FolderMarked(order[|order| - 1]), BookmarksMarked(order[|order| - 1])]
  }

  lemma {:induction false} StepsAppend(a: seq<nat>, b: seq<nat>)
    ensures Steps(a + b) == Steps(a) + Steps(b)
  {
    var l, r := Steps(a + b), Steps(a) + Steps(b);
    assert |l| == |r|;
    forall k | 0 <= k < |l|
      ensures l[k] == r[k]
    {
      var i := k / 2;
      if i < |a| {
        assert (a + b)[i] == a[i];
      } else {
        assert (a + b)[i] == b[i - |a|];
        assert k - 2 * |a| == 2 * (i - |a|) + k % 2;
      }
    }
  }

  // ---- the parent links -------------------------------------------------------------

  lemma {:induction false} ReachesExtend(rows: map<nat, Folder>, x: nat, c: nat, f: nat, k: nat)
    requires Reaches(rows, x, c, k) && c in rows && rows[c].parent == Some(f)
    ensures Reaches(rows, x, f, k + 1)
    decreases k
  {
    if k > 0 {
      ReachesExtend(rows, rows[x].parent.value, c, f, k - 1);
    }
  }

  /** The last hop of a path of length `k >= 1` from `x` to `y` leaves from a child `z` of `y`. */
  lemma {:induction false} ReachesLast(rows: map<nat, Folder>, x: nat, y: nat, k: nat) returns (z: nat)
    requires k >= 1 && Reaches(rows, x, y, k)
    ensures Reaches(rows, x, z, k - 1) && z in rows && rows[z].parent == Some(y)
    decreases k
  {
    if k == 1 {
      z := x;
    } else {
      z := ReachesLast(rows, rows[x].parent.value, y, k - 1);
    }
  }

  lemma {:induction false} ReachesRaisesRank(rows: map<nat, Folder>, rank: map<nat, nat>, x: nat, y: nat, k: nat)
    requires Ranking(rows, rank) && k >= 1
    ensures Reaches(rows, x, y, k) ==> x in rank && y in rank && rank[x] < rank[y]
    decreases k
  {
    if k > 1 && Reaches(rows, x, y, k) {
      ReachesRaisesRank(rows, rank, rows[x].parent.value, y, k - 1);
    }
  }

  /** Under a ranking no folder is its own proper ancestor. */
  lemma NoCycle(rows: map<nat, Folder>, rank: map<nat, nat>, x: nat, k: nat)
    requires Ranking(rows, rank) && k >= 1
    ensures !Reaches(rows, x, x, k)
  {
    ReachesRaisesRank(rows, rank, x, x, k);
  }

  // ---- the post-order lists exactly the subtree --------------------------------------

  lemma {:induction false} PostOrderSound(rows: map<nat, Folder>, n: nat, rank: map<nat, nat>, f: nat, x: nat) returns (k: nat)
    requires Ranking(rows, rank) && x in PostOrder(rows, n, rank, f)
    ensures Reaches(rows, x, f, k)
    decreases Measure(rank, f), 1, 0
  {
    var cs := ChildIds(rows, n, f);
    if x == f {
      k := 0;
    } else {
      k := SubtreesSound(rows, n, rank, f, |cs|, x);
    }
  }

  lemma {:induction false} SubtreesSound(rows: map<nat, Folder>, n: nat, rank: map<nat, nat>, f: nat, i: nat, x: nat) returns (k: nat)
    requires Ranking(rows, rank) && i <= |ChildIds(rows, n, f)| && x in Subtrees(rows, n, rank, f, i)
    ensures k >= 1 && Reaches(rows, x, f, k)
    decreases Measure(rank, f), 0, i
  {
    var c := ChildIds(rows, n, f)[i - 1];
    assert c in ChildIds(rows, n, f);
    if x in Subtrees(rows, n, rank, f, i - 1) {
      k := SubtreesSound(rows, n, rank, f, i - 1, x);
    } else {
      var j := PostOrderSound(rows, n, rank, c, x);
      ReachesExtend(rows, x, c, f, j);
      k := j + 1;
    }
  }

  lemma {:induction false} SubtreesContain(rows: map<nat, Folder>, n: nat, rank: map<nat, nat>, f: nat, i: nat, j: nat, x: nat)
    requires Ranking(rows, rank) && j < i <= |ChildIds(rows, n, f)|
    requires ChildIds(rows, n, f)[j] in ChildIds(rows, n, f)
    requires x in PostOrder(rows, n, rank, ChildIds(rows, n, f)[j])
    ensures x in Subtrees(rows, n, rank, f, i)
    decreases i
  {
    if j < i - 1 {
      SubtreesContain(rows, n, rank, f, i - 1, j, x);
    }
  }

  /** A child of a folder in the subtree of `f` is in the subtree of `f` too. */
  lemma {:induction false} ChildInPostOrder(rows: map<nat, Folder>, n: nat, rank: map<nat, nat>, f: nat, p: nat, x: nat)
    requires Ranking(rows, rank) && Bounded(rows, n)
    requires p in PostOrder(rows, n, rank, f) && x in rows && rows[x].parent == Some(p)
    ensures x in PostOrder(rows, n, rank, f)
    decreases Measure(rank, f), 1, 0
  {
    var cs := ChildIds(rows, n, f);
    if p == f {
      assert x in cs;
      var j :| 0 <= j < |cs| && cs[j] == x;
      SubtreesContain(rows, n, rank, f, |cs|, j, x);
    } else {
      SubtreesChild(rows, n, rank, f, |cs|, p, x);
    }
  }

  lemma {:induction false} SubtreesChild(rows: map<nat, Folder>, n: nat, rank: map<nat, nat>, f: nat, i: nat, p: nat, x: nat)
    requires Ranking(rows, rank) && Bounded(rows, n) && i <= |ChildIds(rows, n, f)|
    requires p in Subtrees(rows, n, rank, f, i) && x in rows && rows[x].parent == Some(p)
    ensures x in Subtrees(rows, n, rank, f, i)
    decreases Measure(rank, f), 0, i
  {
    var c := ChildIds(rows, n, f)[i - 1];
    assert c in ChildIds(rows, n, f);
    if p in Subtrees(rows, n, rank, f, i - 1) {
      SubtreesChild(rows, n, rank, f, i - 1, p, x);
    } else {
      ChildInPostOrder(rows, n, rank, c, p, x);
    }
  }

  lemma {:induction false} PostOrderComplete(rows: map<nat, Folder>, n: nat, rank: map<nat, nat>, f: nat, x: nat, k: nat)
    requires Ranking(rows, rank) && Bounded(rows, n) && Reaches(rows, x, f, k)
    ensures x in PostOrder(rows, n, rank, f)
    decreases k
  {
    if k > 0 {
      var p := rows[x].parent.value;
      PostOrderComplete(rows, n, rank, f, p, k - 1);
      ChildInPostOrder(rows, n, rank, f, p, x);
    }
  }

  /** The folders the deletion visits are exactly `f` and the folders whose parent links lead to `f`. */
  lemma PostOrderIsSubtree(rows: map<nat, Folder>, n: nat, rank: map<nat, nat>, f: nat)
    requires Ranking(rows, rank) && Bounded(rows, n)
    ensures forall x :: x in PostOrder(rows, n, rank, f) <==> InSubtree(rows, x, f)
  {
    forall x: nat | x in PostOrder(rows, n, rank, f)
      ensures InSubtree(rows, x, f)
    {
      var k := PostOrderSound(rows, n, rank, f, x);
    }
    forall x: nat | InSubtree(rows, x, f)
      ensures x in PostOrder(rows, n, rank, f)
    {
      var k :| Reaches(rows, x, f, k);
      PostOrderComplete(rows, n, rank, f, x, k);
    }
  }

  // ---- the order of the writes -----------------------------------------------------

  /** Every position of the post-order ends the block that is the post-order of the folder there. */
  lemma {:induction false} BlockEndingAt(rows: map<nat, Folder>, n: nat, rank: map<nat, nat>, f: nat, j: nat) returns (s: nat)
    requires Ranking(rows, rank) && j < |PostOrder(rows, n, rank, f)|
    ensures s <= j && PostOrder(rows, n, rank, f)[s..j + 1] == PostOrder(rows, n, rank, PostOrder(rows, n, rank, f)[j])
    decreases Measure(rank, f), 1, 0
  {
    var cs := ChildIds(rows, n, f);
    var P := PostOrder(rows, n, rank, f);
    var B := Subtrees(rows, n, rank, f, |cs|);
    if j == |B| {
      s := 0;
      assert P[s..j + 1] == P;
    } else {
      s := SubtreesBlockEndingAt(rows, n, rank, f, |cs|, j);
      assert P[s..j + 1] == B[s..j + 1];
    }
  }

  lemma {:induction false} SubtreesBlockEndingAt(rows: map<nat, Folder>, n: nat, rank: map<nat, nat>, f: nat, i: nat, j: nat) returns (s: nat)
    requires Ranking(rows, rank) && i <= |ChildIds(rows, n, f)| && j < |Subtrees(rows, n, rank, f, i)|
    ensures s <= j
    ensures Subtrees(rows, n, rank, f, i)[s..j + 1] == PostOrder(rows, n, rank, Subtrees(rows, n, rank, f, i)[j])
    decreases Measure(rank, f), 0, i
  {
    var c := ChildIds(rows, n, f)[i - 1];
    assert c in ChildIds(rows, n, f);
    var A := Subtrees(rows, n, rank, f, i - 1);
    var C := PostOrder(rows, n, rank, c);
    assert Subtrees(rows, n, rank, f, i) == A + C;
    if j < |A| {
      s := SubtreesBlockEndingAt(rows, n, rank, f, i - 1, j);
      assert (A + C)[s..j + 1] == A[s..j + 1];
    } else {
      var t := BlockEndingAt(rows, n, rank, c, j - |A|);
      s := |A| + t;
      assert (A + C)[s..j + 1] == C[t..j - |A| + 1];
    }
  }

  /** Post-order: every proper descendant of the folder at position `j` is soft-deleted before it. */
  lemma DescendantsFirst(rows: map<nat, Folder>, n: nat, rank: map<nat, nat>, f: nat, j: nat, x: nat, k: nat)
    requires Ranking(rows, rank) && Bounded(rows, n)
    requires j < |PostOrder(rows, n, rank, f)| && k >= 1 && Reaches(rows, x, PostOrder(rows, n, rank, f)[j], k)
    ensures x in PostOrder(rows, n, rank, f)[..j]
  {
    var P := PostOrder(rows, n, rank, f);
    var y := P[j];
    var s := BlockEndingAt(rows, n, rank, f, j);
    var z := ReachesLast(rows, x, y, k);
    var cs := ChildIds(rows, n, y);
    assert z in cs;
    var m :| 0 <= m < |cs| && cs[m] == z;
    PostOrderComplete(rows, n, rank, z, x, k - 1);
    SubtreesContain(rows, n, rank, y, |cs|, m, x);
    var Q := PostOrder(rows, n, rank, y);
    assert Q[..|Q| - 1] == Subtrees(rows, n, rank, y, |cs|);
    var i :| 0 <= i < |Q| - 1 && Q[..|Q| - 1][i] == x;
    assert P[s..j + 1][i] == Q[i] == x;
    assert P[..j][s + i] == x;
  }

  /** In the writes, a folder's row and its bookmarks come after the writes for all its proper descendants. */
  lemma DescendantStepsFirst(rows: map<nat, Folder>, n: nat, rank: map<nat, nat>, f: nat, j: nat, x: nat, k: nat)
    requires Ranking(rows, rank) && Bounded(rows, n)
    requires j < |PostOrder(rows, n, rank, f)| && k >= 1 && Reaches(rows, x, PostOrder(rows, n, rank, f)[j], k)
    ensures Steps(PostOrder(rows, n, rank, f))[2 * j] == FolderMarked(PostOrder(rows, n, rank, f)[j])
    ensures FolderMarked(x) in Steps(PostOrder(rows, n, rank, f))[..2 * j]
    ensures BookmarksMarked(x) in Steps(PostOrder(rows, n, rank, f))[..2 * j]
  {
    var P := PostOrder(rows, n, rank, f);
    DescendantsFirst(rows, n, rank, f, j, x, k);
    var i :| 0 <= i < j && P[i] == x;
    var S := Steps(P);
    assert S[2 * i] == FolderMarked(x) && S[2 * i + 1] == BookmarksMarked(x);
    assert S[..2 * j][2 * i] == S[2 * i];
    assert S[..2 * j][2 * i + 1] == S[2 * i + 1];
  }

  // ---- the effect on the tables ----------------------------------------------------

  lemma {:induction false} PostOrderSameLinks(r1: map<nat, Folder>, r2: map<nat, Folder>, n: nat, rank: map<nat, nat>, f: nat)
    requires SameLinks(r1, r2) && Ranking(r1, rank)
    ensures Ranking(r2, rank) && PostOrder(r1, n, rank, f) == PostOrder(r2, n, rank, f)
    decreases Measure(rank, f), 1, 0
  {
    ScanAgrees(r1, ChildOf(f), r2, ChildOf(f), n);
    SubtreesSameLinks(r1, r2, n, rank, f, |ChildIds(r1, n, f)|);
  }

  lemma {:induction false} SubtreesSameLinks(r1: map<nat, Folder>, r2: map<nat, Folder>, n: nat, rank: map<nat, nat>, f: nat, i: nat)
    requires SameLinks(r1, r2) && Ranking(r1, rank) && Ranking(r2, rank)
    requires ChildIds(r1, n, f) == ChildIds(r2, n, f) && i <= |ChildIds(r1, n, f)|
    ensures Subtrees(r1, n, rank, f, i) == Subtrees(r2, n, rank, f, i)
    decreases Measure(rank, f), 0, i
  {
    if i > 0 {
      var c := ChildIds(r1, n, f)[i - 1];
      assert c in ChildIds(r1, n, f);
      SubtreesSameLinks(r1, r2, n, rank, f, i - 1);
      PostOrderSameLinks(r1, r2, n, rank, c);
      assert Subtrees(r1, n, rank, f, i) == Subtrees(r1, n, rank, f, i - 1) + PostOrder(r1, n, rank, c);
      assert Subtrees(r2, n, rank, f, i) == Subtrees(r2, n, rank, f, i - 1) + PostOrder(r2, n, rank, c);
    }
  }

  lemma MarkDeletedKeepsLinks(rows: map<nat, Folder>, ids: seq<nat>)
    ensures SameLinks(rows, MarkDeleted(rows, ids))
  {
  }

  lemma MarkDeletedTwice(rows: map<nat, Folder>, a: seq<nat>, b: seq<nat>)
    ensures MarkDeleted(MarkDeleted(rows, a), b) == MarkDeleted(rows, a + b)
  {
  }

  lemma MarkInFoldersTwice(marks: map<nat, Bookmark>, a: seq<nat>, b: seq<nat>)
    ensures MarkInFolders(MarkInFolders(marks, a), b) == MarkInFolders(marks, a + b)
  {
  }

  /**
   * One turn of the loop over the children of `f`: after the subtrees of the first `i` children,
   * deleting child `i` (on the tables as they stand) adds its subtree.
   */
  lemma NextChild(rows: map<nat, Folder>, marks: map<nat, Bookmark>, n: nat, rank: map<nat, nat>, f: nat, i: nat)
    requires Ranking(rows, rank) && i < |ChildIds(rows, n, f)|
    ensures ChildIds(rows, n, f)[i] in ChildIds(rows, n, f)
    ensures var done := Subtrees(rows, n, rank, f, i);
      var c := ChildIds(rows, n, f)[i];
      && Ranking(MarkDeleted(rows, done), rank)
      && PostOrder(MarkDeleted(rows, done), n, rank, c) == PostOrder(rows, n, rank, c)
      && MarkDeleted(MarkDeleted(rows, done), PostOrder(rows, n, rank, c)) == MarkDeleted(rows, Subtrees(rows, n, rank, f, i + 1))
      && MarkInFolders(MarkInFolders(marks, done), PostOrder(rows, n, rank, c)) == MarkInFolders(marks, Subtrees(rows, n, rank, f, i + 1))
      && Steps(done) + Steps(PostOrder(rows, n, rank, c)) == Steps(Subtrees(rows, n, rank, f, i + 1))
  {
    var done := Subtrees(rows, n, rank, f, i);
    var c := ChildIds(rows, n, f)[i];
    assert c in ChildIds(rows, n, f);
    MarkDeletedKeepsLinks(rows, done);
    PostOrderSameLinks(rows, MarkDeleted(rows, done), n, rank, c);
    MarkDeletedTwice(rows, done, PostOrder(rows, n, rank, c));
    MarkInFoldersTwice(marks, done, PostOrder(rows, n, rank, c));
    StepsAppend(done, PostOrder(rows, n, rank, c));
  }

  /** After the loop: soft-deleting `f` and then its bookmarks completes the deletion of `f`. */
  lemma LastWrites(rows: map<nat, Folder>, marks: map<nat, Bookmark>, n: nat, rank: map<nat, nat>, f: nat)
    requires Ranking(rows, rank)
    ensures var done := Subtrees(rows, n, rank, f, |ChildIds(rows, n, f)|);
      && MarkDeleted(MarkDeleted(rows, done), [f]) == CascadeFolders(rows, n, rank, f)
      && MarkInFolders(MarkInFolders(marks, done), [f]) == CascadeBookmarks(rows, n, rank, marks, f)
      && Steps(done) + [FolderMarked(f)] + [BookmarksMarked(f)] == Steps(PostOrder(rows, n, rank, f))
  {
    var done := Subtrees(rows, n, rank, f, |ChildIds(rows, n, f)|);
    MarkDeletedTwice(rows, done, [f]);
    MarkInFoldersTwice(marks, done, [f]);
    assert (done + [f])[..|done|] == done;
  }

  /** Every folder row in the subtree of `f` ends up soft-deleted, whoever owns it and whatever its state. */
  lemma CascadeMarksSubtree(rows: map<nat, Folder>, n: nat, rank: map<nat, nat>, f: nat, x: nat, k: nat)
    requires Ranking(rows, rank) && Bounded(rows, n) && x in rows && Reaches(rows, x, f, k)
    ensures x in CascadeFolders(rows, n, rank, f) && CascadeFolders(rows, n, rank, f)[x].isDeleted
  {
    PostOrderComplete(rows, n, rank, f, x, k);
  }

  /** The cascade adds and removes no folder row. */
  lemma CascadeKeepsRows(rows: map<nat, Folder>, n: nat, rank: map<nat, nat>, f: nat)
    requires Ranking(rows, rank)
    ensures CascadeFolders(rows, n, rank, f).Keys == rows.Keys
  {
    MarkDeletedKeepsLinks(rows, PostOrder(rows, n, rank, f));
  }

  /** Only folder rows in the subtree of `f` change, and only in `isdeleted`. */
  lemma CascadeOnlySubtree(rows: map<nat, Folder>, n: nat, rank: map<nat, nat>, f: nat, x: nat) returns (k: nat)
    requires Ranking(rows, rank) && x in rows && CascadeFolders(rows, n, rank, f)[x] != rows[x]
    ensures CascadeFolders(rows, n, rank, f)[x] == rows[x].(isDeleted := true)
    ensures Reaches(rows, x, f, k)
  {
    k := PostOrderSound(rows, n, rank, f, x);
  }

  /** Every bookmark filed in a folder of the subtree of `f` ends up soft-deleted. */
  lemma CascadeMarksBookmarks(rows: map<nat, Folder>, n: nat, rank: map<nat, nat>, marks: map<nat, Bookmark>, f: nat, b: nat, k: nat)
    requires Ranking(rows, rank) && Bounded(rows, n) && b in marks && Reaches(rows, marks[b].folderId, f, k)
    ensures b in CascadeBookmarks(rows, n, rank, marks, f) && CascadeBookmarks(rows, n, rank, marks, f)[b].isDeleted
  {
    PostOrderComplete(rows, n, rank, f, marks[b].folderId, k);
  }

  /** Only bookmarks filed in the subtree of `f` change, and only in `isdeleted`. */
  lemma CascadeOnlySubtreeBookmarks(rows: map<nat, Folder>, n: nat, rank: map<nat, nat>, marks: map<nat, Bookmark>, f: nat, b: nat) returns (k: nat)
    requires Ranking(rows, rank) && b in marks && CascadeBookmarks(rows, n, rank, marks, f)[b] != marks[b]
    ensures CascadeBookmarks(rows, n, rank, marks, f).Keys == marks.Keys
    ensures CascadeBookmarks(rows, n, rank, marks, f)[b] == marks[b].(isDeleted := true)
    ensures Reaches(rows, marks[b].folderId, f, k)
  {
    k := PostOrderSound(rows, n, rank, f, marks[b].folderId);
  }

  /** Deleting a folder a second time visits the same folders and writes nothing new. */
  lemma CascadeIdempotent(rows: map<nat, Folder>, n: nat, rank: map<nat, nat>, marks: map<nat, Bookmark>, f: nat)
    requires Ranking(rows, rank)
    ensures Ranking(CascadeFolders(rows, n, rank, f), rank)
    ensures PostOrder(CascadeFolders(rows, n, rank, f), n, rank, f) == PostOrder(rows, n, rank, f)
    ensures CascadeFolders(CascadeFolders(rows, n, rank, f), n, rank, f) == CascadeFolders(rows, n, rank, f)
    ensures CascadeBookmarks(CascadeFolders(rows, n, rank, f), n, rank, CascadeBookmarks(rows, n, rank, marks, f), f)
            == CascadeBookmarks(rows, n, rank, marks, f)
  {
    var P := PostOrder(rows, n, rank, f);
    MarkDeletedKeepsLinks(rows, P);
    PostOrderSameLinks(rows, MarkDeleted(rows, P), n, rank, f);
  }

  /** A folder without children is deleted alone, with the bookmarks filed in it. */
  lemma LeafCascade(rows: map<nat, Folder>, n: nat, rank: map<nat, nat>, f: nat)
    requires Ranking(rows, rank) && ChildIds(rows, n, f) == []
    ensures PostOrder(rows, n, rank, f) == [f]
    ensures Steps(PostOrder(rows, n, rank, f)) == [FolderMarked(f), BookmarksMarked(f)]
  {
  }
}
