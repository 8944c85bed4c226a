/** The `bookmark_folders` table as a graph: every folder row may name a
    parent folder, and deleting a folder deletes, through
    `ON DELETE CASCADE`, every folder that points to a deleted one. The
    parent links are not required to form a tree (an update may point a
    folder at itself or close a cycle); the cascade is the least set of
    folders closed under "my parent is deleted", which is well defined
    either way. */
module FolderTree {
  import opened Wrappers

  /** A row of the `bookmark_folders` table; `parentId == None` is a top-level folder. */
  datatype Folder = Folder(id: int, name: string, parentId: Option<int>, position: int, dateAdded: int)

  /** The ids present in the table. */
  function FolderIds(fs: seq<Folder>): (r: set<int>)
    ensures forall f :: f in fs ==> f.id in r
  {
    set f | f in fs :: f.id
  }

  /** A nullable foreign key is satisfied: it is NULL or names an existing folder. */
  predicate RefOk(fs: seq<Folder>, ref: Option<int>) {
    ref.None? || ref.value in FolderIds(fs)
  }

  /** The folders whose parent is in `ids`. */
  function Children(fs: seq<Folder>, ids: set<int>): (r: set<int>)
    ensures r <= FolderIds(fs)
  {
    set f | f in fs && f.parentId.Some? && f.parentId.value in ids :: f.id
  }

  /** `ids` is closed under the cascade: a folder whose parent is in `ids` is in `ids`. */
  predicate Closed(fs: seq<Folder>, ids: set<int>) {
    forall f :: f in fs && f.parentId.Some? && f.parentId.value in ids ==> f.id in ids
  }

  /** `fuel` rounds of adding the children of everything reached so far. */
  function Reach(fs: seq<Folder>, ids: set<int>, fuel: nat): (r: set<int>)
    ensures ids <= r
    ensures ids <= FolderIds(fs) ==> r <= FolderIds(fs)
    decreases fuel
  {
    if fuel == 0 then ids else Reach(fs, ids + Children(fs, ids), fuel - 1)
  }

  /** The folders `DELETE FROM bookmark_folders WHERE id = ?` removes:
      nothing when `id` is not a folder, otherwise `id` and everything the
      cascade reaches from it. */
  function Cascade(fs: seq<Folder>, id: int): (r: set<int>)
    ensures r <= FolderIds(fs)
    ensures id in FolderIds(fs) <==> id in r
  {
    if id in FolderIds(fs) then Reach(fs, {id}, |fs|) else {}
  }

  lemma SubsetCard(a: set<int>, b: set<int>)
    requires a <= b
    ensures |a| <= |b|
    ensures a != b ==> |a| < |b|
  {
    assert a + (b - a) == b;
    assert a * (b - a) == {};
    if a != b {
      assert b - a != {};
    }
  }

  /** Appending a row adds its id. */
  lemma FolderIdsAppend(fs: seq<Folder>, row: Folder)
    ensures FolderIds(fs + [row]) == FolderIds(fs) + {row.id}
  {
    assert forall f :: f in fs + [row] <==> f in fs || f == row;
  }

  lemma FolderIdsConcat(a: seq<Folder>, b: seq<Folder>)
    ensures FolderIds(a + b) == FolderIds(a) + FolderIds(b)
  {
    assert forall f :: f in a + b <==> f in a || f in b;
  }

  /** A table has no more distinct ids than rows. */
  lemma {:induction false} FolderIdsCard(fs: seq<Folder>)
    ensures |FolderIds(fs)| <= |fs|
  {
    if fs != [] {
      var init := fs[..|fs| - 1];
      FolderIdsCard(init);
      assert fs == init + [fs[|fs| - 1]];
      FolderIdsAppend(init, fs[|fs| - 1]);
    }
  }

  /** Once nothing new is reached, further rounds change nothing. */
  lemma {:induction false} ReachFixpoint(fs: seq<Folder>, ids: set<int>, fuel: nat)
    requires Children(fs, ids) <= ids
    ensures Reach(fs, ids, fuel) == ids
    decreases fuel
  {
    if fuel > 0 {
      assert ids + Children(fs, ids) == ids;
      ReachFixpoint(fs, ids, fuel - 1);
    }
  }

  /** Every round either closes the set or reaches at least one new folder. */
  lemma {:induction false} ReachGrows(fs: seq<Folder>, ids: set<int>, fuel: nat)
    requires ids <= FolderIds(fs)
    ensures Closed(fs, Reach(fs, ids, fuel)) || |Reach(fs, ids, fuel)| >= |ids| + fuel
    decreases fuel
  {
    if fuel > 0 {
      if Children(fs, ids) <= ids {
        ReachFixpoint(fs, ids, fuel);
      } else {
        var next := ids + Children(fs, ids);
        SubsetCard(ids, next);
        ReachGrows(fs, next, fuel - 1);
      }
    }
  }

  /** The cascade is closed: no surviving folder points to a deleted one. */
  lemma CascadeClosed(fs: seq<Folder>, id: int)
    ensures Closed(fs, Cascade(fs, id))
  {
    if id in FolderIds(fs) {
      ReachGrows(fs, {id}, |fs|);
      SubsetCard(Cascade(fs, id), FolderIds(fs));
      FolderIdsCard(fs);
    }
  }

  lemma {:induction false} ReachWithin(fs: seq<Folder>, ids: set<int>, fuel: nat, bound: set<int>)
    requires ids <= bound && Closed(fs, bound)
    ensures Reach(fs, ids, fuel) <= bound
    decreases fuel
  {
    if fuel > 0 {
      ReachWithin(fs, ids + Children(fs, ids), fuel - 1, bound);
    }
  }

  /** The cascade is the least closed set holding `id`: it deletes no
      folder that the foreign keys do not force it to. */
  lemma CascadeLeast(fs: seq<Folder>, id: int, bound: set<int>)
    requires id in bound && Closed(fs, bound)
    ensures Cascade(fs, id) <= bound
  {
    if id in FolderIds(fs) {
      ReachWithin(fs, {id}, |fs|, bound);
    }
  }
}
