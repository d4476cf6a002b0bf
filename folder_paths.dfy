/** Folder paths of a dsPack archive: `build_folder_paths` names a root folder
    (parent -1) by its own name and any other folder by its parent's path, a
    slash and its name.  The source follows parent links with unguarded
    recursion, so a parent cycle never ends; here each path is computed with
    one step of fuel per folder, and the pigeonhole lemma below shows that
    this fuel fails exactly when the parent chain never reaches a root. */
module FolderPaths {
  import opened Results
  import opened DsPackFormat

  /** What the recursion in `build_folder_paths` runs into on a parent cycle. */
  datatype PathError = Cycle

  /** Every parent is -1 or a folder index, as `read_folder_entries` checks. */
  predicate ParentsOk(folders: seq<FolderEntry>) {
    forall j :: 0 <= j < |folders| ==> ParentOk(folders[j].parent, |folders|)
  }

  predicate IsRoot(folders: seq<FolderEntry>, j: nat)
    requires j < |folders|
  {
    folders[j].parent == -1
  }

  // ---------------------------------------------------------------------------
  // The parent chain
  // ---------------------------------------------------------------------------

  /** One step up the chain; a root stays where it is. */
  function Up(folders: seq<FolderEntry>, j: nat): (r: nat)
    requires ParentsOk(folders) && j < |folders|
    ensures r < |folders|
  {
    if IsRoot(folders, j) then j else folders[j].parent
  }

  /** The folder `k` steps up from `i`. */
  function Ancestor(folders: seq<FolderEntry>, i: nat, k: nat): (r: nat)
    requires ParentsOk(folders) && i < |folders|
    ensures r < |folders|
  {
    if k == 0 then i else Up(folders, Ancestor(folders, i, k - 1))
  }

  lemma {:induction false} AncestorAdd(folders: seq<FolderEntry>, i: nat, a: nat, b: nat)
    requires ParentsOk(folders) && i < |folders|
    ensures Ancestor(folders, i, a + b) == Ancestor(folders, Ancestor(folders, i, a), b)
    decreases b
  {
    if b > 0 {
      AncestorAdd(folders, i, a, b - 1);
    }
  }

  /** Once the chain reaches a root it stays there. */
  lemma {:induction false} RootStays(folders: seq<FolderEntry>, i: nat, a: nat, b: nat)
    requires ParentsOk(folders) && i < |folders| && a <= b && IsRoot(folders, Ancestor(folders, i, a))
    ensures Ancestor(folders, i, b) == Ancestor(folders, i, a)
    decreases b - a
  {
    if a < b {
      RootStays(folders, i, a, b - 1);
    }
  }

  // ---------------------------------------------------------------------------
  // Pigeonhole
  // ---------------------------------------------------------------------------

  /** The indices 0 .. n-1. */
  function Below(n: nat): (s: set<nat>)
    ensures |s| == n
    ensures forall x: nat :: x in s <==> x < n
  {
    if n == 0 then {}
    else
      var below := Below(n - 1);
      assert n - 1 !in below;
      below + {n - 1}
  }

  /** More values than a set has elements, all drawn from it, repeat one. */
  lemma {:induction false} Pigeonhole(xs: seq<nat>, s: set<nat>)
    requires forall k :: 0 <= k < |xs| ==> xs[k] in s
    requires |xs| > |s|
    ensures exists p, q :: 0 <= p < q < |xs| && xs[p] == xs[q]
    decreases |xs|
  {
    if x :| 1 <= x < |xs| && xs[x] == xs[0] {
      assert xs[0] == xs[x];
    } else {
      var rest := s - {xs[0]};
      assert |rest| == |s| - 1;
      Pigeonhole(xs[1..], rest);
      var p, q :| 0 <= p < q < |xs| - 1 && xs[1..][p] == xs[1..][q];
      assert xs[p + 1] == xs[q + 1];
    }
  }

  /** A chain that repeats a folder before reaching a root keeps repeating
      the same stretch: every later step is one of the steps in [p, q). */
  lemma {:induction false} ChainRepeats(folders: seq<FolderEntry>, i: nat, p: nat, q: nat, m: nat)
    requires ParentsOk(folders) && i < |folders| && p < q <= m
    requires Ancestor(folders, i, p) == Ancestor(folders, i, q)
    ensures exists j :: p <= j < q && Ancestor(folders, i, m) == Ancestor(folders, i, j)
    decreases m
  {
    var back := m - (q - p);
    AncestorAdd(folders, i, q, m - q);
    AncestorAdd(folders, i, p, m - q);
    assert Ancestor(folders, i, m) == Ancestor(folders, i, back);
    if back >= q {
      ChainRepeats(folders, i, p, q, back);
    }
  }

  /** A chain that has not reached a root after |folders| - 1 steps never
      does: some folder must repeat among the first |folders| + 1 steps. */
  lemma NeverRoot(folders: seq<FolderEntry>, i: nat, m: nat)
    requires ParentsOk(folders) && i < |folders| && !IsRoot(folders, Ancestor(folders, i, |folders| - 1))
    ensures !IsRoot(folders, Ancestor(folders, i, m))
  {
    var n := |folders|;
    forall j: nat | j <= n - 1
      ensures !IsRoot(folders, Ancestor(folders, i, j))
    {
      if IsRoot(folders, Ancestor(folders, i, j)) {
        RootStays(folders, i, j, n - 1);
      }
    }
    if m >= n {
      var xs := seq(n + 1, k requires 0 <= k <= n => Ancestor(folders, i, k));
      Pigeonhole(xs, Below(n));
      var p, q :| 0 <= p < q < |xs| && xs[p] == xs[q];
      ChainRepeats(folders, i, p, q, m);
    }
  }

  /** If the chain reaches a root at all, it does so within |folders| - 1
      steps. */
  lemma FuelSuffices(folders: seq<FolderEntry>, i: nat, d: nat)
    requires ParentsOk(folders) && i < |folders| && IsRoot(folders, Ancestor(folders, i, d))
    ensures IsRoot(folders, Ancestor(folders, i, |folders| - 1))
  {
    if !IsRoot(folders, Ancestor(folders, i, |folders| - 1)) {
      NeverRoot(folders, i, d);
      assert false;
    }
  }

  // ---------------------------------------------------------------------------
  // Paths
  // ---------------------------------------------------------------------------

  /** `get_folder_path(i)` allowed `fuel` recursive calls. */
  function PathWithin(folders: seq<FolderEntry>, i: nat, fuel: nat): Option<string>
    requires ParentsOk(folders) && i < |folders|
    decreases fuel
  {
    var folder := folders[i];
    if folder.parent == -1 then Some(folder.name)
    else if fuel == 0 then None
    else
      var parentPath :- PathWithin(folders, folder.parent, fuel - 1);
      Some(parentPath + "/" + folder.name)
  }

  /** The path of folder `i`, or None when its parent chain is a cycle. */
  function PathOf(folders: seq<FolderEntry>, i: nat): Option<string>
    requires ParentsOk(folders) && i < |folders|
  {
    PathWithin(folders, i, |folders|)
  }

  /** With enough fuel a path exists exactly when the chain has reached a
      root. */
  lemma {:induction false} PathWithinRoot(folders: seq<FolderEntry>, i: nat, fuel: nat)
    requires ParentsOk(folders) && i < |folders|
    ensures PathWithin(folders, i, fuel).Some? <==> IsRoot(folders, Ancestor(folders, i, fuel))
    decreases fuel
  {
    if IsRoot(folders, i) {
      RootStays(folders, i, 0, fuel);
    } else if fuel > 0 {
      PathWithinRoot(folders, folders[i].parent, fuel - 1);
      AncestorAdd(folders, i, 1, fuel - 1);
    }
  }

  /** More fuel never changes a path that was found. */
  lemma {:induction false} PathWithinMore(folders: seq<FolderEntry>, i: nat, fuel: nat, more: nat)
    requires ParentsOk(folders) && i < |folders| && fuel <= more && PathWithin(folders, i, fuel).Some?
    ensures PathWithin(folders, i, more) == PathWithin(folders, i, fuel)
    decreases fuel
  {
    if !IsRoot(folders, i) {
      PathWithinMore(folders, folders[i].parent, fuel - 1, more - 1);
    }
  }

  /** A folder has a path exactly when its parent chain reaches a root. */
  lemma PathOfExists(folders: seq<FolderEntry>, i: nat)
    requires ParentsOk(folders) && i < |folders|
    ensures PathOf(folders, i).Some? <==> exists d :: IsRoot(folders, Ancestor(folders, i, d))
  {
    PathWithinRoot(folders, i, |folders|);
    if d :| IsRoot(folders, Ancestor(folders, i, d)) {
      FuelSuffices(folders, i, d);
      RootStays(folders, i, |folders| - 1, |folders|);
    }
  }

  /** A root folder's path is its name. */
  lemma RootPath(folders: seq<FolderEntry>, i: nat)
    requires ParentsOk(folders) && i < |folders| && folders[i].parent == -1
    ensures PathOf(folders, i) == Some(folders[i].name)
  {
  }

  /** Any other folder's path is its parent's path, a slash and its name;
      it exists exactly when the parent's does. */
  lemma ChildPath(folders: seq<FolderEntry>, i: nat)
    requires ParentsOk(folders) && i < |folders| && folders[i].parent != -1
    ensures PathOf(folders, i).Some? <==> PathOf(folders, folders[i].parent).Some?
    ensures PathOf(folders, i).Some? ==>
      PathOf(folders, i).value == PathOf(folders, folders[i].parent).value + "/" + folders[i].name
  {
    var n := |folders|;
    var p := folders[i].parent;
    if PathWithin(folders, p, n - 1).Some? {
      PathWithinMore(folders, p, n - 1, n);
    }
    if PathOf(folders, p).Some? {
      PathWithinRoot(folders, p, n);
      FuelSuffices(folders, p, n);
      PathWithinRoot(folders, p, n - 1);
      PathWithinMore(folders, p, n - 1, n);
    }
  }

  /** A folder that is its own parent has no path. */
  lemma SelfParent(folders: seq<FolderEntry>, i: nat)
    requires ParentsOk(folders) && i < |folders| && folders[i].parent == i
    ensures PathOf(folders, i) == None
  {
    forall k | true
      ensures Ancestor(folders, i, k) == i
    {
      SelfAncestor(folders, i, k);
    }
    PathOfExists(folders, i);
  }

  lemma {:induction false} SelfAncestor(folders: seq<FolderEntry>, i: nat, k: nat)
    requires ParentsOk(folders) && i < |folders| && folders[i].parent == i
    ensures Ancestor(folders, i, k) == i
  {
    if k > 0 {
      SelfAncestor(folders, i, k - 1);
    }
  }

  /** `build_folder_paths()`: every folder index mapped to its path, or the
      cycle the recursion would never leave. */
  function AllPaths(folders: seq<FolderEntry>): (r: Result<map<nat, string>, PathError>)
    requires ParentsOk(folders)
    ensures r.Success? ==> r.value.Keys == Below(|folders|)
    ensures r.Success? <==> forall i :: 0 <= i < |folders| ==> PathOf(folders, i).Some?
    ensures r.Success? ==> forall i :: 0 <= i < |folders| ==> r.value[i] == PathOf(folders, i).value
  {
    if forall i :: 0 <= i < |folders| ==> PathOf(folders, i).Some? then
      Success(map i: nat | i < |folders| :: PathOf(folders, i).value)
    else Failure(Cycle)
  }

  /** One folder without a path makes the whole build fail. */
  lemma AllPathsFail(folders: seq<FolderEntry>, i: nat)
    requires ParentsOk(folders) && i < |folders| && PathOf(folders, i).None?
    ensures AllPaths(folders) == Failure(Cycle)
  {
  }

  /** A map that holds the path of every folder, and nothing else, is the
      build's result. */
  lemma AllPathsOf(folders: seq<FolderEntry>, paths: map<nat, string>)
    requires ParentsOk(folders)
    requires forall k :: k in paths ==> k < |folders| && PathOf(folders, k) == Some(paths[k])
    requires forall k :: 0 <= k < |folders| ==> k in paths
    ensures AllPaths(folders) == Success(paths)
  {
    assert paths.Keys == Below(|folders|);
    var all := AllPaths(folders);
    assert all.Success?;
    assert paths.Keys == all.value.Keys;
    assert forall k :: k in paths ==> paths[k] == all.value[k];
    assert paths == all.value;
  }
}
