/** Durable deletions (`src/deletions.rs`): tombstones over path subtrees, and the pass
    that applies them to the local files and tracked documents. */
module Deletions {
  import opened Wrappers
  import opened Ordering

  datatype Deletion = Deletion(path: string, ts: int)

  /** A value of the replicated tombstone map: JSON that reads as a deletion, or not. */
  datatype Entry = Parsed(d: Deletion) | Malformed

  type Tombs = map<string, Entry>

  const RETENTION_MS: int := 90 * 24 * 60 * 60 * 1000

  // ---- Covering --------------------------------------------------------------------

  /** `t` is `p` or a folder above it. */
  predicate Covers(t: string, p: string) {
    t == p || t + "/" <= p
  }

  /** Where the last slash of `p` is, or -1. */
  function LastSlash(p: string): (i: int)
    ensures -1 <= i < |p|
    ensures i >= 0 ==> p[i] == '/'
    ensures forall k :: i < k < |p| ==> p[k] != '/'
  {
    if p == [] then -1 else if p[|p| - 1] == '/' then |p| - 1 else LastSlash(p[..|p| - 1])
  }

  /** One step of an ancestor walk loses exactly the nearest folder. */
  lemma WalkStep(t: string, p: string)
    ensures LastSlash(p) < 0 ==> (Covers(t, p) <==> t == p)
    ensures LastSlash(p) >= 0 ==> (Covers(t, p) <==> t == p || Covers(t, p[..LastSlash(p)]))
  {
    var cut := LastSlash(p);
    if t + "/" <= p {
      assert p[|t|] == (t + "/")[|t|] == '/';
      assert p[..|t|] == t;
      if |t| < cut {
        var rest := p[..cut];
        assert rest[..|t| + 1] == p[..|t| + 1] == t + "/";
      } else {
        assert t == p[..cut];
      }
    }
    if cut >= 0 && Covers(t, p[..cut]) {
      if t == p[..cut] {
        assert p[..cut + 1] == t + "/";
      } else {
        assert p[..|t| + 1] == p[..cut][..|t| + 1];
      }
    }
  }

  function TsOf(tombs: Tombs, key: string): Option<int> {
    if key in tombs && tombs[key].Parsed? then Some(tombs[key].d.ts) else None
  }

  function Newer(a: Option<int>, b: Option<int>): Option<int> {
    match (a, b)
    case (None, _) => b
    case (_, None) => a
    case (Some(x), Some(y)) => if x >= y then a else b
  }

  /** `ts` is the time of the newest readable tombstone covering `p`. */
  ghost predicate IsCoveringTs(tombs: Tombs, p: string, ts: Option<int>) {
    && (ts.Some? ==> exists t :: t in tombs && Covers(t, p) && TsOf(tombs, t) == ts)
    && forall t :: t in tombs && Covers(t, p) && tombs[t].Parsed? ==> ts.Some? && tombs[t].d.ts <= ts.value
  }

  ghost predicate IsTombstoned(tombs: Tombs, p: string) {
    (p in tombs && tombs[p].Parsed?) || exists t :: t in tombs && t != p && Covers(t, p)
  }

  /** `is_deleted` and `covering_ts` walk the same ancestors but read them differently:
      they agree unless a folder above has an entry and no covering entry is readable. */
  lemma WalksAgreeExactlyWhen(tombs: Tombs, p: string, ts: Option<int>)
    requires IsCoveringTs(tombs, p, ts)
    ensures (IsTombstoned(tombs, p) <==> ts.Some?) <==>
      ((exists t :: t in tombs && t != p && Covers(t, p)) ==>
       exists t :: t in tombs && Covers(t, p) && tombs[t].Parsed?)
  {
    if ts.Some? {
      var t :| t in tombs && Covers(t, p) && TsOf(tombs, t) == ts;
    }
  }

  /** They do disagree: an unreadable entry on a folder counts as deleting what is in it, but
      has no time to compare a file with. */
  lemma WalksDisagree()
    ensures exists tombs: Tombs, p: string :: IsTombstoned(tombs, p) && IsCoveringTs(tombs, p, None)
  {
    var tombs: Tombs := map["notes" := Malformed];
    assert "notes" + "/" <= "notes/plan.md" by { assert "notes/plan.md"[..6] == "notes" + "/"; }
    assert "notes" in tombs && Covers("notes", "notes/plan.md") && "notes" != "notes/plan.md";
    assert IsTombstoned(tombs, "notes/plan.md") && IsCoveringTs(tombs, "notes/plan.md", None);
  }

  /** The folder `p` sits in; empty for the workspace root. */
  function Parent(p: string): string {
    if LastSlash(p) < 0 then "" else p[..LastSlash(p)]
  }

  lemma AboveParent(a: string, p: string)
    requires Covers(a, p) && a != p
    ensures Covers(a, Parent(p))
  {
    WalkStep(a, p);
  }

  lemma ParentCovers(p: string)
    ensures Parent(p) != "" ==> Covers(Parent(p), p) && |Parent(p)| < |p|
  {
    WalkStep(Parent(p), p);
  }

  lemma CoversTransitive(a: string, b: string, c: string)
    requires Covers(a, b) && Covers(b, c)
    ensures Covers(a, c)
  {
    if a != b && b != c {
      assert c[..|b| + 1] == b + "/";
      assert c[..|a| + 1] == c[..|b| + 1][..|a| + 1] == a + "/";
    }
  }

  // ---- The workspace ---------------------------------------------------------------

  /** A tombstone every replica files under its own path. */
  ghost predicate WellFiled(tombs: Tombs) {
    forall k :: k in tombs && tombs[k].Parsed? ==> tombs[k].d.path == k
  }

  /** The keys of readable tombstones past retention, and the paths those name. */
  ghost function StaleKeys(tombs: Tombs, now: int): set<string> {
    set k | k in tombs && tombs[k].Parsed? && tombs[k].d.ts < now - RETENTION_MS
  }

  ghost function StalePaths(tombs: Tombs, now: int): set<string> {
    set k | k in StaleKeys(tombs, now) :: tombs[k].d.path
  }

  lemma StaleAreFiled(tombs: Tombs, now: int)
    requires WellFiled(tombs)
    ensures StalePaths(tombs, now) == StaleKeys(tombs, now)
  {
    forall k | k in StaleKeys(tombs, now) ensures k in StalePaths(tombs, now) {
      assert tombs[k].d.path == k;
    }
  }

  ghost function Readable(tombs: Tombs): set<Deletion> {
    set k | k in tombs && tombs[k].Parsed? :: tombs[k].d
  }

  /** `d` reaches the file at `p`: by name, or, for tracked documents, from above. */
  predicate Reaches(d: Deletion, p: string, docs: set<string>) {
    d.path == p || (p in docs && Covers(d.path, p))
  }

  /** Some visited tombstone reaches `p` and is not older than the file there. */
  ghost predicate Doomed(visited: seq<Deletion>, files: map<string, int>, docs: set<string>, p: string) {
    exists i :: 0 <= i < |visited| && Reaches(visited[i], p, docs) && Kills(visited[i].ts, files, p)
  }

  /** The first visited tombstone reaching the file at `p` is older than the file. */
  ghost predicate SparedFirst(visited: seq<Deletion>, mtime: int, docs: set<string>, p: string) {
    exists i :: 0 <= i < |visited| && Reaches(visited[i], p, docs) && NewerUpTo(visited, i, mtime, docs, p)
  }

  /** The file is newer than every tombstone reaching it up to the `i`-th. */
  predicate NewerUpTo(visited: seq<Deletion>, i: nat, mtime: int, docs: set<string>, p: string)
    requires i < |visited|
  {
    forall j :: 0 <= j <= i && Reaches(visited[j], p, docs) ==> mtime > visited[j].ts
  }

  /** Every folder above a file or folder exists. */
  ghost predicate TreeOk(files: map<string, int>, dirs: set<string>) {
    && "" !in dirs && files.Keys !! dirs
    && forall p, a :: (p in files || p in dirs) && Covers(a, p) && a != p && a != "" ==> a in dirs
  }

  /** `remove_dir` succeeds only on an existing folder with nothing in it. */
  predicate EmptyDir(files: map<string, int>, dirs: set<string>, d: string) {
    d in dirs && forall p :: p in files.Keys + dirs && p != d ==> !Covers(d, p)
  }

  ghost predicate HasParents(p: string, dirs: set<string>) {
    forall a :: Covers(a, p) && a != p && a != "" ==> a in dirs
  }

  /** Of the files in `before`, those gone since left no empty folder above them. */
  ghost predicate Tidy(before: map<string, int>, files: map<string, int>, dirs: set<string>) {
    forall p, a :: p in before && p !in files && a in dirs && Covers(a, p) ==> !EmptyDir(files, dirs, a)
  }

  /** Taking `p`, and then only folders above it, leaves every other folder as full as it was. */
  lemma TidyStep(before: map<string, int>, files: map<string, int>, dirs: set<string>, p: string,
                 files': map<string, int>, dirs': set<string>)
    requires Tidy(before, files, dirs) && files' == files - {p} && dirs' <= dirs
    requires forall d :: d in dirs - dirs' ==> Covers(d, p)
    requires p in files ==> forall a :: a in dirs' && Covers(a, p) ==> !EmptyDir(files', dirs', a)
    requires p !in files ==> dirs' == dirs
    ensures Tidy(before, files', dirs')
  {
    hide Covers;
    if p in files {
      forall q, a | q in before && q !in files' && a in dirs' && Covers(a, q) ensures !EmptyDir(files', dirs', a) {
        if !Covers(a, p) {
          assert !EmptyDir(files, dirs, a);
          var x :| x in files.Keys + dirs && x != a && Covers(a, x);
          if x in dirs - dirs' {
            CoversTransitive(a, x, p);
          }
          assert x in files'.Keys + dirs' by { CoversItself(p); }
        }
      }
    } else {
      assert files' == files;
    }
  }

  lemma CoversItself(p: string)
    ensures Covers(p, p)
  {
  }

  lemma FilesHaveParents(files: map<string, int>, dirs: set<string>, p: string)
    requires TreeOk(files, dirs) && p in files
    ensures HasParents(p, dirs)
  {
  }

  lemma RemovalKeepsTree(files: map<string, int>, dirs: set<string>, p: string)
    requires TreeOk(files, dirs) && p in files
    ensures TreeOk(files - {p}, dirs) && p !in dirs
  {
  }

  lemma FilesAreNotDirs(files: map<string, int>, dirs: set<string>)
    requires TreeOk(files, dirs)
    ensures files.Keys !! dirs
  {
  }

  class Workspace {
    /** Regular files by path, with their modification times. */
    var files: map<string, int>
    var dirs: set<string>
    /** Tracked documents. */
    var docs: set<string>
    var tombs: Tombs

    constructor (files: map<string, int>, dirs: set<string>, docs: set<string>)
      ensures this.files == files && this.dirs == dirs && this.docs == docs && tombs == map[]
    {
      this.files, this.dirs, this.docs, tombs := files, dirs, docs, map[];
    }

    method Record(path: string, now: int)
      modifies this`tombs
      ensures tombs == old(tombs)[path := Parsed(Deletion(path, now))]
      ensures old(WellFiled(tombs)) ==> WellFiled(tombs)
    {
      tombs := tombs[path := Parsed(Deletion(path, now))];
    }

    method Clear(path: string)
      modifies this`tombs
      ensures tombs == old(tombs) - {path}
    {
      tombs := tombs - {path};
    }

    method IsDeleted(path: string) returns (r: bool)
      ensures r <==> IsTombstoned(tombs, path)
    {
      if path in tombs && tombs[path].Parsed? {
        return true;
      }
      var rest := path;
      var cut := LastSlash(rest);
      while cut >= 0
        invariant cut == LastSlash(rest)
        invariant forall t :: t in tombs && Covers(t, path) && !Covers(t, rest) ==> t == path
        invariant forall t :: Covers(t, rest) ==> Covers(t, path)
        invariant rest != path ==> rest !in tombs
        invariant |rest| <= |path|
        decreases |rest|
      {
        forall t ensures Covers(t, rest) <==> t == rest || Covers(t, rest[..cut]) { WalkStep(t, rest); }
        assert Covers(rest[..cut], rest);
        rest := rest[..cut];
        if rest in tombs {
          return true;
        }
        cut := LastSlash(rest);
      }
      forall t ensures Covers(t, rest) <==> t == rest { WalkStep(t, rest); }
      return false;
    }

    method CoveringTs(path: string) returns (newest: Option<int>)
      ensures IsCoveringTs(tombs, path, newest)
    {
      newest := TsOf(tombs, path);
      var rest := path;
      var cut := LastSlash(rest);
      while cut >= 0
        invariant cut == LastSlash(rest)
        invariant forall t :: Covers(t, rest) ==> Covers(t, path)
        invariant newest.Some? ==> exists t :: t in tombs && Covers(t, path) && TsOf(tombs, t) == newest
        invariant forall t :: t in tombs && Covers(t, path) && tombs[t].Parsed? && (t == rest || !Covers(t, rest)) ==>
          newest.Some? && tombs[t].d.ts <= newest.value
        decreases |rest|
      {
        forall t ensures Covers(t, rest) <==> t == rest || Covers(t, rest[..cut]) { WalkStep(t, rest); }
        assert Covers(rest[..cut], rest);
        rest := rest[..cut];
        newest := Newer(newest, TsOf(tombs, rest));
        cut := LastSlash(rest);
      }
      forall t ensures Covers(t, rest) <==> t == rest { WalkStep(t, rest); }
    }

    /** Every tracked document at or beneath `path`, by the prefix test. */
    method DocsUnder(path: string) returns (r: set<string>)
      ensures r == Beneath(docs, path)
    {
      var prefix := path + "/";
      r := set k | k in docs && (k == path || prefix <= k);
    }

    /** Drop tombstones older than the retention period, by the paths they name. */
    method Prune(now: int) returns (n: nat)
      modifies this`tombs
      ensures tombs == old(tombs) - StalePaths(old(tombs), now)
      ensures n == |StaleKeys(old(tombs), now)|
      ensures forall k :: k in tombs <==> k in old(tombs) && forall e ::
        e in old(tombs) && old(tombs)[e].Parsed? && old(tombs)[e].d.ts < now - 7776000000 ==> old(tombs)[e].d.path != k
      ensures WellFiled(old(tombs)) ==> tombs.Keys == old(tombs).Keys - StaleKeys(old(tombs), now)
    {
      var stale := set k | k in tombs && tombs[k].Parsed? && tombs[k].d.ts < now - RETENTION_MS;
      assert stale == StaleKeys(tombs, now);
      n := |stale|;
      var paths := set k | k in stale :: tombs[k].d.path;
      assert paths == StalePaths(tombs, now);
      if WellFiled(tombs) {
        StaleAreFiled(tombs, now);
      }
      tombs := tombs - paths;
    }

    /** Remove folders left empty above `from`, stopping at the workspace root. */
    method PruneEmptyParents(from: string)
      requires TreeOk(files, dirs) && from !in files && from !in dirs
      modifies this`dirs
      ensures TreeOk(files, dirs) && dirs <= old(dirs)
      ensures forall d :: d in old(dirs) - dirs ==> Covers(d, from) && forall p :: p in files ==> !Covers(d, p)
      ensures HasParents(from, old(dirs)) ==>
        forall a :: a in dirs && Covers(a, from) ==> !EmptyDir(files, dirs, a)
    {
      var dir := Parent(from);
      ParentCovers(from);
      ghost var below := from;
      while dir != ""
        invariant TreeOk(files, dirs) && dirs <= old(dirs)
        invariant dir == Parent(below) && Covers(below, from)
        invariant below !in dirs && below !in files
        invariant forall d :: d in old(dirs) - dirs ==> Covers(d, from) && forall p :: p in files ==> !Covers(d, p)
        invariant forall a :: Covers(a, from) && a in dirs ==> Covers(a, below)
        invariant HasParents(from, old(dirs)) ==> HasParents(below, dirs)
        decreases |dir|
      {
        ParentCovers(below);
        CoversTransitive(dir, below, from);
        forall a | a in dirs && Covers(a, from) ensures Covers(a, dir) {
          AboveParent(a, below);
        }
        if !EmptyDir(files, dirs, dir) {
          return;
        }
        forall a | Covers(a, dir) && a != dir ensures Covers(a, below) && a != below {
          CoversTransitive(a, dir, below);
        }
        dirs := dirs - {dir};
        below := dir;
        dir := Parent(dir);
        ParentCovers(below);
      }
      forall a | a in dirs && Covers(a, from) ensures a == "" {
        AboveParent(a, below);
      }
    }

    /** Apply one tombstone; true if it changed anything. Above whatever files of `was` are
        gone it leaves no empty folder. A folder's own modification time is not modelled,
        so whether it retires the folder's tombstone is open. */
    method Apply(d: Deletion, ghost was: map<string, int>) returns (changed: bool)
      requires TreeOk(files, dirs)
      modifies this
      ensures TreeOk(files, dirs) && dirs <= old(dirs)
      ensures Applied(d, old(Disk(files, docs, tombs)), old(dirs), Disk(files, docs, tombs), changed)
      ensures old(Tidy(was, files, dirs)) ==> Tidy(was, files, dirs)
    {
      hide TreeOk, Covers, Held, Tidy, EmptyDir, HasParents;
      ghost var before := Disk(files, docs, tombs);
      if d.path in files && files[d.path] > d.ts {
        Clear(d.path);
        TombsNotHeld(before, Disk(files, docs, tombs));
        return false;
      }
      if d.path in dirs {
        FilesAreNotDirs(files, dirs);
        if * {
          Clear(d.path);
          TombsNotHeld(before, Disk(files, docs, tombs));
          return false;
        }
      }
      var hadDoc := d.path in docs;
      docs := docs - {d.path};
      var existed := d.path in files;
      files := files - {d.path};
      if existed {
        RemovalKeepsTree(before.files, dirs, d.path);
        FilesHaveParents(before.files, dirs, d.path);
        PruneEmptyParents(d.path);
        if old(Tidy(was, files, dirs)) {
          TidyStep(was, before.files, old(dirs), d.path, files, dirs);
        }
      } else {
        assert files == before.files;
      }
      OneLess(before, d.path, Disk(files, docs, tombs));
      return hadDoc || existed;
    }

    /** Every readable tombstone, in whatever order the map yields them. */
    method All() returns (r: seq<Deletion>)
      ensures Elems(r) == Readable(tombs)
    {
      var left := set k | k in tombs && tombs[k].Parsed?;
      r := [];
      while left != {}
        invariant forall k :: k in left ==> k in tombs && tombs[k].Parsed?
        invariant (set k | k in left :: tombs[k].d) + Elems(r) == Readable(tombs)
        decreases |left|
      {
        var key :| key in left;
        ghost var rest := set k | k in left - {key} :: tombs[k].d;
        assert (set k | k in left :: tombs[k].d) == rest + {tombs[key].d};
        assert Elems(r + [tombs[key].d]) == Elems(r) + {tombs[key].d};
        r := r + [tombs[key].d];
        left := left - {key};
      }
    }

    /** One tombstone of `reconcile`: the path itself, then each document beneath it. */
    method ApplySubtree(d: Deletion, ghost was: map<string, int>) returns (applied: nat)
      requires TreeOk(files, dirs)
      modifies this
      ensures TreeOk(files, dirs) && dirs <= old(dirs)
      ensures Swept({d.path} + Beneath(old(docs), d.path), d.ts, old(Disk(files, docs, tombs)), old(dirs),
                    Disk(files, docs, tombs), applied)
      ensures old(Tidy(was, files, dirs)) ==> Tidy(was, files, dirs)
    {
      hide *;
      ghost var before := Disk(files, docs, tombs);
      FilesAreNotDirs(files, dirs);
      var changed := Apply(d, was);
      AppliedIsSwept(d, before, old(dirs), Disk(files, docs, tombs), changed);
      applied := if changed then 1 else 0;
      SweptDocsOnly(d, before, old(dirs), Disk(files, docs, tombs), changed);
      var beneath := DocsUnder(d.path);
      var left := beneath - {d.path};
      ghost var reach := {d.path} + Beneath(before.docs, d.path);
      assert reach - left == {d.path};
      while left != {}
        invariant TreeOk(files, dirs) && dirs <= old(dirs) && left <= reach
        invariant Swept(reach - left, d.ts, before, old(dirs), Disk(files, docs, tombs), applied)
        invariant old(Tidy(was, files, dirs)) ==> Tidy(was, files, dirs)
        decreases |left|
      {
        var path :| path in left;
        ghost var mid := Disk(files, docs, tombs);
        ghost var midDirs := dirs;
        OneDone(reach, left, path);
        FilesAreNotDirs(files, dirs);
        changed := Apply(Deletion(path, d.ts), was);
        AppliedIsSwept(Deletion(path, d.ts), mid, midDirs, Disk(files, docs, tombs), changed);
        SweptTwice(reach - left, {path}, d.ts, before, old(dirs), mid, midDirs, Disk(files, docs, tombs), applied,
                   if changed then 1 else 0);
        applied := applied + if changed then 1 else 0;
        left := left - {path};
      }
      assert reach - left == reach;
    }

    /** Apply every tombstone. `visited` is the order the map happened to yield. A file
        or document that is gone afterwards is one some tombstone reached and did not
        spare; everything else is untouched, and the count is of what went. */
    method Reconcile() returns (applied: nat, ghost visited: seq<Deletion>)
      requires TreeOk(files, dirs)
      modifies this
      ensures TreeOk(files, dirs) && dirs <= old(dirs) && Elems(visited) == Readable(old(tombs))
      ensures Reconciled(visited, old(Disk(files, docs, tombs)), old(dirs), Disk(files, docs, tombs), applied)
      ensures Tidy(old(files), files, dirs)
    {
      hide TreeOk, Swept, Reconciled, Readable;
      ghost var before := Disk(files, docs, tombs);
      FilesAreNotDirs(files, dirs);
      var deletions := All();
      visited := deletions;
      applied := 0;
      NothingReconciled(before, dirs);
      for i := 0 to |deletions|
        invariant TreeOk(files, dirs) && dirs <= old(dirs)
        invariant Reconciled(deletions[..i], before, old(dirs), Disk(files, docs, tombs), applied)
        invariant Tidy(before.files, files, dirs)
      {
        ghost var mid := Disk(files, docs, tombs);
        ghost var midDirs := dirs;
        var n := ApplySubtree(deletions[i], before.files);
        ReconciledStep(deletions, i, before, old(dirs), mid, midDirs, applied, Disk(files, docs, tombs), n);
        applied := applied + n;
      }
      assert deletions[..|deletions|] == deletions;
    }
  }

  /** What a device holds besides folders. */
  datatype Disk = Disk(files: map<string, int>, docs: set<string>, tombs: Tombs)

  function Beneath(docs: set<string>, path: string): set<string> {
    set k | k in docs && Covers(path, k)
  }

  ghost predicate Shrunk(before: Disk, after: Disk, gone: nat) {
    && after.docs <= before.docs
    && (forall k :: k in after.tombs ==> k in before.tombs && after.tombs[k] == before.tombs[k])
    && |Held(after)| == |Held(before)| - gone
  }

  lemma TombsNotHeld(before: Disk, after: Disk)
    requires after.files == before.files && after.docs == before.docs
    ensures Held(after) == Held(before)
  {
  }

  lemma OneLess(before: Disk, path: string, after: Disk)
    requires after == before.(files := before.files - {path}, docs := before.docs - {path})
    ensures |Held(after)| == |Held(before)| - if path in Held(before) then 1 else 0
    ensures path in Held(before) <==> path in before.files || path in before.docs
  {
    WithoutKey(before.files, before.docs, path);
    WithoutOne(Held(before), path);
  }

  lemma WithoutKey(files: map<string, int>, docs: set<string>, path: string)
    ensures (files - {path}).Keys + (docs - {path}) == files.Keys + docs - {path}
  {
  }

  lemma OneDone(reach: set<string>, left: set<string>, path: string)
    requires path in left && left <= reach
    ensures reach - left + {path} == reach - (left - {path}) && reach - left !! {path} && left - {path} < left
  {
  }

  lemma WithoutOne(s: set<string>, x: string)
    ensures |s - {x}| == |s| - if x in s then 1 else 0
  {
    assert x !in s ==> s - {x} == s;
  }

  function Held(disk: Disk): set<string> {
    disk.files.Keys + disk.docs
  }

  /** The effect of one tombstone on one path. */
  ghost predicate Applied(d: Deletion, before: Disk, dirs: set<string>, after: Disk, changed: bool) {
    && Shrunk(before, after, if changed then 1 else 0)
    && (d.path in before.files && before.files[d.path] > d.ts ==>
          after == before.(tombs := before.tombs - {d.path}))
    && (d.path in before.files && before.files[d.path] <= d.ts ==>
          after == before.(files := before.files - {d.path}, docs := before.docs - {d.path}))
    && (d.path !in before.files ==>
          && after.files == before.files
          && (d.path !in dirs ==> after == before.(docs := before.docs - {d.path}))
          && (after.docs == before.docs || after.docs == before.docs - {d.path})
          && (after.tombs == before.tombs || after.tombs == before.tombs - {d.path}))
  }

  predicate Kills(ts: int, files: map<string, int>, p: string) {
    p in files ==> files[p] <= ts
  }

  /** The effect of one tombstone time on every path of `done`, and on no other. */
  ghost predicate Swept(done: set<string>, ts: int, before: Disk, dirs: set<string>, after: Disk, gone: nat) {
    && Shrunk(before, after, gone)
    && FilesSwept(done, ts, before.files, after.files)
    && DocsSwept(done, ts, before.files, before.docs, dirs, after.docs)
    && TombsSwept(done, ts, before, dirs, after.tombs)
  }

  ghost predicate FilesSwept(done: set<string>, ts: int, before: map<string, int>, after: map<string, int>) {
    after == map p | p in before && !(p in done && before[p] <= ts) :: before[p]
  }

  ghost predicate DocsSwept(done: set<string>, ts: int, files: map<string, int>, before: set<string>,
                            dirs: set<string>, after: set<string>) {
    forall p {:trigger p in after} :: p in before && p !in dirs ==>
      (p in after <==> !(p in done && Kills(ts, files, p)))
  }

  ghost predicate TombsSwept(done: set<string>, ts: int, before: Disk, dirs: set<string>, after: Tombs) {
    forall p {:trigger p in after} :: p in before.tombs && p !in dirs ==>
      (p in after <==> !(p in done && p in before.files && before.files[p] > ts))
  }

  lemma AppliedIsSwept(d: Deletion, before: Disk, dirs: set<string>, after: Disk, changed: bool)
    requires Applied(d, before, dirs, after, changed) && before.files.Keys !! dirs
    ensures Swept({d.path}, d.ts, before, dirs, after, if changed then 1 else 0)
  {
    hide Shrunk;
  }

  /** Sweeping one path does not change what is tracked beneath it. */
  lemma SweptDocsOnly(d: Deletion, before: Disk, dirs: set<string>, after: Disk, changed: bool)
    requires Applied(d, before, dirs, after, changed)
    ensures Beneath(after.docs, d.path) - {d.path} == Beneath(before.docs, d.path) - {d.path}
  {
    hide Shrunk, Covers;
  }

  lemma Subsets(before: Disk, after: Disk, gone: nat)
    requires Shrunk(before, after, gone)
    ensures after.docs <= before.docs && after.tombs.Keys <= before.tombs.Keys
  {
  }

  lemma ShrunkTwice(a: Disk, b: Disk, c: Disk, n: nat, m: nat)
    requires Shrunk(a, b, n) && Shrunk(b, c, m)
    ensures Shrunk(a, c, n + m)
  {
  }

  lemma SweptTwice(done: set<string>, more: set<string>, ts: int, a: Disk, dirs: set<string>, b: Disk,
                   midDirs: set<string>, c: Disk, n: nat, m: nat)
    requires Swept(done, ts, a, dirs, b, n) && Swept(more, ts, b, midDirs, c, m)
    requires done !! more && midDirs <= dirs
    ensures Swept(done + more, ts, a, dirs, c, n + m)
  {
    ShrunkTwice(a, b, c, n, m);
    Subsets(a, b, n);
    Subsets(b, c, m);
    hide Shrunk;
    SweptFiles(done, more, ts, a.files, b.files, c.files);
    SweptDocs(done, more, ts, a, dirs, b, midDirs, c);
    SweptTombs(done, more, ts, a, dirs, b, midDirs, c);
  }

  lemma SweptFiles(done: set<string>, more: set<string>, ts: int, a: map<string, int>, b: map<string, int>,
                   c: map<string, int>)
    requires FilesSwept(done, ts, a, b) && FilesSwept(more, ts, b, c)
    ensures FilesSwept(done + more, ts, a, c)
  {
  }

  lemma SweptDocs(done: set<string>, more: set<string>, ts: int, a: Disk, dirs: set<string>, b: Disk,
                  midDirs: set<string>, c: Disk)
    requires FilesSwept(done, ts, a.files, b.files)
    requires DocsSwept(done, ts, a.files, a.docs, dirs, b.docs) && DocsSwept(more, ts, b.files, b.docs, midDirs, c.docs)
    requires c.docs <= b.docs && midDirs <= dirs
    ensures DocsSwept(done + more, ts, a.files, a.docs, dirs, c.docs)
  {
    forall p | p in a.docs && p !in dirs
      ensures p in c.docs <==> !(p in done + more && Kills(ts, a.files, p))
    {
      assert p in b.docs <==> !(p in done && Kills(ts, a.files, p));
    }
  }

  lemma SweptTombs(done: set<string>, more: set<string>, ts: int, a: Disk, dirs: set<string>, b: Disk,
                   midDirs: set<string>, c: Disk)
    requires FilesSwept(done, ts, a.files, b.files) && done !! more
    requires TombsSwept(done, ts, a, dirs, b.tombs) && TombsSwept(more, ts, b, midDirs, c.tombs)
    requires midDirs <= dirs && c.tombs.Keys <= b.tombs.Keys <= a.tombs.Keys
    ensures TombsSwept(done + more, ts, a, dirs, c.tombs)
  {
    forall p | p in a.tombs && p !in dirs
      ensures p in c.tombs <==> !(p in done + more && p in a.files && a.files[p] > ts)
    {
      assert p in b.tombs <==> !(p in done && p in a.files && a.files[p] > ts);
    }
  }

  /** The effect of visiting tombstones in turn. */
  ghost predicate Reconciled(visited: seq<Deletion>, before: Disk, dirs: set<string>, after: Disk, gone: nat) {
    && Shrunk(before, after, gone)
    && after.files == (map p | p in before.files && !Doomed(visited, before.files, before.docs, p) :: before.files[p])
    && (forall p {:trigger p in after.docs} :: p in before.docs && p !in dirs ==>
          (p in after.docs <==> !Doomed(visited, before.files, before.docs, p)))
    && (forall p {:trigger p in after.tombs} :: p in before.files && p in before.tombs ==>
          (p in after.tombs <==> !SparedFirst(visited, before.files[p], before.docs, p)))
    && (forall p {:trigger p in after.tombs} :: p in before.tombs && p !in before.files && p !in dirs ==>
          p in after.tombs)
  }

  lemma NothingReconciled(before: Disk, dirs: set<string>)
    ensures Reconciled([], before, dirs, before, 0)
  {
  }

  /** Visiting one more tombstone, whose reach is its own path and what is tracked beneath. */
  lemma ReconciledStep(ds: seq<Deletion>, i: nat, before: Disk, dirs: set<string>, mid: Disk, midDirs: set<string>,
                       gone: nat, after: Disk, n: nat)
    requires i < |ds| && Reconciled(ds[..i], before, dirs, mid, gone)
    requires Swept({ds[i].path} + Beneath(mid.docs, ds[i].path), ds[i].ts, mid, midDirs, after, n)
    requires before.files.Keys !! dirs && midDirs <= dirs
    ensures Reconciled(ds[..i + 1], before, dirs, after, gone + n)
  {
    hide Doomed, SparedFirst, Covers, Shrunk;
    var done := {ds[i].path} + Beneath(mid.docs, ds[i].path);
    var ts := ds[i].ts;
    ShrunkTwice(before, mid, after, gone, n);
    Subsets(before, mid, gone);
    Subsets(mid, after, n);
    forall p | p in before.files
      ensures p in after.files <==> !Doomed(ds[..i + 1], before.files, before.docs, p)
    {
      DoomedStep(ds, i, before.files, before.docs, p);
      assert p in mid.files <==> !Doomed(ds[..i], before.files, before.docs, p);
      assert p in before.docs && p in mid.files ==> p in mid.docs by { assert p !in dirs; }
      assert p in mid.files ==> (p in done <==> Reaches(ds[i], p, before.docs));
    }
    forall p | p in before.docs && p !in dirs
      ensures p in after.docs <==> !Doomed(ds[..i + 1], before.files, before.docs, p)
    {
      DoomedStep(ds, i, before.files, before.docs, p);
      assert p in mid.docs <==> !Doomed(ds[..i], before.files, before.docs, p);
      assert p in mid.docs ==> (p in done <==> Reaches(ds[i], p, before.docs));
      assert p in mid.docs ==> (Kills(ts, mid.files, p) <==> Kills(ts, before.files, p));
    }
    forall p | p in before.files && p in before.tombs
      ensures p in after.tombs <==> !SparedFirst(ds[..i + 1], before.files[p], before.docs, p)
    {
      SparedFirstStep(ds, i, before.files, before.docs, p);
      assert p !in dirs;
      assert p in mid.tombs <==> !SparedFirst(ds[..i], before.files[p], before.docs, p);
      assert p in mid.files <==> !Doomed(ds[..i], before.files, before.docs, p);
      assert p in before.docs ==> (p in mid.docs <==> !Doomed(ds[..i], before.files, before.docs, p));
      if p in mid.files {
        assert p in done <==> Reaches(ds[i], p, before.docs);
      }
    }
  }

  lemma DoomedStep(ds: seq<Deletion>, i: nat, files: map<string, int>, docs: set<string>, p: string)
    requires i < |ds|
    ensures Doomed(ds[..i + 1], files, docs, p) <==>
      Doomed(ds[..i], files, docs, p) || (Reaches(ds[i], p, docs) && Kills(ds[i].ts, files, p))
  {
    var more, less := ds[..i + 1], ds[..i];
    if Doomed(less, files, docs, p) {
      var k :| 0 <= k < i && Reaches(less[k], p, docs) && Kills(less[k].ts, files, p);
      assert more[k] == less[k];
    }
    if Reaches(ds[i], p, docs) && Kills(ds[i].ts, files, p) {
      assert more[i] == ds[i];
    }
    if Doomed(more, files, docs, p) {
      var k :| 0 <= k <= i && Reaches(more[k], p, docs) && Kills(more[k].ts, files, p);
      assert k < i ==> less[k] == more[k];
    }
  }

  lemma SparedFirstStep(ds: seq<Deletion>, i: nat, files: map<string, int>, docs: set<string>, p: string)
    requires i < |ds| && p in files
    ensures SparedFirst(ds[..i + 1], files[p], docs, p) <==>
      SparedFirst(ds[..i], files[p], docs, p) ||
      (!Doomed(ds[..i], files, docs, p) && Reaches(ds[i], p, docs) && files[p] > ds[i].ts)
  {
    hide Reaches;
    var more, less := ds[..i + 1], ds[..i];
    var m := files[p];
    forall k | 0 <= k < i
      ensures more[k] == less[k] && NewerUpTo(more, k, m, docs, p) == NewerUpTo(less, k, m, docs, p)
    {
      NewerInPrefix(ds, k, i, m, docs, p);
    }
    if SparedFirst(less, m, docs, p) {
      var k :| 0 <= k < |less| && Reaches(less[k], p, docs) && NewerUpTo(less, k, m, docs, p);
      assert Reaches(more[k], p, docs);
    }
    if SparedFirst(more, m, docs, p) {
      var k :| 0 <= k < |more| && Reaches(more[k], p, docs) && NewerUpTo(more, k, m, docs, p);
      assert k < i ==> Reaches(less[k], p, docs);
    }
    if !Doomed(less, files, docs, p) && Reaches(ds[i], p, docs) && m > ds[i].ts {
      assert Reaches(more[i], p, docs) && NewerUpTo(more, i, m, docs, p);
    }
  }

  lemma NewerInPrefix(ds: seq<Deletion>, k: nat, i: nat, m: int, docs: set<string>, p: string)
    requires k < i < |ds|
    ensures NewerUpTo(ds[..i + 1], k, m, docs, p) == NewerUpTo(ds[..i], k, m, docs, p)
  {
    hide Reaches;
    assert forall j :: 0 <= j < i ==> ds[..i + 1][j] == ds[..i][j];
  }

  // ---- What reconciling means ------------------------------------------------------

  /** A readable entry filed at or above `p`, and not older than `mtime`. */
  predicate HitsByKey(tombs: Tombs, key: string, p: string, mtime: int) {
    key in tombs && tombs[key].Parsed? && Covers(key, p) && tombs[key].d.ts >= mtime
  }

  /** A readable entry naming `p` or a folder above it, and not older than `mtime`. */
  predicate HitsByPath(tombs: Tombs, key: string, p: string, mtime: int) {
    key in tombs && tombs[key].Parsed? && Covers(tombs[key].d.path, p) && tombs[key].d.ts >= mtime
  }

  /** Every readable entry naming `p`, or, where `above`, a folder above it, is older than
      `mtime`. */
  ghost predicate OutlivesAll(tombs: Tombs, p: string, above: bool, mtime: int) {
    forall k :: k in tombs && tombs[k].Parsed? && NamesIt(tombs[k].d, p, above) ==> tombs[k].d.ts < mtime
  }

  predicate NamesIt(d: Deletion, p: string, above: bool) {
    d.path == p || (above && d.path + "/" <= p)
  }

  /** What is left after reconciling, from the tombstones held: a tracked file newer than
      all that name it or a folder above it; an untracked one newer than all that name it;
      a document whose file is so, or that nothing names. Files left are as they were. */
  lemma LeftExactlyWhen(visited: seq<Deletion>, before: Disk, dirs: set<string>, after: Disk, gone: nat)
    requires Elems(visited) == Readable(before.tombs) && Reconciled(visited, before, dirs, after, gone)
    ensures forall p :: p in after.files <==>
              p in before.files && OutlivesAll(before.tombs, p, p in before.docs, before.files[p])
    ensures forall p :: p in after.files ==> after.files[p] == before.files[p]
    ensures forall p :: p in before.docs && p !in dirs ==>
              (p in after.docs <==> if p in before.files then p in after.files else NothingNames(before.tombs, p))
  {
    hide Shrunk, Doomed, SparedFirst;
    forall p ensures Doomed(visited, before.files, before.docs, p) <==>
      exists k :: k in before.tombs && before.tombs[k].Parsed? && Reaches(before.tombs[k].d, p, before.docs)
        && Kills(before.tombs[k].d.ts, before.files, p)
    {
      DoomedByEntry(before.tombs, visited, before.files, before.docs, p);
    }
  }

  ghost predicate NothingNames(tombs: Tombs, p: string) {
    forall k :: k in tombs && tombs[k].Parsed? ==> !NamesIt(tombs[k].d, p, true)
  }

  lemma DoomedByEntry(tombs: Tombs, visited: seq<Deletion>, files: map<string, int>, docs: set<string>, p: string)
    requires Elems(visited) == Readable(tombs)
    ensures Doomed(visited, files, docs, p) <==>
      exists k :: k in tombs && tombs[k].Parsed? && Reaches(tombs[k].d, p, docs) && Kills(tombs[k].d.ts, files, p)
  {
    hide Reaches, Kills;
    if Doomed(visited, files, docs, p) {
      var i :| 0 <= i < |visited| && Reaches(visited[i], p, docs) && Kills(visited[i].ts, files, p);
      assert visited[i] in Elems(visited);
      var k :| k in tombs && tombs[k].Parsed? && tombs[k].d == visited[i];
    }
    if k :| k in tombs && tombs[k].Parsed? && Reaches(tombs[k].d, p, docs) && Kills(tombs[k].d.ts, files, p) {
      assert tombs[k].d in Elems(visited);
      var i :| 0 <= i < |visited| && visited[i] == tombs[k].d;
    }
  }

  /** What reconciling decides for a tracked file is what `covering_ts` says of it exactly when
      entries are not older than the file by their keys as much as by their paths. */
  lemma SurvivalMatchesCoveringTsExactlyWhen(tombs: Tombs, visited: seq<Deletion>, files: map<string, int>,
                                             docs: set<string>, p: string, ts: Option<int>)
    requires Elems(visited) == Readable(tombs) && p in files && p in docs && IsCoveringTs(tombs, p, ts)
    ensures (!Doomed(visited, files, docs, p) <==> ts.None? || files[p] > ts.value) <==>
            ((exists k :: HitsByKey(tombs, k, p, files[p])) <==> (exists k :: HitsByPath(tombs, k, p, files[p])))
  {
    hide Covers;
    assert (exists k :: HitsByKey(tombs, k, p, files[p])) <==> ts.Some? && files[p] <= ts.value by {
      if k :| HitsByKey(tombs, k, p, files[p]) {
        assert tombs[k].d.ts <= ts.value;
      }
      if ts.Some? && files[p] <= ts.value {
        var t :| t in tombs && Covers(t, p) && TsOf(tombs, t) == ts;
        assert HitsByKey(tombs, t, p, files[p]);
      }
    }
    DoomedByPath(tombs, visited, files, docs, p);
  }

  lemma DoomedByPath(tombs: Tombs, visited: seq<Deletion>, files: map<string, int>, docs: set<string>, p: string)
    requires Elems(visited) == Readable(tombs) && p in files && p in docs
    ensures Doomed(visited, files, docs, p) <==> exists k :: HitsByPath(tombs, k, p, files[p])
  {
    if Doomed(visited, files, docs, p) {
      var i :| 0 <= i < |visited| && Reaches(visited[i], p, docs) && Kills(visited[i].ts, files, p);
      assert visited[i] in Elems(visited);
      var k :| k in tombs && tombs[k].Parsed? && tombs[k].d == visited[i];
      assert HitsByPath(tombs, k, p, files[p]);
    }
    if k :| HitsByPath(tombs, k, p, files[p]) {
      assert tombs[k].d in Elems(visited);
      var i :| 0 <= i < |visited| && visited[i] == tombs[k].d;
      assert Reaches(visited[i], p, docs) && Kills(visited[i].ts, files, p);
    }
  }

  /** So with every entry filed under its own path, as recording one does: a tracked file
      survives exactly when nothing covers it or it was modified after the newest tombstone
      that does, whatever order the tombstones are visited in. */
  lemma SurvivalIsByCoveringTs(tombs: Tombs, visited: seq<Deletion>, files: map<string, int>, docs: set<string>,
                               p: string, ts: Option<int>)
    requires WellFiled(tombs) && Elems(visited) == Readable(tombs)
    requires p in files && p in docs && IsCoveringTs(tombs, p, ts)
    ensures !Doomed(visited, files, docs, p) <==> ts.None? || files[p] > ts.value
  {
    hide Covers;
    assert forall k :: HitsByKey(tombs, k, p, files[p]) <==> HitsByPath(tombs, k, p, files[p]);
    SurvivalMatchesCoveringTsExactlyWhen(tombs, visited, files, docs, p, ts);
  }

  /** An entry under another key does part them: nothing covers the file by key, and
      reconciling removes it all the same. */
  lemma MisfiledEntryRemoves()
    ensures exists tombs: Tombs, visited: seq<Deletion>, files: map<string, int>, docs: set<string>, p: string ::
              Elems(visited) == Readable(tombs) && p in files && p in docs && IsCoveringTs(tombs, p, None) &&
              Doomed(visited, files, docs, p)
  {
    var d := Deletion("plan.md", 5);
    var tombs: Tombs := map["elsewhere" := Parsed(d)];
    var files: map<string, int> := map["plan.md" := 3];
    assert "elsewhere" in tombs && tombs["elsewhere"].d == d && [d][0] == d;
    assert Readable(tombs) == {d} && Elems([d]) == {d};
    assert !("elsewhere" + "/" <= "plan.md") by { assert "plan.md"[0] != ("elsewhere" + "/")[0]; }
    assert Reaches([d][0], "plan.md", {"plan.md"}) && Kills(d.ts, files, "plan.md");
    assert Doomed([d], files, {"plan.md"}, "plan.md") && IsCoveringTs(tombs, "plan.md", None);
  }

  /** Which files and documents go does not depend on the order of the visit. */
  lemma SurvivalIsOrderIndependent(v: seq<Deletion>, w: seq<Deletion>, files: map<string, int>, docs: set<string>,
                                   p: string)
    requires Elems(v) == Elems(w)
    ensures Doomed(v, files, docs, p) <==> Doomed(w, files, docs, p)
  {
    if Doomed(v, files, docs, p) { DoomedMoves(v, w, files, docs, p); }
    if Doomed(w, files, docs, p) { DoomedMoves(w, v, files, docs, p); }
  }

  lemma DoomedMoves(v: seq<Deletion>, w: seq<Deletion>, files: map<string, int>, docs: set<string>, p: string)
    requires Elems(v) <= Elems(w) && Doomed(v, files, docs, p)
    ensures Doomed(w, files, docs, p)
  {
    var i :| 0 <= i < |v| && Reaches(v[i], p, docs) && Kills(v[i].ts, files, p);
    assert v[i] in Elems(w);
    var j :| 0 <= j < |w| && w[j] == v[i];
  }

  /** Reconciling again changes no file and no document outside folders, and, when no
      document is named like a folder, reports nothing applied. */
  lemma ReconcileIsIdempotent(v: seq<Deletion>, w: seq<Deletion>, before: Disk, dirs: set<string>, mid: Disk,
                              midDirs: set<string>, after: Disk, n: nat, m: nat)
    requires Elems(v) == Readable(before.tombs) && Reconciled(v, before, dirs, mid, n)
    requires Elems(w) == Readable(mid.tombs) && Reconciled(w, mid, midDirs, after, m) && midDirs <= dirs
    ensures after.files == mid.files
    ensures forall p :: p in mid.docs && p !in dirs ==> p in after.docs
    ensures before.docs !! dirs ==> after.docs == mid.docs && m == 0
  {
    Subsets(before, mid, n);
    Subsets(mid, after, m);
    FewerReadable(before, mid, n);
    FilesAgain(v, w, before, dirs, mid, midDirs, after, n, m);
    DocsAgain(v, w, before, dirs, mid, midDirs, after, n, m);
    if before.docs !! dirs {
      HeldAgain(mid, after, m);
    }
  }

  lemma FewerReadable(before: Disk, after: Disk, gone: nat)
    requires Shrunk(before, after, gone)
    ensures Readable(after.tombs) <= Readable(before.tombs)
  {
  }

  lemma HeldAgain(mid: Disk, after: Disk, m: nat)
    requires Shrunk(mid, after, m) && after.files == mid.files && mid.docs <= after.docs
    ensures m == 0 && after.docs == mid.docs
  {
    TombsNotHeld(mid, after);
  }

  lemma FilesAgain(v: seq<Deletion>, w: seq<Deletion>, before: Disk, dirs: set<string>, mid: Disk,
                   midDirs: set<string>, after: Disk, n: nat, m: nat)
    requires Reconciled(v, before, dirs, mid, n) && Reconciled(w, mid, midDirs, after, m)
    requires Elems(w) <= Elems(v)
    ensures after.files == mid.files
  {
    Subsets(before, mid, n);
    hide Doomed, SparedFirst, Shrunk;
    forall p | p in mid.files ensures p in after.files {
      DoomedAgain(v, w, before, mid, p);
    }
  }

  lemma DocsAgain(v: seq<Deletion>, w: seq<Deletion>, before: Disk, dirs: set<string>, mid: Disk,
                  midDirs: set<string>, after: Disk, n: nat, m: nat)
    requires Reconciled(v, before, dirs, mid, n) && Reconciled(w, mid, midDirs, after, m)
    requires Elems(w) <= Elems(v) && midDirs <= dirs
    ensures forall p :: p in mid.docs && p !in dirs ==> p in after.docs
  {
    Subsets(before, mid, n);
    hide Doomed, SparedFirst, Shrunk;
    forall p | p in mid.docs && p !in dirs ensures p in after.docs {
      assert p in before.docs && !Doomed(v, before.files, before.docs, p);
      assert p in before.files ==> p in mid.files;
      DoomedAgain(v, w, before, mid, p);
      assert !Doomed(w, mid.files, mid.docs, p);
    }
  }

  lemma DoomedAgain(v: seq<Deletion>, w: seq<Deletion>, before: Disk, mid: Disk, p: string)
    requires Elems(w) <= Elems(v) && mid.docs <= before.docs && !Doomed(v, before.files, before.docs, p)
    requires p in before.files <==> p in mid.files
    requires p in mid.files ==> mid.files[p] == before.files[p]
    ensures !Doomed(w, mid.files, mid.docs, p)
  {
    if Doomed(w, mid.files, mid.docs, p) {
      var i :| 0 <= i < |w| && Reaches(w[i], p, mid.docs) && Kills(w[i].ts, mid.files, p);
      assert w[i] in Elems(v);
      var j :| 0 <= j < |v| && v[j] == w[i];
      assert Reaches(v[j], p, before.docs) && Kills(v[j].ts, before.files, p);
    }
  }

  /** The tombstone map is another matter. A tracked file's own tombstone is retired by
      whichever covering tombstone is met first, so it survives in some orders and not
      in others exactly when some covering tombstone is older than the file and some
      other is not. */
  lemma TombstoneIsOrderIndependentExactlyWhen(ds: set<Deletion>, mtime: int, docs: set<string>, p: string)
    ensures SameInEveryOrder(ds, mtime, docs, p) <==> !Mixed(ds, mtime, docs, p)
  {
    if Mixed(ds, mtime, docs, p) {
      MixedDiffers(ds, mtime, docs, p);
    } else {
      forall v: seq<Deletion>, w: seq<Deletion> | Elems(v) == ds && Elems(w) == ds
        ensures SparedFirst(v, mtime, docs, p) <==> SparedFirst(w, mtime, docs, p)
      {
        UnmixedSpares(ds, v, mtime, docs, p);
        UnmixedSpares(ds, w, mtime, docs, p);
      }
    }
  }

  ghost predicate SameInEveryOrder(ds: set<Deletion>, mtime: int, docs: set<string>, p: string) {
    forall v: seq<Deletion>, w: seq<Deletion>
      {:trigger SparedFirst(v, mtime, docs, p), SparedFirst(w, mtime, docs, p)} :: Elems(v) == ds && Elems(w) == ds ==>
        (SparedFirst(v, mtime, docs, p) <==> SparedFirst(w, mtime, docs, p))
  }

  /** Both kinds of tombstone can cover one file. */
  lemma OrderCanMatter()
    ensures exists ds: set<Deletion>, mtime: int, docs: set<string>, p: string :: !SameInEveryOrder(ds, mtime, docs, p)
  {
    var early, late := Deletion("notes/plan.md", 1), Deletion("notes", 5);
    assert "notes" + "/" <= "notes/plan.md" by { assert "notes/plan.md"[..6] == "notes" + "/"; }
    assert Reaches(early, "notes/plan.md", {"notes/plan.md"}) && Reaches(late, "notes/plan.md", {"notes/plan.md"});
    MixedDiffers({early, late}, 3, {"notes/plan.md"}, "notes/plan.md");
  }

  lemma MixedDiffers(ds: set<Deletion>, mtime: int, docs: set<string>, p: string)
    requires Mixed(ds, mtime, docs, p)
    ensures !SameInEveryOrder(ds, mtime, docs, p)
  {
    hide Reaches;
    var a, b :| a in ds && b in ds && Reaches(a, p, docs) && Reaches(b, p, docs) && a.ts < mtime <= b.ts;
    hide *;
    var rest := SomeOrder(ds);
    ElemsCons(a, rest);
    ElemsCons(b, rest);
    assert ds + {a} == ds && ds + {b} == ds;
    FirstDecides(a, rest, mtime, docs, p);
    FirstDecides(b, rest, mtime, docs, p);
    NotSame(ds, [a] + rest, [b] + rest, mtime, docs, p);
  }

  lemma NotSame(ds: set<Deletion>, v: seq<Deletion>, w: seq<Deletion>, mtime: int, docs: set<string>, p: string)
    requires Elems(v) == ds && Elems(w) == ds
    requires SparedFirst(v, mtime, docs, p) && !SparedFirst(w, mtime, docs, p)
    ensures !SameInEveryOrder(ds, mtime, docs, p)
  {
    hide SparedFirst, Elems;
  }

  lemma ElemsCons(d: Deletion, rest: seq<Deletion>)
    ensures Elems([d] + rest) == Elems(rest) + {d}
  {
  }

  lemma FirstDecides(d: Deletion, rest: seq<Deletion>, mtime: int, docs: set<string>, p: string)
    requires Reaches(d, p, docs)
    ensures SparedFirst([d] + rest, mtime, docs, p) <==> mtime > d.ts
  {
    hide Reaches;
    var v := [d] + rest;
    assert v[0] == d;
  }

  ghost predicate Mixed(ds: set<Deletion>, mtime: int, docs: set<string>, p: string) {
    exists a, b :: a in ds && b in ds && Reaches(a, p, docs) && Reaches(b, p, docs) && a.ts < mtime <= b.ts
  }

  lemma UnmixedSpares(ds: set<Deletion>, v: seq<Deletion>, mtime: int, docs: set<string>, p: string)
    requires Elems(v) == ds && !Mixed(ds, mtime, docs, p)
    ensures SparedFirst(v, mtime, docs, p) <==> exists d :: d in ds && Reaches(d, p, docs) && mtime > d.ts
  {
    if d :| d in ds && Reaches(d, p, docs) && mtime > d.ts {
      var i :| 0 <= i < |v| && v[i] == d;
      forall j | 0 <= j <= i && Reaches(v[j], p, docs) ensures mtime > v[j].ts {
        assert v[j] in ds;
      }
    }
    if SparedFirst(v, mtime, docs, p) {
      var i :| 0 <= i < |v| && Reaches(v[i], p, docs) &&
        forall j :: 0 <= j <= i && Reaches(v[j], p, docs) ==> mtime > v[j].ts;
      assert v[i] in Elems(v);
    }
  }

  lemma SomeOrder(ds: set<Deletion>) returns (v: seq<Deletion>)
    ensures Elems(v) == ds
    decreases |ds|
  {
    v := [];
    if ds != {} {
      var d :| d in ds;
      var rest := SomeOrder(ds - {d});
      v := [d] + rest;
      assert Elems(v) == Elems(rest) + {d};
    }
  }
}
