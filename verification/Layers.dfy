/** internal/image/image.go (copy fallback of `Mount`) and internal/runtime/lifecycle.go
    (`diffCopyChanges`, copy-mode commit): image layers as trees of path to entry. File modes and
    timestamps are not modelled, and file hashes are taken to identify contents. */
module Layers {
  import opened Text

  datatype Entry = Dir | File(content: string) | Symlink(target: string)

  /** Slash-separated relative paths to entries. */
  type Tree = map<string, Entry>

  /** `d` is a proper ancestor directory of `p`. */
  predicate Above(d: string, p: string) { |d| < |p| && p[|d|] == '/' && d <= p }

  /** Everything above an entry is a directory. */
  ghost predicate WellFormed(t: Tree) {
    forall p, d :: p in t && Above(d, p) ==> d in t && t[d].Dir?
  }

  // ---- copying one tree over another ----

  predicate EmptyDir(t: Tree, p: string) { forall q :: q in t ==> !Above(p, q) }

  /** Whether an entry can be written over what the destination has at that path. Writing a file
      or making a directory where a symbolic link stands would follow the link; it counts as not
      possible here. */
  predicate Fits(dst: Tree, p: string, e: Entry) {
    p in dst ==>
      match e
      case Dir => dst[p].Dir?
      case File(_) => dst[p].File?
      case Symlink(_) => !dst[p].Dir? || EmptyDir(dst, p)
  }

  predicate Compatible(dst: Tree, src: Tree) {
    forall p :: p in src ==> Fits(dst, p, src[p])
  }

  /** A path is above another if that one continues it with a slash. */
  lemma AboveIff(d: string, p: string)
    ensures Above(d, p) <==> d + "/" <= p
  {
    if d + "/" <= p { assert (d + "/")[|d|] == p[|d|] && d == (d + "/")[..|d|] == p[..|d|]; }
  }

  /** What one entry can be copied over: anything over nothing, a directory over a directory, a file
      over a file, a link over a file, a link or a directory with nothing in it. */
  lemma OneEntryFitsIff(dst: Tree, p: string, e: Entry)
    ensures Compatible(dst, map[p := e]) <==>
            || p !in dst
            || (e.Dir? && dst[p].Dir?)
            || (e.File? && dst[p].File?)
            || (e.Symlink? && (dst[p].File? || dst[p].Symlink?))
            || (e.Symlink? && dst[p].Dir? && forall q :: q in dst ==> !(p + "/" <= q))
  {
    forall q ensures Above(p, q) <==> p + "/" <= q { AboveIff(p, q); }
    hide Above;
    assert map[p := e][p] == e;
    assert Compatible(dst, map[p := e]) <==> Fits(dst, p, e);
  }

  /** Nothing of `dst` is gone, and every entry comes from it or from one of `srcs`. */
  ghost predicate Blends(dst: Tree, srcs: seq<Tree>, out: Tree) {
    && dst.Keys <= out.Keys
    && forall p :: p in out ==> (p in dst && out[p] == dst[p]) || From(srcs, p, out[p])
  }

  ghost predicate From(srcs: seq<Tree>, p: string, e: Entry) {
    exists k :: 0 <= k < |srcs| && p in srcs[k] && srcs[k][p] == e
  }

  lemma BlendsMore(dst: Tree, srcs: seq<Tree>, mid: Tree, k: nat, out: Tree)
    requires Blends(dst, srcs, mid) && k < |srcs| && Blends(mid, [srcs[k]], out)
    ensures Blends(dst, srcs, out)
  {
    forall p | p in out ensures (p in dst && out[p] == dst[p]) || From(srcs, p, out[p]) {
      if !(p in mid && out[p] == mid[p]) {
        assert From([srcs[k]], p, out[p]);
        assert p in srcs[k] && srcs[k][p] == out[p];
      }
    }
  }

  /** `copyDir`: visits parents before children, otherwise in any order; stops at the first entry
      that cannot be written. It succeeds exactly when every entry fits, and then the source wins
      wherever the two overlap; if it stops, some entries have been copied and nothing is gone. */
  method CopyDir(src: Tree, dst: Tree) returns (out: Tree, ok: bool)
    requires WellFormed(src) && WellFormed(dst)
    ensures ok <==> Compatible(dst, src)
    ensures ok ==> out == dst + src && WellFormed(out)
    ensures Blends(dst, [src], out)
  {
    hide From;
    out, ok := dst, true;
    var todo := src.Keys;
    while todo != {}
      invariant todo <= src.Keys
      invariant forall p :: p in src && p !in todo ==> Fits(dst, p, src[p])
      invariant out == dst + (src - todo) && Blends(dst, [src], out)
      invariant forall p, d :: p in src && p !in todo && Above(d, p) ==> d !in todo
    {
      PickTop(todo);
      var p :| p in todo && forall d :: d in todo ==> !Above(d, p);
      FitsLater(src, dst, todo, p);
      if !Fits(out, p, src[p]) {
        ok := false;
        return;
      }
      assert From([src], p, src[p]) by { OneSource(src, p); }
      out := out[p := src[p]];
      assert src - (todo - {p}) == (src - todo)[p := src[p]];
      todo := todo - {p};
    }
    assert src - todo == src;
    MergeWellFormed(dst, src);
  }

  lemma OneSource(src: Tree, p: string)
    requires p in src
    ensures From([src], p, src[p])
  {
    assert [src][0] == src;
  }

  /** Some path of a non-empty set has no ancestor in it. */
  lemma PickTop(todo: set<string>)
    requires todo != {}
    ensures exists p :: p in todo && forall d :: d in todo ==> !Above(d, p)
  {
    var p :| p in todo;
    Climb(todo, p);
  }

  lemma {:induction false} Climb(todo: set<string>, p: string)
    requires p in todo
    ensures exists q :: q in todo && forall d :: d in todo ==> !Above(d, q)
    decreases |p|
  {
    if d :| d in todo && Above(d, p) {
      Climb(todo, d);
    } else {
      assert forall d :: d in todo ==> !Above(d, p);
    }
  }

  /** What has been copied so far does not change whether the next entry fits. */
  lemma FitsLater(src: Tree, dst: Tree, todo: set<string>, p: string)
    requires WellFormed(src) && p in src && p in todo && todo <= src.Keys
    requires forall q, d :: q in src && q !in todo && Above(d, q) ==> d !in todo
    ensures Fits(dst + (src - todo), p, src[p]) <==> Fits(dst, p, src[p])
  {
    var out := dst + (src - todo);
    assert p in out <==> p in dst;
    assert p in dst ==> out[p] == dst[p];
    assert forall q :: q in out && Above(p, q) ==> q in dst;
  }

  lemma MergeWellFormed(dst: Tree, src: Tree)
    requires WellFormed(src) && WellFormed(dst) && Compatible(dst, src)
    ensures WellFormed(dst + src)
  {
    var out := dst + src;
    forall p, d | p in out && Above(d, p) ensures d in out && out[d].Dir? {
      if p in src {
        assert d in src && src[d].Dir?;
      } else if d in src {
        assert d in dst && dst[d].Dir?;
        assert Fits(dst, d, src[d]) && !EmptyDir(dst, d);
      }
    }
  }

  // ---- mounting ----

  /** Layers bottom first, as the manifest lists them: the newest layer that has a path wins. */
  function TopFirst(layers: seq<Tree>, p: string): Option<Entry> {
    if layers == [] then None
    else if p in layers[|layers| - 1] then Some(layers[|layers| - 1][p])
    else TopFirst(layers[..|layers| - 1], p)
  }

  function Get(t: Tree, p: string): Option<Entry> { if p in t then Some(t[p]) else None }

  function Stacked(layers: seq<Tree>): Tree {
    if layers == [] then map[] else Stacked(layers[..|layers| - 1]) + layers[|layers| - 1]
  }

  /** Each layer fits on those below it. */
  ghost predicate Stackable(layers: seq<Tree>) {
    forall k :: 0 <= k < |layers| ==> Compatible(Stacked(layers[..k]), layers[k])
  }

  lemma {:induction false} StackedLookup(layers: seq<Tree>, p: string)
    ensures Get(Stacked(layers), p) == TopFirst(layers, p)
  {
    if layers != [] { StackedLookup(layers[..|layers| - 1], p); }
  }

  /** No path changes its kind from one layer to another. */
  ghost predicate KindStable(layers: seq<Tree>) {
    forall i, j, p :: 0 <= i < j < |layers| && p in layers[i] && p in layers[j] ==>
      && (layers[i][p].Dir? <==> layers[j][p].Dir?)
      && (layers[i][p].File? <==> layers[j][p].File?)
  }

  lemma {:induction false} StackedFrom(layers: seq<Tree>, p: string) returns (i: nat)
    requires p in Stacked(layers)
    ensures i < |layers| && p in layers[i] && layers[i][p] == Stacked(layers)[p]
  {
    i := |layers| - 1;
    if p !in layers[i] { i := StackedFrom(layers[..i], p); }
  }

  /** Kind-stable images can always be copied. */
  lemma KindStableStacks(layers: seq<Tree>)
    requires KindStable(layers)
    ensures Stackable(layers)
  {
    forall k | 0 <= k < |layers| ensures Compatible(Stacked(layers[..k]), layers[k]) {
      var below := layers[..k];
      forall p | p in layers[k] ensures Fits(Stacked(below), p, layers[k][p]) {
        if p in Stacked(below) {
          var i := StackedFrom(below, p);
          assert below[i] == layers[i];
        }
      }
    }
  }

  lemma {:induction false} StackedOn(existing: Tree, layers: seq<Tree>)
    ensures Stacked([existing] + layers) == existing + Stacked(layers)
  {
    var all := [existing] + layers;
    if layers == [] {
      assert all[..0] == [] && Stacked(all) == map[] + existing;
    } else {
      assert all[..|all| - 1] == [existing] + layers[..|layers| - 1];
      StackedOn(existing, layers[..|layers| - 1]);
    }
  }

  /** What a path shows once `layers` have been copied over `existing`. */
  function Shown(existing: Tree, layers: seq<Tree>, p: string): Option<Entry> {
    match TopFirst(layers, p) case Some(e) => Some(e) case None => Get(existing, p)
  }

  /** `lowerParts`: the layers, newest first. */
  method LowerParts(layers: seq<Tree>) returns (parts: array<Tree>)
    ensures fresh(parts) && parts.Length == |layers|
    ensures forall k :: 0 <= k < |layers| ==> parts[|layers| - 1 - k] == layers[k]
  {
    var n := |layers|;
    parts := new Tree[n];
    for i := 0 to n
      invariant forall k :: 0 <= k < i ==> parts[n - 1 - k] == layers[k]
    {
      parts[n - 1 - i] := layers[i];
    }
  }

  lemma BlendsItself(t: Tree, srcs: seq<Tree>)
    ensures Blends(t, srcs, t)
  {
  }

  /** The copy fallback of `Mount`. `existing` is what the container's directory holds: nothing the
      first time, its own tree when it is started again. `newestFirst` is the source's
      `lowerParts`. It succeeds exactly when each layer fits on what is below it, in particular on
      kind-stable images, and then every path of the image shows what a top-first overlay lookup
      shows and every other path what it showed before. If it stops, nothing is gone and every
      entry comes from the container or from a layer. An image without layers is refused. */
  method MountCopy(existing: Tree, layers: seq<Tree>) returns (merged: Tree, ok: bool)
    requires WellFormed(existing) && forall k :: 0 <= k < |layers| ==> WellFormed(layers[k])
    ensures ok <==> layers != [] && Stackable([existing] + layers)
    ensures layers != [] && KindStable([existing] + layers) ==> ok
    ensures ok ==> WellFormed(merged) && merged == existing + Stacked(layers)
    ensures ok ==> forall p :: Get(merged, p) == Shown(existing, layers, p)
    ensures Blends(existing, layers, merged)
  {
    hide Blends;
    hide Compatible;
    hide WellFormed;
    hide KindStable;
    hide Shown;
    hide Stacked;
    merged, ok := existing, false;
    BlendsItself(existing, layers);
    ghost var all := [existing] + layers;
    if KindStable(all) { KindStableStacks(all); }
    if layers == [] { return; }
    var n := |layers|;
    var newestFirst := LowerParts(layers);
    StackedOne(existing, layers);
    var i := n;
    while i > 0
      invariant 0 <= i <= n
      invariant forall k :: 0 <= k < n ==> newestFirst[n - 1 - k] == layers[k]
      invariant merged == Stacked(all[..n - i + 1]) && WellFormed(merged) && Blends(existing, layers, merged)
      invariant forall k :: 0 <= k < n - i + 1 ==> Compatible(Stacked(all[..k]), all[k])
    {
      ghost var k := n - i;
      i := i - 1;
      assert newestFirst[n - 1 - k] == layers[k] == all[k + 1];
      ghost var below := merged;
      merged, ok := CopyDir(newestFirst[i], merged);
      BlendsMore(existing, layers, below, k, merged);
      if !ok { return; }
      StackedNext(all, k + 1);
    }
    assert all[..n + 1] == all;
    StackedOn(existing, layers);
    ok := true;
    MountShows(existing, layers);
  }

  lemma MountShows(existing: Tree, layers: seq<Tree>)
    ensures forall p :: Get(existing + Stacked(layers), p) == Shown(existing, layers, p)
  {
    hide Stacked;
    hide TopFirst;
    forall p ensures Get(existing + Stacked(layers), p) == Shown(existing, layers, p) { StackedLookup(layers, p); }
  }

  lemma StackedOne(existing: Tree, layers: seq<Tree>)
    ensures var all := [existing] + layers;
            Stacked(all[..1]) == existing && Compatible(Stacked(all[..0]), all[0])
  {
    var all := [existing] + layers;
    assert all[..1] == [existing] && all[..0] == [] && [existing][..0] == [];
    assert Stacked([existing]) == map[] + existing;
  }

  lemma StackedNext(layers: seq<Tree>, k: nat)
    requires k < |layers|
    ensures Stacked(layers[..k + 1]) == Stacked(layers[..k]) + layers[k]
  {
    assert layers[..k + 1][..k] == layers[..k];
  }

  lemma OverlayKeepsIff(existing: Tree, layers: seq<Tree>)
    ensures existing + Stacked(layers) == existing <==>
            forall p :: TopFirst(layers, p).Some? ==> Get(existing, p) == TopFirst(layers, p)
  {
    forall p ensures Get(Stacked(layers), p) == TopFirst(layers, p) { StackedLookup(layers, p); }
    hide Stacked;
    hide TopFirst;
    var image := Stacked(layers);
    if existing + image == existing {
      forall p | TopFirst(layers, p).Some? ensures Get(existing, p) == TopFirst(layers, p) {
        assert Get(image, p) == TopFirst(layers, p);
        assert (existing + image)[p] == image[p];
      }
    } else {
      SameTrees(existing + image, existing);
      var p :| Get(existing + image, p) != Get(existing, p);
      assert Get(image, p) == TopFirst(layers, p);
    }
  }

  /** Starting a container again, in copy mode. If the image can be copied over its tree, the tree
      comes through as it was exactly when the container has neither removed nor changed anything
      the image has: copying brings all of that back and keeps only what the container added. */
  method Restart(existing: Tree, layers: seq<Tree>) returns (merged: Tree, ok: bool)
    requires WellFormed(existing) && forall k :: 0 <= k < |layers| ==> WellFormed(layers[k])
    ensures ok <==> layers != [] && Stackable([existing] + layers)
    ensures ok ==> (merged == existing <==>
                      forall p :: TopFirst(layers, p).Some? ==> Get(existing, p) == TopFirst(layers, p))
  {
    merged, ok := MountCopy(existing, layers);
    OverlayKeepsIff(existing, layers);
  }

  /** Copy-mode commit followed by a mount of the new image shows the committed tree. */
  method CommitThenMount(merged: Tree) returns (remounted: Tree, ok: bool)
    requires WellFormed(merged)
    ensures ok && remounted == merged
  {
    var layer, copied := CopyDir(merged, map[]);
    assert map[] + merged == merged;
    assert KindStable([map[], layer]);
    assert [map[]] + [layer] == [map[], layer];
    remounted, ok := MountCopy(map[], [layer]);
    assert Stacked([layer]) == map[] + layer by { assert [layer][..0] == []; }
  }

  // ---- diff ----

  datatype Kind = Added | Changed | Deleted
  datatype Change = Change(kind: Kind, path: string)

  /** `lowerFile`: the first lower layer that has the path. `lowerLayerDirs` lists layers oldest
      first, so this is the oldest. */
  function OldestFirst(lowers: seq<Tree>, p: string): Option<Entry> {
    if lowers == [] then None else if p in lowers[0] then Some(lowers[0][p]) else OldestFirst(lowers[1..], p)
  }

  /** `fileContentDiffers`, case by case. */
  predicate ContentDiffers(a: Entry, b: Entry) {
    if a.Symlink? || b.Symlink? then !(a.Symlink? && b.Symlink? && a.target == b.target)
    else if a.Dir? || b.Dir? then a.Dir? != b.Dir?
    else a.content != b.content
  }

  lemma DiffersIff(a: Entry, b: Entry)
    ensures ContentDiffers(a, b) <==> a != b
  {
  }

  ghost predicate SomeLowerFile(lowers: seq<Tree>, p: string) {
    exists k :: 0 <= k < |lowers| && p in lowers[k] && !lowers[k][p].Dir?
  }

  /** The changes a container made, relative to its lower layers. */
  ghost predicate IsChange(merged: Tree, lowers: seq<Tree>, c: Change) {
    c.path != "" && c.path[0] == '/' &&
    var p := c.path[1..];
    match c.kind
    case Added => p in merged && OldestFirst(lowers, p).None?
    case Changed => p in merged && !merged[p].Dir? && OldestFirst(lowers, p).Some? &&
        merged[p] != OldestFirst(lowers, p).value
    case Deleted => p !in merged && SomeLowerFile(lowers, p)
  }

  function Paths(cs: seq<Change>): seq<string> {
    seq(|cs|, i requires 0 <= i < |cs| => cs[i].path)
  }

  /** Exactly the changes, no path twice. */
  ghost predicate Reports(merged: Tree, lowers: seq<Tree>, out: seq<Change>) {
    NoDups(Paths(out)) && forall c :: c in out <==> IsChange(merged, lowers, c)
  }

  // sort.Slice by path

  function InsertChange(x: Change, s: seq<Change>): (r: seq<Change>)
    ensures multiset(r) == multiset(s) + multiset{x}
  {
    if s == [] then [x]
    else if Less(s[0].path, x.path) then
      assert s == [s[0]] + s[1..];
      [s[0]] + InsertChange(x, s[1..])
    else [x] + s
  }

  function SortChanges(s: seq<Change>): (r: seq<Change>)
    ensures multiset(r) == multiset(s)
  {
    if s == [] then []
    else
      assert s == [s[0]] + s[1..];
      InsertChange(s[0], SortChanges(s[1..]))
  }

  lemma PathsCons(x: Change, s: seq<Change>)
    ensures Paths([x] + s) == [x.path] + Paths(s) && Paths([]) == []
  {
  }

  lemma {:induction false} InsertPath(x: Change, s: seq<Change>)
    ensures Paths(InsertChange(x, s)) == Insert(x.path, Paths(s))
  {
    hide Paths;
    hide Less;
    if s == [] {
      PathsCons(x, []);
      assert [x] + [] == [x];
    } else {
      PathsCons(s[0], s[1..]);
      assert s == [s[0]] + s[1..];
      if Less(s[0].path, x.path) {
        InsertPath(x, s[1..]);
        PathsCons(s[0], InsertChange(x, s[1..]));
        assert Paths(s)[1..] == Paths(s[1..]);
      } else {
        PathsCons(x, s);
      }
    }
  }

  lemma {:induction false} SortPaths(s: seq<Change>)
    ensures Paths(SortChanges(s)) == Sort(Paths(s))
  {
    hide Paths;
    hide Less;
    hide Insert;
    hide InsertChange;
    if s == [] {
      PathsCons(Change(Added, ""), []);
    } else {
      SortPaths(s[1..]);
      InsertPath(s[0], SortChanges(s[1..]));
      assert s == [s[0]] + s[1..];
      PathsCons(s[0], s[1..]);
      assert ([s[0].path] + Paths(s[1..]))[1..] == Paths(s[1..]);
    }
  }

  /** Sorting keeps the report and puts its paths in ascending order. */
  lemma SortKeepsReport(merged: Tree, lowers: seq<Tree>, out: seq<Change>)
    requires Reports(merged, lowers, out)
    ensures Reports(merged, lowers, SortChanges(out)) && Ascending(Paths(SortChanges(out)))
  {
    hide IsChange;
    hide Less;
    hide SortChanges;
    hide Sort;
    SortPaths(out);
    SortAscends(Paths(out));
    AscendingNoDups(Paths(SortChanges(out)));
    forall c ensures c in SortChanges(out) <==> c in out {
      assert c in SortChanges(out) <==> c in multiset(SortChanges(out));
      assert c in out <==> c in multiset(out);
    }
  }

  /** `lowerFile`. */
  method LowerFile(lowers: seq<Tree>, rel: string) returns (e: Option<Entry>)
    ensures e == OldestFirst(lowers, rel)
  {
    for k := 0 to |lowers|
      invariant OldestFirst(lowers, rel) == OldestFirst(lowers[k..], rel)
    {
      if rel in lowers[k] { return Some(lowers[k][rel]); }
      assert lowers[k..][1..] == lowers[k + 1..];
    }
    e := None;
  }

  /** The report restricted to paths in `done`. */
  ghost predicate ReportsOn(merged: Tree, lowers: seq<Tree>, done: set<string>, out: seq<Change>) {
    && NoDups(Paths(out))
    && forall c :: c in out <==> IsChange(merged, lowers, c) && c.path[1..] in done
  }

  /** The walk over the merged tree: additions and modifications. */
  method WalkMerged(merged: Tree, lowers: seq<Tree>) returns (out: seq<Change>)
    ensures ReportsOn(merged, lowers, merged.Keys, out)
  {
    out := [];
    var todo := merged.Keys;
    while todo != {}
      invariant todo <= merged.Keys && ReportsOn(merged, lowers, merged.Keys - todo, out)
    {
      var rel :| rel in todo;
      ghost var done := merged.Keys - todo;
      todo := todo - {rel};
      assert merged.Keys - todo == done + {rel};
      var lower := LowerFile(lowers, rel);
      if lower.None? {
        ReportOne(merged, lowers, done, out, Change(Added, "/" + rel));
        out := out + [Change(Added, "/" + rel)];
      } else if merged[rel].Dir? {
        ReportNone(merged, lowers, done, out, rel);
      } else if ContentDiffers(merged[rel], lower.value) {
        ReportOne(merged, lowers, done, out, Change(Changed, "/" + rel));
        out := out + [Change(Changed, "/" + rel)];
      } else {
        ReportNone(merged, lowers, done, out, rel);
      }
    }
    assert merged.Keys - todo == merged.Keys;
  }

  lemma ReportOne(merged: Tree, lowers: seq<Tree>, done: set<string>, out: seq<Change>, c: Change)
    requires ReportsOn(merged, lowers, done, out) && IsChange(merged, lowers, c) && c.path[1..] !in done
    ensures ReportsOn(merged, lowers, done + {c.path[1..]}, out + [c])
  {
    var p := c.path[1..];
    assert c.path == "/" + p;
    forall d | IsChange(merged, lowers, d) && d.path[1..] == p ensures d == c {
      assert d.path == "/" + d.path[1..];
    }
    var paths := Paths(out + [c]);
    forall i, j | 0 <= i < j < |paths| ensures paths[i] != paths[j] {
      assert i < |out| && out[i] in out && paths[i] == out[i].path;
      if j < |out| { assert Paths(out)[i] != Paths(out)[j]; }
    }
  }

  lemma ReportNone(merged: Tree, lowers: seq<Tree>, done: set<string>, out: seq<Change>, p: string)
    requires ReportsOn(merged, lowers, done, out)
    requires forall c :: IsChange(merged, lowers, c) ==> c.path[1..] != p
    ensures ReportsOn(merged, lowers, done + {p}, out)
  {
  }

  /** The walk over the lower layers: deletions. `reported` is the source's map of that name. */
  method WalkLowers(merged: Tree, lowers: seq<Tree>, found: seq<Change>) returns (out: seq<Change>)
    requires ReportsOn(merged, lowers, merged.Keys, found)
    ensures Reports(merged, lowers, out)
  {
    out := found;
    var reported: set<string> := {};
    for k := 0 to |lowers|
      invariant forall p :: p in reported ==> p !in merged && SomeLowerFile(lowers, p)
      invariant forall p :: p !in merged && SomeLowerFile(lowers[..k], p) ==> p in reported
      invariant ReportsOn(merged, lowers, merged.Keys + reported, out)
    {
      var ld := lowers[k];
      var todo := ld.Keys;
      while todo != {}
        invariant todo <= ld.Keys
        invariant forall p :: p in reported ==> p !in merged && SomeLowerFile(lowers, p)
        invariant forall p :: p !in merged && SomeLowerFile(lowers[..k], p) ==> p in reported
        invariant forall p :: p !in merged && p in ld && !ld[p].Dir? && p !in todo ==> p in reported
        invariant ReportsOn(merged, lowers, merged.Keys + reported, out)
      {
        var rel :| rel in todo;
        todo := todo - {rel};
        if ld[rel].Dir? || rel in merged || rel in reported { continue; }
        assert SomeLowerFile(lowers, rel);
        var c := Change(Deleted, "/" + rel);
        ReportOne(merged, lowers, merged.Keys + reported, out, c);
        assert merged.Keys + reported + {rel} == merged.Keys + (reported + {rel});
        reported := reported + {rel};
        out := out + [c];
      }
      forall p | p !in merged && SomeLowerFile(lowers[..k + 1], p) ensures p in reported {
        var m :| 0 <= m < k + 1 && p in lowers[..k + 1][m] && !lowers[..k + 1][m][p].Dir?;
        if m < k { assert lowers[..k][m] == lowers[m]; assert SomeLowerFile(lowers[..k], p); }
      }
    }
    assert lowers[..|lowers|] == lowers;
    forall c | IsChange(merged, lowers, c) ensures c.path[1..] in merged.Keys + reported { }
  }

  /** `diffCopyChanges`: the changes, each once, in ascending order of path. */
  method DiffCopyChanges(merged: Tree, lowers: seq<Tree>) returns (out: seq<Change>)
    ensures Reports(merged, lowers, out) && Ascending(Paths(out))
  {
    out := WalkMerged(merged, lowers);
    out := WalkLowers(merged, lowers, out);
    SortKeepsReport(merged, lowers, out);
    out := SortChanges(out);
  }

  // ---- replaying a diff ----

  /** Applies one reported change, taking contents from the container's tree. */
  function ApplyChange(t: Tree, merged: Tree, c: Change): Tree
    requires c.path != ""
  {
    var p := c.path[1..];
    if c.kind.Deleted? || p !in merged then t - {p} else t[p := merged[p]]
  }

  function Replay(t: Tree, merged: Tree, out: seq<Change>): Tree
    requires forall c :: c in out ==> c.path != ""
    decreases |out|
  {
    if out == [] then t else Replay(ApplyChange(t, merged, out[0]), merged, out[1..])
  }

  lemma {:induction false} ReplayUntouched(t: Tree, merged: Tree, out: seq<Change>, p: string)
    requires forall c :: c in out ==> c.path != "" && c.path[1..] != p
    ensures Get(Replay(t, merged, out), p) == Get(t, p)
    decreases |out|
  {
    if out != [] {
      assert out[0] in out;
      ReplayUntouched(ApplyChange(t, merged, out[0]), merged, out[1..], p);
    }
  }

  lemma {:induction false} ReplayTouched(t: Tree, merged: Tree, out: seq<Change>, c: Change)
    requires forall x :: x in out ==> x.path != "" && x.path[0] == '/'
    requires NoDups(Paths(out)) && c in out
    ensures Get(Replay(t, merged, out), c.path[1..]) == if c.kind.Deleted? then None else Get(merged, c.path[1..])
    decreases |out|
  {
    var t', rest := ApplyChange(t, merged, out[0]), out[1..];
    assert out[0] in out;
    assert forall i :: 0 <= i < |rest| ==> Paths(rest)[i] == Paths(out)[i + 1];
    if c == out[0] {
      forall x | x in rest ensures x.path[1..] != c.path[1..] {
        var i :| 0 <= i < |rest| && rest[i] == x;
        assert Paths(out)[0] != Paths(out)[i + 1];
        assert x.path == "/" + x.path[1..] && c.path == "/" + c.path[1..];
      }
      ReplayUntouched(t', merged, rest, c.path[1..]);
    } else {
      ReplayTouched(t', merged, rest, c);
    }
  }

  // What the diff does not notice: a file that gave way to a directory, a directory that is gone,
  // and a file that is back at what the oldest layer held while a newer layer held something else.

  ghost predicate HiddenByDir(layers: seq<Tree>, merged: Tree, p: string) {
    p in merged && merged[p].Dir? && TopFirst(layers, p).Some? && !TopFirst(layers, p).value.Dir?
  }

  ghost predicate RemovedDir(layers: seq<Tree>, merged: Tree, p: string) {
    p !in merged && TopFirst(layers, p).Some? && !SomeLowerFile(layers, p)
  }

  ghost predicate Reverted(layers: seq<Tree>, merged: Tree, p: string) {
    p in merged && !merged[p].Dir? && OldestFirst(layers, p) == Some(merged[p]) &&
        TopFirst(layers, p) != Some(merged[p])
  }

  ghost predicate Missed(layers: seq<Tree>, merged: Tree, p: string) {
    HiddenByDir(layers, merged, p) || RemovedDir(layers, merged, p) || Reverted(layers, merged, p)
  }

  lemma {:induction false} SameCoverage(layers: seq<Tree>, p: string)
    ensures OldestFirst(layers, p).None? <==> forall k :: 0 <= k < |layers| ==> p !in layers[k]
  {
    if layers != [] {
      SameCoverage(layers[1..], p);
      assert forall k :: 1 <= k < |layers| ==> layers[k] == layers[1..][k - 1];
    }
  }

  lemma {:induction false} TopCoverage(layers: seq<Tree>, p: string)
    ensures TopFirst(layers, p).None? <==> forall k :: 0 <= k < |layers| ==> p !in layers[k]
  {
    if layers != [] {
      TopCoverage(layers[..|layers| - 1], p);
      assert forall k :: 0 <= k < |layers| - 1 ==> layers[k] == layers[..|layers| - 1][k];
    }
  }

  lemma BothFind(layers: seq<Tree>, p: string)
    ensures OldestFirst(layers, p).None? <==> TopFirst(layers, p).None?
    ensures SomeLowerFile(layers, p) ==> TopFirst(layers, p).Some?
  {
    SameCoverage(layers, p);
    TopCoverage(layers, p);
  }

  /** A path the report does not mention is missed or was not changed. */
  lemma Unreported(layers: seq<Tree>, merged: Tree, out: seq<Change>, p: string)
    requires Reports(merged, layers, out) && forall c :: c in out ==> c.path[1..] != p
    ensures Missed(layers, merged, p) <==> TopFirst(layers, p) != Get(merged, p)
  {
    BothFind(layers, p);
    hide TopFirst;
    hide OldestFirst;
    hide SomeLowerFile;
    var path := "/" + p;
    assert path[1..] == p;
    assert !IsChange(merged, layers, Change(Added, path));
    assert !IsChange(merged, layers, Change(Changed, path));
    assert !IsChange(merged, layers, Change(Deleted, path));
  }

  lemma Reported(layers: seq<Tree>, merged: Tree, c: Change)
    requires IsChange(merged, layers, c)
    ensures !Missed(layers, merged, c.path[1..])
    ensures c.kind.Deleted? ==> Get(merged, c.path[1..]) == None
  {
    BothFind(layers, c.path[1..]);
    hide TopFirst;
    hide OldestFirst;
    hide SomeLowerFile;
  }

  lemma ReplayAt(layers: seq<Tree>, merged: Tree, out: seq<Change>, p: string)
    requires Reports(merged, layers, out)
    ensures forall c :: c in out ==> c.path != ""
    ensures Get(Replay(Stacked(layers), merged, out), p) == Get(merged, p) <==> !Missed(layers, merged, p)
  {
    assert forall c :: c in out ==> c.path != "";
    StackedLookup(layers, p);
    hide Stacked;
    hide Missed;
    if c :| c in out && c.path[1..] == p {
      Reported(layers, merged, c);
      ReplayTouched(Stacked(layers), merged, out, c);
    } else {
      ReplayUntouched(Stacked(layers), merged, out, p);
      Unreported(layers, merged, out, p);
    }
  }

  /** Replaying the report on the mounted image rebuilds the container's tree exactly when there is
      nothing of the three kinds that the diff misses. */
  lemma ReplayRebuildsIff(layers: seq<Tree>, merged: Tree, out: seq<Change>)
    requires Reports(merged, layers, out)
    ensures forall c :: c in out ==> c.path != ""
    ensures Replay(Stacked(layers), merged, out) == merged <==> forall p :: !Missed(layers, merged, p)
  {
    assert forall c :: c in out ==> c.path != "";
    hide Replay;
    hide IsChange;
    hide Stacked;
    hide Missed;
    var r := Replay(Stacked(layers), merged, out);
    forall p ensures Get(r, p) == Get(merged, p) <==> !Missed(layers, merged, p) { ReplayAt(layers, merged, out, p); }
    SameTrees(r, merged);
  }

  lemma SameTrees(t: Tree, u: Tree)
    ensures t == u <==> forall p :: Get(t, p) == Get(u, p)
  {
    if forall p :: Get(t, p) == Get(u, p) {
      forall p ensures (p in t <==> p in u) && (p in t ==> t[p] == u[p]) { assert Get(t, p) == Get(u, p); }
    }
  }

  /** Each kind occurs, for every path and contents: a removed directory, a file that became one,
      and a file put back to its oldest contents all leave the report empty. */
  lemma MissedChanges(f: string, was: string, now: string, out: seq<Change>)
    requires was != now
    ensures (Reports(map[], [map[f := Dir]], out) <==> out == []) && RemovedDir([map[f := Dir]], map[], f)
    ensures (Reports(map[f := Dir], [map[f := File(was)]], out) <==> out == [])
            && HiddenByDir([map[f := File(was)]], map[f := Dir], f)
    ensures (Reports(map[f := File(was)], [map[f := File(was)], map[f := File(now)]], out) <==> out == [])
            && Reverted([map[f := File(was)], map[f := File(now)]], map[f := File(was)], f)
  {
    NothingReported(map[], [map[f := Dir]], out);
    NothingReported(map[f := Dir], [map[f := File(was)]], out);
    NothingReported(map[f := File(was)], [map[f := File(was)], map[f := File(now)]], out);
    assert [map[f := File(was)], map[f := File(now)]][..1] == [map[f := File(was)]];
  }

  lemma NothingReported(merged: Tree, layers: seq<Tree>, out: seq<Change>)
    requires forall c :: !IsChange(merged, layers, c)
    ensures Reports(merged, layers, out) <==> out == []
  {
    hide IsChange;
    assert out != [] ==> out[0] in out;
  }

  // ---- the diff of a container that changed nothing ----

  /** The diff compares with the oldest layer that has a path, the mount shows the newest. So a
      freshly mounted container reports no change exactly when, at every file or link it shows,
      the oldest layer that has the path holds the same. */
  lemma FreshDiffEmptyIff(layers: seq<Tree>, merged: Tree, out: seq<Change>)
    requires forall p :: Get(merged, p) == TopFirst(layers, p)
    requires Reports(merged, layers, out)
    ensures out == [] <==> forall p :: p in merged && !merged[p].Dir? ==> OldestFirst(layers, p) == Some(merged[p])
  {
    hide TopFirst;
    hide OldestFirst;
    forall p ensures p in merged <==> OldestFirst(layers, p).Some? {
      SameCoverage(layers, p);
      TopCoverage(layers, p);
      assert Get(merged, p) == TopFirst(layers, p);
    }
    forall p | SomeLowerFile(layers, p) ensures p in merged { SameCoverage(layers, p); }
    if out == [] {
      forall p | p in merged && !merged[p].Dir? ensures OldestFirst(layers, p) == Some(merged[p]) {
        assert ("/" + p)[1..] == p;
        assert !IsChange(merged, layers, Change(Changed, "/" + p));
      }
    } else {
      assert out[0] in out && IsChange(merged, layers, out[0]);
    }
  }

  /** A two-layer image in which the upper layer edits a file: an untouched container already
      reports that file as changed. */
  lemma UntouchedYetChanged(was: string, now: string, out: seq<Change>)
    requires was != now
    requires Reports(map["f" := File(now)], [map["f" := File(was)], map["f" := File(now)]], out)
    ensures Change(Changed, "/f") in out
  {
    assert "/f"[1..] == "f";
    assert IsChange(map["f" := File(now)], [map["f" := File(was)], map["f" := File(now)]], Change(Changed, "/f"));
  }
}
