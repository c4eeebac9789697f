/** internal/registry/save.go: saving images to an archive and loading them back. JSON documents
    are records, tar streams are lists of named members, and a layer tar is the tree it holds. */
module Archive {
  import opened Text
  import opened Layers

  const VERSION: int := 1
  const INDEX := "thrive-save.json"
  const DONE := ".done"

  datatype Layer = Layer(digest: string, size: int, path: string)

  /** `extra` stands for the manifest fields that neither side decodes. */
  datatype Manifest = Manifest(ref: string, digest: string, layers: seq<Layer>, extra: string)

  /** Manifests by image directory, layer trees by image directory and digest. */
  datatype Store = Store(manifests: map<string, Manifest>, trees: map<(string, string), Tree>)

  datatype ImageEntry = ImageEntry(ref: string, digest: string, manifest: string, layers: seq<string>)
  datatype Payload = Json(m: Manifest) | Tar(t: Tree) | Index(version: int, images: seq<ImageEntry>)
  datatype Member = Member(name: string, payload: Payload)

  datatype Error =
    | NoImages | ImageMissing(ref: string) | LayerMissing(digest: string)
    | NotAnArchive | BadVersion | BadManifest(ref: string) | LayerCount(ref: string) | BadLayer(name: string)

  datatype Result<T> = Ok(value: T) | Err(error: Error)

  /** `image.SafeRef`. */
  function SafeRef(ref: string): string {
    seq(|ref|, i requires 0 <= i < |ref| => if ref[i] == '/' || ref[i] == ':' || ref[i] == '@' then '_' else ref[i])
  }

  /** `/`, `:` and `@` become `_`, everything else stays. */
  lemma SafeRefReads(a: string, b: string, c: char)
    ensures SafeRef(a + b) == SafeRef(a) + SafeRef(b) && SafeRef("") == ""
    ensures SafeRef([c]) == if c in "/:@" then "_" else [c]
  {
    assert c in "/:@" <==> c == '/' || c == ':' || c == '@' by {
      assert "/:@"[0] == '/' && "/:@"[1] == ':' && "/:@"[2] == '@';
    }
  }

  function ManifestName(ref: string): string { "manifests/" + SafeRef(ref) + ".json" }
  function LayerName(digest: string): string { "layers/" + digest + ".tar" }

  /** What an archive is recognised by. */
  lemma IndexIs(version: int, images: seq<ImageEntry>)
    ensures INDEX == "thrive-save.json" && (version == VERSION <==> Index(version, images) == Index(1, images))
  {
  }

  lemma NamesApart(ref: string, digest: string)
    ensures ManifestName(ref) != LayerName(digest) && ManifestName(ref) != INDEX && LayerName(digest) != INDEX
  {
    assert ManifestName(ref)[0] == 'm' && LayerName(digest)[0] == 'l' && INDEX[0] == 't';
  }

  lemma LayerNameInjective(d: string, e: string)
    ensures LayerName(d) == LayerName(e) <==> d == e
  {
    if LayerName(d) == LayerName(e) {
      var n := |LayerName(d)|;
      assert d == LayerName(d)[7..n - 4] && e == LayerName(e)[7..n - 4];
    }
  }

  lemma ManifestNameIff(r: string, q: string)
    ensures ManifestName(r) == ManifestName(q) <==> SafeRef(r) == SafeRef(q)
  {
    if ManifestName(r) == ManifestName(q) {
      var n := |ManifestName(r)|;
      assert SafeRef(r) == ManifestName(r)[10..n - 5] && SafeRef(q) == ManifestName(q)[10..n - 5];
    }
  }

  /** Extracting an archive: a later member replaces an earlier one of the same name. */
  function Files(archive: seq<Member>): map<string, Payload> {
    if archive == [] then map[]
    else Files(archive[..|archive| - 1])[archive[|archive| - 1].name := archive[|archive| - 1].payload]
  }

  lemma FilesSnoc(archive: seq<Member>, m: Member)
    ensures Files(archive + [m]) == Files(archive)[m.name := m.payload]
  {
    assert (archive + [m])[..|archive|] == archive;
  }

  // ---- what has to be in the store ----

  /** Every requested image and all its layers are there. */
  ghost predicate Present(store: Store, refs: seq<string>) {
    forall i :: 0 <= i < |refs| ==> ImagePresent(store, refs[i])
  }

  ghost predicate ImagePresent(store: Store, ref: string) {
    SafeRef(ref) in store.manifests && LayersPresent(store, SafeRef(ref), store.manifests[SafeRef(ref)].layers)
  }

  ghost predicate LayersPresent(store: Store, safe: string, layers: seq<Layer>) {
    forall k :: 0 <= k < |layers| ==> (safe, layers[k].digest) in store.trees
  }

  /** Layer trees without the completion marker, which is never a directory. */
  function Bare(t: Tree): Tree { t - {DONE} }

  /** A layer directory as loading leaves it. */
  function Marked(t: Tree): Tree { Bare(t)[DONE := File("done")] }

  /** Stored trees are file trees, and equal digests mean equal contents. */
  ghost predicate Sound(store: Store) {
    && (forall k :: k in store.trees ==>
        WellFormed(store.trees[k]) && (DONE in store.trees[k] ==> store.trees[k][DONE].File?))
    && (forall a, b :: a in store.trees && b in store.trees && a.1 == b.1 ==>
        Bare(store.trees[a]) == Bare(store.trees[b]))
  }

  function EntryFor(store: Store, ref: string): ImageEntry
    requires SafeRef(ref) in store.manifests
  {
    var m := store.manifests[SafeRef(ref)];
    ImageEntry(ref, m.digest, ManifestName(ref), LayerNames(m.layers))
  }

  function LayerNames(layers: seq<Layer>): seq<string> {
    seq(|layers|, k requires 0 <= k < |layers| => LayerName(layers[k].digest))
  }

  /** The extracted files hold the manifest of `ref` and, for its first `n` layers, their trees. */
  ghost predicate Archived(store: Store, ref: string, n: nat, files: map<string, Payload>) {
    && SafeRef(ref) in store.manifests
    && var m := store.manifests[SafeRef(ref)];
       && n <= |m.layers| && LayersPresent(store, SafeRef(ref), m.layers[..n])
       && ManifestName(ref) in files && files[ManifestName(ref)] == Json(m)
       && forall k :: 0 <= k < n ==> LayerArchived(store, SafeRef(ref), m.layers[k].digest, files)
  }

  ghost predicate LayerArchived(store: Store, safe: string, digest: string, files: map<string, Payload>) {
    && (safe, digest) in store.trees
    && LayerName(digest) in files && files[LayerName(digest)] == Tar(Bare(store.trees[(safe, digest)]))
  }

  ghost predicate AllArchived(store: Store, refs: seq<string>, files: map<string, Payload>) {
    forall i :: 0 <= i < |refs| ==>
      && SafeRef(refs[i]) in store.manifests
      && Archived(store, refs[i], |store.manifests[SafeRef(refs[i])].layers|, files)
  }

  /** A member that agrees with the store does not disturb what is already archived. */
  lemma AddManifest(store: Store, refs: seq<string>, ref: string, files: map<string, Payload>)
    requires AllArchived(store, refs, files) && SafeRef(ref) in store.manifests
    ensures AllArchived(store, refs, files[ManifestName(ref) := Json(store.manifests[SafeRef(ref)])])
  {
    hide SafeRef;
    hide ManifestName;
    hide LayerName;
    var files' := files[ManifestName(ref) := Json(store.manifests[SafeRef(ref)])];
    forall i | 0 <= i < |refs|
      ensures Archived(store, refs[i], |store.manifests[SafeRef(refs[i])].layers|, files')
    {
      var m := store.manifests[SafeRef(refs[i])];
      ManifestNameIff(refs[i], ref);
      forall k | 0 <= k < |m.layers| ensures LayerArchived(store, SafeRef(refs[i]), m.layers[k].digest, files') {
        NamesApart(ref, m.layers[k].digest);
        assert LayerArchived(store, SafeRef(refs[i]), m.layers[k].digest, files);
      }
    }
  }

  lemma AddLayerTo(store: Store, r: string, n: nat, safe: string, digest: string, files: map<string, Payload>)
    requires Sound(store) && (safe, digest) in store.trees && Archived(store, r, n, files)
    ensures Archived(store, r, n, files[LayerName(digest) := Tar(Bare(store.trees[(safe, digest)]))])
  {
    hide SafeRef;
    hide ManifestName;
    hide LayerName;
    hide WellFormed;
    var files' := files[LayerName(digest) := Tar(Bare(store.trees[(safe, digest)]))];
    NamesApart(r, digest);
    var m := store.manifests[SafeRef(r)];
    forall k | 0 <= k < n ensures LayerArchived(store, SafeRef(r), m.layers[k].digest, files') {
      assert LayerArchived(store, SafeRef(r), m.layers[k].digest, files);
      LayerNameInjective(m.layers[k].digest, digest);
      if m.layers[k].digest == digest {
        assert Bare(store.trees[(SafeRef(r), digest)]) == Bare(store.trees[(safe, digest)]);
      }
    }
  }

  lemma AddLayer(store: Store, refs: seq<string>, safe: string, digest: string, files: map<string, Payload>)
    requires Sound(store) && (safe, digest) in store.trees && AllArchived(store, refs, files)
    ensures AllArchived(store, refs, files[LayerName(digest) := Tar(Bare(store.trees[(safe, digest)]))])
  {
    hide Archived;
    hide SafeRef;
    forall i | 0 <= i < |refs|
      ensures Archived(store, refs[i], |store.manifests[SafeRef(refs[i])].layers|,
          files[LayerName(digest) := Tar(Bare(store.trees[(safe, digest)]))])
    {
      AddLayerTo(store, refs[i], |store.manifests[SafeRef(refs[i])].layers|, safe, digest, files);
    }
  }

  ghost predicate TarsOk(files: map<string, Payload>) {
    forall n :: n in files && files[n].Tar? ==> WellFormed(files[n].t)
  }

  lemma BareWellFormed(store: Store, key: (string, string))
    requires Sound(store) && key in store.trees
    ensures WellFormed(Bare(store.trees[key]))
  {
    var t := store.trees[key];
    forall p, d | p in Bare(t) && Above(d, p) ensures d in Bare(t) && Bare(t)[d].Dir? { assert d in t && t[d].Dir?; }
  }

  // ---- saving ----

  /** The layer loop of `SaveTo`: one tar per layer, in manifest order. */
  method SaveLayers(store: Store, ref: string, archive: seq<Member>, ghost refs: seq<string>)
    returns (r: Result<seq<Member>>, names: seq<string>)
    requires Sound(store) && AllArchived(store, refs, Files(archive)) && TarsOk(Files(archive))
    requires SafeRef(ref) in store.manifests && Archived(store, ref, 0, Files(archive))
    ensures r.Ok? <==> ImagePresent(store, ref)
    ensures r.Ok? ==>
      && AllArchived(store, refs, Files(r.value)) && TarsOk(Files(r.value))
      && Archived(store, ref, |store.manifests[SafeRef(ref)].layers|, Files(r.value))
      && names == LayerNames(store.manifests[SafeRef(ref)].layers)
  {
    hide AllArchived;
    hide SafeRef;
    hide LayerName;
    hide ManifestName;
    hide Sound;
    hide WellFormed;
    var safe := SafeRef(ref);
    var layers := store.manifests[safe].layers;
    var out := archive;
    names := [];
    for k := 0 to |layers|
      invariant AllArchived(store, refs, Files(out)) && Archived(store, ref, k, Files(out)) && TarsOk(Files(out))
      invariant |names| == k && forall i :: 0 <= i < k ==> names[i] == LayerName(layers[i].digest)
    {
      var d := layers[k].digest;
      if (safe, d) !in store.trees { return Err(LayerMissing(d)), names; }
      var tar := Tar(Bare(store.trees[(safe, d)]));
      BareWellFormed(store, (safe, d));
      AddLayer(store, refs, safe, d, Files(out));
      AddLayerTo(store, ref, k, safe, d, Files(out));
      FilesSnoc(out, Member(LayerName(d), tar));
      out := out + [Member(LayerName(d), tar)];
      names := names + [LayerName(d)];
      OneMoreLayer(store, ref, k, Files(out));
    }
    assert layers[..|layers|] == layers;
    r := Ok(out);
  }

  lemma OneMoreLayer(store: Store, ref: string, k: nat, files: map<string, Payload>)
    requires Archived(store, ref, k, files) && k < |store.manifests[SafeRef(ref)].layers|
    requires LayerArchived(store, SafeRef(ref), store.manifests[SafeRef(ref)].layers[k].digest, files)
    ensures Archived(store, ref, k + 1, files)
  {
    hide SafeRef;
    hide LayerName;
    hide ManifestName;
    var layers := store.manifests[SafeRef(ref)].layers;
    var more := layers[..k + 1];
    forall i | 0 <= i < |more| ensures (SafeRef(ref), more[i].digest) in store.trees {
      if i < k { assert layers[..k][i] == layers[i]; }
    }
  }

  /** An index entry: the reference, the image's digest, and the names of its manifest and layers. */
  lemma EntryReads(store: Store, ref: string)
    requires SafeRef(ref) in store.manifests
    ensures var e, m := EntryFor(store, ref), store.manifests[SafeRef(ref)];
            && e.ref == ref && e.digest == m.digest && e.manifest == "manifests/" + SafeRef(ref) + ".json"
            && |e.layers| == |m.layers|
            && forall k :: 0 <= k < |e.layers| ==> e.layers[k] == "layers/" + m.layers[k].digest + ".tar"
  {
    hide SafeRef;
  }

  /** `SaveTo` succeeds exactly when there is something to save and all of it is present. */
  method SaveTo(store: Store, refs: seq<string>) returns (r: Result<seq<Member>>)
    requires Sound(store)
    ensures r.Ok? <==> refs != [] && Present(store, refs)
    ensures r.Ok? ==>
      && AllArchived(store, refs, Files(r.value)) && TarsOk(Files(r.value))
      && INDEX in Files(r.value)
      && Files(r.value)[INDEX] == Index(VERSION, seq(|refs|, i requires 0 <= i < |refs| => EntryFor(store, refs[i])))
      && Files(r.value)[INDEX].version == 1 && |Files(r.value)[INDEX].images| == |refs|
  {
    hide Archived;
    hide SafeRef;
    hide ManifestName;
    hide Sound;
    hide LayersPresent;
    hide WellFormed;
    if refs == [] { return Err(NoImages); }
    var archive: seq<Member> := [];
    var images: seq<ImageEntry> := [];
    for i := 0 to |refs|
      invariant AllArchived(store, refs[..i], Files(archive)) && TarsOk(Files(archive))
      invariant forall k :: 0 <= k < i ==> ImagePresent(store, refs[k])
      invariant |images| == i && forall k :: 0 <= k < i ==> images[k] == EntryFor(store, refs[k])
    {
      var ref := refs[i];
      var safe := SafeRef(ref);
      if safe !in store.manifests { return Err(ImageMissing(ref)); }
      var m := store.manifests[safe];
      AddManifest(store, refs[..i], ref, Files(archive));
      FilesSnoc(archive, Member(ManifestName(ref), Json(m)));
      archive := archive + [Member(ManifestName(ref), Json(m))];
      JustManifest(store, ref, Files(archive));
      var saved, names := SaveLayers(store, ref, archive, refs[..i]);
      if saved.Err? { return Err(saved.error); }
      archive := saved.value;
      images := images + [ImageEntry(ref, m.digest, ManifestName(ref), names)];
      assert refs[..i + 1] == refs[..i] + [ref];
    }
    assert refs[..|refs|] == refs;
    var index := Index(VERSION, images);
    AddIndex(store, refs, Files(archive), index);
    FilesSnoc(archive, Member(INDEX, index));
    r := Ok(archive + [Member(INDEX, index)]);
  }

  lemma JustManifest(store: Store, ref: string, files: map<string, Payload>)
    requires SafeRef(ref) in store.manifests && ManifestName(ref) in files
    requires files[ManifestName(ref)] == Json(store.manifests[SafeRef(ref)])
    ensures Archived(store, ref, 0, files)
  {
  }

  lemma AddIndex(store: Store, refs: seq<string>, files: map<string, Payload>, index: Payload)
    requires AllArchived(store, refs, files)
    ensures AllArchived(store, refs, files[INDEX := index])
  {
    hide SafeRef;
    hide ManifestName;
    hide LayerName;
    forall i | 0 <= i < |refs|
      ensures Archived(store, refs[i], |store.manifests[SafeRef(refs[i])].layers|, files[INDEX := index])
    {
      NamesApart(refs[i], "");
      var m := store.manifests[SafeRef(refs[i])];
      forall k | 0 <= k < |m.layers|
          ensures LayerArchived(store, SafeRef(refs[i]), m.layers[k].digest, files[INDEX := index]) {
        NamesApart("", m.layers[k].digest);
        assert LayerArchived(store, SafeRef(refs[i]), m.layers[k].digest, files);
      }
    }
  }

  // ---- loading ----

  function LayerPath(storeDir: string, safe: string, digest: string): string {
    storeDir + "/" + safe + "/layers/" + digest
  }

  /** The manifest loading writes: paths rewritten, undecoded fields gone. */
  function Reloaded(storeDir: string, safe: string, m: Manifest): Manifest {
    Manifest(m.ref, m.digest,
             seq(|m.layers|, k requires 0 <= k < |m.layers| =>
                 m.layers[k].(path := LayerPath(storeDir, safe, m.layers[k].digest))), "")
  }

  /** The same image record, wherever its layers are stored. */
  predicate SameImage(a: Manifest, b: Manifest) {
    && a.ref == b.ref && a.digest == b.digest && a.extra == b.extra && |a.layers| == |b.layers|
    && forall k :: 0 <= k < |a.layers| ==>
        a.layers[k].digest == b.layers[k].digest && a.layers[k].size == b.layers[k].size
  }

  /** Loading decodes three fields and writes those back, so the rest of the record (environment,
      entry point, command) survives exactly when there is none. */
  lemma ReloadKeepsImageIff(storeDir: string, safe: string, m: Manifest)
    ensures SameImage(m, Reloaded(storeDir, safe, m)) <==> m.extra == ""
    ensures SameImage(m.(extra := ""), Reloaded(storeDir, safe, m))
  {
  }

  /** Trees as file systems and tar streams hold them. */
  ghost predicate TreesWellFormed(store: Store, files: map<string, Payload>) {
    && (forall k :: k in store.trees ==> WellFormed(store.trees[k]))
    && TarsOk(files)
  }

  /** Everything in `into` was loaded from `src`. */
  ghost predicate LoadedFrom(src: Store, storeDir: string, into: Store) {
    && (forall k :: k in into.trees ==> k in src.trees && into.trees[k] == Marked(src.trees[k]))
    && (forall s :: s in into.manifests ==>
        s in src.manifests && into.manifests[s] == Reloaded(storeDir, s, src.manifests[s]))
  }

  /** The image of `ref` has been loaded, with all its layers. */
  ghost predicate ImageLoaded(src: Store, ref: string, into: Store) {
    SafeRef(ref) in into.manifests && SafeRef(ref) in src.manifests &&
    LayersPresent(into, SafeRef(ref), src.manifests[SafeRef(ref)].layers)
  }

  ghost predicate AllLoaded(src: Store, refs: seq<string>, into: Store) {
    && (forall i :: 0 <= i < |refs| ==> ImageLoaded(src, refs[i], into))
    && (forall s :: s in into.manifests ==> exists i :: 0 <= i < |refs| && s == SafeRef(refs[i]))
  }

  /** Writing the completion marker; the error of writing over a directory is ignored. */
  function WithMarker(t: Tree): Tree {
    if DONE in t && !t[DONE].File? then t else t[DONE := File("done")]
  }

  /** A completion marker is there, and says so unless something other than a file is in its way. */
  predicate MarkedDone(t: Tree) { ".done" in t && (t[".done"].File? ==> t[".done"] == File("done")) }

  lemma WithMarkerDone(t: Tree)
    ensures MarkedDone(WithMarker(t))
  {
  }

  /** Extracting a saved layer into an empty directory, or over the same layer loaded before, leaves
      the layer with a fresh marker. */
  lemma ExtractLayer(t: Tree, dst: Tree)
    requires WellFormed(t) && (DONE in t ==> t[DONE].File?) && (dst == map[] || dst == Marked(t))
    ensures WellFormed(Bare(t)) && WellFormed(Marked(t)) && WellFormed(dst)
    ensures Compatible(dst, Bare(t)) && WithMarker(dst + Bare(t)) == Marked(t)
  {
    var b := Bare(t);
    assert '/' !in DONE;
    forall p, d | p in b && Above(d, p) ensures d in b && b[d].Dir? { assert d in t && t[d].Dir?; }
    forall p, d | p in Marked(t) && Above(d, p) ensures d in Marked(t) && Marked(t)[d].Dir? {
      assert p in t && d in t && t[d].Dir?;
    }
  }

  /** Nothing stored for the image directory `s` differs, and nothing was removed. */
  ghost predicate Untouched(before: Store, after: Store, s: string) {
    && (s in after.manifests <==> s in before.manifests)
    && (s in before.manifests ==> s in after.manifests && after.manifests[s] == before.manifests[s])
    && TreesUntouched(before.trees, after.trees, s)
  }

  ghost predicate TreesUntouched(before: map<(string, string), Tree>, after: map<(string, string), Tree>, s: string) {
    forall d :: ((s, d) in after <==> (s, d) in before) && ((s, d) in before ==> after[(s, d)] == before[(s, d)])
  }

  ghost predicate OnlyTouches(before: map<(string, string), Tree>, after: map<(string, string), Tree>, safe: string) {
    forall s :: s != safe ==> TreesUntouched(before, after, s)
  }

  /** Some archived layer among `names` has the path `p`. */
  ghost predicate InArchive(files: map<string, Payload>, names: seq<string>, p: string) {
    exists k :: 0 <= k < |names| && names[k] in files && files[names[k]].Tar? && p in files[names[k]].t
  }

  /** No path is gone, and only the marker and paths of archived layers may show something else. */
  ghost predicate TreeKept(before: Tree, after: Tree, files: map<string, Payload>, names: seq<string>) {
    forall p :: p in before ==>
      p in after && (after[p] == before[p] || p == DONE || InArchive(files, names, p))
  }

  ghost predicate LayersKept(before: map<(string, string), Tree>, after: map<(string, string), Tree>,
                             files: map<string, Payload>, names: seq<string>) {
    forall key :: key in before ==> key in after && TreeKept(before[key], after[key], files, names)
  }

  lemma KeptAtFirst(trees: map<(string, string), Tree>, files: map<string, Payload>, names: seq<string>)
    ensures LayersKept(trees, trees, files, names)
  {
  }

  lemma KeptSelf(t: Tree, files: map<string, Payload>, names: seq<string>)
    ensures TreeKept(t, t, files, names)
  {
  }

  lemma KeptStep(trees: map<(string, string), Tree>, now: map<(string, string), Tree>, key: (string, string),
                 dst: Tree, t: Tree, files: map<string, Payload>, names: seq<string>)
    requires LayersKept(trees, now, files, names) && (key in now ==> dst == now[key])
    requires TreeKept(dst, t, files, names)
    ensures LayersKept(trees, now[key := t], files, names)
  {
    hide InArchive;
  }

  lemma UnpackKeeps(dst: Tree, t: Tree, extracted: Tree, files: map<string, Payload>, names: seq<string>, i: nat)
    requires i < |names| && names[i] in files && files[names[i]].Tar? && files[names[i]].t == t
    requires Blends(dst, [t], extracted)
    ensures TreeKept(dst, extracted, files, names)
    ensures TreeKept(dst, WithMarker(extracted), files, names)
  {
    forall p | p in dst ensures p in extracted && (extracted[p] == dst[p] || InArchive(files, names, p)) {
      if extracted[p] != dst[p] { assert From([t], p, extracted[p]); }
    }
  }

  /** One layer is unpacked over `dst` and marked, or unpacked in part. */
  method UnpackLayer(files: map<string, Payload>, names: seq<string>, i: nat, dst: Tree) returns (t: Tree, ok: bool)
    requires i < |names| && WellFormed(dst) && TarsOk(files)
    ensures ok <==> names[i] in files && files[names[i]].Tar? && Compatible(dst, files[names[i]].t)
    ensures ok ==> t == WithMarker(dst + files[names[i]].t) && WellFormed(t) && MarkedDone(t)
    ensures TreeKept(dst, t, files, names)
  {
    hide WellFormed;
    hide Compatible;
    hide WithMarker;
    KeptSelf(dst, files, names);
    hide TreeKept;
    hide Blends;
    if names[i] !in files || !files[names[i]].Tar? { return dst, false; }
    t, ok := CopyDir(files[names[i]].t, dst);
    UnpackKeeps(dst, files[names[i]].t, t, files, names, i);
    if ok {
      MarkerWellFormed(t);
      WithMarkerDone(t);
      t := WithMarker(t);
    }
  }

  /** Loading stopped at a layer of the image, with those before it in place. */
  ghost predicate Stopped(err: Error, names: seq<string>, safe: string, layers: seq<Layer>,
                          trees: map<(string, string), Tree>) {
    exists i :: 0 <= i < |names| == |layers| && err == BadLayer(names[i]) &&
                forall k :: 0 <= k <= i ==> (safe, layers[k].digest) in trees
  }

  lemma StopsAt(names: seq<string>, i: nat, safe: string, layers: seq<Layer>, trees: map<(string, string), Tree>)
    requires i < |names| == |layers| && forall k :: 0 <= k <= i ==> (safe, layers[k].digest) in trees
    ensures Stopped(BadLayer(names[i]), names, safe, layers, trees)
  {
  }

  /** The layers of one image. A layer that cannot be unpacked stops the load, with what has been
      unpacked left in place; only this image's directory is written. */
  method LoadLayers(files: map<string, Payload>, storeDir: string, safe: string, meta: Manifest, names: seq<string>,
                    trees: map<(string, string), Tree>, ghost src: Store)
    returns (err: Option<Error>, out: map<(string, string), Tree>, layers: seq<Layer>)
    requires |names| == |meta.layers| && TreesWellFormed(Store(map[], trees), files)
    ensures err.None? ==> TreesWellFormed(Store(map[], out), files) && layers == Reloaded(storeDir, safe, meta).layers
    ensures err.None? ==> LayersPresent(Store(map[], out), safe, meta.layers)
    ensures err.Some? ==> Stopped(err.value, names, safe, meta.layers, out)
    ensures err.None? ==> forall k :: 0 <= k < |names| ==>
      (safe, meta.layers[k].digest) in out && MarkedDone(out[(safe, meta.layers[k].digest)])
    ensures trees.Keys <= out.Keys && LayersKept(trees, out, files, names) && OnlyTouches(trees, out, safe)
    ensures (exists k :: 0 <= k < |names| && (names[k] !in files || !files[names[k]].Tar?)) ==> err.Some?
    ensures Sound(src) && LoadedFrom(src, storeDir, Store(map[], trees)) && names == LayerNames(meta.layers) &&
            (forall k :: 0 <= k < |names| ==> LayerArchived(src, safe, meta.layers[k].digest, files)) ==>
      err.None? && LoadedFrom(src, storeDir, Store(map[], out))
  {
    hide WellFormed;
    hide Compatible;
    hide LayerName;
    hide Marked;
    hide Bare;
    hide LayerPath;
    hide WithMarker;
    hide MarkedDone;
    hide LoadedFrom;
    hide Sound;
    hide TreesUntouched;
    hide Blends;
    out, layers := trees, [];
    forall s ensures TreesUntouched(trees, trees, s) { SameTreesUntouched(trees, s); }
    assert OnlyTouches(trees, out, safe);
    hide OnlyTouches;
    KeptAtFirst(trees, files, names);
    hide LayersKept;
    hide TreeKept;
    hide Stopped;
    ghost var good :=
      Sound(src) && LoadedFrom(src, storeDir, Store(map[], trees)) && names == LayerNames(meta.layers) &&
      forall k :: 0 <= k < |names| ==> LayerArchived(src, safe, meta.layers[k].digest, files);
    EmptyWellFormed();
    for i := 0 to |names|
      invariant TreesWellFormed(Store(map[], out), files)
      invariant |layers| == i && forall k :: 0 <= k < i ==>
          layers[k] == meta.layers[k].(path := LayerPath(storeDir, safe, meta.layers[k].digest))
      invariant trees.Keys <= out.Keys && LayersKept(trees, out, files, names) && OnlyTouches(trees, out, safe)
      invariant forall k :: 0 <= k < i ==>
          (safe, meta.layers[k].digest) in out && names[k] in files && files[names[k]].Tar?
          && MarkedDone(out[(safe, meta.layers[k].digest)])
      invariant good ==> LoadedFrom(src, storeDir, Store(map[], out))
    {
      var d := meta.layers[i].digest;
      var key := (safe, d);
      var dst: Tree := if key in out then out[key] else map[];
      if good {
        assert LayerArchived(src, safe, d, files) && names[i] == LayerName(d);
        LoadedTree(src, storeDir, out, key);
        SoundTree(src, key);
        ExtractLayer(src.trees[key], dst);
        AddLoaded(src, storeDir, out, key);
      }
      var t, ok := UnpackLayer(files, names, i, dst);
      TouchOne(trees, out, key, t);
      KeptStep(trees, out, key, dst, t, files, names);
      out := out[key := t];
      if !ok {
        StopsAt(names, i, safe, meta.layers, out);
        return Some(BadLayer(names[i])), out, layers;
      }
      layers := layers + [meta.layers[i].(path := LayerPath(storeDir, safe, d))];
    }
    err := None;
  }

  lemma TouchOne(trees: map<(string, string), Tree>, now: map<(string, string), Tree>, key: (string, string), t: Tree)
    requires OnlyTouches(trees, now, key.0)
    ensures OnlyTouches(trees, now[key := t], key.0)
  {
    var now' := now[key := t];
    forall s | s != key.0 ensures TreesUntouched(trees, now', s) { assert TreesUntouched(trees, now, s); }
  }

  lemma SoundTree(store: Store, key: (string, string))
    requires Sound(store) && key in store.trees
    ensures WellFormed(store.trees[key]) && (DONE in store.trees[key] ==> store.trees[key][DONE].File?)
  {
  }

  lemma LoadedTree(src: Store, storeDir: string, trees: map<(string, string), Tree>, key: (string, string))
    requires LoadedFrom(src, storeDir, Store(map[], trees)) && key in src.trees
    ensures key in trees ==> trees[key] == Marked(src.trees[key])
  {
  }

  lemma AddLoaded(src: Store, storeDir: string, trees: map<(string, string), Tree>, key: (string, string))
    requires LoadedFrom(src, storeDir, Store(map[], trees)) && key in src.trees
    ensures LoadedFrom(src, storeDir, Store(map[], trees[key := Marked(src.trees[key])]))
  {
  }

  lemma EmptyWellFormed()
    ensures WellFormed(map[])
  {
  }

  lemma MarkerWellFormed(t: Tree)
    requires WellFormed(t)
    ensures WellFormed(WithMarker(t))
  {
    var w := WithMarker(t);
    assert '/' !in DONE;
    forall p, d | p in w && Above(d, p) ensures d in w && w[d].Dir? {
      assert p in t && d in t && t[d].Dir?;
    }
  }

  /** The archive is what `SaveTo` writes for `refs`. */
  ghost predicate SavedArchive(src: Store, refs: seq<string>, files: map<string, Payload>) {
    && Sound(src) && AllArchived(src, refs, files)
    && INDEX in files
    && files[INDEX] == Index(VERSION, seq(|refs|, i requires 0 <= i < |refs| => EntryFor(src, refs[i])))
  }

  /** The entries of a readable index of the right version. */
  ghost function Entries(files: map<string, Payload>): seq<ImageEntry> {
    if INDEX in files && files[INDEX].Index? && files[INDEX].version == VERSION then files[INDEX].images else []
  }

  /** The manifest and layers of an entry are in the archive, as many as the manifest lists. */
  ghost predicate Complete(files: map<string, Payload>, e: ImageEntry) {
    && e.manifest in files && files[e.manifest].Json? && |e.layers| == |files[e.manifest].m.layers|
    && forall k :: 0 <= k < |e.layers| ==> e.layers[k] in files && files[e.layers[k]].Tar?
  }

  /** The archive holds entry `e` as saving `src` writes it. */
  ghost predicate FromSaved(src: Store, e: ImageEntry, files: map<string, Payload>) {
    && SafeRef(e.ref) in src.manifests && e == EntryFor(src, e.ref)
    && e.manifest in files && files[e.manifest] == Json(src.manifests[SafeRef(e.ref)])
    && forall k :: 0 <= k < |src.manifests[SafeRef(e.ref)].layers| ==>
         LayerArchived(src, SafeRef(e.ref), src.manifests[SafeRef(e.ref)].layers[k].digest, files)
  }

  /** One image of the index. */
  method LoadEntry(files: map<string, Payload>, storeDir: string, entry: ImageEntry, before: Store, ghost src: Store)
    returns (err: Option<Error>, after: Store)
    requires TreesWellFormed(before, files)
    ensures err.None? ==> Complete(files, entry) && TreesWellFormed(after, files) && ImagePresent(after, entry.ref)
    ensures forall s :: s != SafeRef(entry.ref) ==> Untouched(before, after, s)
    ensures err.None? ==> forall ref :: ImagePresent(before, ref) ==> ImagePresent(after, ref)
    ensures err.None? ==>
      var safe := SafeRef(entry.ref);
      after.manifests == before.manifests[safe := Reloaded(storeDir, safe, files[entry.manifest].m)]
    ensures err.Some? ==>
      && after.manifests == before.manifests
      && (err.value.BadLayer? ==>
            && entry.manifest in files && files[entry.manifest].Json?
            && Stopped(err.value, entry.layers, SafeRef(entry.ref), files[entry.manifest].m.layers, after.trees))
    ensures Sound(src) && LoadedFrom(src, storeDir, before) && FromSaved(src, entry, files) ==>
      && err.None? && LoadedFrom(src, storeDir, after) && before.trees.Keys <= after.trees.Keys
      && after.manifests.Keys == before.manifests.Keys + {SafeRef(entry.ref)}
      && LayersPresent(Store(map[], after.trees), SafeRef(entry.ref), src.manifests[SafeRef(entry.ref)].layers)
  {
    hide SafeRef;
    hide Sound;
    hide WellFormed;
    hide LoadedFrom;
    hide Reloaded;
    hide LayerArchived;
    hide TreesUntouched;
    hide LayersKept;
    hide Stopped;
    after := before;
    forall s ensures TreesUntouched(before.trees, before.trees, s) { SameTreesUntouched(before.trees, s); }
    if entry.manifest !in files || !files[entry.manifest].Json? { return Some(BadManifest(entry.ref)), after; }
    var meta := files[entry.manifest].m;
    var safe := SafeRef(entry.ref);
    if |entry.layers| != |meta.layers| { return Some(LayerCount(entry.ref)), after; }
    ghost var good := Sound(src) && LoadedFrom(src, storeDir, before) && FromSaved(src, entry, files);
    if good { TreesLoaded(src, storeDir, before); }
    var trees, layers;
    err, trees, layers := LoadLayers(files, storeDir, safe, meta, entry.layers, before.trees, src);
    after := Store(before.manifests, trees);
    if err.Some? { return; }
    ReloadedLayers(storeDir, safe, meta);
    after := Store(before.manifests[safe := Manifest(meta.ref, meta.digest, layers, "")], trees);
    if good { ManifestLoaded(src, storeDir, before, trees, safe); }
  }

  lemma SameTreesUntouched(trees: map<(string, string), Tree>, s: string)
    ensures TreesUntouched(trees, trees, s)
  {
  }

  lemma TreesLoaded(src: Store, storeDir: string, store: Store)
    requires LoadedFrom(src, storeDir, store)
    ensures LoadedFrom(src, storeDir, Store(map[], store.trees))
  {
  }

  lemma ReloadedLayers(storeDir: string, safe: string, m: Manifest)
    ensures var r := Reloaded(storeDir, safe, m);
            && r == Manifest(m.ref, m.digest, r.layers, "") && |r.layers| == |m.layers|
            && forall k :: 0 <= k < |m.layers| ==> r.layers[k].digest == m.layers[k].digest
  {
  }

  lemma ManifestLoaded(src: Store, storeDir: string, before: Store, trees: map<(string, string), Tree>, safe: string)
    requires LoadedFrom(src, storeDir, before) && LoadedFrom(src, storeDir, Store(map[], trees)) &&
        safe in src.manifests
    ensures var m := Reloaded(storeDir, safe, src.manifests[safe]);
            LoadedFrom(src, storeDir, Store(before.manifests[safe := m], trees))
  {
    hide Reloaded;
  }

  ghost predicate Named(entries: seq<ImageEntry>, s: string) {
    exists i :: 0 <= i < |entries| && SafeRef(entries[i].ref) == s
  }

  /** `LoadFrom` into `store`, for any archive: image directories that the index does not name stay
      as they were, even when loading fails; an incomplete entry makes it fail; success loads the
      entries in order, each with its layers. A saved archive, loaded into an empty store,
      restores exactly the requested images. */
  method LoadFrom(archive: seq<Member>, storeDir: string, store: Store, ghost src: Store, ghost refs: seq<string>)
    returns (r: Result<seq<string>>, into: Store)
    requires TreesWellFormed(store, Files(archive))
    ensures INDEX !in Files(archive) || !Files(archive)[INDEX].Index? ==> r == Err(NotAnArchive) && into == store
    ensures INDEX in Files(archive) && Files(archive)[INDEX].Index? && Files(archive)[INDEX].version != VERSION ==>
      r == Err(BadVersion) && into == store
    ensures forall s :: !Named(Entries(Files(archive)), s) ==> Untouched(store, into, s)
    ensures r.Ok? ==>
      var entries := Entries(Files(archive));
      && |r.value| == |entries|
      && forall i :: 0 <= i < |entries| ==>
          r.value[i] == entries[i].ref && Complete(Files(archive), entries[i]) && ImagePresent(into, r.value[i])
    ensures SavedArchive(src, refs, Files(archive)) && store == Store(map[], map[]) ==>
      r == Ok(refs) && LoadedFrom(src, storeDir, into) && AllLoaded(src, refs, into)
  {
    hide *;
    into := store;
    var files := Files(archive);
    ghost var entries := Entries(files);
    ghost var good := SavedArchive(src, refs, files) && store == Store(map[], map[]);
    forall s ensures Untouched(store, store, s) { NothingTouched(store, s); }
    EntriesOf(files);
    if good {
      SavedEntries(src, refs, files);
      NothingLoaded(src, storeDir, refs);
    }
    if INDEX !in files || !files[INDEX].Index? { return Err(NotAnArchive), into; }
    var index := files[INDEX];
    if index.version != VERSION { return Err(BadVersion), into; }
    var loaded: seq<string> := [];
    for i := 0 to |index.images|
      invariant TreesWellFormed(into, files)
      invariant |loaded| == i && forall k :: 0 <= k < i ==>
          loaded[k] == index.images[k].ref && Complete(files, index.images[k]) && ImagePresent(into, loaded[k])
      invariant forall s :: !Named(entries, s) ==> Untouched(store, into, s)
      invariant good ==> loaded == refs[..i] && LoadedFrom(src, storeDir, into) && AllLoaded(src, refs[..i], into)
    {
      ghost var before := into;
      var err;
      err, into := LoadEntry(files, storeDir, index.images[i], into, src);
      forall s | !Named(entries, s) ensures Untouched(store, into, s) {
        NotNamed(entries, i, s);
        UntouchedThrough(store, before, into, s);
      }
      if err.Some? { return Err(err.value), into; }
      loaded := loaded + [index.images[i].ref];
      if good { LoadedOne(src, refs, i, before, into); }
    }
    r := Ok(loaded);
    if good { assert refs[..|refs|] == refs; }
  }

  lemma NothingTouched(store: Store, s: string)
    ensures Untouched(store, store, s)
  {
  }

  lemma UntouchedThrough(a: Store, b: Store, c: Store, s: string)
    requires Untouched(a, b, s) && Untouched(b, c, s)
    ensures Untouched(a, c, s)
  {
  }

  lemma NotNamed(entries: seq<ImageEntry>, i: nat, s: string)
    requires i < |entries| && !Named(entries, s)
    ensures SafeRef(entries[i].ref) != s
  {
    hide SafeRef;
  }

  lemma EntriesOf(files: map<string, Payload>)
    ensures Entries(files) ==
            if INDEX in files && files[INDEX].Index? && files[INDEX].version == VERSION then files[INDEX].images else []
  {
  }

  lemma SavedEntries(src: Store, refs: seq<string>, files: map<string, Payload>)
    requires SavedArchive(src, refs, files)
    ensures INDEX in files && files[INDEX].Index? && files[INDEX].version == VERSION
    ensures Sound(src) && Entries(files) == files[INDEX].images && |Entries(files)| == |refs|
    ensures forall i :: 0 <= i < |refs| ==>
      Entries(files)[i].ref == refs[i] && SafeRef(refs[i]) in src.manifests && FromSaved(src, Entries(files)[i], files)
  {
    hide SafeRef;
    hide Sound;
    hide Archived;
    forall i | 0 <= i < |refs|
      ensures Entries(files)[i].ref == refs[i] && SafeRef(refs[i]) in src.manifests &&
          FromSaved(src, Entries(files)[i], files)
    {
      EntryArchived(src, refs, i, files);
      assert Entries(files)[i] == EntryFor(src, refs[i]);
    }
  }

  lemma NothingLoaded(src: Store, storeDir: string, refs: seq<string>)
    ensures LoadedFrom(src, storeDir, Store(map[], map[])) && AllLoaded(src, refs[..0], Store(map[], map[]))
  {
  }

  lemma EntryArchived(src: Store, refs: seq<string>, i: nat, files: map<string, Payload>)
    requires AllArchived(src, refs, files) && i < |refs|
    ensures SafeRef(refs[i]) in src.manifests
    ensures var m := src.manifests[SafeRef(refs[i])];
            && ManifestName(refs[i]) in files && files[ManifestName(refs[i])] == Json(m)
            && forall k :: 0 <= k < |m.layers| ==> LayerArchived(src, SafeRef(refs[i]), m.layers[k].digest, files)
  {
    hide SafeRef;
  }

  lemma LoadedOne(src: Store, refs: seq<string>, i: nat, before: Store, after: Store)
    requires i < |refs| && SafeRef(refs[i]) in src.manifests
    requires AllLoaded(src, refs[..i], before) && before.trees.Keys <= after.trees.Keys
    requires SafeRef(refs[i]) in after.manifests && after.manifests.Keys == before.manifests.Keys + {SafeRef(refs[i])}
    requires LayersPresent(Store(map[], after.trees), SafeRef(refs[i]), src.manifests[SafeRef(refs[i])].layers)
    ensures AllLoaded(src, refs[..i + 1], after)
  {
    hide SafeRef;
    var done, more := refs[..i], refs[..i + 1];
    forall j | 0 <= j < |more| ensures ImageLoaded(src, more[j], after) {
      if j < i { assert done[j] == more[j] && ImageLoaded(src, done[j], before); }
    }
    forall s | s in after.manifests ensures exists j :: 0 <= j < |more| && s == SafeRef(more[j]) {
      if s == SafeRef(refs[i]) {
        assert more[i] == refs[i];
      } else {
        var j :| 0 <= j < |done| && s == SafeRef(done[j]);
        assert more[j] == done[j];
      }
    }
  }

  /** Save, then load into an empty store: every requested reference comes back, in order, with its
      digest, its layer digests and sizes, and its layer trees; paths point into the new store
      and every layer carries a fresh marker. */
  method SaveThenLoad(src: Store, refs: seq<string>, storeDir: string)
    returns (saved: bool, loaded: seq<string>, into: Store)
    requires Sound(src)
    ensures saved <==> refs != [] && Present(src, refs)
    ensures saved ==> loaded == refs && LoadedFrom(src, storeDir, into) && AllLoaded(src, refs, into)
    ensures saved ==> forall s, k :: s in into.manifests && 0 <= k < |into.manifests[s].layers| ==>
      into.manifests[s].layers[k].path == storeDir + "/" + s + "/layers/" + into.manifests[s].layers[k].digest
    ensures saved ==> forall key :: key in into.trees ==>
      && key in src.trees && ".done" in into.trees[key] && into.trees[key][".done"] == File("done")
      && forall p :: p != ".done" ==> Get(into.trees[key], p) == Get(src.trees[key], p)
    ensures saved ==> forall s :: s in into.manifests ==>
      s in src.manifests && (SameImage(src.manifests[s], into.manifests[s]) <==> src.manifests[s].extra == "")
  {
    hide SafeRef;
    into, loaded := Store(map[], map[]), [];
    var archive := SaveTo(src, refs);
    saved := archive.Ok?;
    if saved {
      var r;
      r, into := LoadFrom(archive.value, storeDir, into, src, refs);
      loaded := r.value;
      forall s | s in into.manifests
        ensures s in src.manifests && (SameImage(src.manifests[s], into.manifests[s]) <==> src.manifests[s].extra == "")
      {
        ReloadKeepsImageIff(storeDir, s, src.manifests[s]);
      }
    }
  }
}
