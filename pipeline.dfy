/** The two phases of a run as functions of the walked tree: the loose-file
    pass of trouver_et_copier_arcs, then traiter_archives, threading one
    seen set and one package numbering through both. */
module Pipeline {
  import opened Model
  import opened Extraction

  /** What the phases thread through: the seen set, the batch of textures of
      every package built so far (package n is built from batches[n - 1]),
      and whether an error has ended processing. */
  datatype Progress = Progress(seen: set<Hash>, batches: seq<Batch>, halted: bool)

  /** The end of one discovery event: an error halts, a non-empty result
      becomes the next package, an empty one changes nothing but the seen set. */
  function Settle(p: Progress, x: Extraction): Progress {
    if x.failed then Progress(x.seen, p.batches, true)
    else if x.found == [] then Progress(x.seen, p.batches, false)
    else Progress(x.seen, p.batches + [x.found], false)
  }

  /** The loose-file pass: one discovery event per directory, in walk order. */
  function LoosePhase(dirs: seq<Directory>, targets: seq<string>, start: Progress, h: Bytes -> Hash): Progress
    decreases |dirs|
  {
    if dirs == [] then start
    else
      var p := LoosePhase(dirs[..|dirs| - 1], targets, start, h);
      if p.halted then p else Settle(p, Collect(dirs[|dirs| - 1], targets, p.seen, h))
  }

  /** One file of the archive pass: a .zip or .rar file is opened and
      extracted (an archive that cannot be opened ends the pass); any other
      file is ignored. */
  function ArchiveStep(p: Progress, f: SourceFile, targets: seq<string>, h: Bytes -> Hash): Progress {
    if !IsArchiveName(f.name) then p
    else match f.listing
      case None => p.(halted := true)
      case Some(entries) => Settle(p, ExtractFrom(entries, targets, p.seen, h))
  }

  /** The archive pass over the files in walk order; after an error the
      remaining files are not looked at. */
  function ArchivePhase(files: seq<SourceFile>, targets: seq<string>, start: Progress, h: Bytes -> Hash): Progress
    decreases |files|
  {
    if files == [] then start
    else
      var p := ArchivePhase(files[..|files| - 1], targets, start, h);
      if p.halted then p else ArchiveStep(p, files[|files| - 1], targets, h)
  }

  /** The files of the walk, directory after directory. */
  function Flatten(dirs: seq<Directory>): seq<SourceFile>
    decreases |dirs|
  {
    if dirs == [] then [] else Flatten(dirs[..|dirs| - 1]) + dirs[|dirs| - 1]
  }

  /** trouver_et_copier_arcs: nothing when the source directory is missing;
      otherwise the loose-file pass, then, unless it failed, the archive
      pass over the same walk. Numbering starts with no package built. */
  function RunPipeline(source: Option<seq<Directory>>, targets: seq<string>, seen: set<Hash>, h: Bytes -> Hash): Progress {
    match source
    case None => Progress(seen, [], false)
    case Some(dirs) =>
      var p := LoosePhase(dirs, targets, Progress(seen, [], false), h);
      if p.halted then p else ArchivePhase(Flatten(dirs), targets, p, h)
  }

  /** Every directory of the walk has distinct file names. */
  predicate WellFormedWalk(dirs: seq<Directory>) {
    forall d :: 0 <= d < |dirs| ==> DistinctFileNames(dirs[d])
  }

  /** What a run keeps true relative to the seen set it started from: the
      seen set only grows; no two packaged textures share a hash; every
      packaged hash is in the seen set and was not in it at the start; every
      package has at least one texture and no name twice. */
  ghost predicate Sound(p: Progress, seen0: set<Hash>, h: Bytes -> Hash) {
    && seen0 <= p.seen
    && DistinctHashes(Textures(p.batches), h)
    && (forall i :: 0 <= i < |Textures(p.batches)| ==>
          h(Textures(p.batches)[i]) in p.seen && h(Textures(p.batches)[i]) !in seen0)
    && (forall k :: 0 <= k < |p.batches| ==> p.batches[k] != [] && NoDuplicates(Names(p.batches[k])))
  }

  /** q follows p: the seen set grew, and the packages of p are still there. */
  ghost predicate Extends(p: Progress, q: Progress) {
    p.seen <= q.seen && p.batches <= q.batches
  }

  lemma TexturesAppend(batches: seq<Batch>, b: Batch)
    ensures Textures(batches + [b]) == Textures(batches) + Values(b)
  {
    assert (batches + [b])[..|batches|] == batches;
  }

  lemma SettleSound(p: Progress, x: Extraction, seen0: set<Hash>, h: Bytes -> Hash)
    requires Sound(p, seen0, h) && Fresh(x, p.seen, h)
    ensures Sound(Settle(p, x), seen0, h) && Extends(p, Settle(p, x))
  {
    if !x.failed && x.found != [] {
      var bs := p.batches + [x.found];
      var old_ := Textures(p.batches);
      var new_ := Values(x.found);
      TexturesAppend(p.batches, x.found);
      forall j | 0 <= j < |new_| ensures h(new_[j]) !in p.seen && h(new_[j]) in x.seen {
        assert new_[j] == x.found[j].1;
        assert new_[j] in new_;
      }
      DistinctHashesConcat(old_, new_, p.seen, h);
      forall i | 0 <= i < |Textures(bs)|
        ensures h(Textures(bs)[i]) in x.seen && h(Textures(bs)[i]) !in seen0
      {
        if i >= |old_| {
          assert Textures(bs)[i] == new_[i - |old_|];
        }
      }
    }
  }

  lemma {:induction false} LoosePhaseSound(dirs: seq<Directory>, targets: seq<string>, start: Progress, seen0: set<Hash>, h: Bytes -> Hash)
    requires WellFormedWalk(dirs) && Sound(start, seen0, h)
    ensures Sound(LoosePhase(dirs, targets, start, h), seen0, h)
    ensures Extends(start, LoosePhase(dirs, targets, start, h))
    decreases |dirs|
  {
    if dirs != [] {
      var init := dirs[..|dirs| - 1];
      assert WellFormedWalk(init) by {
        forall d | 0 <= d < |init| ensures DistinctFileNames(init[d]) {
          assert init[d] == dirs[d];
        }
      }
      LoosePhaseSound(init, targets, start, seen0, h);
      var p := LoosePhase(init, targets, start, h);
      if !p.halted {
        CollectFresh(dirs[|dirs| - 1], targets, p.seen, h);
        SettleSound(p, Collect(dirs[|dirs| - 1], targets, p.seen, h), seen0, h);
      }
    }
  }

  lemma {:induction false} ArchivePhaseSound(files: seq<SourceFile>, targets: seq<string>, start: Progress, seen0: set<Hash>, h: Bytes -> Hash)
    requires NoDuplicates(targets) && Sound(start, seen0, h)
    ensures Sound(ArchivePhase(files, targets, start, h), seen0, h)
    ensures Extends(start, ArchivePhase(files, targets, start, h))
    decreases |files|
  {
    if files != [] {
      ArchivePhaseSound(files[..|files| - 1], targets, start, seen0, h);
      var p := ArchivePhase(files[..|files| - 1], targets, start, h);
      var f := files[|files| - 1];
      if !p.halted && IsArchiveName(f.name) && f.listing.Some? {
        ExtractFresh(f.listing.value, targets, p.seen, h);
        SettleSound(p, ExtractFrom(f.listing.value, targets, p.seen, h), seen0, h);
      }
    }
  }

  /** The dedup guarantee of a whole run: across the loose-file pass and the
      archive pass, no two packaged textures have the same hash; each
      packaged hash ends up in the seen set and was not in it when the run
      began; the seen set only grows; every package holds something. */
  lemma RunDedup(source: Option<seq<Directory>>, targets: seq<string>, seen: set<Hash>, h: Bytes -> Hash)
    requires NoDuplicates(targets)
    requires source.Some? ==> WellFormedWalk(source.value)
    ensures Sound(RunPipeline(source, targets, seen, h), seen, h)
  {
    if source.Some? {
      var start := Progress(seen, [], false);
      LoosePhaseSound(source.value, targets, start, seen, h);
      var p := LoosePhase(source.value, targets, start, h);
      if !p.halted {
        ArchivePhaseSound(Flatten(source.value), targets, p, seen, h);
      }
    }
  }

  /** Once the archive pass has stopped on an error, the files after that
      point are never processed. */
  lemma {:induction false} HaltAbsorbs(files: seq<SourceFile>, more: seq<SourceFile>, targets: seq<string>, start: Progress, h: Bytes -> Hash)
    requires ArchivePhase(files, targets, start, h).halted
    ensures ArchivePhase(files + more, targets, start, h) == ArchivePhase(files, targets, start, h)
    decreases |more|
  {
    if more == [] {
      assert files + more == files;
    } else {
      var init := more[..|more| - 1];
      assert (files + more)[..|files + more| - 1] == files + init;
      HaltAbsorbs(files, init, targets, start, h);
    }
  }

  lemma {:induction false} FlattenAppend(a: seq<Directory>, b: seq<Directory>)
    ensures Flatten(a + b) == Flatten(a) + Flatten(b)
    decreases |b|
  {
    if b == [] {
      assert a + b == a;
    } else {
      var init := b[..|b| - 1];
      assert (a + b)[..|a + b| - 1] == a + init;
      FlattenAppend(a, init);
    }
  }

  /** A failure in the loose-file pass ends it: later directories are not scanned. */
  lemma {:induction false} LooseHaltFinal(dirs: seq<Directory>, k: nat, targets: seq<string>, start: Progress, h: Bytes -> Hash)
    requires k <= |dirs|
    requires LoosePhase(dirs[..k], targets, start, h).halted
    ensures LoosePhase(dirs, targets, start, h) == LoosePhase(dirs[..k], targets, start, h)
    decreases |dirs|
  {
    if k < |dirs| {
      var init := dirs[..|dirs| - 1];
      assert init[..k] == dirs[..k];
      LooseHaltFinal(init, k, targets, start, h);
    } else {
      assert dirs[..k] == dirs;
    }
  }

  /** An error in directory d ends the archive pass there. */
  lemma ArchiveHaltInWalk(dirs: seq<Directory>, d: nat, targets: seq<string>, start: Progress, h: Bytes -> Hash)
    requires d < |dirs|
    requires ArchivePhase(Flatten(dirs[..d + 1]), targets, start, h).halted
    ensures ArchivePhase(Flatten(dirs), targets, start, h) == ArchivePhase(Flatten(dirs[..d + 1]), targets, start, h)
  {
    assert dirs[..d + 1] + dirs[d + 1..] == dirs;
    FlattenAppend(dirs[..d + 1], dirs[d + 1..]);
    HaltAbsorbs(Flatten(dirs[..d + 1]), Flatten(dirs[d + 1..]), targets, start, h);
  }

  /** An archive whose every entry is passed over for every target (no
      match, or only contents seen before, say from a loose file) builds no
      package and leaves the state as it was. */
  lemma ArchiveOfDuplicates(p: Progress, f: SourceFile, targets: seq<string>, h: Bytes -> Hash)
    requires !p.halted && f.listing.Some?
    requires forall t, j :: t in targets && 0 <= j < |f.listing.value| ==> Passes(f.listing.value[j], t, p.seen, h)
    ensures ArchiveStep(p, f, targets, h) == p
  {
    ExtractNothingNew(f.listing.value, targets, p.seen, h);
  }

  /** The two source directories of the example run: a loose texture, then two archives. */
  function ExampleRoot(zipA: string, zipB: string, inner: string, a: Bytes, b: Bytes): Directory {
    [SourceFile(zipA, Some([]), Some([Entry(inner, Readable(a))])),
     SourceFile(zipB, Some([]), Some([Entry(inner, Readable(b))]))]
  }

  function ExampleLoose(name: string, a: Bytes): Directory {
    [SourceFile(name, Some(a), None)]
  }

  lemma ExampleLoosePhase(h: Bytes -> Hash, name: string, inner: string, zipA: string, zipB: string, a: Bytes, b: Bytes)
    requires zipA != name && zipB != name
    ensures LoosePhase([ExampleRoot(zipA, zipB, inner, a, b), ExampleLoose(name, a)], [name], Progress({}, [], false), h)
      == Progress({h(a)}, [[(name, a)]], false)
  {
    var root := ExampleRoot(zipA, zipB, inner, a, b);
    var loose := ExampleLoose(name, a);
    var dirs := [root, loose];
    assert dirs[..1] == [root];
    var first: seq<Directory> := [root];
    assert |first[..0]| == 0;
    assert |root[..1][..0]| == 0;
    assert Collect(root[..1], [name], {}, h) == Extraction([], {}, false);
    assert Collect(root, [name], {}, h) == Extraction([], {}, false);
    assert LoosePhase(first, [name], Progress({}, [], false), h) == Progress({}, [], false);
    assert |loose[..0]| == 0;
    assert Collect(loose, [name], {}, h) == Extraction([(name, a)], {h(a)}, false);
  }

  lemma ExampleArchivePhase(h: Bytes -> Hash, name: string, inner: string, zipA: string, zipB: string, a: Bytes, b: Bytes)
    requires h(a) != h(b) && EndsWith(inner, name)
    requires IsArchiveName(zipA) && IsArchiveName(zipB) && zipA != name && zipB != name
    ensures ArchivePhase(ExampleRoot(zipA, zipB, inner, a, b) + ExampleLoose(name, a), [name],
        Progress({h(a)}, [[(name, a)]], false), h).batches == [[(name, a)], [(name, b)]]
  {
    var p1 := Progress({h(a)}, [[(name, a)]], false);
    var files := ExampleRoot(zipA, zipB, inner, a, b) + ExampleLoose(name, a);
    var ea := [Entry(inner, Readable(a))];
    var eb := [Entry(inner, Readable(b))];
    assert |[name][..0]| == 0;
    assert ScanFrom(ea, 0, name, {h(a)}, h) == Absent;
    assert ScanFrom(eb, 0, name, {h(a)}, h) == Found(b);
    assert ExtractFrom(ea, [name], {h(a)}, h) == Extraction([], {h(a)}, false);
    assert ExtractFrom(eb, [name], {h(a)}, h) == Extraction([(name, b)], {h(a), h(b)}, false);
    assert |files[..1][..0]| == 0;
    assert files[..1][0] == SourceFile(zipA, Some([]), Some(ea));
    assert ArchivePhase(files[..1][..0], [name], p1, h) == p1;
    var p2 := ArchivePhase(files[..1], [name], p1, h);
    assert p2 == p1;
    assert files[..2][..1] == files[..1];
    assert files[..2][1] == SourceFile(zipB, Some([]), Some(eb));
    var p3 := ArchivePhase(files[..2], [name], p1, h);
    assert p3.batches == [[(name, a)], [(name, b)]];
    assert files[..3][..2] == files[..2];
    assert files[..3] == files;
  }

  /** A run over one loose texture and two archives, for any names that behave as the
      real ones do: a loose texture named exactly as the target with content
      a, then one archive holding an entry ending with the target name with
      the same content a, then one holding content b. Package 1 comes from
      the loose file, the first archive adds nothing, package 2 is b. */
  lemma ExampleRun(h: Bytes -> Hash, name: string, inner: string, zipA: string, zipB: string, a: Bytes, b: Bytes)
    requires h(a) != h(b) && EndsWith(inner, name)
    requires IsArchiveName(zipA) && IsArchiveName(zipB) && zipA != name && zipB != name
    ensures RunPipeline(Some([ExampleRoot(zipA, zipB, inner, a, b), ExampleLoose(name, a)]), [name], {}, h).batches
      == [[(name, a)], [(name, b)]]
  {
    var root := ExampleRoot(zipA, zipB, inner, a, b);
    var loose := ExampleLoose(name, a);
    ExampleLoosePhase(h, name, inner, zipA, zipB, a, b);
    var first: seq<Directory> := [root];
    assert |first[..0]| == 0;
    assert [root, loose][..1] == first;
    assert Flatten(first) == root;
    assert Flatten([root, loose]) == root + loose;
    ExampleArchivePhase(h, name, inner, zipA, zipB, a, b);
  }

  /** The worked example with its own names: loose/diamond_sword.png,
      packA.zip and packB.zip holding textures/diamond_sword.png. */
  lemma DiamondSwordExample(h: Bytes -> Hash, a: Bytes, b: Bytes)
    requires h(a) != h(b)
    ensures RunPipeline(Some([ExampleRoot("packA.zip", "packB.zip", "textures/diamond_sword.png", a, b),
                              ExampleLoose("diamond_sword.png", a)]), ["diamond_sword.png"], {}, h).batches
      == [[("diamond_sword.png", a)], [("diamond_sword.png", b)]]
  {
    var name := "diamond_sword.png";
    var inner := "textures/diamond_sword.png";
    assert EndsWith(inner, name) by {
      assert inner[|inner| - |name|..] == name;
    }
    assert EndsWith("packA.zip", ".zip") by {
      assert "packA.zip"[5..] == ".zip";
    }
    assert EndsWith("packB.zip", ".zip") by {
      assert "packB.zip"[5..] == ".zip";
    }
    assert "packA.zip" != name && "packB.zip" != name by {
      assert |"packA.zip"| != |name|;
    }
    ExampleRun(h, name, inner, "packA.zip", "packB.zip", a, b);
  }
}
