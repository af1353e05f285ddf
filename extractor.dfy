/** The running program: the process-wide set of seen hashes, the package
    counter, and the packages written to the target directory, updated in
    place by the loops of trouver_et_copier_arcs, traiter_archives and
    extraire_et_copier. */
module TextureExtractor {
  import opened Model
  import opened Extraction
  import opened Packaging
  import opened Pipeline

  /** A numbered output package: the zip written as <target>/<n>/sword_<n>.zip. */
  datatype Package = Package(number: nat, zip: Listing)

  class Extractor {
    /** The configured target file names. */
    const targets: seq<string>
    /** The premade template directory: relative path to content. */
    const template: map<string, Bytes>
    /** The content digest (SHA-256 of the file's bytes). */
    const H: Bytes -> Hash

    /** The hashes of every texture recorded so far in this process. */
    var seen: set<Hash>
    /** The number the next package gets. */
    var counter: nat
    /** The packages written so far, in the order they were built. */
    var packages: seq<Package>
    /** The textures each package was built from, name to content. */
    ghost var batches: seq<Batch>

    /** Packages are numbered 1, 2, ... in order with no gap, the counter is
        the next number, and each package's zip holds the template overlaid
        on its textures. */
    ghost predicate Valid()
      reads this
    {
      && NoDuplicates(targets)
      && counter == |packages| + 1
      && |batches| == |packages|
      && forall i :: 0 <= i < |packages| ==>
           packages[i].number == i + 1 && ListsExactly(packages[i].zip, PackageFolder(batches[i], template))
    }

    /** The process starts with nothing seen and nothing built. */
    constructor (targets: seq<string>, template: map<string, Bytes>, H: Bytes -> Hash)
      requires NoDuplicates(targets)
      ensures Valid()
      ensures this.targets == targets && this.template == template && this.H == H
      ensures seen == {} && packages == [] && batches == []
    {
      this.targets := targets;
      this.template := template;
      this.H := H;
      seen := {};
      counter := 1;
      packages := [];
      batches := [];
    }

    /** extraire_et_copier on one opened archive. The result is what was
        recorded, in target order, or None when an error escaped. */
    method ExtractAndCopy(entries: seq<Entry>) returns (extracted: Option<Batch>)
      modifies this`seen
      ensures var x := ExtractFrom(entries, targets, old(seen), H);
        seen == x.seen && extracted == (if x.failed then None else Some(x.found))
    {
      var found: Batch := [];
      for i := 0 to |targets|
        invariant ExtractFrom(entries, targets[..i], old(seen), H) == Extraction(found, seen, false)
      {
        var name := targets[i];
        assert targets[..i + 1][..i] == targets[..i];
        ghost var before := seen;
        var j := 0;
        while j < |entries|
          invariant 0 <= j <= |entries| && seen == before
          invariant ScanFrom(entries, j, name, before, H) == ScanFrom(entries, 0, name, before, H)
          decreases |entries| - j
        {
          var entry := entries[j];
          if EndsWith(entry.path, name) {
            match entry.read
            case NoSuchEntry =>
              // KeyError: a warning, then the next target name
              break;
            case Broken =>
              ExtractFailureFinal(entries, targets, i + 1, old(seen), H);
              return None;
            case Readable(bytes) =>
              var hash := H(bytes);
              if hash in seen {
                // already copied: keep scanning namelist() for this name
                j := j + 1;
                continue;
              }
              seen := seen + {hash};
              found := found + [(name, bytes)];
              break;
          }
          j := j + 1;
        }
      }
      assert targets[..|targets|] == targets;
      return Some(found);
    }

    /** The loop of trouver_et_copier_arcs over the files of one directory.
        The result is what was recorded, or None when an error escaped. */
    method CollectLoose(dir: Directory) returns (collected: Option<Batch>)
      modifies this`seen
      ensures var x := Collect(dir, targets, old(seen), H);
        seen == x.seen && collected == (if x.failed then None else Some(x.found))
    {
      var found: Batch := [];
      for k := 0 to |dir|
        invariant Collect(dir[..k], targets, old(seen), H) == Extraction(found, seen, false)
      {
        assert dir[..k + 1][..k] == dir[..k];
        var f := dir[k];
        if f.name in targets {
          match f.data
          case None =>
            CollectFailureFinal(dir, k + 1, targets, old(seen), H);
            return None;
          case Some(bytes) =>
            var hash := H(bytes);
            if hash in seen {
              continue;
            }
            seen := seen + {hash};
            found := found + [(f.name, bytes)];
        }
      }
      assert dir[..|dir|] == dir;
      return Some(found);
    }

    /** copier_dossier_premade(cible, compteur, batch) followed by compteur += 1:
        the package takes the current number and the counter moves on by one. */
    method BuildPackage(batch: Batch)
      requires Valid()
      modifies this`packages, this`counter, this`batches
      ensures Valid()
      ensures batches == old(batches) + [batch]
      ensures |packages| == |old(packages)| + 1 && old(packages) <= packages
      ensures packages[|packages| - 1].number == old(counter) && counter == old(counter) + 1
      ensures ListsExactly(packages[|packages| - 1].zip, PackageFolder(batch, template))
    {
      var zip := CopyPremade(batch, template);
      packages := packages + [Package(counter, zip)];
      batches := batches + [batch];
      counter := counter + 1;
    }

    /** The loose-file pass of trouver_et_copier_arcs: one package per
        directory that holds something new. ok is false when an error
        escaped, which ends the run. */
    method LoosePass(dirs: seq<Directory>) returns (ok: bool)
      requires Valid()
      modifies this`seen, this`packages, this`counter, this`batches
      ensures Valid() && old(packages) <= packages
      ensures var p := LoosePhase(dirs, targets, Progress(old(seen), old(batches), false), H);
        seen == p.seen && batches == p.batches && ok == !p.halted
    {
      ghost var start := Progress(old(seen), old(batches), false);
      for d := 0 to |dirs|
        invariant Valid() && old(packages) <= packages
        invariant LoosePhase(dirs[..d], targets, start, H) == Progress(seen, batches, false)
      {
        assert dirs[..d + 1][..d] == dirs[..d];
        var collected := CollectLoose(dirs[d]);
        match collected
        case None =>
          LooseHaltFinal(dirs, d + 1, targets, start, H);
          return false;
        case Some(found) =>
          if found != [] {
            BuildPackage(found);
          }
      }
      assert dirs[..|dirs|] == dirs;
      return true;
    }

    /** One file of traiter_archives: a .zip or .rar file is opened and
        extracted, and a non-empty result becomes the next package; other
        files are skipped. ok is false when an error escaped. */
    method ProcessFile(f: SourceFile) returns (ok: bool)
      requires Valid()
      modifies this`seen, this`packages, this`counter, this`batches
      ensures Valid() && old(packages) <= packages
      ensures var p := ArchiveStep(Progress(old(seen), old(batches), false), f, targets, H);
        seen == p.seen && batches == p.batches && ok == !p.halted
    {
      if EndsWith(f.name, ".zip") || EndsWith(f.name, ".rar") {
        match f.listing
        case None =>
          // the archive cannot be opened
          return false;
        case Some(entries) =>
          var extracted := ExtractAndCopy(entries);
          match extracted
          case None =>
            return false;
          case Some(found) =>
            if found != [] {
              BuildPackage(found);
            }
      }
      return true;
    }

    /** The files of one directory in traiter_archives, continuing the pass
        from the files done before it. ok is false when an error escaped;
        the pass has then halted. */
    method ArchiveDirectory(files: Directory, ghost done: seq<SourceFile>, ghost start: Progress) returns (ok: bool)
      requires Valid()
      requires ArchivePhase(done, targets, start, H) == Progress(seen, batches, false)
      modifies this`seen, this`packages, this`counter, this`batches
      ensures Valid() && old(packages) <= packages
      ensures ArchivePhase(done + files, targets, start, H) == Progress(seen, batches, !ok)
    {
      assert done + files[..0] == done;
      for k := 0 to |files|
        invariant Valid() && old(packages) <= packages
        invariant ArchivePhase(done + files[..k], targets, start, H) == Progress(seen, batches, false)
      {
        assert (done + files[..k + 1])[..|done| + k] == done + files[..k];
        assert (done + files[..k + 1])[|done| + k] == files[k];
        ok := ProcessFile(files[k]);
        if !ok {
          assert done + files == (done + files[..k + 1]) + files[k + 1..];
          HaltAbsorbs(done + files[..k + 1], files[k + 1..], targets, start, H);
          return;
        }
      }
      assert files[..|files|] == files;
      return true;
    }

    /** traiter_archives: every file of the walk in order; an error ends the
        pass, keeping the packages built so far. */
    method ArchivePass(dirs: seq<Directory>)
      requires Valid()
      modifies this`seen, this`packages, this`counter, this`batches
      ensures Valid() && old(packages) <= packages
      ensures var p := ArchivePhase(Flatten(dirs), targets, Progress(old(seen), old(batches), false), H);
        seen == p.seen && batches == p.batches
    {
      ghost var start := Progress(old(seen), old(batches), false);
      for d := 0 to |dirs|
        invariant Valid() && old(packages) <= packages
        invariant ArchivePhase(Flatten(dirs[..d]), targets, start, H) == Progress(seen, batches, false)
      {
        assert dirs[..d + 1][..d] == dirs[..d];
        var ok := ArchiveDirectory(dirs[d], Flatten(dirs[..d]), start);
        if !ok {
          ArchiveHaltInWalk(dirs, d, targets, start, H);
          return;
        }
      }
      assert dirs[..|dirs|] == dirs;
    }

    /** trouver_et_copier_arcs(source, cible); source is None when the source
        directory does not exist. Numbering starts at 1 and the archive pass
        continues it; across the run no two packaged textures have the same
        hash, and none had been seen before the run. */
    method Run(source: Option<seq<Directory>>)
      requires Valid() && packages == []
      requires source.Some? ==> WellFormedWalk(source.value)
      modifies this`seen, this`packages, this`counter, this`batches
      ensures Valid()
      ensures var p := RunPipeline(source, targets, old(seen), H);
        seen == p.seen && batches == p.batches
      ensures source.None? ==> seen == old(seen) && packages == []
      ensures counter == |packages| + 1 && forall i :: 0 <= i < |packages| ==> packages[i].number == i + 1
      ensures old(seen) <= seen && DistinctHashes(Textures(batches), H)
      ensures forall i :: 0 <= i < |Textures(batches)| ==>
        H(Textures(batches)[i]) in seen && H(Textures(batches)[i]) !in old(seen)
    {
      counter := 1;
      RunDedup(source, targets, seen, H);
      match source
      case None =>
        // the source directory does not exist
      case Some(dirs) =>
        var ok := LoosePass(dirs);
        if ok {
          ArchivePass(dirs);
        }
    }
  }
}
