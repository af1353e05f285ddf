# Minecraft texture extractor: a verified model of the dedup-and-numbering pipeline

The extractor walks a source tree of Minecraft resource packs. It runs in two passes:

- The loose-file pass looks for files named exactly like a target texture (`diamond_sword.png`).
- The archive pass opens every `.zip` and `.rar` file and looks for members whose path ends with a target name.

Every texture found is deduplicated by content hash against one process-wide set of seen hashes. Each discovery event with something new becomes one numbered package, `sword_<n>.zip`. The package holds the texture as `pack.png` and under `assets/minecraft/textures/items/<name>`, with the premade template merged on top.

This project models that pipeline in Dafny and proves what it promises:

- no texture hash is packaged twice in a run;
- the seen set only grows;
- package numbers run 1..N with no gap;
- the per-archive scan records the first member that matches and is not a duplicate;
- a package holds exactly the listed paths;
- an error ends its phase and keeps what was already built.

Files and modules:

- `model.dfy` (`Model`): the values. Bytes, hashes, archive entries, source files, directories, batches and zip listings. `EndsWith` is Python's `str.endswith`.
- `extraction.dfy` (`Extraction`): the scan of one archive (`extraire_et_copier`) and of one directory of loose files, as specification functions. Also their lemmas.
- `packaging.dfy` (`Packaging`): `copier_dossier_premade` and `compresser_dossier`, as methods with loops. Also the specification of a package's folder, and the zip read-back.
- `pipeline.dfy` (`Pipeline`): both passes and the whole run as functions of the walked tree. Also the dedup theorem, the halting lemmas and a worked example run.
- `extractor.dfy` (`TextureExtractor`): the class `Extractor`. Its fields are the seen set `seen` (`hashes_images_copiees`), the counter `counter` (`compteur`) and the packages written. Its methods hold the source's loops, with `continue`, `break` and the `for … else` rendered literally. Each method is proved equal to the specification functions above.

Hashing is the class constant `H: Bytes -> Hash`, which stands for SHA-256 over the bytes. Nothing about it is assumed except that it is a function.

The source tree is given as data, not read from disk:

- the walk order of directories and files;
- each file's bytes, or `None` when reading it raises;
- each file's archive listing, or `None` when it cannot be opened as an archive;
- what reading each archive member yields:
  - its bytes;
  - `NoSuchEntry`, standing for the `KeyError` that is caught per target name;
  - `Broken`, standing for any other error, which leaves `extraire_et_copier`.

Three points of the code's behaviour are easy to misread. The model follows the code on each:

- **Duplicate archive members.** The scan for a target name does not stop at the first matching member. In `Minecraft-Texture-Extractor.py:102-105` a duplicate match hits `continue` inside the loop over `namelist()`. The scan therefore goes on to later matching members, and stops (line 112) only at the first non-duplicate one. `Extraction.ScanFrom` and `Extractor.ExtractAndCopy` do the same.
- **Archive errors.** An error in one archive is not skipped over archive by archive. In the code (lines 121-140) the `try` surrounds the whole walk, so an error in one archive ends the archive pass: later archives are not opened. `Pipeline.ArchivePhase` and `Pipeline.HaltAbsorbs` model the code.
- **Loose-file errors.** An error in the loose-file pass is caught at line 186, after the call at line 180. So it ends the whole run, and the archive pass never starts. `Pipeline.RunPipeline` skips the archive pass once the loose-file pass has halted.

## Model

| member | source | states |
|---|---|---|
| `Extraction.ScanFound` | Minecraft-Texture-Extractor.py:91-112 | The scan for one target records content b exactly when some member k fits all of these: its path ends with the target, it reads as b, and b's hash is not yet seen. Every member before k must either not end with the target or be an already-seen duplicate. So the recorded member is the first matching non-duplicate one, in `namelist()` order. |
| `Extraction.ScanAllPassed` | Minecraft-Texture-Extractor.py:91-114 | When no member matches, or every match is a duplicate, the scan ends in the `for … else` branch and the target is absent from the result. |
| `Extraction.ExtractFresh` | Minecraft-Texture-Extractor.py:87-117 | Dedup within `extraire_et_copier`. The seen set grows by exactly the hashes of the recorded textures. Each recorded hash was absent before. No two recorded textures share a hash. The result's keys are distinct, and each is one of the target names. |
| `Extraction.ExtractLookup` | Minecraft-Texture-Extractor.py:88-117 | The result holds target i exactly when the scan for target i found a texture, and then holds that texture. That scan runs against the seen set left by the earlier targets. |
| `Extraction.ExtractFailureFinal` | Minecraft-Texture-Extractor.py:90-117 | An error other than `KeyError` leaves the function. Once a prefix of the targets has failed, later targets change nothing. |
| `Extraction.ExtractNothingNew` | Minecraft-Texture-Extractor.py:101-114 | An archive whose members all either fail to match or are already seen yields an empty result. The seen set is unchanged. |
| `Extraction.CollectFresh` | Minecraft-Texture-Extractor.py:155-173 | Dedup in the loose-file scan of one directory, on the same terms as `ExtractFresh`. Every recorded pair is a file of that directory whose name is exactly a target name. The name must be equal to a target, not merely end with one. |
| `Extraction.CollectFails` | Minecraft-Texture-Extractor.py:157-162 | The loose-file scan of a directory fails exactly when some file of it that is named as a target cannot be read. |
| `Extraction.CollectSeen` | Minecraft-Texture-Extractor.py:160-170 | Without a read error, the new seen set is the old one plus the hash of every target-named file of the directory. A duplicate's hash is already there, and every new hash is added. |
| `Extraction.CollectFound` | Minecraft-Texture-Extractor.py:157-172 | Without a read error, (n, b) is recorded exactly when some file j of the directory satisfies all of the following. It is named n, and n is a target. It reads as b, and b's hash was not seen before. No earlier target-named file of the directory has that hash. So files are recorded in both directions: every new target-named file is recorded, and nothing else is. |
| `Extraction.CollectFailureFinal` | Minecraft-Texture-Extractor.py:157-173 | A read error in the loose-file scan leaves it. Later files of the directory are not looked at. |
| `Packaging.ItemsFolderKeys` | Minecraft-Texture-Extractor.py:55-65 | The copy loop writes `pack.png` when there is at least one pair, plus each pair's item path, and no other path. |
| `Packaging.ItemsFolderValues` | Minecraft-Texture-Extractor.py:56-65 | With distinct names, later pairs overwrite `pack.png` but never another name's item path. So `pack.png` holds the last pair's source and each item path holds its own name's source. |
| `Packaging.ItemsFolderContents` | Minecraft-Texture-Extractor.py:55-66 | After the copy loop the folder holds `pack.png`, equal to the last pair's source. It holds each name's item path, equal to that name's source. It holds nothing else. |
| `Packaging.PackageContents` | Minecraft-Texture-Extractor.py:55-69 | The package after the template merge. `pack.png` is the last pair's source unless the template has `pack.png`. Each item path holds its name's source unless the template has that path. Every template path holds the template's content. Nothing else is present. |
| `Packaging.Compress` | Minecraft-Texture-Extractor.py:39-47 | The zip lists exactly the folder. Each member is a folder path with its content, every folder path is a member, and no path repeats. The walk order is left open. |
| `Packaging.ZipReadBack` | Minecraft-Texture-Extractor.py:41-46 | Extracting the zip of a folder gives back exactly that folder. |
| `Packaging.CopyPremade` | Minecraft-Texture-Extractor.py:50-74 | The zip built for a batch lists exactly the package folder, as specified by `PackageContents`. |
| `Pipeline.SettleSound` | Minecraft-Texture-Extractor.py:129-131 | Ending a discovery event with `Settle` keeps the run invariant. The seen set only grows, and the earlier packages stay as a prefix. Packaged hashes stay distinct, stay in the seen set, and were not seen at the start. The definition of `Settle` is what adds exactly one package for a non-empty, error-free result. The lemma does not restate that rule. |
| `Pipeline.LoosePhaseSound` | Minecraft-Texture-Extractor.py:155-178 | The loose-file pass keeps the run invariant: packages are never removed and the seen set only grows. The invariant itself: packaged hashes are distinct, each is in the seen set, each was new when the run began, and every package is non-empty. |
| `Pipeline.ArchivePhaseSound` | Minecraft-Texture-Extractor.py:120-140 | The archive pass keeps the same invariant. Packages are never removed and the seen set only grows. |
| `Pipeline.RunDedup` | Minecraft-Texture-Extractor.py:143-180 | Over a whole run, across both passes, no two packaged textures have equal hashes. Every packaged hash is in the final seen set and was not seen before the run. The seen set only grows. |
| `Pipeline.HaltAbsorbs` | Minecraft-Texture-Extractor.py:121-140 | Once the archive pass has stopped on an error, the files after that point are never processed. |
| `Pipeline.LooseHaltFinal` | Minecraft-Texture-Extractor.py:155-187 | An error in the loose-file pass ends it. Later directories are not scanned. |
| `Pipeline.ArchiveHaltInWalk` | Minecraft-Texture-Extractor.py:122-140 | An error while walking directory d ends the archive pass across the rest of the walk. |
| `Pipeline.ArchiveOfDuplicates` | Minecraft-Texture-Extractor.py:125-138 | An archive that holds only already-seen textures, for example copies of a loose file, builds no package and leaves the state unchanged. |
| `Pipeline.ExampleRun` | Minecraft-Texture-Extractor.py:143-180 | An example run over one loose texture and two archives, with any names that behave like the real ones. A loose texture a builds package 1. An archive holding a again adds nothing. An archive holding b builds package 2. |
| `Pipeline.DiamondSwordExample` | Minecraft-Texture-Extractor.py:143-180 | The same example with the real names `diamond_sword.png`, `packA.zip`, `packB.zip` and `textures/diamond_sword.png`. |
| `TextureExtractor.Extractor.constructor` | Minecraft-Texture-Extractor.py:22-27 | The process starts with an empty seen set, no packages and counter 1. |
| `TextureExtractor.Extractor.ExtractAndCopy` | Minecraft-Texture-Extractor.py:87-117 | The nested loops with `continue`, `break` and `for … else` compute exactly `ExtractFrom`: the same result, or `None` on an error, and the same new seen set. |
| `TextureExtractor.Extractor.CollectLoose` | Minecraft-Texture-Extractor.py:155-173 | The loop over one directory's files computes exactly `Collect`, including the new seen set. |
| `TextureExtractor.Extractor.BuildPackage` | Minecraft-Texture-Extractor.py:50-84 | The package takes the current counter value and its zip lists the package folder. The counter goes up by exactly 1, and earlier packages are untouched. |
| `TextureExtractor.Extractor.LoosePass` | Minecraft-Texture-Extractor.py:155-178 | The loose-file pass computes `LoosePhase`: one package per directory with something new, numbered on from the counter. |
| `TextureExtractor.Extractor.ProcessFile` | Minecraft-Texture-Extractor.py:123-138 | One file of the archive pass. Only names ending in `.zip` or `.rar` are opened. A non-empty result becomes the next package. An archive that cannot be opened, or an error during extraction, halts the pass. |
| `TextureExtractor.Extractor.ArchiveDirectory` | Minecraft-Texture-Extractor.py:123-138 | The files of one directory continue the archive pass; after an error the pass has halted. |
| `TextureExtractor.Extractor.ArchivePass` | Minecraft-Texture-Extractor.py:120-140 | `traiter_archives` computes `ArchivePhase` over the flattened walk, starting from the counter the loose-file pass left. Packages already built stay. |
| `TextureExtractor.Extractor.Run` | Minecraft-Texture-Extractor.py:143-187 | `trouver_et_copier_arcs` computes `RunPipeline`. A missing source directory builds nothing and leaves the seen set unchanged. Packages are numbered 1..N with no gap, and the counter ends at N+1. No two packaged textures share a hash, and none was seen before the run. |

## Left out

- SHA-256 and chunked file reading (lines 30-36): hashing is the uninterpreted function `H`.
- The zip and rar container formats and DEFLATE: an archive is the list of members its reader reports, and a zip is a listing of path and content. The two readers are assumed to list and read alike.
- `os.walk`: the directory and file order is an input. The model assumes paths are joined with `/`.
- Filesystem side effects carry no property and are not modelled:
  - `os.makedirs`;
  - temporary files under `cible/compteur/` left behind by the archive pass;
  - `os.remove` of duplicates;
  - `shutil.rmtree` of the temporary package directory;
  - the optional copy of each zip into `repertoire_copie` (lines 77-80).
- Logging, the `__main__` entry point and the log-only `fichiers_trouves_total` statistic.
- Python exceptions become a failure outcome. An error in the archive pass ends that pass. An error in the loose-file pass ends the rest of the run, including the archive pass (lines 180 and 186). Failures inside `copier_dossier_premade` are not modelled: a missing template directory, or a write error. Building a package always succeeds.
- The template directory is a flat map from file path to content. A template directory whose path collides with a file path, such as a directory named `pack.png`, is not modelled.
- TextureExtractor.Extractor.constructor: requires distinct target names. The configured list has one name. With a name listed twice, the second scan would `os.remove` the temporary file the first scan recorded.
- TextureExtractor.Extractor.Run: requires a fresh extractor (no packages built yet), as the program runs the pipeline once per process. It also requires each directory of the walk to have distinct file names, which the filesystem guarantees. The counter reset to 1 is line 144.
- The counter is passed by value into `traiter_archives`, and that copy's increments are lost. Nothing runs after it, so modelling it as one field changes nothing observable.
