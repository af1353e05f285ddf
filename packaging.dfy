/** Building one output package (copier_dossier_premade) and zipping a
    folder (compresser_dossier). A folder is a map from path, relative to
    the package's temporary directory, to file content. */
module Packaging {
  import opened Model

  /** The canonical root slot every texture is copied to. */
  const PackPng: string := "pack.png"

  /** The directory, relative to the package root, that keeps each texture
      under its own name. */
  const ItemsDir: string := "assets/minecraft/textures/items/"

  function ItemPath(name: string): string {
    ItemsDir + name
  }

  lemma ItemPathNotPackPng(name: string)
    ensures ItemPath(name) != PackPng
  {
    assert ItemPath(name)[0] == 'a';
  }

  lemma ItemPathInjective(a: string, b: string)
    ensures ItemPath(a) == ItemPath(b) <==> a == b
  {
    if ItemPath(a) == ItemPath(b) {
      assert a == ItemPath(a)[|ItemsDir|..];
      assert b == ItemPath(b)[|ItemsDir|..];
    }
  }

  /** The temporary folder after the copy loop of copier_dossier_premade:
      every pair writes pack.png and its own item path, in order. */
  function ItemsFolder(batch: Batch): map<string, Bytes>
    decreases |batch|
  {
    if batch == [] then map[]
    else
      var (name, source) := batch[|batch| - 1];
      ItemsFolder(batch[..|batch| - 1])[PackPng := source][ItemPath(name) := source]
  }

  /** The folder once the template is merged over it; the template is
      applied last, so it wins every collision. */
  function PackageFolder(batch: Batch, template: map<string, Bytes>): map<string, Bytes> {
    ItemsFolder(batch) + template
  }

  /** The paths the copy loop writes: pack.png once there is a pair, and
      each pair's item path. */
  lemma {:induction false} ItemsFolderKeys(batch: Batch)
    ensures forall p :: p in ItemsFolder(batch) <==>
      (batch != [] && p == PackPng) || exists k :: 0 <= k < |batch| && p == ItemPath(batch[k].0)
    decreases |batch|
  {
    if batch != [] {
      var init := batch[..|batch| - 1];
      ItemsFolderKeys(init);
      forall p | p in ItemsFolder(batch)
        ensures p == PackPng || exists k :: 0 <= k < |batch| && p == ItemPath(batch[k].0)
      {
        if p != PackPng && p != ItemPath(batch[|batch| - 1].0) {
          assert p in ItemsFolder(init);
          var k :| 0 <= k < |init| && p == ItemPath(init[k].0);
          assert batch[k] == init[k];
        }
      }
      forall k | 0 <= k < |init| ensures init[k] == batch[k] { }
    }
  }

  /** With distinct names, each item path keeps its own source, and pack.png
      the last pair's. */
  lemma {:induction false} ItemsFolderValues(batch: Batch)
    requires NoDuplicates(Names(batch))
    ensures batch != [] ==> PackPng in ItemsFolder(batch) && ItemsFolder(batch)[PackPng] == batch[|batch| - 1].1
    ensures forall k :: 0 <= k < |batch| ==>
      ItemPath(batch[k].0) in ItemsFolder(batch) && ItemsFolder(batch)[ItemPath(batch[k].0)] == batch[k].1
    decreases |batch|
  {
    if batch != [] {
      var init := batch[..|batch| - 1];
      var name := batch[|batch| - 1].0;
      assert forall i :: 0 <= i < |init| ==> Names(init)[i] == Names(batch)[i];
      ItemsFolderValues(init);
      forall k | 0 <= k < |init|
        ensures ItemsFolder(batch)[ItemPath(batch[k].0)] == batch[k].1
      {
        ItemPathNotPackPng(batch[k].0);
        assert Names(batch)[k] != Names(batch)[|batch| - 1];
        ItemPathInjective(batch[k].0, name);
        assert batch[k] == init[k];
      }
    }
  }

  /** The folder after the copy loop: exactly pack.png and the item paths,
      pack.png holding the last pair's source and each item path its own. */
  lemma ItemsFolderContents(batch: Batch)
    requires NoDuplicates(Names(batch))
    ensures forall p :: p in ItemsFolder(batch) <==>
      (batch != [] && p == PackPng) || exists k :: 0 <= k < |batch| && p == ItemPath(batch[k].0)
    ensures batch != [] ==> ItemsFolder(batch)[PackPng] == batch[|batch| - 1].1
    ensures forall k :: 0 <= k < |batch| ==> ItemsFolder(batch)[ItemPath(batch[k].0)] == batch[k].1
  {
    ItemsFolderKeys(batch);
    ItemsFolderValues(batch);
  }

  /** What a package holds: pack.png is the last pair's source, each
      name's item path holds that name's source, every template path holds
      the template's content and wins a collision, and nothing else is there. */
  lemma PackageContents(batch: Batch, template: map<string, Bytes>)
    requires NoDuplicates(Names(batch))
    ensures forall p :: p in PackageFolder(batch, template) <==>
      p in template || (batch != [] && p == PackPng)
      || exists k :: 0 <= k < |batch| && p == ItemPath(batch[k].0)
    ensures batch != [] && PackPng !in template ==>
      PackageFolder(batch, template)[PackPng] == batch[|batch| - 1].1
    ensures forall k :: 0 <= k < |batch| && ItemPath(batch[k].0) !in template ==>
      PackageFolder(batch, template)[ItemPath(batch[k].0)] == batch[k].1
    ensures forall p :: p in template ==> PackageFolder(batch, template)[p] == template[p]
  {
    ItemsFolderContents(batch);
  }

  /** A zip holds exactly the folder: each member is a path of the folder
      with its content, each path of the folder is a member, no path twice. */
  ghost predicate ListsExactly(zip: Listing, folder: map<string, Bytes>) {
    && (forall i :: 0 <= i < |zip| ==> zip[i].0 in folder && zip[i].1 == folder[zip[i].0])
    && (forall p :: p in folder ==> exists i :: 0 <= i < |zip| && zip[i].0 == p)
    && (forall i, j :: 0 <= i < j < |zip| ==> zip[i].0 != zip[j].0)
  }

  /** Extracting a zip: its members written out one after the other. */
  function Unzip(zip: Listing): map<string, Bytes>
    decreases |zip|
  {
    if zip == [] then map[]
    else Unzip(zip[..|zip| - 1])[zip[|zip| - 1].0 := zip[|zip| - 1].1]
  }

  /** Dropping a zip's last member lists the folder without that path. */
  lemma ListsExactlyInit(zip: Listing, folder: map<string, Bytes>)
    requires zip != [] && ListsExactly(zip, folder)
    ensures ListsExactly(zip[..|zip| - 1], folder - {zip[|zip| - 1].0})
  {
    var init := zip[..|zip| - 1];
    var rest := folder - {zip[|zip| - 1].0};
    forall p | p in rest ensures exists i :: 0 <= i < |init| && init[i].0 == p {
      var i :| 0 <= i < |zip| && zip[i].0 == p;
      assert init[i] == zip[i];
    }
    forall i | 0 <= i < |init| ensures init[i].0 in rest && init[i].1 == rest[init[i].0] {
      assert init[i] == zip[i];
      assert zip[i].0 != zip[|zip| - 1].0;
    }
  }

  /** Extracting the zip of a folder gives back the folder. */
  lemma {:induction false} ZipReadBack(zip: Listing, folder: map<string, Bytes>)
    requires ListsExactly(zip, folder)
    ensures Unzip(zip) == folder
    decreases |zip|
  {
    if zip == [] {
      assert forall p :: p !in folder;
    } else {
      var (last, content) := zip[|zip| - 1];
      ListsExactlyInit(zip, folder);
      ZipReadBack(zip[..|zip| - 1], folder - {last});
      assert folder == (folder - {last})[last := content];
    }
  }

  /** compresser_dossier: every file of the folder is written once under its
      relative path; the walk order of the folder is left open. */
  method Compress(folder: map<string, Bytes>) returns (zip: Listing)
    ensures ListsExactly(zip, folder)
  {
    zip := [];
    var pending := folder.Keys;
    while pending != {}
      invariant pending <= folder.Keys
      invariant forall i :: 0 <= i < |zip| ==>
        zip[i].0 in folder && zip[i].0 !in pending && zip[i].1 == folder[zip[i].0]
      invariant forall p :: p in folder && p !in pending ==> exists i :: 0 <= i < |zip| && zip[i].0 == p
      invariant forall i, j :: 0 <= i < j < |zip| ==> zip[i].0 != zip[j].0
      decreases pending
    {
      var path :| path in pending;
      ghost var before := zip;
      zip := zip + [(path, folder[path])];
      pending := pending - {path};
      forall p | p in folder && p !in pending ensures exists i :: 0 <= i < |zip| && zip[i].0 == p {
        if p == path {
          assert zip[|zip| - 1].0 == p;
        } else {
          var i :| 0 <= i < |before| && before[i].0 == p;
          assert zip[i] == before[i];
        }
      }
    }
  }

  /** copier_dossier_premade with the template: copy each pair to pack.png
      and to its item path, merge the template over the folder, and zip it. */
  method CopyPremade(batch: Batch, template: map<string, Bytes>) returns (zip: Listing)
    ensures ListsExactly(zip, PackageFolder(batch, template))
  {
    var folder: map<string, Bytes> := map[];
    for i := 0 to |batch|
      invariant folder == ItemsFolder(batch[..i])
    {
      var (name, source) := batch[i];
      assert batch[..i + 1][..i] == batch[..i];
      folder := folder[PackPng := source];
      folder := folder[ItemPath(name) := source];
    }
    assert batch[..|batch|] == batch;
    folder := folder + template;
    zip := Compress(folder);
  }
}
