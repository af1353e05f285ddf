/** Values the texture extractor works on: file contents, archive entries,
    the walked source tree, and the small sequence facts shared by the rest. */
module Model {

  datatype Option<T> = None | Some(value: T)

  type byte = x: int | 0 <= x < 256

  /** The bytes of a file or of an archive entry. */
  type Bytes = seq<byte>

  /** A hexadecimal content digest. SHA-256 itself is a parameter of the model. */
  type Hash = string

  /** What reading one archive entry yields. */
  datatype Readout =
    | Readable(bytes: Bytes)  // the entry's bytes, extracted and hashed
    | NoSuchEntry             // the reader raises KeyError for the listed name
    | Broken                  // any other failure while extracting or hashing

  /** An archive member: its path inside the archive and what reading it yields. */
  datatype Entry = Entry(path: string, read: Readout)

  /** A file of the source tree as the walk finds it.
      data: its bytes, None when reading or hashing it fails.
      listing: the members the zip or rar reader lists, None when the file
      cannot be opened as an archive. */
  datatype SourceFile = SourceFile(name: string, data: Option<Bytes>, listing: Option<seq<Entry>>)

  /** The files of one directory, in walk order. */
  type Directory = seq<SourceFile>

  /** An insertion-ordered dictionary from target name to the texture found for it. */
  type Batch = seq<(string, Bytes)>

  /** The members of a zip file: relative path and content, in the order written. */
  type Listing = seq<(string, Bytes)>

  /** Python's str.endswith. */
  predicate EndsWith(s: string, suffix: string) {
    |suffix| <= |s| && s[|s| - |suffix|..] == suffix
  }

  /** The extensions the archive pass opens. */
  predicate IsArchiveName(name: string) {
    EndsWith(name, ".zip") || EndsWith(name, ".rar")
  }

  predicate NoDuplicates<T(==)>(s: seq<T>) {
    forall i, j :: 0 <= i < j < |s| ==> s[i] != s[j]
  }

  /** A directory never holds two files of the same name. */
  predicate DistinctFileNames(dir: Directory) {
    forall i, j :: 0 <= i < j < |dir| ==> dir[i].name != dir[j].name
  }

  function Names(b: Batch): seq<string> {
    seq(|b|, i requires 0 <= i < |b| => b[i].0)
  }

  function Values(b: Batch): seq<Bytes> {
    seq(|b|, i requires 0 <= i < |b| => b[i].1)
  }

  /** The textures of a sequence of batches, in order. */
  function Textures(batches: seq<Batch>): seq<Bytes>
    decreases |batches|
  {
    if batches == [] then []
    else Textures(batches[..|batches| - 1]) + Values(batches[|batches| - 1])
  }

  /** No two of the contents have the same hash. */
  predicate DistinctHashes(s: seq<Bytes>, h: Bytes -> Hash) {
    forall i, j :: 0 <= i < j < |s| ==> h(s[i]) != h(s[j])
  }

  function HashSet(s: seq<Bytes>, h: Bytes -> Hash): set<Hash> {
    set b | b in s :: h(b)
  }

  /** Joining two hash-distinct sequences keeps them distinct when every hash
      of the first lies in a set that no hash of the second lies in. */
  lemma DistinctHashesConcat(a: seq<Bytes>, b: seq<Bytes>, s: set<Hash>, h: Bytes -> Hash)
    requires DistinctHashes(a, h) && DistinctHashes(b, h)
    requires forall i :: 0 <= i < |a| ==> h(a[i]) in s
    requires forall j :: 0 <= j < |b| ==> h(b[j]) !in s
    ensures DistinctHashes(a + b, h)
  {
    forall i, j | 0 <= i < j < |a + b| ensures h((a + b)[i]) != h((a + b)[j]) {
      if j < |a| {
        assert (a + b)[i] == a[i] && (a + b)[j] == a[j];
      } else if i < |a| {
        assert (a + b)[i] == a[i] && (a + b)[j] == b[j - |a|];
      } else {
        assert (a + b)[i] == b[i - |a|] && (a + b)[j] == b[j - |a|];
      }
    }
  }
}
