/** What the scans of one archive (extraire_et_copier) and of one directory
    of loose files (the inner loop of trouver_et_copier_arcs) find, and how
    they grow the set of seen hashes. */
module Extraction {
  import opened Model

  /** The end of the scan for one target name inside one archive. */
  datatype Verdict =
    | Found(bytes: Bytes)  // a new texture was recorded and its hash added
    | Absent               // nothing new matched, or the reader raised KeyError
    | Crash                // an error that leaves extraire_et_copier

  /** The outcome of scanning one archive or one directory. found: what
      was recorded, in insertion order; seen: the seen set afterwards;
      failed: an error escaped, so the caller's phase ends. */
  datatype Extraction = Extraction(found: Batch, seen: set<Hash>, failed: bool)

  /** The scan for target moves past entry e without stopping: e does not end
      with target, or it is readable and its hash is already seen. */
  predicate Passes(e: Entry, target: string, seen: set<Hash>, h: Bytes -> Hash) {
    !EndsWith(e.path, target) || (e.read.Readable? && h(e.read.bytes) in seen)
  }

  /** The scan for one target name over the archive's namelist(), from
      position i: a duplicate match goes on scanning, the first new match
      is recorded and ends the scan, running off the end finds nothing. */
  function ScanFrom(entries: seq<Entry>, i: nat, target: string, seen: set<Hash>, h: Bytes -> Hash): Verdict
    requires i <= |entries|
    decreases |entries| - i
  {
    if i == |entries| then Absent
    else if !EndsWith(entries[i].path, target) then ScanFrom(entries, i + 1, target, seen, h)
    else match entries[i].read
      case Readable(b) =>
        if h(b) in seen then ScanFrom(entries, i + 1, target, seen, h) else Found(b)
      case NoSuchEntry => Absent
      case Broken => Crash
  }

  /** Entry k is where the scan from lo stops and records b: it ends with
      the target, reads as b, b's hash is not yet seen, and every entry
      from lo up to k is passed over. */
  ghost predicate RecordsAt(entries: seq<Entry>, lo: nat, k: nat, target: string, seen: set<Hash>, h: Bytes -> Hash, b: Bytes) {
    && lo <= k < |entries|
    && EndsWith(entries[k].path, target)
    && entries[k].read == Readable(b)
    && h(b) !in seen
    && forall j :: lo <= j < k ==> Passes(entries[j], target, seen, h)
  }

  /** The scan from lo records b exactly when it stops at an entry that
      holds b: the first entry that ends with the target and is not a
      duplicate, provided no unreadable match comes before it. */
  lemma {:induction false} ScanFound(entries: seq<Entry>, lo: nat, target: string, seen: set<Hash>, h: Bytes -> Hash, b: Bytes)
    requires lo <= |entries|
    ensures ScanFrom(entries, lo, target, seen, h) == Found(b) <==>
      exists k :: RecordsAt(entries, lo, k, target, seen, h, b)
    decreases |entries| - lo
  {
    if lo < |entries| {
      ScanFound(entries, lo + 1, target, seen, h, b);
      if Passes(entries[lo], target, seen, h) {
        if ScanFrom(entries, lo, target, seen, h) == Found(b) {
          var k :| RecordsAt(entries, lo + 1, k, target, seen, h, b);
          assert RecordsAt(entries, lo, k, target, seen, h, b);
        }
        if k :| RecordsAt(entries, lo, k, target, seen, h, b) {
          assert k != lo;
          assert RecordsAt(entries, lo + 1, k, target, seen, h, b);
        }
      } else {
        if ScanFrom(entries, lo, target, seen, h) == Found(b) {
          assert RecordsAt(entries, lo, lo, target, seen, h, b);
        }
        if k :| RecordsAt(entries, lo, k, target, seen, h, b) {
          assert k == lo;
        }
      }
    }
  }

  /** When every entry from lo on is passed over (no match, or only
      duplicates), the scan finds nothing and the target is left out. */
  lemma {:induction false} ScanAllPassed(entries: seq<Entry>, lo: nat, target: string, seen: set<Hash>, h: Bytes -> Hash)
    requires lo <= |entries|
    requires forall j :: lo <= j < |entries| ==> Passes(entries[j], target, seen, h)
    ensures ScanFrom(entries, lo, target, seen, h) == Absent
    decreases |entries| - lo
  {
    if lo < |entries| {
      ScanAllPassed(entries, lo + 1, target, seen, h);
    }
  }

  /** extraire_et_copier: one scan per target name, in order, each against
      the seen set the earlier scans left behind. */
  function ExtractFrom(entries: seq<Entry>, targets: seq<string>, seen: set<Hash>, h: Bytes -> Hash): Extraction
    decreases |targets|
  {
    if targets == [] then Extraction([], seen, false)
    else
      var prev := ExtractFrom(entries, targets[..|targets| - 1], seen, h);
      var name := targets[|targets| - 1];
      if prev.failed then prev
      else match ScanFrom(entries, 0, name, prev.seen, h)
        case Found(b) => Extraction(prev.found + [(name, b)], prev.seen + {h(b)}, false)
        case Absent => prev
        case Crash => prev.(failed := true)
  }

  /** x grows seen by exactly the hashes of what it recorded; each recorded
      texture had a hash not in seen, no two share a hash, no name twice. */
  ghost predicate Fresh(x: Extraction, seen: set<Hash>, h: Bytes -> Hash) {
    && x.seen == seen + HashSet(Values(x.found), h)
    && DistinctHashes(Values(x.found), h)
    && (forall i :: 0 <= i < |x.found| ==> h(x.found[i].1) !in seen)
    && NoDuplicates(Names(x.found))
  }

  /** Recording one more texture under a new name and a new hash keeps Fresh. */
  lemma FreshAppend(prev: Extraction, seen: set<Hash>, h: Bytes -> Hash, name: string, b: Bytes)
    requires Fresh(prev, seen, h)
    requires h(b) !in prev.seen && name !in Names(prev.found)
    ensures Fresh(Extraction(prev.found + [(name, b)], prev.seen + {h(b)}, false), seen, h)
  {
    var found := prev.found + [(name, b)];
    assert Values(found) == Values(prev.found) + [b];
    assert Names(found) == Names(prev.found) + [name];
    assert HashSet(Values(found), h) == HashSet(Values(prev.found), h) + {h(b)};
    forall i | 0 <= i < |prev.found| ensures h(Values(prev.found)[i]) in prev.seen {
      assert Values(prev.found)[i] in Values(prev.found);
    }
    DistinctHashesConcat(Values(prev.found), [b], prev.seen, h);
  }

  /** The dedup promise of extraire_et_copier: every recorded texture is
      new to the seen set, the recorded hashes are distinct and are exactly
      what the seen set gained, and the result's keys are distinct target names. */
  lemma {:induction false} ExtractFresh(entries: seq<Entry>, targets: seq<string>, seen: set<Hash>, h: Bytes -> Hash)
    requires NoDuplicates(targets)
    ensures Fresh(ExtractFrom(entries, targets, seen, h), seen, h)
    ensures forall i :: 0 <= i < |ExtractFrom(entries, targets, seen, h).found| ==>
      ExtractFrom(entries, targets, seen, h).found[i].0 in targets
    decreases |targets|
  {
    if targets != [] {
      var init := targets[..|targets| - 1];
      ExtractFresh(entries, init, seen, h);
      var prev := ExtractFrom(entries, init, seen, h);
      assert forall t :: t in init ==> t in targets;
      if !prev.failed {
        var name := targets[|targets| - 1];
        var v := ScanFrom(entries, 0, name, prev.seen, h);
        if v.Found? {
          assert name !in init;
          forall i | 0 <= i < |prev.found| ensures Names(prev.found)[i] != name {
            assert prev.found[i].0 in init;
          }
          ScanThenRecord(entries, prev, name, seen, h);
        }
      }
    }
  }

  /** Recording what a scan found under a name not yet recorded keeps Fresh. */
  lemma ScanThenRecord(entries: seq<Entry>, prev: Extraction, name: string, seen: set<Hash>, h: Bytes -> Hash)
    requires Fresh(prev, seen, h) && name !in Names(prev.found)
    requires ScanFrom(entries, 0, name, prev.seen, h).Found?
    ensures var b := ScanFrom(entries, 0, name, prev.seen, h).bytes;
      Fresh(Extraction(prev.found + [(name, b)], prev.seen + {h(b)}, false), seen, h)
  {
    var b := ScanFrom(entries, 0, name, prev.seen, h).bytes;
    ScanFound(entries, 0, name, prev.seen, h, b);
    FreshAppend(prev, seen, h, name, b);
  }

  /** An error ends the archive: once a prefix of the targets fails, the
      later targets are not scanned. */
  lemma {:induction false} ExtractFailureFinal(entries: seq<Entry>, targets: seq<string>, k: nat, seen: set<Hash>, h: Bytes -> Hash)
    requires k <= |targets|
    requires ExtractFrom(entries, targets[..k], seen, h).failed
    ensures ExtractFrom(entries, targets, seen, h) == ExtractFrom(entries, targets[..k], seen, h)
    decreases |targets|
  {
    if k < |targets| {
      var init := targets[..|targets| - 1];
      assert init[..k] == targets[..k];
      ExtractFailureFinal(entries, init, k, seen, h);
    } else {
      assert targets[..k] == targets;
    }
  }

  /** The value found for a name, if any. */
  function Lookup(b: Batch, name: string): Option<Bytes> {
    if b == [] then None
    else if b[|b| - 1].0 == name then Some(b[|b| - 1].1)
    else Lookup(b[..|b| - 1], name)
  }

  lemma LookupAbsent(b: Batch, name: string)
    requires name !in Names(b)
    ensures Lookup(b, name) == None
  {
    if b != [] {
      assert Names(b)[|b| - 1] == b[|b| - 1].0;
      assert Names(b[..|b| - 1]) == Names(b)[..|b| - 1];
      LookupAbsent(b[..|b| - 1], name);
    }
  }

  /** The map extraire_et_copier returns holds target i exactly when the scan
      for it, run against the seen set the earlier targets left, found a
      texture, and then holds that texture. */
  lemma {:induction false} ExtractLookup(entries: seq<Entry>, targets: seq<string>, i: nat, seen: set<Hash>, h: Bytes -> Hash)
    requires NoDuplicates(targets) && i < |targets|
    requires !ExtractFrom(entries, targets, seen, h).failed
    ensures Lookup(ExtractFrom(entries, targets, seen, h).found, targets[i]) ==
      match ScanFrom(entries, 0, targets[i], ExtractFrom(entries, targets[..i], seen, h).seen, h)
        case Found(b) => Some(b)
        case _ => None
    decreases |targets|
  {
    var init := targets[..|targets| - 1];
    var name := targets[|targets| - 1];
    var prev := ExtractFrom(entries, init, seen, h);
    assert !prev.failed;
    if i < |targets| - 1 {
      assert init[..i] == targets[..i];
      assert init[i] == targets[i];
      ExtractLookup(entries, init, i, seen, h);
      assert targets[i] != name;
    } else {
      assert init == targets[..i];
      ExtractFresh(entries, init, seen, h);
      assert name !in init;
      assert name !in Names(prev.found);
      LookupAbsent(prev.found, name);
    }
  }

  /** An archive whose every entry is passed over for every target (no
      match, or only already-seen contents) yields nothing and leaves the
      seen set alone. */
  lemma {:induction false} ExtractNothingNew(entries: seq<Entry>, targets: seq<string>, seen: set<Hash>, h: Bytes -> Hash)
    requires forall t, j :: t in targets && 0 <= j < |entries| ==> Passes(entries[j], t, seen, h)
    ensures ExtractFrom(entries, targets, seen, h) == Extraction([], seen, false)
    decreases |targets|
  {
    if targets != [] {
      var init := targets[..|targets| - 1];
      assert forall t :: t in init ==> t in targets;
      ExtractNothingNew(entries, init, seen, h);
      assert targets[|targets| - 1] in targets;
      ScanAllPassed(entries, 0, targets[|targets| - 1], seen, h);
    }
  }

  /** The loose-file scan of one directory: a file qualifies only when its
      name is one of the targets exactly; a duplicate is skipped, a new one
      recorded under its name; a read error ends the whole run. */
  function Collect(dir: Directory, targets: seq<string>, seen: set<Hash>, h: Bytes -> Hash): Extraction
    decreases |dir|
  {
    if dir == [] then Extraction([], seen, false)
    else
      var prev := Collect(dir[..|dir| - 1], targets, seen, h);
      var f := dir[|dir| - 1];
      if prev.failed || f.name !in targets then prev
      else match f.data
        case None => prev.(failed := true)
        case Some(b) =>
          if h(b) in prev.seen then prev
          else Extraction(prev.found + [(f.name, b)], prev.seen + {h(b)}, false)
  }

  /** The dedup promise of the loose-file scan, and its matching rule: every
      recorded pair is a file of the directory whose name is, exactly, a target. */
  lemma {:induction false} CollectFresh(dir: Directory, targets: seq<string>, seen: set<Hash>, h: Bytes -> Hash)
    requires DistinctFileNames(dir)
    ensures Fresh(Collect(dir, targets, seen, h), seen, h)
    ensures forall i :: 0 <= i < |Collect(dir, targets, seen, h).found| ==>
      var (name, b) := Collect(dir, targets, seen, h).found[i];
      name in targets && exists j :: 0 <= j < |dir| && dir[j].name == name && dir[j].data == Some(b)
    decreases |dir|
  {
    if dir != [] {
      var init := dir[..|dir| - 1];
      var f := dir[|dir| - 1];
      CollectFresh(init, targets, seen, h);
      var prev := Collect(init, targets, seen, h);
      if !prev.failed && f.name in targets && f.data.Some? && h(f.data.value) !in prev.seen {
        forall i | 0 <= i < |prev.found| ensures Names(prev.found)[i] != f.name {
          var j :| 0 <= j < |init| && init[j].name == prev.found[i].0;
          assert dir[j].name != dir[|dir| - 1].name;
        }
        FreshAppend(prev, seen, h, f.name, f.data.value);
        var x := Collect(dir, targets, seen, h);
        forall i | 0 <= i < |x.found|
          ensures var (name, b) := x.found[i];
            name in targets && exists j :: 0 <= j < |dir| && dir[j].name == name && dir[j].data == Some(b)
        {
          if i < |prev.found| {
            var j :| 0 <= j < |init| && init[j].name == prev.found[i].0 && init[j].data == Some(prev.found[i].1);
            assert dir[j] == init[j];
          } else {
            assert dir[|dir| - 1] == f;
          }
        }
      } else {
        forall i | 0 <= i < |prev.found|
          ensures var (name, b) := prev.found[i];
            name in targets && exists j :: 0 <= j < |dir| && dir[j].name == name && dir[j].data == Some(b)
        {
          var j :| 0 <= j < |init| && init[j].name == prev.found[i].0 && init[j].data == Some(prev.found[i].1);
          assert dir[j] == init[j];
        }
      }
    }
  }

  /** File j of the directory is a target-named file that reads as content
      with hash y. */
  ghost predicate HashedAt(dir: Directory, j: int, targets: seq<string>, h: Bytes -> Hash, y: Hash) {
    0 <= j < |dir| && dir[j].name in targets && dir[j].data.Some? && h(dir[j].data.value) == y
  }

  /** The loose-file scan fails exactly when some target-named file of the
      directory cannot be read. */
  lemma {:induction false} CollectFails(dir: Directory, targets: seq<string>, seen: set<Hash>, h: Bytes -> Hash)
    ensures Collect(dir, targets, seen, h).failed <==>
      exists j :: 0 <= j < |dir| && dir[j].name in targets && dir[j].data.None?
    decreases |dir|
  {
    if dir != [] {
      var init := dir[..|dir| - 1];
      CollectFails(init, targets, seen, h);
      assert forall j :: 0 <= j < |init| ==> init[j] == dir[j];
    }
  }

  /** Without a read error, the seen set afterwards is the seen set before
      plus the hash of every target-named file of the directory, the
      duplicates included. */
  lemma {:induction false} CollectSeen(dir: Directory, targets: seq<string>, seen: set<Hash>, h: Bytes -> Hash)
    requires !Collect(dir, targets, seen, h).failed
    ensures forall y :: y in Collect(dir, targets, seen, h).seen <==>
      y in seen || exists j :: HashedAt(dir, j, targets, h, y)
    decreases |dir|
  {
    if dir != [] {
      var init := dir[..|dir| - 1];
      CollectSeen(init, targets, seen, h);
      forall y ensures y in Collect(dir, targets, seen, h).seen <==>
        y in seen || exists j :: HashedAt(dir, j, targets, h, y)
      {
        HashedAtLast(dir, init, targets, h, y);
      }
    }
  }

  /** A target-named file with hash y is in the directory exactly when it is
      in all but the last file, or is the last file. */
  lemma HashedAtLast(dir: Directory, init: Directory, targets: seq<string>, h: Bytes -> Hash, y: Hash)
    requires dir != [] && init == dir[..|dir| - 1]
    ensures (exists j :: HashedAt(dir, j, targets, h, y)) <==>
      (exists j :: HashedAt(init, j, targets, h, y)) || HashedAt(dir, |dir| - 1, targets, h, y)
  {
    if j :| HashedAt(dir, j, targets, h, y) {
      if j < |init| {
        assert HashedAt(init, j, targets, h, y);
      }
    }
    if j :| HashedAt(init, j, targets, h, y) {
      assert HashedAt(dir, j, targets, h, y);
    }
  }

  /** File j is where the loose-file scan records (n, b): it is named n,
      n is a target, it reads as b, b's hash was not seen before, and no
      earlier target-named file of the directory has that hash. */
  ghost predicate CollectsAt(dir: Directory, j: int, targets: seq<string>, seen: set<Hash>, h: Bytes -> Hash, n: string, b: Bytes) {
    && 0 <= j < |dir|
    && dir[j].name == n && n in targets && dir[j].data == Some(b)
    && h(b) !in seen
    && forall i :: 0 <= i < j ==> !HashedAt(dir, i, targets, h, h(b))
  }

  /** Without a read error, the loose-file scan records (n, b) exactly when
      some file of the directory is where it records them: every new
      target-named file is recorded, and nothing else is. */
  lemma {:induction false} CollectFound(dir: Directory, targets: seq<string>, seen: set<Hash>, h: Bytes -> Hash, n: string, b: Bytes)
    requires !Collect(dir, targets, seen, h).failed
    ensures (n, b) in Collect(dir, targets, seen, h).found <==>
      exists j :: CollectsAt(dir, j, targets, seen, h, n, b)
    decreases |dir|
  {
    if dir != [] {
      var init := dir[..|dir| - 1];
      var f := dir[|dir| - 1];
      var prev := Collect(init, targets, seen, h);
      assert !prev.failed;
      CollectFound(init, targets, seen, h, n, b);
      CollectSeen(init, targets, seen, h);
      // CollectsAt at the last file: b is new against the scan so far
      assert CollectsAt(dir, |dir| - 1, targets, seen, h, n, b) <==>
        (f.name == n && n in targets && f.data == Some(b) && h(b) !in prev.seen)
      by {
        if f.name == n && n in targets && f.data == Some(b) && h(b) !in prev.seen {
          forall i | 0 <= i < |dir| - 1 ensures !HashedAt(dir, i, targets, h, h(b)) {
            if HashedAt(dir, i, targets, h, h(b)) {
              assert HashedAt(init, i, targets, h, h(b));
            }
          }
        }
        if CollectsAt(dir, |dir| - 1, targets, seen, h, n, b) && h(b) in prev.seen {
          var i :| HashedAt(init, i, targets, h, h(b));
          assert HashedAt(dir, i, targets, h, h(b));
        }
      }
      // elsewhere CollectsAt is the same over the directory and its prefix
      forall j | 0 <= j < |init|
        ensures CollectsAt(dir, j, targets, seen, h, n, b) <==> CollectsAt(init, j, targets, seen, h, n, b)
      {
        forall i | 0 <= i < j ensures HashedAt(dir, i, targets, h, h(b)) <==> HashedAt(init, i, targets, h, h(b)) {
          assert dir[i] == init[i];
        }
      }
      if j :| CollectsAt(dir, j, targets, seen, h, n, b) {
        if j < |init| {
          assert CollectsAt(init, j, targets, seen, h, n, b);
        }
      }
      if j :| CollectsAt(init, j, targets, seen, h, n, b) {
        assert CollectsAt(dir, j, targets, seen, h, n, b);
      }
    }
  }

  /** A read error ends the loose-file scan: the later files of the
      directory are not looked at. */
  lemma {:induction false} CollectFailureFinal(dir: Directory, k: nat, targets: seq<string>, seen: set<Hash>, h: Bytes -> Hash)
    requires k <= |dir|
    requires Collect(dir[..k], targets, seen, h).failed
    ensures Collect(dir, targets, seen, h) == Collect(dir[..k], targets, seen, h)
    decreases |dir|
  {
    if k < |dir| {
      var init := dir[..|dir| - 1];
      assert init[..k] == dir[..k];
      CollectFailureFinal(init, k, targets, seen, h);
    } else {
      assert dir[..k] == dir;
    }
  }
}
