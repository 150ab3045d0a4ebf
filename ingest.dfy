/**
 * Batch ingestion (copyFiles): walk the upload map in ascending key order,
 * copy each source to its destination and, when the copy succeeds, insert a
 * material record named after the destination file, typed by the
 * destination's suffix and sized by the copied file.  The copy and the file
 * size are oracles; the database is the sequence of inserted records.
 */
module Ingest {
  import opened QtPaths
  import opened Classifier
  import opened Upload

  /** The record MaterialDao::insert receives. */
  datatype MaterialBean = MaterialBean(name: string, fileType: FileType, size: int)

  /** `keys` is the order a QMap iterator visits `m`: each key once, ascending by QString's operator<. */
  predicate AscendingKeys(keys: seq<string>, m: map<string, string>)
  {
    && (forall i, j :: 0 <= i < j < |keys| ==> QStringLess(keys[i], keys[j]))
    && (forall k :: k in keys ==> k in m)
    && (forall k :: k in m ==> k in keys)
  }

  /** Every map has exactly one visiting order: its keys in ascending QString order. */
  lemma QMapOrder(m: map<string, string>, keys: seq<string>)
    ensures AscendingKeys(AscendingOrder(m.Keys), m)
    ensures AscendingKeys(keys, m) ==> keys == AscendingOrder(m.Keys)
  {
    if AscendingKeys(keys, m) {
      AscendingUnique(keys, AscendingOrder(m.Keys));
    }
  }

  /** The record written for a copied destination. */
  function Record(cfg: SuffixConfig, dest: string, sizeOf: string -> int): MaterialBean
  {
    MaterialBean(FileName(dest), Classify(cfg, Suffix(dest)), sizeOf(dest))
  }

  /** QFile::copy: it refuses a destination that is already on disk, and
      otherwise succeeds as `copyOk` says (an unreadable source or a full
      disk make it fail). */
  predicate CopySucceeds(src: string, dst: string, onDisk: set<string>, copyOk: (string, string) -> bool)
  {
    dst !in onDisk && copyOk(src, dst)
  }

  /** The files on disk after visiting `keys`, starting from `present`. */
  function OnDisk(m: map<string, string>, keys: seq<string>, present: set<string>,
                  copyOk: (string, string) -> bool): set<string>
    requires forall k :: k in keys ==> k in m
    decreases |keys|
  {
    if keys == [] then present
    else
      var k := keys[|keys| - 1];
      var before := OnDisk(m, keys[..|keys| - 1], present, copyOk);
      if CopySucceeds(k, m[k], before, copyOk) then before + {m[k]} else before
  }

  /** The records inserted after visiting `keys`, in visiting order. */
  function Ingested(cfg: SuffixConfig, m: map<string, string>, keys: seq<string>, present: set<string>,
                    copyOk: (string, string) -> bool, sizeOf: string -> int): seq<MaterialBean>
    requires forall k :: k in keys ==> k in m
    decreases |keys|
  {
    if keys == [] then []
    else
      var k := keys[|keys| - 1];
      var init := keys[..|keys| - 1];
      Ingested(cfg, m, init, present, copyOk, sizeOf)
        + (if CopySucceeds(k, m[k], OnDisk(m, init, present, copyOk), copyOk) then [Record(cfg, m[k], sizeOf)] else [])
  }

  /** copyFiles: the loop over the map's entries, with the files on disk
      before it in `present`. */
  method CopyFiles(cfg: SuffixConfig, m: map<string, string>, keys: seq<string>, present: set<string>,
                   copyOk: (string, string) -> bool, sizeOf: string -> int)
    returns (inserted: seq<MaterialBean>, onDisk: set<string>)
    requires AscendingKeys(keys, m)
    ensures inserted == Ingested(cfg, m, keys, present, copyOk, sizeOf)
    ensures onDisk == OnDisk(m, keys, present, copyOk)
    ensures |inserted| <= |keys|
  {
    inserted, onDisk := [], present;
    var i := 0;
    while i < |keys|
      invariant 0 <= i <= |keys|
      invariant inserted == Ingested(cfg, m, keys[..i], present, copyOk, sizeOf)
      invariant onDisk == OnDisk(m, keys[..i], present, copyOk)
      invariant |inserted| <= i
    {
      VisitStep(cfg, m, keys, i, present, copyOk, sizeOf);
      var src := keys[i];
      var ok := m[src] !in onDisk && copyOk(src, m[src]);
      if ok {
        onDisk := onDisk + {m[src]};
        inserted := inserted + [Record(cfg, m[src], sizeOf)];
      }
      i := i + 1;
    }
    assert keys[..|keys|] == keys;
  }

  /** Visiting key i after the keys before it: its record and its file are
      added exactly when its copy succeeds on the disk those keys left. */
  lemma VisitStep(cfg: SuffixConfig, m: map<string, string>, keys: seq<string>, i: nat,
                  present: set<string>, copyOk: (string, string) -> bool, sizeOf: string -> int)
    requires forall k :: k in keys ==> k in m
    requires i < |keys|
    ensures var ok := CopySucceeds(keys[i], m[keys[i]], OnDisk(m, keys[..i], present, copyOk), copyOk);
            && Ingested(cfg, m, keys[..i + 1], present, copyOk, sizeOf)
               == Ingested(cfg, m, keys[..i], present, copyOk, sizeOf) + (if ok then [Record(cfg, m[keys[i]], sizeOf)] else [])
            && OnDisk(m, keys[..i + 1], present, copyOk)
               == if ok then OnDisk(m, keys[..i], present, copyOk) + {m[keys[i]]} else OnDisk(m, keys[..i], present, copyOk)
  {
    assert keys[..i + 1][..i] == keys[..i];
  }

  /** No file is overwritten and none is written twice: the disk only grows,
      by one new file per inserted record. */
  lemma {:induction false} OneFilePerRecord(cfg: SuffixConfig, m: map<string, string>, keys: seq<string>,
                                            present: set<string>, copyOk: (string, string) -> bool,
                                            sizeOf: string -> int)
    requires forall k :: k in keys ==> k in m
    ensures present <= OnDisk(m, keys, present, copyOk)
    ensures |OnDisk(m, keys, present, copyOk)| == |present| + |Ingested(cfg, m, keys, present, copyOk, sizeOf)|
    decreases |keys|
  {
    if keys != [] {
      OneFilePerRecord(cfg, m, keys[..|keys| - 1], present, copyOk, sizeOf);
    }
  }

  /** A failed copy is skipped without stopping the batch: the records and
      the disk are those of the batch with that entry left out. */
  lemma {:induction false} FailedCopySkipped(cfg: SuffixConfig, m: map<string, string>, keys: seq<string>, i: nat,
                                             present: set<string>, copyOk: (string, string) -> bool,
                                             sizeOf: string -> int)
    requires forall k :: k in keys ==> k in m
    requires i < |keys| && !CopySucceeds(keys[i], m[keys[i]], OnDisk(m, keys[..i], present, copyOk), copyOk)
    ensures Ingested(cfg, m, keys, present, copyOk, sizeOf)
            == Ingested(cfg, m, keys[..i] + keys[i + 1..], present, copyOk, sizeOf)
    ensures OnDisk(m, keys, present, copyOk) == OnDisk(m, keys[..i] + keys[i + 1..], present, copyOk)
    decreases |keys|
  {
    var n := |keys|;
    var kept := keys[..i] + keys[i + 1..];
    if i == n - 1 {
      assert kept == keys[..n - 1];
    } else {
      var init := keys[..n - 1];
      assert init[..i] == keys[..i];
      FailedCopySkipped(cfg, m, init, i, present, copyOk, sizeOf);
      assert kept[..|kept| - 1] == init[..i] + init[i + 1..];
      assert kept[|kept| - 1] == keys[n - 1];
    }
  }

  /** Visiting one key inserts its record exactly when its copy succeeds. */
  lemma IngestedSingle(cfg: SuffixConfig, m: map<string, string>, k: string, present: set<string>,
                       copyOk: (string, string) -> bool, sizeOf: string -> int)
    requires k in m
    ensures Ingested(cfg, m, [k], present, copyOk, sizeOf)
            == if CopySucceeds(k, m[k], present, copyOk) then [Record(cfg, m[k], sizeOf)] else []
    ensures OnDisk(m, [k], present, copyOk)
            == if CopySucceeds(k, m[k], present, copyOk) then present + {m[k]} else present
  {
    assert [k][..0] == [];
  }

  /** Every inserted record is that of a new file some entry could copy, and
      every new file on disk has its record. */
  lemma {:induction false} NewFilesRecorded(cfg: SuffixConfig, m: map<string, string>, keys: seq<string>,
                                            present: set<string>, copyOk: (string, string) -> bool,
                                            sizeOf: string -> int)
    requires forall k :: k in keys ==> k in m
    ensures forall r :: r in Ingested(cfg, m, keys, present, copyOk, sizeOf) ==>
              exists k :: k in keys && copyOk(k, m[k]) && m[k] !in present && r == Record(cfg, m[k], sizeOf)
    ensures forall d :: d in OnDisk(m, keys, present, copyOk) && d !in present ==>
              Record(cfg, d, sizeOf) in Ingested(cfg, m, keys, present, copyOk, sizeOf)
    ensures forall k :: k in keys && copyOk(k, m[k]) ==> m[k] in OnDisk(m, keys, present, copyOk)
    decreases |keys|
  {
    if keys != [] {
      var init := keys[..|keys| - 1];
      NewFilesRecorded(cfg, m, init, present, copyOk, sizeOf);
      OneFilePerRecord(cfg, m, init, present, copyOk, sizeOf);
      assert keys == init + [keys[|keys| - 1]];
    }
  }

  /** Every record belongs to an entry whose copy could succeed, and every
      such entry's destination is recorded, by that entry or by an earlier
      one with the same destination. */
  lemma IngestedExactly(cfg: SuffixConfig, m: map<string, string>, keys: seq<string>, present: set<string>,
                        copyOk: (string, string) -> bool, sizeOf: string -> int)
    requires forall k :: k in keys ==> k in m
    ensures forall r :: r in Ingested(cfg, m, keys, present, copyOk, sizeOf) ==>
              exists k :: k in keys && copyOk(k, m[k]) && m[k] !in present && r == Record(cfg, m[k], sizeOf)
    ensures forall k :: k in keys && copyOk(k, m[k]) && m[k] !in present ==>
              Record(cfg, m[k], sizeOf) in Ingested(cfg, m, keys, present, copyOk, sizeOf)
  {
    NewFilesRecorded(cfg, m, keys, present, copyOk, sizeOf);
  }

  /** Three entries whose second copy fails leave records for the first and the third only. */
  lemma SecondOfThreeFails(cfg: SuffixConfig, m: map<string, string>, k1: string, k2: string, k3: string,
                           present: set<string>, copyOk: (string, string) -> bool, sizeOf: string -> int)
    requires k1 in m && k2 in m && k3 in m
    requires copyOk(k1, m[k1]) && !copyOk(k2, m[k2]) && copyOk(k3, m[k3])
    requires m[k1] !in present && m[k3] !in present && m[k1] != m[k3]
    ensures Ingested(cfg, m, [k1, k2, k3], present, copyOk, sizeOf)
            == [Record(cfg, m[k1], sizeOf), Record(cfg, m[k3], sizeOf)]
  {
    var keys := [k1, k2, k3];
    assert keys[..0] == [] && keys[..1] == [k1] && keys[..2] == [k1, k2] && keys[..3] == keys;
    VisitStep(cfg, m, keys, 0, present, copyOk, sizeOf);
    VisitStep(cfg, m, keys, 1, present, copyOk, sizeOf);
    VisitStep(cfg, m, keys, 2, present, copyOk, sizeOf);
  }

  /** Two entries with one destination: the first copy is stored and
      recorded, the second is refused, so its file is not stored at all. */
  lemma SharedDestinationLosesSecond(cfg: SuffixConfig, m: map<string, string>, k1: string, k2: string,
                                     present: set<string>, copyOk: (string, string) -> bool,
                                     sizeOf: string -> int)
    requires k1 in m && k2 in m && m[k1] == m[k2] && m[k1] !in present
    requires copyOk(k1, m[k1]) && copyOk(k2, m[k2])
    ensures Ingested(cfg, m, [k1, k2], present, copyOk, sizeOf) == [Record(cfg, m[k1], sizeOf)]
    ensures OnDisk(m, [k1, k2], present, copyOk) == present + {m[k1]}
  {
    IngestedSingle(cfg, m, k1, present, copyOk, sizeOf);
    assert [k1, k2][..1] == [k1];
  }

  /** Ingesting an upload map types every record by its source's suffix, and never as VoidType. */
  lemma {:induction false} UploadRecordsTyped(cfg: SuffixConfig, root: string, existing: set<string>,
                                              sources: seq<string>, src: string, sizeOf: string -> int)
    requires src in UploadMap(cfg, root, existing, sources)
    ensures Record(cfg, UploadMap(cfg, root, existing, sources)[src], sizeOf).fileType
            == Classify(cfg, Suffix(src))
    ensures Record(cfg, UploadMap(cfg, root, existing, sources)[src], sizeOf).fileType != VoidType
  {
    UploadMapEntries(cfg, root, existing, sources);
    DestinationShape(cfg, root, existing, src, UploadMap(cfg, root, existing, sources)[src]);
  }

  /** Ingesting an upload map against the disk the handler looked at: every
      entry whose copy can succeed has its destination recorded, since no
      destination was on disk before. */
  lemma UploadBatchRecorded(cfg: SuffixConfig, root: string, existing: set<string>, sources: seq<string>,
                            keys: seq<string>, copyOk: (string, string) -> bool, sizeOf: string -> int)
    requires AscendingKeys(keys, UploadMap(cfg, root, existing, sources))
    ensures var m := UploadMap(cfg, root, existing, sources);
            forall k :: k in keys && copyOk(k, m[k]) ==>
              Record(cfg, m[k], sizeOf) in Ingested(cfg, m, keys, existing, copyOk, sizeOf)
  {
    var m := UploadMap(cfg, root, existing, sources);
    UploadMapAvoidsExisting(cfg, root, existing, sources);
    IngestedExactly(cfg, m, keys, existing, copyOk, sizeOf);
  }
}
