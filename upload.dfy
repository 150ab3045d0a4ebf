/**
 * The upload handler's path bookkeeping: each selected file is classified,
 * given the destination root/Source/<Category>/<fileName>, renamed to
 * <completeBaseName>(j).<suffix> while that path already exists, and
 * recorded in a map from source path to destination path.  The filesystem
 * is the set `existing` of paths that exist when the handler runs.
 */
module Upload {
  import opened Wrappers
  import opened QtPaths
  import opened Classifier

  /** The largest counter whose candidate the rename loop tests: the loop runs
      for j = 1 .. 9999 and tests, in round j, the name built in round j - 1. */
  const LastCounter: nat := 9998

  /** The name the rename loop builds in round j: a directory, a base name with
      "(j)" appended, a dot and a suffix. */
  function Renamed(dir: string, base: string, j: nat, suffix: string): string
  {
    dir + "/" + base + "(" + NumStr(j) + ")." + suffix
  }

  /** The k-th name the rename loop tries for `initial`: the path itself, then
      its complete base name with "(k)" appended before the suffix. */
  function Candidate(initial: string, k: nat): string
  {
    if k == 0 then initial
    else Renamed(PathOf(initial), CompleteBaseName(initial), k, Suffix(initial))
  }

  /** A renamed candidate stays in the same directory and keeps the suffix. */
  lemma CandidateShape(initial: string, k: nat)
    ensures PathOf(Candidate(initial, k)) == PathOf(initial)
    ensures Suffix(Candidate(initial, k)) == Suffix(initial)
  {
    if k > 0 {
      CandidateFileName(initial, k);
    }
  }

  /** A renamed candidate's file name is the original complete base name, "(k)." and the suffix. */
  lemma CandidateFileName(initial: string, k: nat)
    requires k > 0
    ensures PathOf(Candidate(initial, k)) == PathOf(initial)
    ensures Suffix(Candidate(initial, k)) == Suffix(initial)
    ensures FileName(Candidate(initial, k)) == CompleteBaseName(initial) + "(" + NumStr(k) + ")." + Suffix(initial)
  {
    NumStrDigits(k);
    DigitsHaveNoSlash(NumStr(k));
    PathPartsClean(initial);
    TaggedPath(PathOf(initial), CompleteBaseName(initial), NumStr(k), Suffix(initial));
  }

  /** Every candidate the loop tries is a different path: the counter is
      applied to the original base name, never to an earlier candidate. */
  lemma CandidatesDistinct(initial: string, i: nat, k: nat)
    requires i < k
    ensures Candidate(initial, i) != Candidate(initial, k)
  {
    CandidateShape(initial, i);
    CandidateFileName(initial, k);
    if i > 0 {
      CandidateFileName(initial, i);
    }
    var n := FileName(initial);
    if i == 0 {
      TaggedNameLonger(n, NumStr(k));
    } else if Candidate(initial, i) == Candidate(initial, k) {
      TaggedNameInjective(NameBase(n), NumStr(i), NumStr(k), NameSuffix(n));
      NumStrValue(i);
      NumStrValue(k);
    }
  }

  /** The first counter from `j` on whose candidate does not exist, if the loop reaches one. */
  function FirstFreeIndex(existing: set<string>, initial: string, j: nat): (r: Option<nat>)
    requires j <= LastCounter
    ensures r.Some? ==> j <= r.value <= LastCounter && Candidate(initial, r.value) !in existing
    decreases LastCounter - j
  {
    if Candidate(initial, j) !in existing then Some(j)
    else if j == LastCounter then None
    else FirstFreeIndex(existing, initial, j + 1)
  }

  /** Every candidate the search passes over exists: those before the one it finds,
      or all of them up to LastCounter when it finds none. */
  lemma {:induction false} FirstFreeIndexSkips(existing: set<string>, initial: string, j: nat)
    requires j <= LastCounter
    ensures FirstFreeIndex(existing, initial, j).Some? ==>
              forall i :: j <= i < FirstFreeIndex(existing, initial, j).value ==> Candidate(initial, i) in existing
    ensures FirstFreeIndex(existing, initial, j).None? ==>
              forall i :: j <= i <= LastCounter ==> Candidate(initial, i) in existing
    decreases LastCounter - j
  {
    if Candidate(initial, j) in existing && j < LastCounter {
      FirstFreeIndexSkips(existing, initial, j + 1);
    }
  }

  /** A free candidate preceded only by existing ones is the one FirstFreeIndex finds. */
  lemma {:induction false} FirstFreeIndexIs(existing: set<string>, initial: string, j: nat, k: nat)
    requires j <= k <= LastCounter
    requires Candidate(initial, k) !in existing
    requires forall i :: j <= i < k ==> Candidate(initial, i) in existing
    ensures FirstFreeIndex(existing, initial, j) == Some(k)
    decreases k - j
  {
    if j < k {
      FirstFreeIndexIs(existing, initial, j + 1, k);
    }
  }

  /** The destination the rename search settles on, or None once every candidate exists. */
  function Resolve(existing: set<string>, initial: string): Option<string>
  {
    match FirstFreeIndex(existing, initial, 0)
    case Some(k) => Some(Candidate(initial, k))
    case None => None
  }

  /** The rename search (the loop over j in the upload handler): while the current
      name exists, build the next one from the current name's directory and suffix. */
  method ResolveCollision(existing: set<string>, initial: string) returns (r: Option<string>)
    ensures r == Resolve(existing, initial)
    ensures r.Some? ==> r.value !in existing
    ensures initial !in existing ==> r == Some(initial)
  {
    var fileName := initial;
    var baseName := CompleteBaseName(initial);
    var j := 1;
    while j < 10000
      invariant 1 <= j <= 10000
      invariant fileName == Candidate(initial, j - 1)
      invariant forall i :: 0 <= i < j - 1 ==> Candidate(initial, i) in existing
    {
      if fileName !in existing {
        FirstFreeIndexIs(existing, initial, 0, j - 1);
        r := Some(fileName);
        return;
      }
      fileName := RenameStep(fileName, baseName, j, initial);
      j := j + 1;
    }
    SearchExhausted(existing, initial);
    r := None;
  }

  /** One round of the rename loop: the name made of the current name's directory,
      the original complete base name, "(j)." and the current name's suffix,
      which is candidate j when the current name is candidate j - 1. */
  method RenameStep(fileName: string, baseName: string, j: nat, ghost initial: string) returns (next: string)
    requires j >= 1 && fileName == Candidate(initial, j - 1) && baseName == CompleteBaseName(initial)
    ensures next == Candidate(initial, j)
  {
    CandidateShape(initial, j - 1);
    NextCandidate(initial, fileName, j);
    next := Renamed(PathOf(fileName), baseName, j, Suffix(fileName));
  }

  /** The name the loop builds in round j from a name in the original's directory
      with the original's suffix, such as candidate j - 1, is candidate j. */
  lemma NextCandidate(initial: string, prev: string, j: nat)
    requires j >= 1 && PathOf(prev) == PathOf(initial) && Suffix(prev) == Suffix(initial)
    ensures Renamed(PathOf(prev), CompleteBaseName(initial), j, Suffix(prev)) == Candidate(initial, j)
  {
  }

  /** root/Source/<Category>/<name>: where an upload of category `t` goes first. */
  function InitialDestination(root: string, t: FileType, name: string): string
    requires t != VoidType
  {
    root + "/Source/" + Folder(t) + "/" + name
  }

  /** The directory and file name of the initial destination are the category folder and the name. */
  lemma InitialDestinationParts(root: string, t: FileType, name: string)
    requires t != VoidType && '/' !in name
    ensures PathOf(InitialDestination(root, t, name)) == root + "/Source/" + Folder(t)
    ensures FileName(InitialDestination(root, t, name)) == name
  {
    var dir := root + "/Source/" + Folder(t);
    assert InitialDestination(root, t, name) == dir + "/" + name;
    JoinedPath(dir, name);
  }

  /** The destination chosen for one selected file, or None when it is skipped. */
  function Destination(cfg: SuffixConfig, root: string, existing: set<string>, src: string): Option<string>
  {
    var t := Classify(cfg, Suffix(src));
    if t == VoidType then None
    else Resolve(existing, InitialDestination(root, t, FileName(src)))
  }

  /** What a chosen destination looks like: it did not exist, it lies in the
      category's folder, it keeps the source's suffix (so it classifies the
      same), and its name is the source's or the source's base name with a
      counter from 1 to 9998. */
  lemma DestinationShape(cfg: SuffixConfig, root: string, existing: set<string>, src: string, d: string)
    requires Destination(cfg, root, existing, src) == Some(d)
    ensures Classify(cfg, Suffix(src)) != VoidType
    ensures d !in existing
    ensures PathOf(d) == root + "/Source/" + Folder(Classify(cfg, Suffix(src)))
    ensures Suffix(d) == Suffix(src)
    ensures Classify(cfg, Suffix(d)) == Classify(cfg, Suffix(src))
    ensures d == InitialDestination(root, Classify(cfg, Suffix(src)), FileName(src))
            || exists k :: 1 <= k <= LastCounter
                 && FileName(d) == CompleteBaseName(src) + "(" + NumStr(k) + ")." + Suffix(src)
  {
    var t := Classify(cfg, Suffix(src));
    var initial := InitialDestination(root, t, FileName(src));
    FileNameHasNoSlash(src);
    InitialDestinationParts(root, t, FileName(src));
    var k := FirstFreeIndex(existing, initial, 0).value;
    CandidateShape(initial, k);
    if k > 0 {
      CandidateFileName(initial, k);
    }
    assert d == Candidate(initial, k);
  }

  /** A file whose first destination is free is stored there unchanged. */
  lemma FreeDestinationKept(cfg: SuffixConfig, root: string, existing: set<string>, src: string)
    requires Classify(cfg, Suffix(src)) != VoidType
    requires InitialDestination(root, Classify(cfg, Suffix(src)), FileName(src)) !in existing
    ensures Destination(cfg, root, existing, src)
            == Some(InitialDestination(root, Classify(cfg, Suffix(src)), FileName(src)))
  {
  }

  /** A file whose name and every renamed variant up to (9998) exist is skipped. */
  lemma ExhaustedSkipped(cfg: SuffixConfig, root: string, existing: set<string>, src: string)
    requires Classify(cfg, Suffix(src)) != VoidType
    requires forall k :: 0 <= k <= LastCounter ==>
      Candidate(InitialDestination(root, Classify(cfg, Suffix(src)), FileName(src)), k) in existing
    ensures Destination(cfg, root, existing, src) == None
  {
    SearchExhausted(existing, InitialDestination(root, Classify(cfg, Suffix(src)), FileName(src)));
  }

  /** When every candidate up to LastCounter exists, the search gives up. */
  lemma SearchExhausted(existing: set<string>, initial: string)
    requires forall k :: 0 <= k <= LastCounter ==> Candidate(initial, k) in existing
    ensures Resolve(existing, initial) == None
  {
  }

  /** The k-th candidate for dir/b.s is dir/b(k).s. */
  lemma DottedCandidate(dir: string, b: string, s: string, k: nat)
    requires |dir| > 0 && '/' !in b && '/' !in s && '.' !in s && k > 0
    ensures Candidate(dir + "/" + (b + "." + s), k) == dir + "/" + b + "(" + NumStr(k) + ")." + s
  {
    var name := b + "." + s;
    JoinedPath(dir, name);
    DottedName(b, s);
  }

  /** The k-th renamed candidate for dir/a.jpg. */
  lemma JpgCandidate(dir: string, k: nat)
    requires |dir| > 0 && k > 0
    ensures Candidate(dir + "/a.jpg", k) == dir + ("/" + "a" + "(" + NumStr(k) + ")." + "jpg")
  {
    assert dir + "/a.jpg" == dir + "/" + ("a" + "." + "jpg");
    DottedCandidate(dir, "a", "jpg", k);
    Reassociate(dir, NumStr(k));
  }

  /** Regrouping the concatenation of a renamed a.jpg after its directory. */
  lemma Reassociate(dir: string, tag: string)
    ensures dir + "/" + "a" + "(" + tag + ")." + "jpg" == dir + ("/" + "a" + "(" + tag + ")." + "jpg")
  {
  }

  /** The text of counter 1 inside a renamed a.jpg. */
  lemma TagOne()
    ensures "/" + "a" + "(" + NumStr(1) + ")." + "jpg" == "/a(1).jpg"
  {
  }

  /** The text of counter 2 inside a renamed a.jpg. */
  lemma TagTwo()
    ensures "/" + "a" + "(" + NumStr(2) + ")." + "jpg" == "/a(2).jpg"
  {
  }

  /** A selected a.jpg that classifies as an image is resolved from root/Source/Image/a.jpg. */
  lemma ImageUpload(cfg: SuffixConfig, root: string, existing: set<string>, src: string)
    requires FileName(src) == "a.jpg" && Classify(cfg, "jpg") == ImageType
    ensures Destination(cfg, root, existing, src) == Resolve(existing, root + "/Source/Image" + "/a.jpg")
  {
    DottedName("a", "jpg");
    assert "a.jpg" == "a" + "." + "jpg";
    assert InitialDestination(root, ImageType, "a.jpg") == root + "/Source/" + "Image" + "/" + "a.jpg";
    ImageFolderLiteral(root);
  }

  /** Regrouping the first destination of a.jpg in the image folder. */
  lemma ImageFolderLiteral(root: string)
    ensures root + "/Source/" + "Image" + "/" + "a.jpg" == root + "/Source/Image" + "/a.jpg"
  {
  }

  /** The search settles on a free candidate preceded only by existing ones. */
  lemma ResolveAt(existing: set<string>, initial: string, k: nat)
    requires k <= LastCounter && Candidate(initial, k) !in existing
    requires forall i :: 0 <= i < k ==> Candidate(initial, i) in existing
    ensures Resolve(existing, initial) == Some(Candidate(initial, k))
  {
    FirstFreeIndexIs(existing, initial, 0, k);
  }

  /** With only the path itself present, the search settles on its first renamed variant. */
  lemma FirstRename(initial: string)
    ensures Resolve({initial}, initial) == Some(Candidate(initial, 1))
  {
    CandidatesDistinct(initial, 0, 1);
    ResolveAt({initial}, initial, 1);
  }

  /** With the path and its first variant present, the search settles on the second variant. */
  lemma SecondRename(initial: string)
    ensures Resolve({initial, Candidate(initial, 1)}, initial) == Some(Candidate(initial, 2))
  {
    var existing := {initial, Candidate(initial, 1)};
    CandidatesDistinct(initial, 0, 2);
    CandidatesDistinct(initial, 1, 2);
    assert Candidate(initial, 0) in existing;
    ResolveAt(existing, initial, 2);
  }

  /** Uploading a.jpg next to an existing a.jpg stores it as a(1).jpg. */
  lemma RenameScenarioFirst(cfg: SuffixConfig, root: string, src: string)
    requires FileName(src) == "a.jpg" && Classify(cfg, "jpg") == ImageType
    ensures var dir := root + "/Source/Image";
            Destination(cfg, root, {dir + "/a.jpg"}, src) == Some(dir + "/a(1).jpg")
  {
    var dir := root + "/Source/Image";
    var initial := dir + "/a.jpg";
    ImageUpload(cfg, root, {initial}, src);
    JpgCandidate(dir, 1);
    TagOne();
    FirstRename(initial);
  }

  /** With a.jpg and a(1).jpg both present, the next a.jpg is stored as a(2).jpg. */
  lemma RenameScenarioSecond(cfg: SuffixConfig, root: string, src: string)
    requires FileName(src) == "a.jpg" && Classify(cfg, "jpg") == ImageType
    ensures var dir := root + "/Source/Image";
            Destination(cfg, root, {dir + "/a.jpg", dir + "/a(1).jpg"}, src) == Some(dir + "/a(2).jpg")
  {
    var dir := root + "/Source/Image";
    var initial := dir + "/a.jpg";
    JpgCandidate(dir, 1);
    JpgCandidate(dir, 2);
    TagOne();
    TagTwo();
    assert Candidate(initial, 1) == dir + "/a(1).jpg";
    ImageUpload(cfg, root, {initial, Candidate(initial, 1)}, src);
    SecondRename(initial);
  }

  /** Files with different names can share a destination too: a.jpg and
      a(1).jpg, selected together next to a stored a.jpg, are both sent to
      a(1).jpg, because the renamed a.jpg is not checked against the other
      selected files. */
  lemma DistinctNamesCollide(cfg: SuffixConfig, root: string, s1: string, s2: string)
    requires FileName(s1) == "a.jpg" && FileName(s2) == "a(1).jpg" && Classify(cfg, "jpg") == ImageType
    ensures var dir := root + "/Source/Image";
            && Destination(cfg, root, {dir + "/a.jpg"}, s1) == Some(dir + "/a(1).jpg")
            && Destination(cfg, root, {dir + "/a.jpg"}, s2) == Some(dir + "/a(1).jpg")
  {
    var dir := root + "/Source/Image";
    var tagged := dir + "/a(1).jpg";
    RenameScenarioFirst(cfg, root, s1);
    TaggedImageUpload(cfg, root, {dir + "/a.jpg"}, s2);
    assert |tagged| != |dir + "/a.jpg"|;
    ResolveAt({dir + "/a.jpg"}, tagged, 0);
  }

  /** A selected a(1).jpg that classifies as an image is resolved from root/Source/Image/a(1).jpg. */
  lemma TaggedImageUpload(cfg: SuffixConfig, root: string, existing: set<string>, src: string)
    requires FileName(src) == "a(1).jpg" && Classify(cfg, "jpg") == ImageType
    ensures Destination(cfg, root, existing, src) == Resolve(existing, root + "/Source/Image" + "/a(1).jpg")
  {
    TaggedJpgSuffix();
    assert InitialDestination(root, ImageType, "a(1).jpg") == root + "/Source/" + "Image" + "/" + "a(1).jpg";
    TaggedFolderLiteral(root);
  }

  /** The suffix of a(1).jpg is jpg. */
  lemma TaggedJpgSuffix()
    ensures NameSuffix("a(1).jpg") == "jpg"
  {
    assert "a(1).jpg" == "a" + "(" + "1" + ")." + "jpg";
    TaggedName("a", "1", "jpg");
  }

  /** Regrouping the first destination of a(1).jpg in the image folder. */
  lemma TaggedFolderLiteral(root: string)
    ensures root + "/Source/" + "Image" + "/" + "a(1).jpg" == root + "/Source/Image" + "/a(1).jpg"
  {
  }

  /** The upload map after the first files of the selection: later insertions
      of the same source replace earlier ones, as QMap::insert does. */
  function UploadMap(cfg: SuffixConfig, root: string, existing: set<string>, sources: seq<string>): map<string, string>
    decreases |sources|
  {
    if sources == [] then map[]
    else
      var m := UploadMap(cfg, root, existing, sources[..|sources| - 1]);
      var src := sources[|sources| - 1];
      match Destination(cfg, root, existing, src)
      case Some(d) => m[src := d]
      case None => m
  }

  /** The upload map holds exactly the selected files that got a destination, each with that destination. */
  lemma {:induction false} UploadMapEntries(cfg: SuffixConfig, root: string, existing: set<string>, sources: seq<string>)
    ensures forall src :: src in UploadMap(cfg, root, existing, sources)
              <==> src in sources && Destination(cfg, root, existing, src).Some?
    ensures forall src :: src in UploadMap(cfg, root, existing, sources) ==>
              Some(UploadMap(cfg, root, existing, sources)[src]) == Destination(cfg, root, existing, src)
    decreases |sources|
  {
    if sources != [] {
      var init := sources[..|sources| - 1];
      UploadMapEntries(cfg, root, existing, init);
      assert sources == init + [sources[|sources| - 1]];
    }
  }

  /** No destination in the upload map existed when the handler looked. */
  lemma UploadMapAvoidsExisting(cfg: SuffixConfig, root: string, existing: set<string>, sources: seq<string>)
    ensures forall src :: src in UploadMap(cfg, root, existing, sources) ==>
              UploadMap(cfg, root, existing, sources)[src] !in existing
  {
    UploadMapEntries(cfg, root, existing, sources);
    forall src | src in UploadMap(cfg, root, existing, sources)
      ensures UploadMap(cfg, root, existing, sources)[src] !in existing
    {
      DestinationShape(cfg, root, existing, src, UploadMap(cfg, root, existing, sources)[src]);
    }
  }

  /** Existence is checked against the filesystem only: two selected files with
      the same name, one mapped, are both mapped to the same destination. */
  lemma SameNameSameDestination(cfg: SuffixConfig, root: string, existing: set<string>,
                                sources: seq<string>, s1: string, s2: string)
    requires s1 in sources && s2 in sources && FileName(s1) == FileName(s2)
    requires s1 in UploadMap(cfg, root, existing, sources)
    ensures s2 in UploadMap(cfg, root, existing, sources)
    ensures UploadMap(cfg, root, existing, sources)[s1] == UploadMap(cfg, root, existing, sources)[s2]
  {
    UploadMapEntries(cfg, root, existing, sources);
  }

  /** The loop over the selected files in the upload handler. */
  method BuildUploadMap(cfg: SuffixConfig, root: string, existing: set<string>, sources: seq<string>)
    returns (m: map<string, string>)
    ensures m == UploadMap(cfg, root, existing, sources)
    ensures forall src :: src in m ==> src in sources && m[src] !in existing
  {
    m := map[];
    for i := 0 to |sources|
      invariant m == UploadMap(cfg, root, existing, sources[..i])
    {
      assert sources[..i + 1][..i] == sources[..i];
      var src := sources[i];
      var t := Classify(cfg, Suffix(src));
      if t == VoidType {
        continue;
      }
      var r := ResolveCollision(existing, InitialDestination(root, t, FileName(src)));
      if r.Some? {
        m := m[src := r.value];
      }
    }
    assert sources[..|sources|] == sources;
    UploadMapEntries(cfg, root, existing, sources);
    UploadMapAvoidsExisting(cfg, root, existing, sources);
  }
}
