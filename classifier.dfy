/**
 * Suffix classification of the material panel: the six suffix lists read
 * from the [FileType] group of the configuration (setSuffixList), the
 * first-match classification over them (setFileType) and the category
 * folder an upload is stored under.
 */
module Classifier {
  import opened QtPaths

  /** The categories of a material file; VoidType marks an unknown suffix. */
  datatype FileType =
    | ProgramType | VideoType | AudioType | ImageType | DocumentType | OtherType
    | VoidType

  /** The six suffix lists, as held in the panel's members. */
  datatype SuffixConfig = SuffixConfig(
    program: seq<string>,
    audio: seq<string>,
    video: seq<string>,
    image: seq<string>,
    document: seq<string>,
    other: seq<string>)

  /** The list configured for a category (none for VoidType). */
  function ListFor(cfg: SuffixConfig, t: FileType): seq<string>
  {
    match t
    case ProgramType => cfg.program
    case AudioType => cfg.audio
    case VideoType => cfg.video
    case ImageType => cfg.image
    case DocumentType => cfg.document
    case OtherType => cfg.other
    case VoidType => []
  }

  /** Position of a category in the order setFileType tests the lists; VoidType comes last. */
  function Rank(t: FileType): nat
  {
    match t
    case AudioType => 0
    case VideoType => 1
    case ImageType => 2
    case DocumentType => 3
    case OtherType => 4
    case ProgramType => 5
    case VoidType => 6
  }

  /** Every configured suffix is non-empty and holds no '/'. */
  ghost predicate WellFormed(cfg: SuffixConfig)
  {
    forall t, s :: s in ListFor(cfg, t) ==> |s| > 0 && '/' !in s
  }

  /** setSuffixList: each configured string split on '/' with empty parts skipped. */
  function LoadSuffixLists(program: string, audio: string, video: string,
                           image: string, document: string, other: string): (cfg: SuffixConfig)
    ensures WellFormed(cfg)
  {
    SplitPartsClean(program, '/');
    SplitPartsClean(audio, '/');
    SplitPartsClean(video, '/');
    SplitPartsClean(image, '/');
    SplitPartsClean(document, '/');
    SplitPartsClean(other, '/');
    SuffixConfig(SplitSkipEmpty(program, '/'), SplitSkipEmpty(audio, '/'),
                 SplitSkipEmpty(video, '/'), SplitSkipEmpty(image, '/'),
                 SplitSkipEmpty(document, '/'), SplitSkipEmpty(other, '/'))
  }

  /** setFileType: the category of the first list, in the order Audio, Video, Image,
      Document, Other, Program, that contains the suffix; VoidType if none does. */
  function Classify(cfg: SuffixConfig, suffix: string): (t: FileType)
    ensures t != VoidType ==> suffix in ListFor(cfg, t)
    ensures forall c :: Rank(c) < Rank(t) ==> suffix !in ListFor(cfg, c)
  {
    if suffix in cfg.audio then AudioType
    else if suffix in cfg.video then VideoType
    else if suffix in cfg.image then ImageType
    else if suffix in cfg.document then DocumentType
    else if suffix in cfg.other then OtherType
    else if suffix in cfg.program then ProgramType
    else VoidType
  }

  /** The two properties of Classify's contract determine its result: it is exactly the first match. */
  lemma ClassifyIsFirstMatch(cfg: SuffixConfig, suffix: string, t: FileType)
    requires t != VoidType ==> suffix in ListFor(cfg, t)
    requires forall c :: Rank(c) < Rank(t) ==> suffix !in ListFor(cfg, c)
    ensures Classify(cfg, suffix) == t
  {
  }

  /** A suffix configured under exactly one category is classified as that category. */
  lemma UniqueListClassifies(cfg: SuffixConfig, suffix: string, t: FileType)
    requires t != VoidType && suffix in ListFor(cfg, t)
    requires forall c :: c != t ==> suffix !in ListFor(cfg, c)
    ensures Classify(cfg, suffix) == t
  {
    ClassifyIsFirstMatch(cfg, suffix, t);
  }

  /** Classification answers VoidType exactly when no list holds the suffix. */
  lemma VoidIffUnlisted(cfg: SuffixConfig, suffix: string)
    ensures Classify(cfg, suffix) == VoidType <==> forall c :: suffix !in ListFor(cfg, c)
  {
    var r := Classify(cfg, suffix);
    if r != VoidType {
      assert suffix in ListFor(cfg, r);
    } else {
      forall c ensures suffix !in ListFor(cfg, c) {
        assert Rank(c) < Rank(r) || c == VoidType;
      }
    }
  }

  /** With lists read by setSuffixList, a file without suffix is never classified. */
  lemma EmptySuffixUnclassified(program: string, audio: string, video: string,
                                image: string, document: string, other: string)
    ensures Classify(LoadSuffixLists(program, audio, video, image, document, other), "") == VoidType
  {
    var cfg := LoadSuffixLists(program, audio, video, image, document, other);
    assert WellFormed(cfg);
  }

  /** The folder under Source/ that holds a category. */
  function Folder(t: FileType): (f: string)
    requires t != VoidType
    ensures |f| > 0 && '/' !in f
  {
    match t
    case ProgramType => "Program"
    case VideoType => "Video"
    case AudioType => "Audio"
    case ImageType => "Image"
    case DocumentType => "Document"
    case OtherType => "Other"
  }

  /** Distinct categories are stored in distinct folders. */
  lemma FolderInjective(t: FileType, u: FileType)
    requires t != VoidType && u != VoidType && t != u
    ensures Folder(t) != Folder(u)
  {
  }
}
