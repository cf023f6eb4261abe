/** The (image, mask) pair index built by `SegmentationTestSet.__init__` in
    efficientnet_pytorch/test_segmentation.py (lines 41-52), and its `__len__`
    (lines 57-58).  The filesystem is an immutable snapshot; a directory's
    listing is the sequence of its children, in enumeration order. */
module SegmentationIndex {

  import opened Wrappers
  import opened Seqs
  import opened FileNames

  /** A directory entry as `os.scandir` / `os.listdir` report it. */
  datatype Entry = File(name: string) | Dir(name: string, children: seq<Entry>)

  /** One element of `self.samples`: (image file name, mask file name). */
  type Sample = (string, string)

  /** The listing of an entry.  The indexer lists only entries it has already
      found to be directories, so the `File` case is never used by it. */
  function Listing(e: Entry): seq<Entry> {
    if e.Dir? then e.children else []
  }

  /** `os.listdir(d)`: the names of a listing, files and directories alike. */
  function Names(entries: seq<Entry>): (names: seq<string>)
    ensures |names| == |entries|
    ensures forall k :: 0 <= k < |entries| ==> names[k] == entries[k].name
  {
    seq(|entries|, k requires 0 <= k < |entries| => entries[k].name)
  }

  /** Line 45: a root entry is scanned when it is a directory listing some entry named '1'. */
  predicate IsScannedSubdir(e: Entry) {
    e.Dir? && "1" in Names(e.children)
  }

  /** A name is in a listing's names exactly when some entry of the listing has it. */
  lemma ListsEntryNamed(entries: seq<Entry>, n: string)
    ensures n in Names(entries) <==> exists c :: c in entries && c.name == n
  {
    if n in Names(entries) {
      var k :| 0 <= k < |entries| && Names(entries)[k] == n;
      assert entries[k] in entries;
    }
    if exists c :: c in entries && c.name == n {
      var c :| c in entries && c.name == n;
      var k :| 0 <= k < |entries| && entries[k] == c;
      assert Names(entries)[k] == n;
    }
  }

  /** Line 45 scans a root entry exactly when it is a directory with some child,
      file or directory, named '1'. */
  lemma ScannedSubdirIff(e: Entry)
    ensures IsScannedSubdir(e) <==> e.Dir? && exists c :: c in e.children && c.name == "1"
  {
    if e.Dir? {
      ListsEntryNamed(e.children, "1");
    }
  }

  /** Line 47: a child counts when it is a directory named exactly '1'. */
  predicate IsPositiveDir(e: Entry) {
    e.Dir? && e.name == "1"
  }

  /** The list built on line 45. */
  function ScannedSubdirs(root: seq<Entry>): seq<Entry> {
    Filter(IsScannedSubdir, root)
  }

  /** `pos_dirs`, the list built on line 47 for one scanned subdirectory. */
  function PositiveDirs(subdir: Entry): seq<Entry> {
    Filter(IsPositiveDir, Listing(subdir))
  }

  /** `valid_imgs`, the list built on line 49 for one '1' directory. */
  function ValidImages(posDir: Entry): seq<string> {
    Filter(IsValidImage, Names(Listing(posDir)))
  }

  predicate AllValid(imgs: seq<string>) {
    forall k :: 0 <= k < |imgs| ==> IsValidImage(imgs[k])
  }

  /** Lines 51-52 for one accepted name: the name and its mask name. */
  function SampleFor(img: string): (p: Sample)
    requires IsValidImage(img)
    ensures p.0 == img && MaskName(img) == Some(p.1)
  {
    ValidImageHasStem(img);
    (img, MaskName(img).value)
  }

  /** The sample is the name paired with its stem followed by `_true_seg.png`. */
  lemma SampleForStem(img: string)
    requires IsValidImage(img)
    ensures ExtractStem(img).Some?
    ensures SampleFor(img) == (img, ExtractStem(img).value + MaskSuffix)
  {
    ValidImageHasStem(img);
  }

  /** Lines 50-52 for one `valid_imgs` list: its names, in order, each paired with its mask. */
  function SamplesOf(imgs: seq<string>): (r: seq<Sample>)
    requires AllValid(imgs)
    ensures |r| == |imgs|
    ensures forall k :: 0 <= k < |imgs| ==> r[k].0 == imgs[k] && MaskName(imgs[k]) == Some(r[k].1)
  {
    if imgs == [] then []
    else SamplesOf(imgs[..|imgs| - 1]) + [SampleFor(imgs[|imgs| - 1])]
  }

  /** Visiting one more name of `imgs` appends its sample. */
  lemma SamplesOfPrefix(imgs: seq<string>, k: nat)
    requires AllValid(imgs) && k < |imgs|
    ensures AllValid(imgs[..k]) && AllValid(imgs[..k + 1])
    ensures SamplesOf(imgs[..k + 1]) == SamplesOf(imgs[..k]) + [SampleFor(imgs[k])]
  {
    assert imgs[..k + 1][..k] == imgs[..k];
  }

  /** What one '1' directory contributes (lines 49-52). */
  function DirSamples(posDir: Entry): seq<Sample> {
    SamplesOf(ValidImages(posDir))
  }

  /** What one scanned subdirectory contributes (lines 47-52). */
  function SubdirSamples(subdir: Entry): seq<Sample> {
    Concat(DirSamples, PositiveDirs(subdir))
  }

  /** The final value of `self.samples` for the snapshot `root` (lines 44-52). */
  function Index(root: seq<Entry>): seq<Sample> {
    Concat(SubdirSamples, ScannedSubdirs(root))
  }

  // ---------------------------------------------------------------------------
  // What the index contains.
  // ---------------------------------------------------------------------------

  /** `img` is listed in a '1' directory of a scanned subdirectory of `root`. */
  ghost predicate InPositiveDir(root: seq<Entry>, img: string) {
    exists sub, pd :: sub in root && IsScannedSubdir(sub) && pd in sub.children
      && IsPositiveDir(pd) && img in Names(pd.children)
  }

  lemma SamplesOfMembers(imgs: seq<string>, p: Sample)
    requires AllValid(imgs)
    ensures p in SamplesOf(imgs) <==> p.0 in imgs && MaskName(p.0) == Some(p.1)
  {
    var r := SamplesOf(imgs);
    if p.0 in imgs && MaskName(p.0) == Some(p.1) {
      var k :| 0 <= k < |imgs| && imgs[k] == p.0;
      assert r[k] == p;
    }
  }

  /** Every sample is an accepted name of some scanned '1' directory paired with
      its mask name, and every such name yields that sample. */
  lemma IndexMembers(root: seq<Entry>, p: Sample)
    ensures p in Index(root) <==>
      IsValidImage(p.0) && MaskName(p.0) == Some(p.1) && InPositiveDir(root, p.0)
  {
    ConcatMembers(SubdirSamples, ScannedSubdirs(root), p);
    if p in Index(root) {
      var sub :| sub in ScannedSubdirs(root) && p in SubdirSamples(sub);
      ConcatMembers(DirSamples, PositiveDirs(sub), p);
      var pd :| pd in PositiveDirs(sub) && p in DirSamples(pd);
      SamplesOfMembers(ValidImages(pd), p);
      FilterMembers(IsScannedSubdir, root, sub);
      FilterMembers(IsPositiveDir, Listing(sub), pd);
      FilterMembers(IsValidImage, Names(Listing(pd)), p.0);
      assert InPositiveDir(root, p.0);
    }
    if IsValidImage(p.0) && MaskName(p.0) == Some(p.1) && InPositiveDir(root, p.0) {
      var sub, pd :| sub in root && IsScannedSubdir(sub) && pd in sub.children
        && IsPositiveDir(pd) && p.0 in Names(pd.children);
      FilterMembers(IsScannedSubdir, root, sub);
      FilterMembers(IsPositiveDir, Listing(sub), pd);
      FilterMembers(IsValidImage, Names(Listing(pd)), p.0);
      SamplesOfMembers(ValidImages(pd), p);
      ConcatMembers(DirSamples, PositiveDirs(sub), p);
    }
  }

  /** Entries the line-49 filter rejects never appear in the index. */
  lemma RejectedNamesNeverIndexed(root: seq<Entry>, img: string)
    requires !IsValidImage(img)
    ensures forall p :: p in Index(root) ==> p.0 != img
  {
    forall p | p in Index(root) ensures p.0 != img {
      IndexMembers(root, p);
    }
  }

  // ---------------------------------------------------------------------------
  // Order and size.
  // ---------------------------------------------------------------------------

  /** Scan order is root order: indexing two listings one after the other
      gives the two indexes one after the other. */
  lemma IndexAppend(r1: seq<Entry>, r2: seq<Entry>)
    ensures Index(r1 + r2) == Index(r1) + Index(r2)
  {
    FilterAppend(IsScannedSubdir, r1, r2);
    ConcatAppend(SubdirSamples, ScannedSubdirs(r1), ScannedSubdirs(r2));
  }

  /** The '1' directories visited, in scan order: root order, then child order. */
  function VisitedPositiveDirs(root: seq<Entry>): seq<Entry> {
    Concat(PositiveDirs, ScannedSubdirs(root))
  }

  /** The number of entries of a '1' directory that the line-49 filter keeps. */
  function AcceptedCount(posDir: Entry): nat {
    |ValidImages(posDir)|
  }

  /** The index is the visited '1' directories' samples, one directory after
      another, and its length is the number of accepted entries summed over them. */
  lemma IndexFlattened(root: seq<Entry>)
    ensures Index(root) == Concat(DirSamples, VisitedPositiveDirs(root))
    ensures |Index(root)| == Sum(AcceptedCount, VisitedPositiveDirs(root))
  {
    ConcatFlatten(DirSamples, PositiveDirs, SubdirSamples, ScannedSubdirs(root));
    ConcatLength(DirSamples, AcceptedCount, VisitedPositiveDirs(root));
  }

  // ---------------------------------------------------------------------------
  // Which directories contribute.
  // ---------------------------------------------------------------------------

  /** A root entry with no child directory named '1' contributes nothing: this
      covers plain files, subdirectories without '1', and a '1' that is a file. */
  lemma NoPositiveDirNoSamples(e: Entry)
    requires forall c :: c in Listing(e) ==> !IsPositiveDir(c)
    ensures Index([e]) == []
  {
    assert [e][..0] == [];
    if IsScannedSubdir(e) {
      assert ScannedSubdirs([e]) == [e];
      FilterNone(IsPositiveDir, Listing(e));
      ConcatSnoc(SubdirSamples, [], e);
    } else {
      assert ScannedSubdirs([e]) == [];
    }
  }

  /** Mask files are never looked up: a '1' directory holding only "5.png"
      still yields the pair for "5_true_seg.png". */
  lemma MaskNeedNotExist(subdirName: string)
    ensures Index([Dir(subdirName, [Dir("1", [File("5.png")])])]) == [("5.png", "5_true_seg.png")]
  {
    var pd := Dir("1", [File("5.png")]);
    var sub := Dir(subdirName, [pd]);
    assert [sub][..0] == [] && [pd][..0] == [] && ["5.png"][..0] == [];
    assert Names(sub.children)[0] == "1";
    assert ScannedSubdirs([sub]) == [sub];
    assert PositiveDirs(sub) == [pd];
    SingleRunNameMask();
    assert Names(pd.children) == ["5.png"];
    assert ValidImages(pd) == ["5.png"];
    assert SampleFor("5.png") == ("5.png", "5_true_seg.png");
    assert DirSamples(pd) == [("5.png", "5_true_seg.png")];
    ConcatSnoc(DirSamples, [], pd);
    ConcatSnoc(SubdirSamples, [], sub);
  }

  /** Samples hold bare names, not paths: the same name in the '1' directories of
      two subdirectories yields two identical samples. */
  lemma SameNameInTwoDirs()
    ensures Index([Dir("A", [Dir("1", [File("5.png")])]), Dir("B", [Dir("1", [File("5.png")])])])
         == [("5.png", "5_true_seg.png"), ("5.png", "5_true_seg.png")]
  {
    var a, b := Dir("A", [Dir("1", [File("5.png")])]), Dir("B", [Dir("1", [File("5.png")])]);
    assert [a, b] == [a] + [b];
    IndexAppend([a], [b]);
    MaskNeedNotExist("A");
    MaskNeedNotExist("B");
  }

  predicate IsDirEntry(e: Entry) {
    e.Dir?
  }

  /** A directory the line-45 test skips has no child directory named '1'. */
  lemma SkippedSubdirHasNoPositiveDir(e: Entry)
    requires e.Dir? && !IsScannedSubdir(e)
    ensures PositiveDirs(e) == []
  {
    forall c | c in e.children ensures !IsPositiveDir(c) {
      var k :| 0 <= k < |e.children| && e.children[k] == c;
      assert Names(e.children)[k] == c.name;
    }
    FilterNone(IsPositiveDir, Listing(e));
  }

  /** The `'1' in os.listdir(entry)` test of line 45 never changes the result:
      scanning every subdirectory gives the same index, because a subdirectory
      it skips has no child directory named '1' for line 47 to find. */
  lemma ScanGuardRedundant(root: seq<Entry>)
    ensures Index(root) == Concat(SubdirSamples, Filter(IsDirEntry, root))
  {
    forall e: Entry
      ensures IsScannedSubdir(e) != IsDirEntry(e) ==> SubdirSamples(e) == []
    {
      if e.Dir? && !IsScannedSubdir(e) {
        SkippedSubdirHasNoPositiveDir(e);
      }
    }
    ConcatFilterIrrelevant(SubdirSamples, IsScannedSubdir, IsDirEntry, root);
  }

  // ---------------------------------------------------------------------------
  // The dataset object.
  // ---------------------------------------------------------------------------

  /** `SegmentationTestSet`: the root it was built from and its list of samples. */
  class SegmentationTestSet {
    const root: seq<Entry>
    var samples: seq<Sample>

    ghost predicate Valid()
      reads this
    {
      samples == Index(root)
    }

    /** `__init__`: the list starts empty and the three nested loops of lines
        45-52 only ever append to it, one sample per accepted entry.  The list
        is built in a local and stored in `samples` when the loops are done;
        nothing can observe `samples` before the constructor returns. */
    constructor (root: seq<Entry>)
      ensures this.root == root
      ensures Valid()
      ensures samples == Index(root)
    {
      this.root := root;
      var acc: seq<Sample> := [];
      var subdirs := ScannedSubdirs(root);
      var i := 0;
      while i < |subdirs|
        invariant 0 <= i <= |subdirs|
        invariant acc == Concat(SubdirSamples, subdirs[..i])
      {
        var posDirs := PositiveDirs(subdirs[i]);
        ghost var before := acc;
        var j := 0;
        while j < |posDirs|
          invariant 0 <= j <= |posDirs|
          invariant acc == before + Concat(DirSamples, posDirs[..j])
        {
          var validImgs := ValidImages(posDirs[j]);
          ghost var beforeDir := acc;
          var k := 0;
          while k < |validImgs|
            invariant 0 <= k <= |validImgs|
            invariant acc == beforeDir + SamplesOf(validImgs[..k])
          {
            var img := validImgs[k];
            SampleForStem(img);
            var stem := ExtractStem(img).value;
            var sample := (img, stem + MaskSuffix);
            SamplesOfPrefix(validImgs, k);
            assert SamplesOf(validImgs[..k + 1]) == SamplesOf(validImgs[..k]) + [sample];
            AppendAssoc(beforeDir, SamplesOf(validImgs[..k]), [sample]);
            acc := acc + [sample];
            k := k + 1;
          }
          TakeAll(validImgs);
          ConcatPrefix(DirSamples, posDirs, j);
          AppendAssoc(before, Concat(DirSamples, posDirs[..j]), DirSamples(posDirs[j]));
          j := j + 1;
        }
        TakeAll(posDirs);
        ConcatPrefix(SubdirSamples, subdirs, i);
        i := i + 1;
      }
      TakeAll(subdirs);
      samples := acc;
    }

    /** `__len__`: the number of entries the line-49 filter accepted, summed over
        all visited '1' directories. */
    function Length(): (n: nat)
      reads this
      requires Valid()
      ensures n == |samples|
      ensures n == Sum(AcceptedCount, VisitedPositiveDirs(root))
    {
      IndexFlattened(root);
      |samples|
    }
  }
}
