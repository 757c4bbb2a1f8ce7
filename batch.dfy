/** The per-run naming done by `main`: which directory entries are taken as
    input videos, and the prefix each input's frame files are named with.

    Paths follow POSIX `os.path.join` for two components. The stem of an input
    (its base name without the extension) is a parameter: it comes from
    `os.path.basename` and `os.path.splitext`, so it never holds a '/'. */
module Batch {
  import Decimal
  import Sampler

  /** The macOS metadata entry skipped when listing an input directory. */
  const Metadata: string := ".DS_Store"

  predicate IsAbsolute(p: string) {
    |p| > 0 && p[0] == '/'
  }

  /** The directory part of a join: `a` followed by a '/' unless it is empty
      or already ends with one. */
  function DirPrefix(a: string): string {
    if a == [] || a[|a| - 1] == '/' then a else a + "/"
  }

  /** `os.path.join(a, b)` on POSIX: an absolute `b` replaces `a`; otherwise
      `b` is appended to `a`, with a '/' between unless `a` is empty or
      already ends with one. */
  function Join(a: string, b: string): (p: string)
    ensures IsAbsolute(b) ==> p == b
    ensures !IsAbsolute(b) ==> |a| <= |p| - |b| <= |a| + 1 && p[..|a|] == a
    ensures !IsAbsolute(b) ==> (|p| == |a| + |b| + 1 <==> a != [] && a[|a| - 1] != '/')
    ensures !IsAbsolute(b) && |p| == |a| + |b| + 1 ==> p[|a|] == '/'
    ensures |b| <= |p| && p[|p| - |b|..] == b
  {
    if IsAbsolute(b) then b else DirPrefix(a) + b
  }

  /** For a fixed directory, joining is one-to-one on relative names. */
  lemma JoinInjective(a: string, b1: string, b2: string)
    requires !IsAbsolute(b1) && !IsAbsolute(b2)
    requires Join(a, b1) == Join(a, b2)
    ensures b1 == b2
  {
    var p := Join(a, b1);
    assert b1 == p[|p| - |b1|..];
    assert b2 == p[|p| - |b2|..];
  }

  /** The directory listing without its metadata entries, in listing order. */
  function WithoutMetadata(entries: seq<string>): (kept: seq<string>)
    ensures forall e :: e in kept <==> e in entries && e != Metadata
    ensures |kept| <= |entries|
  {
    if entries == [] then []
    else (if entries[0] == Metadata then [] else [entries[0]]) + WithoutMetadata(entries[1..])
  }

  /** Filtering commutes with concatenation, so kept entries stay in their
      listing order. */
  lemma {:induction false} WithoutMetadataAppend(a: seq<string>, b: seq<string>)
    ensures WithoutMetadata(a + b) == WithoutMetadata(a) + WithoutMetadata(b)
  {
    if a == [] {
      assert a + b == b;
    } else {
      assert (a + b)[0] == a[0];
      assert (a + b)[1..] == a[1..] + b;
      WithoutMetadataAppend(a[1..], b);
    }
  }

  /** Exactly the metadata entries are dropped: the number kept is the length
      of the listing less the number of metadata entries in it. */
  lemma {:induction false} WithoutMetadataCount(entries: seq<string>)
    ensures |WithoutMetadata(entries)| == |entries| - multiset(entries)[Metadata]
  {
    if entries != [] {
      assert entries == [entries[0]] + entries[1..];
      assert multiset(entries) == multiset([entries[0]]) + multiset(entries[1..]);
      WithoutMetadataCount(entries[1..]);
    }
  }

  /** Every name joined onto `dir`, in order. */
  function JoinEach(dir: string, names: seq<string>): (paths: seq<string>)
    ensures |paths| == |names|
    ensures forall k :: 0 <= k < |names| ==> paths[k] == Join(dir, names[k])
  {
    if names == [] then [] else [Join(dir, names[0])] + JoinEach(dir, names[1..])
  }

  /** The input files of a run: a directory gives its entries other than the
      metadata entry, each joined onto the directory; anything else is the
      single input. */
  function InputFiles(inputPath: string, isDir: bool, listing: seq<string>): (files: seq<string>)
    ensures !isDir ==> files == [inputPath]
    ensures isDir ==> |files| == |listing| - multiset(listing)[Metadata]
    ensures isDir ==> |files| == |WithoutMetadata(listing)|
    ensures isDir ==> forall k :: 0 <= k < |files| ==> files[k] == Join(inputPath, WithoutMetadata(listing)[k])
    ensures isDir ==> forall e :: e in listing && e != Metadata ==> Join(inputPath, e) in files
  {
    if isDir then
      var kept := WithoutMetadata(listing);
      var files := JoinEach(inputPath, kept);
      WithoutMetadataCount(listing);
      assert forall e :: e in listing && e != Metadata ==> Join(inputPath, e) in files by {
        forall e | e in listing && e != Metadata
          ensures Join(inputPath, e) in files
        {
          var k :| 0 <= k < |kept| && kept[k] == e;
          assert files[k] == Join(inputPath, e);
        }
      }
      files
    else
      [inputPath]
  }

  /** No input file is the metadata entry: directory entries are plain names,
      so no other entry joins to the same path. */
  lemma InputFilesExcludeMetadata(inputPath: string, listing: seq<string>)
    requires forall e :: e in listing ==> !IsAbsolute(e)
    ensures Join(inputPath, Metadata) !in InputFiles(inputPath, true, listing)
  {
    var kept := WithoutMetadata(listing);
    var files := InputFiles(inputPath, true, listing);
    assert files == JoinEach(inputPath, kept);
    if Join(inputPath, Metadata) in files {
      var k :| 0 <= k < |files| && files[k] == Join(inputPath, Metadata);
      assert kept[k] in kept;
      JoinInjective(inputPath, kept[k], Metadata);
    }
  }

  /** The prefix of an input's frame files: `<output>/<stem>_img_`. */
  function FramePrefix(outputPath: string, stem: string): (prefix: string)
    ensures '/' !in stem ==>
      |outputPath| + |stem| + 5 <= |prefix| && prefix[..|outputPath|] == outputPath &&
      prefix[|prefix| - |stem| - 5..] == stem + "_img_"
  {
    assert '/' !in stem ==> !IsAbsolute(stem + "_img_") by {
      assert |stem| > 0 ==> stem[0] in stem;
    }
    Join(outputPath, stem + "_img_")
  }

  /** A string ending in "_img_" followed by a numeral splits in one way only:
      the numeral is the longest run of digits at the end. */
  lemma NumberedNameSplits(s1: string, s2: string, d1: string, d2: string)
    requires Decimal.AllDigits(d1) && Decimal.AllDigits(d2)
    requires s1 + "_img_" + d1 == s2 + "_img_" + d2
    ensures s1 == s2 && d1 == d2
  {
    var t := s1 + "_img_" + d1;
    assert t == s2 + "_img_" + d2;
    // the '_' just before each numeral is not a digit, while the numeral is
    assert !Decimal.IsDigit(t[|t| - |d1| - 1]) && !Decimal.IsDigit(t[|t| - |d2| - 1]);
    assert forall i :: |t| - |d1| <= i < |t| ==> Decimal.IsDigit(t[i]);
    assert forall i :: |t| - |d2| <= i < |t| ==> Decimal.IsDigit(t[i]);
    assert d1 == t[|t| - |d1|..];
    assert d2 == t[|t| - |d2|..];
    assert s1 + "_img_" == t[..|t| - |d1|];
    assert s2 + "_img_" == t[..|t| - |d2|];
    assert s1 == (s1 + "_img_")[..|s1|];
    assert s2 == (s2 + "_img_")[..|s2|];
  }

  /** A frame file's path is the output directory with its separator, then
      the stem, "_img_" and the numeral, then ".jpg". */
  lemma FrameNameParts(outputPath: string, stem: string, count: nat)
    requires '/' !in stem
    ensures Sampler.FrameName(FramePrefix(outputPath, stem), count)
         == DirPrefix(outputPath) + (stem + "_img_" + Decimal.FromNat(count)) + ".jpg"
  {
    assert !IsAbsolute(stem + "_img_") by {
      assert |stem| > 0 ==> stem[0] in stem;
    }
  }

  /** Inputs with different stems never write to the same file: every frame
      name of one differs from every frame name of the other. */
  lemma DistinctStemsDisjointFrames(outputPath: string, s1: string, s2: string, a: nat, b: nat)
    requires '/' !in s1 && '/' !in s2 && s1 != s2
    ensures Sampler.FrameName(FramePrefix(outputPath, s1), a)
         != Sampler.FrameName(FramePrefix(outputPath, s2), b)
  {
    var dir := DirPrefix(outputPath);
    var m1 := s1 + "_img_" + Decimal.FromNat(a);
    var m2 := s2 + "_img_" + Decimal.FromNat(b);
    FrameNameParts(outputPath, s1, a);
    FrameNameParts(outputPath, s2, b);
    var n1, n2 := dir + m1 + ".jpg", dir + m2 + ".jpg";
    if n1 == n2 {
      assert m1 == n1[|dir|..|n1| - 4];
      assert m2 == n2[|dir|..|n2| - 4];
      NumberedNameSplits(s1, s2, Decimal.FromNat(a), Decimal.FromNat(b));
    }
  }
}
