/**
 The PNG to JPEG converter: the rule that names each JPEG after its PNG's
 stem, the ascending order in which the PNG files are taken, and the loop
 that saves one JPEG per PNG into the output directory.

 Decoded images are opaque (the type parameter `Image`); decoding a PNG and
 converting it to RGB is the parameter `decode`, applied to the file's stem.
 */
module PngToJpg {
  import opened Wrappers
  import opened Text
  import opened Files

  /** The marker whose last occurrence starts the number kept in the JPEG name. */
  const MARKER: string := "image_"

  /** `k` is the position of the last occurrence of `sub` in `s`. */
  ghost predicate IsLastOccurrence(s: string, sub: string, k: int) {
    Occurs(s, sub, k) && forall j :: k < j ==> !Occurs(s, sub, j)
  }

  /**
   The JPEG file name for a PNG stem: the piece after the last "image_" when
   the stem holds one (`stem.split("image_")[-1]`), otherwise the stem, and
   in both cases ".jpg" appended.
   */
  function JpgName(stem: string): (r: string)
    ensures |r| >= 4 && r[|r| - 4..] == ".jpg"
    ensures !Contains(stem, MARKER) ==> r == stem + ".jpg"
    ensures Contains(stem, MARKER) ==> !Contains(r[..|r| - 4], MARKER)
  {
    if Contains(stem, MARKER) then
      var number := Last(Split(stem, MARKER));
      SplitLastHasNoSep(stem, MARKER);
      assert (number + ".jpg")[..|number|] == number;
      number + ".jpg"
    else
      stem + ".jpg"
  }

  /** Two occurrences of the marker cannot overlap: it has no border. */
  lemma MarkerDoesNotOverlap(s: string, k: int, j: int)
    requires Occurs(s, MARKER, k) && k < j < k + |MARKER|
    ensures !Occurs(s, MARKER, j)
  {
    var d := j - k;
    assert s[j] == s[k..k + |MARKER|][d] == MARKER[d] != 'i';
    if j + |MARKER| <= |s| {
      assert s[j..j + |MARKER|][0] == s[j] != MARKER[0];
    }
  }

  /** In the marker branch the name is exactly the text after the LAST "image_", plus ".jpg". */
  lemma JpgNameAfterLastMarker(stem: string)
    requires Contains(stem, MARKER)
    ensures exists k :: IsLastOccurrence(stem, MARKER, k) && JpgName(stem) == stem[k + |MARKER|..] + ".jpg"
  {
    var k := LastPieceStart(stem, MARKER);
    var m := k + |MARKER|;
    var tail := stem[m..];
    SplitLastHasNoSep(stem, MARKER);
    assert !Contains(tail, MARKER);
    forall j | k < j ensures !Occurs(stem, MARKER, j) {
      if j < m {
        MarkerDoesNotOverlap(stem, k, j);
      } else {
        var d := j - m;
        OccursInSuffix(stem, MARKER, m, d);
        assert !Occurs(tail, MARKER, d);
        assert d + m == j;
      }
    }
    assert IsLastOccurrence(stem, MARKER, k);
  }

  /** The naming rule on the example in convert_png_to_jpg's comments, and on a stem without the marker. */
  lemma JpgNameExamples()
    ensures JpgName("image_001") == "001.jpg"
    ensures JpgName("scan") == "scan.jpg"
  {
    assert "image_001"[..|MARKER|] == MARKER;
    assert Split("image_001", MARKER) == ["", "001"] by {
      assert "image_001"[0 + |MARKER|..] == "001";
    }
    assert !Contains("scan", MARKER);
  }

  /** The PNG file a stem stands for. */
  function FileName(stem: string): string {
    stem + ".png"
  }

  /** `a`'s file sorts no later than `b`'s (file names compared by code point). */
  predicate NameLe(a: string, b: string) {
    LexLe(FileName(a), FileName(b))
  }

  ghost predicate SortedByName(s: seq<string>) {
    forall i, j :: 0 <= i < j < |s| ==> NameLe(s[i], s[j])
  }

  function InsertByName(x: string, s: seq<string>): (r: seq<string>)
    requires SortedByName(s)
    ensures |r| == |s| + 1
    ensures multiset(r) == multiset(s) + multiset{x}
    ensures SortedByName(r)
  {
    if s == [] then
      [x]
    else if NameLe(x, s[0]) then
      InsertBeforeHead(x, s);
      [x] + s
    else
      SortedTail(s);
      var r := InsertByName(x, s[1..]);
      InsertAfterHead(x, s, r);
      [s[0]] + r
  }

  lemma SortedTail(s: seq<string>)
    requires SortedByName(s) && s != []
    ensures SortedByName(s[1..])
  {
    forall i, j | 0 <= i < j < |s| - 1 ensures NameLe(s[1..][i], s[1..][j]) {
      assert NameLe(s[i + 1], s[j + 1]);
    }
  }

  lemma InsertBeforeHead(x: string, s: seq<string>)
    requires SortedByName(s) && s != [] && NameLe(x, s[0])
    ensures multiset([x] + s) == multiset(s) + multiset{x}
    ensures SortedByName([x] + s)
  {
    var r := [x] + s;
    forall i, j | 0 <= i < j < |r| ensures NameLe(r[i], r[j]) {
      if i == 0 {
        if j > 1 {
          LexLeTransitive(FileName(x), FileName(s[0]), FileName(s[j - 1]));
        }
      } else {
        assert NameLe(s[i - 1], s[j - 1]);
      }
    }
  }

  lemma InsertAfterHead(x: string, s: seq<string>, r: seq<string>)
    requires SortedByName(s) && s != [] && !NameLe(x, s[0])
    requires multiset(r) == multiset(s[1..]) + multiset{x} && SortedByName(r)
    ensures multiset([s[0]] + r) == multiset(s) + multiset{x}
    ensures SortedByName([s[0]] + r)
  {
    LexLeTotal(FileName(x), FileName(s[0]));
    assert s == [s[0]] + s[1..];
    var t := [s[0]] + r;
    forall i, j | 0 <= i < j < |t| ensures NameLe(t[i], t[j]) {
      if i == 0 {
        var y := r[j - 1];
        assert y in multiset(r);
        if y != x {
          assert y in multiset(s[1..]);
          var k :| 0 <= k < |s[1..]| && s[1..][k] == y;
          assert NameLe(s[0], s[k + 1]);
        }
      } else {
        assert NameLe(r[i - 1], r[j - 1]);
      }
    }
  }

  /** Python's `sorted` on the PNG paths of one directory: ascending by file name. */
  function SortByName(xs: seq<string>): (r: seq<string>)
    ensures |r| == |xs|
    ensures multiset(r) == multiset(xs)
    ensures SortedByName(r)
  {
    if xs == [] then []
    else
      assert xs == [xs[0]] + xs[1..];
      InsertByName(xs[0], SortByName(xs[1..]))
  }

  /**
   There is only one ascending arrangement of a listing, so the order above is
   the order Python's `sorted` produces, whatever algorithm it uses.
   */
  lemma {:induction false} SortedByNameUnique(a: seq<string>, b: seq<string>)
    requires SortedByName(a) && SortedByName(b) && multiset(a) == multiset(b)
    ensures a == b
    decreases |a|
  {
    assert |a| == |multiset(a)| == |multiset(b)| == |b|;
    if a != [] {
      SortedHeadIsLeast(a, b[0]);
      SortedHeadIsLeast(b, a[0]);
      LexLeAntisymmetric(FileName(a[0]), FileName(b[0]));
      assert FileName(a[0])[..|FileName(a[0])| - 4] == a[0];
      assert FileName(b[0])[..|FileName(b[0])| - 4] == b[0];
      assert a[0] == b[0];
      assert a == [a[0]] + a[1..] && b == [b[0]] + b[1..];
      assert multiset(a[1..]) == multiset(a) - multiset{a[0]};
      assert multiset(b[1..]) == multiset(b) - multiset{b[0]};
      SortedByNameUnique(a[1..], b[1..]);
    }
  }

  /** The head of an ascending arrangement sorts no later than any of its elements. */
  lemma SortedHeadIsLeast(s: seq<string>, x: string)
    requires SortedByName(s) && x in multiset(s)
    ensures NameLe(s[0], x)
  {
    var j :| 0 <= j < |s| && s[j] == x;
    if j == 0 {
      LexLeTotal(FileName(x), FileName(x));
    }
  }

  /** Python's `Path(output_dir) if output_dir else input_path`: None and "" choose the input directory. */
  function OutputPath(inputDir: string, outputDir: Option<string>): string {
    if outputDir.Some? && outputDir.value != "" then outputDir.value else inputDir
  }

  /** The save performed for one PNG: its decoded image, under its JPEG name in `out`. */
  function Conversion<Image>(out: string, stem: string, decode: string -> Image): Write<Image> {
    Write(FilePath(out, JpgName(stem)), decode(stem))
  }

  /** The saves performed for `stems`, one per stem, in the order given. */
  function Conversions<Image>(out: string, stems: seq<string>, decode: string -> Image): (r: seq<Write<Image>>)
    ensures |r| == |stems|
  {
    seq(|stems|, k requires 0 <= k < |stems| => Conversion(out, stems[k], decode))
  }

  /** What one run reports: nothing to do, or how many files it converted and where to. */
  datatype Report = NoPngFiles | Converted(count: nat, savedTo: string)

  /**
   `convert_png_to_jpg`: list the PNG files in ascending name order, return
   early when there are none, otherwise save each one's image as a JPEG in the
   output directory, one after the other.
   */
  method ConvertPngToJpg<Image>(inputDir: string, listing: seq<string>, decode: string -> Image,
                                fs: map<FilePath, Image>, outputDir: Option<string> := None)
    returns (report: Report, log: seq<Write<Image>>, fs': map<FilePath, Image>)
    ensures listing == [] <==> report == NoPngFiles
    ensures listing == [] ==> log == [] && fs' == fs
    ensures listing != [] ==> report == Converted(|listing|, OutputPath(inputDir, outputDir))
    ensures |log| == |listing|
    ensures log == Conversions(OutputPath(inputDir, outputDir), SortByName(listing), decode)
    ensures fs' == Apply(fs, log)
  {
    var outputPath := OutputPath(inputDir, outputDir);
    var pngFiles := SortByName(listing);
    if |pngFiles| == 0 {
      return NoPngFiles, [], fs;
    }
    log, fs' := [], fs;
    for i := 0 to |pngFiles|
      invariant log == Conversions(outputPath, pngFiles[..i], decode)
      invariant fs' == Apply(fs, log)
    {
      var img := decode(pngFiles[i]);
      var jpgFilename := JpgName(pngFiles[i]);
      var save := Write(FilePath(outputPath, jpgFilename), img);
      ConversionsExtend(outputPath, pngFiles, decode, i);
      ApplySnoc(fs, log, save);
      fs' := fs'[save.path := save.content];
      log := log + [save];
    }
    assert pngFiles[..|pngFiles|] == pngFiles;
    report := Converted(|pngFiles|, outputPath);
  }

  lemma ConversionsExtend<Image>(out: string, stems: seq<string>, decode: string -> Image, i: nat)
    requires i < |stems|
    ensures Conversions(out, stems[..i + 1], decode)
         == Conversions(out, stems[..i], decode) + [Conversion(out, stems[i], decode)]
  {
  }

  /**
   Every PNG of the listing is converted exactly as often as it is listed, and
   a listed stem's save is its image under its JPEG name in `out`.
   */
  lemma EachFileConvertedOnce<Image>(out: string, listing: seq<string>, decode: string -> Image, stem: string)
    ensures var sorted := SortByName(listing);
      multiset(sorted)[stem] == multiset(listing)[stem]
    ensures var sorted := SortByName(listing);
      var log := Conversions(out, sorted, decode);
      stem in listing <==>
        exists k :: 0 <= k < |log| && sorted[k] == stem && log[k] == Write(FilePath(out, JpgName(stem)), decode(stem))
  {
    var sorted := SortByName(listing);
    var log := Conversions(out, sorted, decode);
    assert stem in listing <==> stem in multiset(listing);
    assert stem in sorted <==> stem in multiset(sorted);
    if stem in sorted {
      var k :| 0 <= k < |sorted| && sorted[k] == stem;
      assert log[k] == Write(FilePath(out, JpgName(stem)), decode(stem));
    }
  }

  /**
   When several stems share a JPEG name, the file left under that name holds
   the image of the last of them in sorted order.
   */
  lemma LastStemWins<Image>(fs: map<FilePath, Image>, out: string, sorted: seq<string>,
                            decode: string -> Image, i: nat)
    requires i < |sorted|
    requires forall j :: i < j < |sorted| ==> JpgName(sorted[j]) != JpgName(sorted[i])
    ensures FilePath(out, JpgName(sorted[i])) in Apply(fs, Conversions(out, sorted, decode))
    ensures Apply(fs, Conversions(out, sorted, decode))[FilePath(out, JpgName(sorted[i]))] == decode(sorted[i])
  {
    ApplyLastWriteWins(fs, Conversions(out, sorted, decode), i);
  }

  /**
   Saving touches only JPEG names in the output directory: every other file,
   including the PNG files themselves when output and input coincide, is left
   as it was.
   */
  lemma OtherFilesUnchanged<Image>(fs: map<FilePath, Image>, out: string, sorted: seq<string>,
                                   decode: string -> Image, p: FilePath)
    requires p.dir != out || |p.name| < 4 || p.name[|p.name| - 4..] != ".jpg"
    ensures p in Apply(fs, Conversions(out, sorted, decode)) <==> p in fs
    ensures p in fs ==> Apply(fs, Conversions(out, sorted, decode))[p] == fs[p]
  {
    var log := Conversions(out, sorted, decode);
    forall i | 0 <= i < |log| ensures log[i].path != p {
      assert log[i].path == FilePath(out, JpgName(sorted[i]));
    }
    ApplyUntouched(fs, log, p);
  }
}
