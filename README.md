# cv_homework_colmap: file naming and frame selection, verified

The repository prepares images for a COLMAP reconstruction with two small
command-line tools. Besides library calls, each holds one piece of logic:

- `convert_png_to_jpg` takes the PNG files of a directory in sorted order.
  - It names each JPEG after its PNG's stem. When the stem contains
    `"image_"`, the name is the text after the last `"image_"`. Otherwise it
    is the whole stem. Either way `".jpg"` is appended.
  - It saves the JPEGs into the output directory one after the other. This
    is the input directory when no output directory is given.
  - When there are no PNG files, it returns early without saving anything.
- `video_to_frames` reads frames until the first failed read.
  - It keeps frame `i` when `i % step == 0`.
  - It saves the kept frames as `prefix_NNNNNN.png`, where `NNNNNN` is the
    zero-padded number of frames saved before this one.
  - It fails when the video cannot be opened.

The model gives each tool one Dafny module. Four support modules hold the
pieces both tools use:

- `Text`: Python's `in`, `str.split`, `sep.join` and the code-point order
  `sorted` uses on names.
- `Numerals`: `str(n)`, the `{n:06d}` format, and reading a numeral back.
- `Files`: a directory tree as a value, and the effect of a sequence of
  writes on it.
- `Wrappers`: `Option`.

Both tools are methods with loops. Each method takes the filesystem as a map
from `FilePath` to content. It returns the new map and the log of writes it
made. Its postcondition ties the log to a specification function. It also
states that the new map is the old one with the log applied, in order.

Images and frames are opaque type parameters. Decoding a PNG is a function
parameter `decode`. An opened video capture is a value: whether it opened,
and what each successive read returns.

## Model

| member | source | states |
|---|---|---|
| PngToJpg.JpgName | convert_png_to_jpg.py:34-40 | The name always ends in ".jpg". A stem without "image_" gives exactly stem + ".jpg". In the "image_" branch, the part before ".jpg" holds no "image_". |
| PngToJpg.JpgNameAfterLastMarker | convert_png_to_jpg.py:36-38 | When the stem holds "image_", the name is the text after the last occurrence of "image_", plus ".jpg"; no occurrence lies further right. |
| PngToJpg.MarkerDoesNotOverlap | convert_png_to_jpg.py:37 | Two occurrences of "image_" never overlap, so the left-to-right split ends at the last occurrence. |
| PngToJpg.JpgNameExamples | convert_png_to_jpg.py:34-35 | "image_001" is named "001.jpg", and "scan" is named "scan.jpg". |
| PngToJpg.OutputPath | convert_png_to_jpg.py:18 | The definition: the given output directory when it is present and non-empty, and otherwise the input directory; Python treats both None and "" as false. ConvertPngToJpg reports it and saves into it. |
| PngToJpg.NameLe | convert_png_to_jpg.py:22 | The definition of the order `sorted` uses on the PNG paths of one directory: compare the file names stem + ".png" by LexLe. SortByName and SortedByNameUnique are stated with it. |
| PngToJpg.Conversions | convert_png_to_jpg.py:31-43 | The definition: one save per stem, in the given order, each holding decode(stem) under out/JpgName(stem). It has exactly one save per stem, and ConvertPngToJpg's log equals it on the sorted listing. |
| PngToJpg.InsertByName | convert_png_to_jpg.py:22 | Inserting into an ascending listing keeps it ascending and adds exactly that one name. |
| PngToJpg.SortByName | convert_png_to_jpg.py:22 | The sorted listing is ascending by file name and is a permutation of the listing. |
| PngToJpg.SortedByNameUnique | convert_png_to_jpg.py:22 | Two ascending permutations of one listing are equal, so the order does not depend on how `sorted` is implemented. |
| PngToJpg.ConvertPngToJpg | convert_png_to_jpg.py:15-46 | The output directory defaults to None, as in the source. Reports "nothing found" exactly when the listing is empty, and then writes nothing. Otherwise it reports the file count and the output directory (the input directory when none or "" is given). It makes one save per file, in ascending order, each to output/JpgName(stem) holding decode(stem). The new tree is the old one with those saves applied. |
| PngToJpg.EachFileConvertedOnce | convert_png_to_jpg.py:22-43 | Each stem is taken exactly as often as it is listed. A stem is listed exactly when some save, at that stem's place in the sorted order, writes its decoded image under its JPEG name in the output directory. |
| PngToJpg.LastStemWins | convert_png_to_jpg.py:31-43 | When several stems share a JPEG name, the file under that name holds the image of the last of them in sorted order. |
| PngToJpg.OtherFilesUnchanged | convert_png_to_jpg.py:42-43 | Every path that is not a ".jpg" name in the output directory, the PNG files included, keeps its prior state. |
| Text.IndexOf | convert_png_to_jpg.py:36 | Finds the first occurrence of the substring when there is one, and reports none only when there is no occurrence. |
| Text.Contains | convert_png_to_jpg.py:36 | The definition of Python's `sub in s`: IndexOf finds an occurrence. By IndexOf's contract it holds exactly when `sub` occurs somewhere in `s`. |
| Text.Split | convert_png_to_jpg.py:37 | The definition of `s.split(sep)` for a non-empty separator: cut at the first occurrence and split the rest. It always has at least one piece. SplitJoin states the join, SplitPiecesHaveNoSep that no piece holds the separator, and SplitLastPiece what the last piece is. |
| Text.PrefixBeforeFirst | convert_png_to_jpg.py:37 | The text before the first occurrence of a non-empty separator holds no occurrence of it. |
| Text.SplitPiecesHaveNoSep | convert_png_to_jpg.py:37 | No piece of a split, first, middle or last, holds the separator. |
| Text.SplitJoin | convert_png_to_jpg.py:37 | Joining the pieces of `s.split(sep)` with `sep` gives back `s`. |
| Text.SplitLastHasNoSep | convert_png_to_jpg.py:37 | The last piece of a split holds no separator. |
| Text.SplitLastPiece | convert_png_to_jpg.py:37 | When the separator occurs, the last piece is the text after some occurrence of it. |
| Text.LexLe | convert_png_to_jpg.py:22 | The definition of Python's `<=` on `str`: code point by code point, and a proper prefix first. The next three lemmas show it is a total order. |
| Text.LexLeTotal | convert_png_to_jpg.py:22 | Any two names are comparable in the order `sorted` uses. |
| Text.LexLeTransitive | convert_png_to_jpg.py:22 | That order is transitive. |
| Text.LexLeAntisymmetric | convert_png_to_jpg.py:22 | Names that compare both ways are equal. |
| Files.Apply | convert_png_to_jpg.py:42-43 | The definition of the effect of the saves: each save, in order, creates or replaces the file at its path. The Apply lemmas below state what that leaves on disk. |
| Files.ApplyKeys | convert_png_to_jpg.py:42-43 | After the saves, the files are the prior ones plus every save's target, and nothing else. |
| Files.ApplyUntouched | convert_png_to_jpg.py:42-43 | A path that no save targets keeps its prior state. |
| Files.ApplyLastWriteWins | convert_png_to_jpg.py:42-43 | A file holds the content of the last save to its path. |
| Files.ApplyDistinctTargets | convert_video_to_frames.py:27 | When no two saves share a path, every saved content is on disk at the end. |
| Numerals.Decimal | convert_video_to_frames.py:26 | `str(n)` is a non-empty string of digits with no leading zero. |
| Numerals.ParseDecimalOfDecimal | convert_video_to_frames.py:26 | Reading the decimal numeral of n gives back n. |
| Numerals.ParseLeadingZeros | convert_video_to_frames.py:26 | Leading zeros do not change the value of a numeral. |
| Numerals.Format06 | convert_video_to_frames.py:26 | `{n:06d}` is exactly max(6, len(str(n))) characters wide, all digits, and it reads back as n. By DigitStringUnique, a digit string of given length and value is unique, so this fixes the result. |
| Numerals.DigitStringUnique | convert_video_to_frames.py:26 | Two digit strings of the same length and value are equal. |
| Numerals.SixDigitsBelowAMillion | convert_video_to_frames.py:26 | Below 10^6, `str(n)` has at most six digits and `{n:06d}` exactly six. |
| Numerals.DecimalAtMost | convert_video_to_frames.py:26 | A number below 10^k has at most k decimal digits. |
| Numerals.Format06Examples | convert_video_to_frames.py:26 | 5 renders as "000005"; 1234567 renders as "1234567", with no truncation. |
| VideoToFrames.FirstFailure | convert_video_to_frames.py:19-22 | Every read before the returned index succeeds, and the read at that index fails (or lies past the end of the stream). |
| VideoToFrames.FramesAfterFailureIgnored | convert_video_to_frames.py:20-22 | Two streams that agree up to and including the first failed read give the same saves, whatever follows it. |
| VideoToFrames.CountMultiplesClosedForm | convert_video_to_frames.py:25-28 | The number of multiples of step among 0..n-1 equals (n + step - 1) / step. |
| VideoToFrames.SavedIndexInRange | convert_video_to_frames.py:25-28 | Saved index k occurs among the first n frames exactly when k * step < n. |
| VideoToFrames.FrameName | convert_video_to_frames.py:26 | The name is prefix + "_", then the digits of the saved index zero-padded to exactly max(6, its length), which read back as the index, then ".png". Below a million the name is exactly 11 characters longer than the prefix. |
| VideoToFrames.FrameNameExample | convert_video_to_frames.py:26 | With the default prefix, saved index 5 is named "frame_000005.png". |
| VideoToFrames.FrameNameInjective | convert_video_to_frames.py:26 | Distinct saved indices give distinct file names. |
| VideoToFrames.SavedFrames | convert_video_to_frames.py:16-30 | The definition of the saves the loop makes over the first n frames, one frame at a time: a frame whose index is a multiple of step is saved under the number of saves before it. SavedFramesCount, SavedFramesEntries, SavedFramesClosedForm and SavedIffKept state its closed form. |
| VideoToFrames.SavedFramesCount | convert_video_to_frames.py:25-28 | The saves over the first n frames number as many as the multiples of step below n. |
| VideoToFrames.SavedFramesEntries | convert_video_to_frames.py:25-28 | Save number k holds frame k * step, under the name for index k. So the saved indices run 0, 1, ... with no gap or repeat. |
| VideoToFrames.SavedFramesClosedForm | convert_video_to_frames.py:16-30 | After n frames, exactly (n + step - 1) / step frames have been saved, and save k holds frame k * step under the name for index k. |
| VideoToFrames.SavedIffKept | convert_video_to_frames.py:25-28 | A frame that was read is saved exactly when i % step == 0, and then under saved index i / step. |
| VideoToFrames.SavedFramesAllKept | convert_video_to_frames.py:26-27 | No save overwrites another, so every saved frame is on disk at the end. |
| VideoToFrames.VideoToFrames | convert_video_to_frames.py:6-33 | The prefix defaults to "frame" and the step to 1, as in the source. An unopenable video gives the error "Cannot open video: <path>" and no writes. Otherwise the saves are the specified ones for the frames read before the first failed read. The reported count is the number of saves, which is (F + step - 1) / step for F frames read. The new tree is the old one with the saves applied. |

## Left out

- Decoding, RGB conversion and JPEG encoding at quality 95 belong to PIL. The image is opaque and `decode` is a parameter.
- `cv2.VideoCapture`, `read`, `imwrite` and `release` belong to OpenCV. The capture is a value with an "opened" flag and the sequence of read results; a write is a map update. A failed `imwrite`, which the source ignores while still counting the frame as saved, is not modelled: every save succeeds, so SavedFramesAllKept and the disk state hold only under that assumption.
- `mkdir` and `os.makedirs` are not modelled. Neither tool's logic depends on them.
- The glob is taken as its result: a listing of PNG stems in arbitrary order. Glob semantics and `Path.stem` edge cases are not modelled. Examples are a hidden file named `.png`, case sensitivity and suffixes other than `.png`.
- Paths are a directory string plus a file name. `/` and `os.path.join` normalisation is not modelled.
- The argparse command lines of both tools are not modelled. The defaults in the functions' own signatures are modelled as default parameters. The defaulted parameters come last so that a positional call can leave them out.
- The printed messages are not modelled as text. What the completion messages report becomes the result: `Report` for the PNG tool, and `Outcome.Saved(count)` for the video tool. The per-file progress lines are not modelled.
- `step <= 0` is excluded by `requires step >= 1`. With `step == 0`, `frame_idx % step` raises ZeroDivisionError. Negative steps rely on Python's modulo sign rules.
- ConvertPngToJpg: `sorted` is modelled as an insertion sort on file names. SortedByNameUnique shows that any ascending permutation is the same list, so the choice of algorithm does not change the result.
- ConvertPngToJpg, VideoToFrames: the filesystem is modelled as a value map that the method returns, not state updated in place. Concurrent changes to the directory are not modelled.
- Exceptions raised by the libraries mid-loop, which leave part of the output written, are not modelled.
