# Segmentation test-set indexing, modelled in Dafny

This project models the dataset-indexing core of
`efficientnet_pytorch/test_segmentation.py` (an EfficientNet evaluation
script). It covers five parts:

- **Input-image test** `is_input_image` (lines 17-20). It is an unanchored
  `re.search(r'\d+\.\w+', filename)` and is modelled as a scan for a digit that
  is immediately followed by `.` and then a word character. A lemma proves this
  scan equal to the regular expression's own meaning.
- **Pair indexer's filter** `re.search(r'(\d+)\.\w+', img)` (line 49). It is
  modelled separately, as the captured group of the leftmost match, and proved
  to accept exactly the same names as line 20.
- **Stem and mask name** (lines 51-52). The stem is the first maximal digit run
  of the name, and the mask name is `stem + "_true_seg.png"`.
- **`SegmentationTestSet`** (lines 41-58). Its constructor walks an immutable
  snapshot of the directory tree (`Entry`) with the source's three nested
  loops, appends one `(image, mask)` pair per accepted entry to a list, and
  stores that list in its `samples` field. The result is proved equal to the
  specification function `Index`, and `Length` (`__len__`) is proved equal to
  the accepted-entry count summed over the visited `1` directories.
- **Mask binarisation** `threshold` (lines 26-28). It is an element-wise strict
  comparison against 0.6.

Modules:

- `Wrappers`: `Option`.
- `Seqs`: the generic `Filter`, which models list comprehensions, and `Concat`
  and `Sum`, which model a loop that appends one block per element. Each comes
  with its lemmas.
- `FileNames`: lines 17-20 and 49-52.
- `MaskThreshold`: lines 26-28.
- `SegmentationIndex`: lines 41-58.

Regular-expression classes are taken as ASCII: `\d` is `'0'..'9'`, and `\w`
is ASCII letters, digits and `_`.

Line 51 has no branch that drops an entry: `re.search(r'\d+', img).group()`
would raise on a name without digits. The model keeps that case as the `None` of
`FileNames.ExtractStem`. `FileNames.ValidImageHasStem` proves the case
unreachable, because every name accepted on line 49 contains a digit. So no
entry is ever dropped, and the constructor needs no error path.

## Model

| member | source | states |
|---|---|---|
| FileNames.DigitDotWordFrom | efficientnet_pytorch/test_segmentation.py:17-20 | the scan from position `i` succeeds iff some position at or after `i` holds a digit, then `.`, then a word character |
| FileNames.InputImageIffPatternOccurs | efficientnet_pytorch/test_segmentation.py:20 | `is_input_image(s)` holds iff `s` contains a span of one or more digits, a `.`, and one or more word characters (unanchored search) |
| FileNames.InputImageUnderPrefix | efficientnet_pytorch/test_segmentation.py:17-20 | prepending any directory prefix to a matching name keeps it matching |
| FileNames.InputImageUnderSuffix | efficientnet_pytorch/test_segmentation.py:20 | appending anything to a matching name keeps it matching |
| FileNames.DirectoryCanAdmitMask | efficientnet_pytorch/test_segmentation.py:18-20 | because the full path is tested, `5_true_seg.png` is rejected but `SPI_eval/v1.2/5_true_seg.png` is accepted |
| FileNames.DigitRunLength | efficientnet_pytorch/test_segmentation.py:49 | the greedy `\d+` run from `i`: in bounds, all digits, and followed by a non-digit or the end |
| FileNames.StemPatternAtIffSpan | efficientnet_pytorch/test_segmentation.py:49 | `(\d+)\.\w+` matches at `i` iff some span from `i` of digits, `.`, word characters exists, so backtracking adds no match |
| FileNames.StemPatternSearchFromSpec | efficientnet_pytorch/test_segmentation.py:49 | the search finds nothing iff no position matches; otherwise it returns the greedy digit run of the leftmost matching position |
| FileNames.ValidImageIffInputImage | efficientnet_pytorch/test_segmentation.py:49 | the line-49 filter and the line-20 predicate accept exactly the same strings |
| FileNames.FirstDigitFrom | efficientnet_pytorch/test_segmentation.py:51 | the position of the first digit at or after `i`, with no digit before it, or the length when there is none |
| FileNames.FirstDigitRunUnique | efficientnet_pytorch/test_segmentation.py:51 | a string has at most one first maximal digit run |
| FileNames.ExtractStem | efficientnet_pytorch/test_segmentation.py:51 | `re.search(r'\d+', s)` fails iff `s` has no digit; otherwise the stem is non-empty, all digits, and the first maximal digit run of `s` |
| FileNames.ValidImageHasStem | efficientnet_pytorch/test_segmentation.py:49-51 | every name the line-49 filter keeps has a stem, so line 51 never fails on it |
| FileNames.StemOfFirstRun | efficientnet_pytorch/test_segmentation.py:51 | for a digit-free prefix, a digit run and a remainder not starting with a digit, the stem is exactly that run |
| FileNames.StemOfTwoRunName | efficientnet_pytorch/test_segmentation.py:51 | the stem of `a1b2.png` is `1`, its first digit run |
| FileNames.CapturedRunOfTwoRunName | efficientnet_pytorch/test_segmentation.py:49 | `a1b2.png` passes the filter through the run `2` before the extension, so the stem differs from the captured group |
| FileNames.MaskNameIsNotInputImage | efficientnet_pytorch/test_segmentation.py:52 | a generated mask name `stem_true_seg.png` is rejected by both the line-20 and the line-49 patterns |
| FileNames.SingleRunNameMask | efficientnet_pytorch/test_segmentation.py:49-52 | `5.png` passes the filter and is paired with `5_true_seg.png` |
| MaskThreshold.Threshold | efficientnet_pytorch/test_segmentation.py:26-28 | the output has the mask's length; each element is 0 or 1, and it is 1 iff the input element is strictly greater than 0.6 |
| MaskThreshold.ThresholdMonotone | efficientnet_pytorch/test_segmentation.py:28 | a pointwise brighter mask never has fewer foreground pixels |
| MaskThreshold.ThresholdBoundary | efficientnet_pytorch/test_segmentation.py:28 | `threshold(0.6) = 0`, and a value just above 0.6 gives 1 |
| MaskThreshold.ThresholdIdempotent | efficientnet_pytorch/test_segmentation.py:26-28 | thresholding an already-binary mask changes nothing |
| SegmentationIndex.ListsEntryNamed | efficientnet_pytorch/test_segmentation.py:45 | a name is in `os.listdir` of a listing iff some entry of that listing, file or directory, has that name |
| SegmentationIndex.ScannedSubdirIff | efficientnet_pytorch/test_segmentation.py:45 | a root entry is scanned iff it is a directory with some child named `1`, whether that child is a file or a directory |
| SegmentationIndex.SampleForStem | efficientnet_pytorch/test_segmentation.py:51-52 | that mask name is the extracted stem followed by `_true_seg.png` |
| SegmentationIndex.SamplesOf | efficientnet_pytorch/test_segmentation.py:50-52 | one pair per accepted name, in the same order, each with the name's mask name |
| SegmentationIndex.SamplesOfMembers | efficientnet_pytorch/test_segmentation.py:50-52 | a pair is produced for a `valid_imgs` list iff its image is in the list and its mask is that image's mask name |
| SegmentationIndex.IndexMembers | efficientnet_pytorch/test_segmentation.py:45-52 | a pair is in the index iff its image passes the filter, is listed in a `1` directory of a scanned root subdirectory, and its mask is `stem + "_true_seg.png"` |
| SegmentationIndex.RejectedNamesNeverIndexed | efficientnet_pytorch/test_segmentation.py:49-52 | a name the line-49 filter rejects never appears in the index |
| SegmentationIndex.IndexAppend | efficientnet_pytorch/test_segmentation.py:45 | indexing two root listings one after the other gives the two indexes concatenated, so samples follow root order |
| SegmentationIndex.IndexFlattened | efficientnet_pytorch/test_segmentation.py:44-52 | the index is the samples of the visited `1` directories in scan order, and its length is the sum of their accepted-entry counts |
| SegmentationIndex.NoPositiveDirNoSamples | efficientnet_pytorch/test_segmentation.py:45-47 | a root entry with no child directory named `1` contributes nothing, including a subdirectory whose `1` is a plain file |
| SegmentationIndex.SkippedSubdirHasNoPositiveDir | efficientnet_pytorch/test_segmentation.py:45-47 | a directory the line-45 test skips has no child directory named `1` |
| SegmentationIndex.ScanGuardRedundant | efficientnet_pytorch/test_segmentation.py:45-47 | dropping the `'1' in os.listdir(entry)` test and scanning every subdirectory gives the same index |
| SegmentationIndex.MaskNeedNotExist | efficientnet_pytorch/test_segmentation.py:49-52 | whatever the subdirectory is called, a `1` directory holding only `5.png` still yields `("5.png", "5_true_seg.png")`, because mask existence is never checked |
| SegmentationIndex.SameNameInTwoDirs | efficientnet_pytorch/test_segmentation.py:49-52 | samples hold bare names from `os.listdir`, not paths, so `5.png` in the `1` directories of two subdirectories gives two identical samples |
| SegmentationIndex.SegmentationTestSet.constructor | efficientnet_pytorch/test_segmentation.py:41-52 | starting from empty `samples`, the three nested loops only append, and leave `samples` equal to `Index(root)` |
| SegmentationIndex.SegmentationTestSet.Length | efficientnet_pytorch/test_segmentation.py:57-58 | `len()` is the number of samples, which equals the accepted-entry count summed over the visited `1` directories |

## Left out

- `os.scandir` and `os.listdir` are replaced by an immutable `Entry` snapshot whose sequence order is the enumeration order. Filesystem errors, symbolic links and concurrent changes are not modelled.
- The paths of subdirectories and `1` directories (`entry.path`) are not modelled: only entry names are kept, since the samples hold bare names from `os.listdir`.
- `classification_test_set` (lines 12-24): only its filter `is_input_image` is modelled. Building `ImageFolder` and `ConcatDataset` is code of foreign libraries whose behaviour is not visible here.
- `target_transform` (lines 32-38): grayscale conversion, resizing and tensor conversion are image decoding and floating-point numerics.
- `SegmentationTestSet.__getitem__` (lines 54-55) is a no-op with no behaviour to state.
- `parse_args` and `main` (lines 61 onward): command-line parsing, checkpoint loading, devices, data-loader workers and the external evaluation procedure.
- Constructor parameters `transform` and `target_transform`: the source stores neither.
- Unicode semantics of `\d` and `\w`: restricted to ASCII.
- MaskThreshold.Threshold: values are Dafny reals, so float32 rounding of the constant 0.6 is not modelled. A tensor is taken as a flat sequence, and its shape is kept by keeping the length.
- FileNames.ExtractStem: the Python `AttributeError` raised by `None.group()` is modelled as `None`, which is unreachable after the line-49 filter.
- SegmentationIndex.SegmentationTestSet.constructor: the loops append to a local list, which is stored in `samples` once they finish, rather than appending to the field at each step. Nothing can observe `samples` before the constructor returns, so the final state is the same.
