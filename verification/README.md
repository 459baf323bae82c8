# Reading order of detected text boxes, modelled in Dafny

This project models the post-processing core of `test_craft.py` (MultiModal Movie Genre
Analysis). After the CRAFT detector has found text boxes in a poster, the script:

1. reduces each box to a "min point" and a "max point" (lines 167-182);
2. puts the boxes in reading order: rows from top to bottom, each row left to right
   (lines 195-240);
3. names one crop per box after the image, its row id and its position (line 248);
4. after recognition, rebuilds the page text from the (crop path, predicted text) pairs
   (lines 280-291). A text whose row id, read back from its path, exceeds the current-row
   counter is preceded by a line break, and the counter then rises by one.

It also models `copyStateDict` (lines 29-38), which copies the saved weights, an ordered
dictionary. When the first key starts with "module", as the keys of weights saved from a
multi-GPU model do, every key loses its first dot-separated segment, whatever that segment
is. Otherwise every key is kept as it is.

The modules follow those steps:

- `Geometry` covers the corner pick.
- `RowOrder` covers seed selection, the 0.30 overlap test, insertion into the current row
  and the ordering loop.
- `Reassembly` covers crop names and the reassembly loop.
- `StateDict` covers `copyStateDict` over an ordered dictionary.
- `Text` holds the Python string operations these rely on: split, join, find, slicing with
  negative bounds, `str` and `int`.

Conventions:

- Coordinates are reals.
- The script's local lists (`order`, `points_sorted`, `order_sorted`) are sequences that
  the methods hand back updated.
- `RowOrder.OrderRows` also returns two ghost lists:
  - `src` gives, for each sorted entry, the index of its box;
  - `seeds` gives the box that seeded each row.

Quirks of the code that the model keeps:

- The corners are not per-axis minima and maxima. The scan keeps replacing the candidate
  with any later point that is componentwise at or below it (at or above it for the max
  point), so each corner is one of the box's own points.
  - `Geometry.InvertedExtentExample` shows a box whose min point lies below its max point.
- Seed selection compares with `<=`, so among unplaced boxes with equal tops the LAST
  index seeds the row, not the first.
- A new box goes before the first row entry whose left edge is strictly larger. Equal left
  edges therefore keep admission order: the seed first, then ascending index.
- A zero shorter height makes the overlap ratio 0/0. That is nan, which never passes
  `>= 0.30`, so such a box is not admitted.
- The seed scan starts from the image height with index -1. If no unplaced box has its top
  within the height, the script writes through index -1, meaning the last box. The model
  does the same. The strong guarantees hold when every top lies within the image height
  (`TopsWithin`): every box placed exactly once, and each row exactly what its seed admits.
- When the attention decoder's output lacks the end-of-sentence token, `find` returns -1
  and the slice drops the last character (`Reassembly.PruneWithoutToken`).
- The page loop raises `curr_order` by one, not to the row id read, and only for a text
  whose row id exceeds it. After a gap in the row ids it therefore also breaks the line
  between texts with equal row ids, until it catches up (`Reassembly.RowGapExample`).
  For the row ids the ordering loop emits, which start at 1 and rise by at most one, the
  result is the expected rendering (`Reassembly.ReassembleCrops`).

## Model

| member | source | states |
|---|---|---|
| Geometry.ScanMin | test_craft.py:174-177 | the min point is the start candidate or a point of the box, lies componentwise at or below the start, and no other box point lies componentwise at or below it |
| Geometry.ScanMax | test_craft.py:174-180 | the max point is the start candidate or a box point, lies at or above the start, and no other box point lies componentwise at or above it |
| Geometry.ExtractCorners | test_craft.py:170-181 | the loop's min and max points are the scans started from the first and third points: both are points of the box and no box point dominates them |
| Geometry.ExtractAll | test_craft.py:167-182 | one extent per box, each the corner pair of that box, and every row id starts at 0 |
| Geometry.RectangleCorners | test_craft.py:172-180 | for an axis-aligned rectangle, corners in any order, the scan yields the top-left and bottom-right corners |
| Geometry.InvertedExtentExample | test_craft.py:172-180 | a concrete box whose picked min point lies below its picked max point |
| RowOrder.Touches | test_craft.py:224 | definition: the candidate's bottom is at or below the seed's top and its top at or above the seed's bottom |
| RowOrder.Intersection | test_craft.py:225 | definition: the lower of the two bottoms minus the higher of the two tops |
| RowOrder.ShorterHeight | test_craft.py:225 | definition: the smaller of the seed's and the candidate's heights |
| RowOrder.Admits | test_craft.py:224-226 | definition: the extents touch, the shorter height is non-zero (a zero one gives nan) and the overlap ratio is at least 0.3 |
| RowOrder.AdmitsCrossMultiplied | test_craft.py:224-226 | admission holds exactly when the extents touch and the overlap is at least 0.3 times the shorter height, with the comparison reversed for a negative height |
| RowOrder.ZeroHeightNeverAdmitted | test_craft.py:225-226 | touching extents with a zero shorter height have zero overlap, and the box is never admitted |
| RowOrder.SelectSeed | test_craft.py:202-208 | the index is -1 exactly when no unplaced box has its top within the height; otherwise it is an unplaced box with the smallest top, the last one among equal tops |
| RowOrder.Insert | test_craft.py:234-239 | list insertion: the new element sits at the position, the earlier elements are unchanged, the later ones shift right, and the multiset gains exactly that element |
| RowOrder.InsertionPoint | test_craft.py:230-240 | the position lies in the current row, every entry before it has a left edge at most the new one, and the entry at it has a strictly larger left edge |
| RowOrder.InsertInRow | test_craft.py:229-240 | the loop inserts the box and its row id at the insertion point in both lists |
| RowOrder.InsertKeepsSegmentOrdered | test_craft.py:229-240 | inserting at the insertion point keeps the row sorted by left edge, with equal left edges in admission order |
| RowOrder.AdmitBox | test_craft.py:227-240 | an admitted box gets the row id and joins the row; the row stays ordered and tied to its boxes, and nothing before the row changes |
| RowOrder.GrowRow | test_craft.py:216-240 | every unplaced box the seed admits, and only those, gets the row id and is inserted; the row stays ordered and the earlier rows are unchanged |
| RowOrder.RowPlaced | test_craft.py:209-240 | one pass keeps the ordering invariant: row ids well formed, rows left to right, every placed box listed, and, with tops within the height, no box twice and each row exactly what its seed admits |
| RowOrder.PlaceRow | test_craft.py:200-240 | one pass places at least one more box, opens exactly one new row, and, with tops within the height, keeps the row id of every box already placed |
| RowOrder.AllPlaced | test_craft.py:200 | when the loop stops and tops lie within the height, the sorted list is a permutation of the boxes and every box has a row id from 1 to the number of rows |
| RowOrder.PlacedIdsKept | test_craft.py:216-227 | growing a row from an unplaced seed changes the row id of no box placed before |
| RowOrder.OrderRows | test_craft.py:195-240 | the loop ends with the ordering invariant; with tops within the height, every box appears exactly once in reading order and carries a row id |
| StateDict.Get | test_craft.py:37 | a lookup fails exactly when the key is absent |
| StateDict.Assign | test_craft.py:37 | assignment keeps the key order, appending a key that was absent |
| StateDict.AssignGet | test_craft.py:37 | after assignment the key holds the new value and every other key its old one |
| StateDict.AssignNew | test_craft.py:37 | assigning an absent key appends one entry |
| StateDict.BuildDict | test_craft.py:34-37 | definition: the dictionary that assigning the entries in order builds, starting empty |
| StateDict.BuildDictLookup | test_craft.py:34-37 | the dictionary built by the loop maps each key to the value of its last entry |
| StateDict.BuildDictKeys | test_craft.py:34-37 | the built dictionary has distinct keys, exactly the keys of the entries |
| StateDict.Renamed | test_craft.py:35-36 | every entry under its new name with its own value, same length and order |
| StateDict.NewName | test_craft.py:36 | definition: the key's dot-separated segments from the start index on, joined again with dots |
| StateDict.StartIdx | test_craft.py:30-33 | definition: 1 when the first key starts with "module", else 0 |
| StateDict.Copied | test_craft.py:34-38 | definition: the dictionary built from the entries under their new names |
| StateDict.CopyStateDict | test_craft.py:29-38 | an empty dictionary raises; otherwise the result is the renamed copy and has distinct keys |
| StateDict.CopyWithoutModulePrefix | test_craft.py:30-36 | without the "module" prefix on the first key, the copy equals the original |
| StateDict.NewNameDropsFirst | test_craft.py:36 | renaming with one segment dropped removes everything up to and including the first dot |
| StateDict.CopyWithModulePrefix | test_craft.py:30-36 | with the prefix, each key loses its first segment, in place and with its value, when the new names are distinct |
| StateDict.CopyLookup | test_craft.py:35-38 | each key of the copy holds the value of the last entry renamed to it |
| Text.Split | test_craft.py:286 | split gives at least one piece and no piece holds the separator |
| Text.Join | test_craft.py:36 | definition: the pieces with the separator between consecutive ones; empty for no pieces |
| Text.StartsWith | test_craft.py:30 | definition: the prefix is no longer than the string and equals its beginning |
| Text.JoinSplit | test_craft.py:36 | joining the pieces of a split gives the string back |
| Text.JoinDropFirst | test_craft.py:36 | joining all pieces but the first gives what follows the first separator, or "" without one |
| Text.SplitThree | test_craft.py:286 | three separator-free pieces joined by the separator split back into the three |
| Text.Find | test_craft.py:284 | find is -1 exactly when the pattern never occurs; otherwise it is the first occurrence |
| Text.SliceBound | test_craft.py:285-286 | a slice bound in range is kept, one above the length becomes the length, a negative one counts from the end, and one below minus the length becomes 0 |
| Text.Slice | test_craft.py:285-286 | the slice holds the characters from the normalised lower bound up to the normalised upper bound, and is empty when they cross |
| Text.SliceInRange | test_craft.py:285-286 | with bounds inside the string, the slice is the plain subsequence |
| Text.SliceToNegative | test_craft.py:285 | slicing up to -j drops the last j characters, and leaves nothing when j exceeds the length, so the empty prediction stays empty |
| Text.SliceBetween | test_craft.py:286 | cutting a prefix and a non-empty suffix by their lengths leaves the middle |
| Text.NatToString | test_craft.py:248 | the decimal form of a natural number: at least one character, all digits, no leading zero |
| Text.IntToString | test_craft.py:248 | the decimal form of an integer, with a minus sign when negative: never empty and never holding an underscore |
| Text.ParseInt | test_craft.py:288 | a string that parses holds at least one digit, so one without digits raises ValueError |
| Text.ParseDigits | test_craft.py:288 | a non-empty string of digits parses to the value of its digits |
| Text.ParseNegative | test_craft.py:288 | a minus sign before a non-empty string of digits parses to the negated value of the digits |
| Text.ParseIntOfIntToString | test_craft.py:288 | parsing the decimal form of any integer gives the integer back |
| Reassembly.CropName | test_craft.py:248 | definition: folder, image name, underscore, row id, underscore, position and ".jpg" |
| Reassembly.CropNames | test_craft.py:244-248 | crop name i carries the image name, the row id of entry i and the position i |
| Reassembly.PathInfo | test_craft.py:286 | the path without folder prefix and extension, split at underscores: never an empty list |
| Reassembly.CropNameRoundTrip | test_craft.py:286-288 | a crop name split back gives the image name, the row id and the position, and the row id parses to the original |
| Reassembly.PredText | test_craft.py:283-285 | definition: the prediction cut at the end-of-sentence token when the decoder is the attention one, otherwise unchanged |
| Reassembly.Prune | test_craft.py:284-285 | definition: the text sliced up to the position where the end-of-sentence token is found, -1 when absent |
| Reassembly.PruneAtToken | test_craft.py:284-285 | with the end-of-sentence token present, the text is cut before its first occurrence and holds no token |
| Reassembly.PruneWithoutToken | test_craft.py:284-285 | without the token, the slice to -1 drops the last character |
| Reassembly.Advance | test_craft.py:288-291 | definition: a line break first when the row id exceeds the current row, which then rises by one; then the text and a space |
| Reassembly.Step | test_craft.py:283-291 | definition: one loop pass; another image's path leaves the page, a path without a row id raises IndexError, a row id that is not an integer raises ValueError, otherwise the page advances |
| Reassembly.StepOnCrop | test_craft.py:286-291 | a crop of this image is always taken, with the row id from its name |
| Reassembly.StepSkipsOtherImage | test_craft.py:286-287 | a crop of another image leaves the page unchanged |
| Reassembly.Run | test_craft.py:282-291 | definition: the steps applied to the pairs in order, stopping at the first exception |
| Reassembly.RunCrop | test_craft.py:282-291 | a crop of this image at the head of the pairs is taken, and the loop continues with the rest |
| Reassembly.Zip | test_craft.py:282 | zip pairs the lists element by element, up to the shorter |
| Reassembly.Reassemble | test_craft.py:280-291 | the loop returns the page text of running all pairs from an empty page at row 1, or the IndexError or ValueError that run raises |
| Reassembly.RunCrops | test_craft.py:282-291 | running over crops of this image equals the loop over their row ids and texts alone |
| Reassembly.StepsFromSteps | test_craft.py:288-290 | row ids that rise by at most one from the current row keep the page's row in step with them |
| Reassembly.WellFormedStepsFrom | test_craft.py:288-290 | the row ids the ordering loop emits meet that condition from row 1 |
| Reassembly.RunRowsRender | test_craft.py:288-291 | under that condition the loop appends each text and a space, with a line break exactly where the row id rises, and ends at the last row id |
| Reassembly.ReassembleCrops | test_craft.py:280-291 | for well-formed row ids the page is the expected rendering, one line per row |
| Reassembly.RowGapRows | test_craft.py:288-291 | row ids 1, 3, 3 give a line break before each of the last two texts |
| Reassembly.RowGapExample | test_craft.py:288-291 | the same row-gap behaviour for actual crop names |

## Left out

- `test_net`, the CRAFT detector, model loading and command-line parsing are left out. They
  are neural-network inference and I/O.
- Image reading, colour conversion, display, cropping and `cv2.imwrite` are image I/O. The
  image enters only through its height; the crops only through their names.
- The recognition step (data loader, recogniser, label converter) is inference. The
  reassembly takes the list of paths and predicted texts as given.
- The order in which the data loader lists the crop files comes from `dataset.py`, which is
  not part of this model. `Reassembly.ReassembleCrops` assumes the crops arrive in reading
  order; `Reassembly.Reassemble` accepts any order.
- Each batch resets the output string. The model covers one batch.
- Coordinates are exact reals, not IEEE floats. Rounding in the overlap ratio is not
  modelled; the nan of a zero denominator is.
- `Text.ParseInt` covers an optional sign followed by ASCII decimal digits. Python's `int`
  also accepts surrounding whitespace, underscores between digits and non-ASCII decimal
  digits. The row ids in crop names contain none of these, so the round trip is
  unaffected.
- The final `print` of the page text is output. `Reassembly.Reassemble` returns the string.
- `RowOrder.OrderRows`: the permutation and all-placed guarantees are stated only when every
  box top lies within the image height. Otherwise the index -1 path can place the last box
  more than once and may leave other boxes unplaced.
- `RowOrder.PlaceRow`: keeping the row ids of boxes already placed is stated only when every
  box top lies within the image height. On the index -1 path the last box may be relabelled.
