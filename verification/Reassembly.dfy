/** Crop naming and text reassembly (test_craft.py, lines 244-248 and 280-291).

    Each box of the reading order is saved as a crop named after the image, its row id and
    its position; the recognised texts come back paired with the crop paths, and the script
    rebuilds the page: a line break whenever the row id read back from the path rises above
    the current row, then the text and a space. */
module Reassembly {
  import opened Text
  import opened RowOrder

  /** The two exceptions the reassembly loop can raise. */
  datatype Failure = IndexError | ValueError

  datatype Result<T> = Ok(value: T) | Err(failure: Failure)

  /** The extension of every crop (line 248). */
  const CropExtension: string := ".jpg"

  /** The end-of-sentence token of the attention decoder (line 284). */
  const EndOfSentence: string := "[s]"

  // ---------------------------------------------------------------------------------------
  // Crop names (lines 244-248)

  /** Line 248: the folder, the image name, an underscore, the row id, an underscore, the
      position in the reading order and the ".jpg" extension. */
  function CropName(folder: string, filename: string, row: int, i: nat): string {
    folder + filename + "_" + IntToString(row) + "_" + NatToString(i) + CropExtension
  }

  /** The loop of lines 244-248: one name per entry of the reading order, in that order. */
  method CropNames(folder: string, filename: string, orderSorted: seq<int>) returns (names: seq<string>)
    ensures |names| == |orderSorted|
    ensures forall i :: 0 <= i < |orderSorted| ==> names[i] == CropName(folder, filename, orderSorted[i], i)
  {
    names := [];
    for i := 0 to |orderSorted|
      invariant |names| == i
      invariant forall k :: 0 <= k < i ==> names[k] == CropName(folder, filename, orderSorted[k], k)
    {
      var maskFile := folder + filename + "_" + IntToString(orderSorted[i]) + "_" + NatToString(i) + CropExtension;
      names := names + [maskFile];
    }
  }

  /** Line 286: the path without the folder prefix and the image's extension, split at
      underscores. */
  function PathInfo(path: string, folder: string, ext: string): (info: seq<string>)
    ensures |info| >= 1
  {
    Split(Slice(path, |folder|, -|ext|), '_')
  }

  /** A crop name reads back as the image name, the row id and the position, as long as the
      image name has no underscore and the image's extension is as long as ".jpg". */
  lemma CropNameRoundTrip(folder: string, filename: string, row: int, i: nat, ext: string)
    requires '_' !in filename && |ext| == |CropExtension|
    ensures PathInfo(CropName(folder, filename, row, i), folder, ext) == [filename, IntToString(row), NatToString(i)]
    ensures ParseInt(PathInfo(CropName(folder, filename, row, i), folder, ext)[1]) == Some(row)
  {
    var r, n := IntToString(row), NatToString(i);
    var name, stem := CropName(folder, filename, row, i), filename + ['_'] + r + ['_'] + n;
    assert name == folder + stem + CropExtension;
    SliceBetween(folder, stem, CropExtension);
    assert Slice(name, |folder|, -|ext|) == stem;
    assert '_' !in n by {
      forall k | 0 <= k < |n| ensures n[k] != '_' {
        assert IsDigit(n[k]);
      }
    }
    SplitThree(filename, r, n, '_');
    assert PathInfo(name, folder, ext) == [filename, r, n];
    ParseIntOfIntToString(row);
  }

  // ---------------------------------------------------------------------------------------
  // Pruning at the end-of-sentence token (lines 283-285)

  /** Lines 284-285: the text up to the first end-of-sentence token, sliced with the
      position `find` reports (-1 when the token is absent). */
  function Prune(p: string): string {
    Slice(p, 0, Find(p, EndOfSentence))
  }

  /** With the token present, the text is cut just before its first occurrence, and what
      remains holds no token. */
  lemma PruneAtToken(p: string)
    requires Find(p, EndOfSentence) != -1
    ensures Prune(p) == p[..Find(p, EndOfSentence)]
    ensures forall k :: !MatchAt(Prune(p), EndOfSentence, k)
  {
    var e := Find(p, EndOfSentence);
    forall k | MatchAt(p[..e], EndOfSentence, k) ensures false {
      assert p[k..k + 3] == p[..e][k..k + 3];
      assert MatchAt(p, EndOfSentence, k);
    }
  }

  /** Without the token, `find` gives -1 and the slice drops the last character. */
  lemma PruneWithoutToken(p: string)
    requires Find(p, EndOfSentence) == -1
    ensures Prune(p) == if p == [] then [] else p[..|p| - 1]
  {
  }

  // ---------------------------------------------------------------------------------------
  // Reassembly (lines 280-291)

  /** The text of one prediction as the loop uses it: pruned when the decoder is the
      attention one (line 283). */
  function PredText(attn: bool, p: string): string {
    if attn then Prune(p) else p
  }

  /** The state of the loop: the text so far and the current row. */
  datatype Page = Page(output: string, currOrder: int)

  /** Lines 288-291 for a taken text `t` whose crop has row id `row`: a line break first when
      the row id exceeds the current row, which then climbs by one. */
  function Advance(page: Page, row: int, t: string): Page {
    if row > page.currOrder then Page(page.output + "\n" + t + " ", page.currOrder + 1)
    else Page(page.output + t + " ", page.currOrder)
  }

  /** One pass of the loop body (lines 282-291) for the pair (`path`, `p`): a path of another
      image is passed over, a path with no row id raises IndexError, a row id that is not an
      integer raises ValueError. */
  function Step(folder: string, filename: string, ext: string, attn: bool, page: Page,
                path: string, p: string): Result<Page>
  {
    var t := PredText(attn, p);
    var info := PathInfo(path, folder, ext);
    if info[0] != filename then Ok(page)
    else if |info| < 2 then Err(IndexError)
    else match ParseInt(info[1])
      case None => Err(ValueError)
      case Some(row) => Ok(Advance(page, row, t))
  }

  /** A crop of this image is always taken, with the row id its name carries. */
  lemma StepOnCrop(folder: string, filename: string, ext: string, attn: bool, page: Page,
                   row: int, i: nat, p: string)
    requires '_' !in filename && |ext| == |CropExtension|
    ensures Step(folder, filename, ext, attn, page, CropName(folder, filename, row, i), p)
      == Ok(Advance(page, row, PredText(attn, p)))
  {
    CropNameRoundTrip(folder, filename, row, i, ext);
  }

  /** A crop of another image (whose name has no underscore either) leaves the page as it
      is. */
  lemma StepSkipsOtherImage(folder: string, filename: string, other: string, ext: string, attn: bool,
                            page: Page, row: int, i: nat, p: string)
    requires '_' !in other && |ext| == |CropExtension| && other != filename
    ensures Step(folder, filename, ext, attn, page, CropName(folder, other, row, i), p) == Ok(page)
  {
    CropNameRoundTrip(folder, other, row, i, ext);
  }

  /** The loop of lines 282-291 over the remaining pairs, from `page` on. */
  function Run(folder: string, filename: string, ext: string, attn: bool, page: Page,
               items: seq<(string, string)>): Result<Page>
    decreases |items|
  {
    if items == [] then Ok(page)
    else match Step(folder, filename, ext, attn, page, items[0].0, items[0].1)
      case Err(e) => Err(e)
      case Ok(next) => Run(folder, filename, ext, attn, next, items[1..])
  }

  /** A crop of this image at the head of the pairs is taken, and the loop goes on with the
      rest. */
  lemma RunCrop(folder: string, filename: string, ext: string, attn: bool, page: Page,
                items: seq<(string, string)>, row: int, i: nat, p: string)
    requires '_' !in filename && |ext| == |CropExtension|
    requires items != [] && items[0] == (CropName(folder, filename, row, i), p)
    ensures Run(folder, filename, ext, attn, page, items)
      == Run(folder, filename, ext, attn, Advance(page, row, PredText(attn, p)), items[1..])
  {
    StepOnCrop(folder, filename, ext, attn, page, row, i, p);
  }

  /** Python's `zip`: pairs up to the shorter of the two lists. */
  function Zip(paths: seq<string>, preds: seq<string>): (z: seq<(string, string)>)
    ensures |z| == Min(|paths|, |preds|)
    ensures forall k :: 0 <= k < |z| ==> z[k] == (paths[k], preds[k])
  {
    seq(Min(|paths|, |preds|), k requires 0 <= k < Min(|paths|, |preds|) => (paths[k], preds[k]))
  }

  /** Lines 279-291 for one batch: the output string, or the exception the loop raises. */
  method Reassemble(folder: string, filename: string, ext: string, attn: bool,
                    imagePathList: seq<string>, predsStr: seq<string>) returns (r: Result<string>)
    ensures var run := Run(folder, filename, ext, attn, Page("", 1), Zip(imagePathList, predsStr));
      r == if run.Ok? then Ok(run.value.output) else Err(run.failure)
  {
    var items := Zip(imagePathList, predsStr);
    var outputString := "";
    var currOrder := 1;
    for k := 0 to |items|
      invariant Run(folder, filename, ext, attn, Page("", 1), items)
        == Run(folder, filename, ext, attn, Page(outputString, currOrder), items[k..])
    {
      assert items[k..][1..] == items[k + 1..];
      var path, p := items[k].0, items[k].1;
      if attn {
        var predEos := Find(p, EndOfSentence);
        p := Slice(p, 0, predEos);
      }
      var pathInfo := Split(Slice(path, |folder|, -|ext|), '_');
      if pathInfo[0] == filename {
        if |pathInfo| < 2 {
          return Err(IndexError);
        }
        var row := ParseInt(pathInfo[1]);
        if row.None? {
          return Err(ValueError);
        }
        if row.value > currOrder {
          currOrder := currOrder + 1;
          outputString := outputString + "\n";
        }
        outputString := outputString + p + " ";
      }
    }
    assert items[|items|..] == [];
    return Ok(outputString);
  }

  // ---------------------------------------------------------------------------------------
  // What the reassembly produces for the crops of a reading order

  /** The loop over row ids and texts alone, once every path has been read back. */
  function RunRows(page: Page, rows: seq<int>, texts: seq<string>): Page
    requires |texts| == |rows|
    decreases |rows|
  {
    if rows == [] then page else RunRows(Advance(page, rows[0], texts[0]), rows[1..], texts[1..])
  }

  /** The crop paths of a reading order paired with their predictions. */
  function CropItems(folder: string, filename: string, rows: seq<int>, preds: seq<string>): (items: seq<(string, string)>)
    requires |preds| == |rows|
    ensures |items| == |rows|
    ensures forall i :: 0 <= i < |rows| ==> items[i] == (CropName(folder, filename, rows[i], i), preds[i])
  {
    seq(|rows|, i requires 0 <= i < |rows| => (CropName(folder, filename, rows[i], i), preds[i]))
  }

  /** The texts the loop appends. */
  function Texts(attn: bool, preds: seq<string>): (ts: seq<string>)
    ensures |ts| == |preds| && forall i :: 0 <= i < |preds| ==> ts[i] == PredText(attn, preds[i])
  {
    seq(|preds|, i requires 0 <= i < |preds| => PredText(attn, preds[i]))
  }

  /** Fed the crops of a reading order, from position `i` on, the loop never fails and reads
      back exactly the row ids the names were made from. */
  lemma {:induction false} RunCrops(folder: string, filename: string, ext: string, attn: bool,
                                    rows: seq<int>, preds: seq<string>, i: nat, page: Page)
    requires '_' !in filename && |ext| == |CropExtension|
    requires |preds| == |rows| && i <= |rows|
    ensures Run(folder, filename, ext, attn, page, CropItems(folder, filename, rows, preds)[i..])
      == Ok(RunRows(page, rows[i..], Texts(attn, preds)[i..]))
    decreases |rows| - i
  {
    var items := CropItems(folder, filename, rows, preds);
    var ts := Texts(attn, preds);
    if i < |rows| {
      assert items[i..][0] == (CropName(folder, filename, rows[i], i), preds[i]) && items[i..][1..] == items[i + 1..];
      assert rows[i..][0] == rows[i] && rows[i..][1..] == rows[i + 1..];
      assert ts[i..][0] == PredText(attn, preds[i]) && ts[i..][1..] == ts[i + 1..];
      var next := Advance(page, rows[i], PredText(attn, preds[i]));
      RunCrop(folder, filename, ext, attn, page, items[i..], rows[i], i, preds[i]);
      RunCrops(folder, filename, ext, attn, rows, preds, i + 1, next);
    } else {
      assert items[i..] == [] && rows[i..] == [] && ts[i..] == [];
    }
  }

  /** The loop over all the crops of a reading order, from any starting state. */
  lemma RunAllCrops(folder: string, filename: string, ext: string, attn: bool,
                    rows: seq<int>, preds: seq<string>, page: Page)
    requires '_' !in filename && |ext| == |CropExtension| && |preds| == |rows|
    ensures Run(folder, filename, ext, attn, page, CropItems(folder, filename, rows, preds))
      == Ok(RunRows(page, rows, Texts(attn, preds)))
  {
    var items, ts := CropItems(folder, filename, rows, preds), Texts(attn, preds);
    RunCrops(folder, filename, ext, attn, rows, preds, 0, page);
    assert items[0..] == items && rows[0..] == rows && ts[0..] == ts;
  }

  /** The page a reader expects: each text followed by a space, with a line break before
      every text whose row id is larger than the previous one's (or than `prev` for the
      first text). */
  function RenderFrom(texts: seq<string>, rows: seq<int>, prev: int): string
    requires |texts| == |rows|
    decreases |rows|
  {
    if rows == [] then ""
    else (if rows[0] > prev then "\n" else "") + texts[0] + " " + RenderFrom(texts[1..], rows[1..], rows[0])
  }

  /** Row ids that start at `prev` or one above and then rise by at most one at a time. */
  predicate StepsFrom(rows: seq<int>, prev: int)
    decreases |rows|
  {
    rows == [] || ((rows[0] == prev || rows[0] == prev + 1) && StepsFrom(rows[1..], rows[0]))
  }

  /** Row ids that never fall and rise by at most one from one entry to the next, starting
      at `prev` or one above, step from `prev`. */
  lemma {:induction false} StepsFromSteps(rows: seq<int>, prev: int)
    requires forall k :: 0 < k < |rows| ==> rows[k - 1] <= rows[k] <= rows[k - 1] + 1
    requires |rows| > 0 ==> rows[0] == prev || rows[0] == prev + 1
    ensures StepsFrom(rows, prev)
    decreases |rows|
  {
    if rows != [] {
      var rest := rows[1..];
      assert forall k :: 0 < k < |rest| ==> rest[k - 1] == rows[k] && rest[k] == rows[k + 1];
      StepsFromSteps(rest, rows[0]);
    }
  }

  /** The row ids of a reading order step from row 1. */
  lemma WellFormedStepsFrom(rows: seq<int>)
    requires RowIdsWellFormed(rows)
    ensures StepsFrom(rows, 1)
  {
    assert forall k :: 0 < k < |rows| ==> rows[k - 1] <= rows[k];
    StepsFromSteps(rows, 1);
  }

  /** When the row ids step from the current row, the current row follows them exactly and
      the loop writes `RenderFrom`. */
  lemma {:induction false} RunRowsRender(page: Page, rows: seq<int>, texts: seq<string>)
    requires |texts| == |rows| && StepsFrom(rows, page.currOrder)
    ensures RunRows(page, rows, texts)
      == Page(page.output + RenderFrom(texts, rows, page.currOrder), if rows == [] then page.currOrder else rows[|rows| - 1])
    decreases |rows|
  {
    if rows == [] {
      assert page.output + "" == page.output;
    } else {
      var next := Advance(page, rows[0], texts[0]);
      var nl := if rows[0] > page.currOrder then "\n" else "";
      assert next == Page(page.output + nl + texts[0] + " ", rows[0]);
      RunRowsRender(next, rows[1..], texts[1..]);
      var rest := RenderFrom(texts[1..], rows[1..], rows[0]);
      assert RenderFrom(texts, rows, page.currOrder) == nl + texts[0] + " " + rest;
      assert page.output + nl + texts[0] + " " + rest == page.output + (nl + texts[0] + " " + rest);
    }
  }

  /** For the crops of a reading order whose row ids are well formed, fed back in order,
      the reassembled page has a line break exactly where the row id rises. */
  lemma ReassembleCrops(folder: string, filename: string, ext: string, attn: bool, rows: seq<int>, preds: seq<string>)
    requires '_' !in filename && |ext| == |CropExtension|
    requires |preds| == |rows| && RowIdsWellFormed(rows)
    ensures Run(folder, filename, ext, attn, Page("", 1), CropItems(folder, filename, rows, preds))
      == Ok(Page(RenderFrom(Texts(attn, preds), rows, 1), if rows == [] then 1 else rows[|rows| - 1]))
  {
    var ts := Texts(attn, preds);
    RunAllCrops(folder, filename, ext, attn, rows, preds, Page("", 1));
    WellFormedStepsFrom(rows);
    RunRowsRender(Page("", 1), rows, ts);
    assert "" + RenderFrom(ts, rows, 1) == RenderFrom(ts, rows, 1);
  }

  /** Row ids 1, 3, 3: the current row reaches 3 only at the last text, so the loop breaks
      the line before each of the last two texts. */
  lemma RowGapRows()
    ensures RunRows(Page("", 1), [1, 3, 3], ["a", "b", "c"]) == Page("a \nb \nc ", 3)
  {
    var p1 := Advance(Page("", 1), 1, "a");
    var p2 := Advance(p1, 3, "b");
    var p3 := Advance(p2, 3, "c");
    assert p3 == Page("a \nb \nc ", 3);
    var rows, texts := [1, 3, 3], ["a", "b", "c"];
    assert rows[1..] == [3, 3] && rows[1..][1..] == [3] && rows[1..][1..][1..] == [];
    assert texts[1..] == ["b", "c"] && texts[1..][1..] == ["c"] && texts[1..][1..][1..] == [];
  }

  /** The current row climbs by one per line break, so a gap in the row ids (row 1, then
      row 3) gives a second, spurious line break inside row 3. */
  lemma RowGapExample(folder: string, filename: string, ext: string)
    requires '_' !in filename && |ext| == |CropExtension|
    ensures Run(folder, filename, ext, false, Page("", 1), CropItems(folder, filename, [1, 3, 3], ["a", "b", "c"]))
      == Ok(Page("a \nb \nc ", 3))
  {
    var rows, preds := [1, 3, 3], ["a", "b", "c"];
    RunAllCrops(folder, filename, ext, false, rows, preds, Page("", 1));
    assert Texts(false, preds) == preds;
    RowGapRows();
  }
}
