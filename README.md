# fsheet core in Dafny

fsheet turns a score's page images into a practice sheet. It stitches the
pages into one wide greyscale canvas, finds the bar lines and pairs neighbouring
bars into measures. It then packs the measures greedily into lines no wider than
a pixel bound. The scanned-score downloader finds how many pages a score has by
doubling and bisection, and the offline reader collects the `<n>.png` files of a
directory and reads the title and composer out of an HTML page.

This project models that core. It states what each step computes and proves it
against small functional specifications:

- `Canvas`: the pages and `merge`. `merge` is the same code in `sheet.go:121-145`
  and `segment.go:12-36`. Both copies are modelled by `Canvas.Merge`.
- `Score`: bars, measures and lines, with their `length`/`extraLength`. Also the
  greedy packing `Greedy`, which both `computeLines` variants follow.
- `BarScan`: the column-by-column region scan of `detectBars` over the
  per-column darkness verdicts, and what its bars satisfy.
- `Sheet`: `sheet.go`'s darkness test (ratio above 0.5), `detectBars`,
  `newMeasures` and the failing `computeLines`, plus the widest-line loop of `render`.
- `Segment`: `segment.go`'s darkness test (above 0.65 of the height),
  `detectBars`, `newMeasures` and the `computeLines` that cannot fail.
- `Download`: `findMax`, with the probe as a function returning `Ok(bool)` or `Err`.
- `Files`: the filename filter and index collection of `findImages`, and the
  assembly of the image slice with its missing indices. `files.go:57-70` and
  `sheet.go:105-118` are the same loop; `Files.AssembleImages` models both.
  Also `parseMetaData`'s token loop, run against a `Tokenizer` class.

`Sheet.DetectBars`, `Segment.DetectBars`, `Sheet.ComputeLines`,
`Segment.ComputeLines`, `Sheet.WidestLine`, `Download.FindMax`,
`Files.AssembleImages` and `Files.ParseMetaData` are imperative methods with the
source's loops. The body of `parseMetaData`'s loop after the `<span>` tag is the
separate method `Files.MatchPastSpan`. Each is proved equal to a specification function (`BarsOf`,
`Pack`, `Greedy`, `MatchFrom`/`AttemptAt`) or to a stated postcondition. The lemmas then
prove properties of those functions.

The model follows the code as written:

- The bar tolerance is measured from a region's first column, not from its last
  (`first < x - tol`).
- A dark region that starts in column 0 is never emitted (`first > 0`). While a
  region that started in column 0 is open, it also hides every later dark
  column.
- `merge` fixes the height at the first page whose height is non-zero. Flat
  pages before that page are accepted, and a mismatch is reported for the first
  later page whose height differs.
- `sheet.go`'s `computeLines` rejects a too-long measure only when it is the
  first measure (see Findings).
- For zero measures, both `computeLines` variants return one empty line.
  `segment.go`'s variant emits an empty first line when the first measure alone
  reaches the bound.
- `findMax` returns a boundary of the probe: a k with f(k) false, and k = 0 or f(k-1) true.
  It is the smallest false index only when the probe is monotone
  (`Download.FindMaxOfThreshold`).

The floating-point darkness tests are modelled over integers as `2*blacks > h`
and `20*blacks > 13*h`. Both are exact for the image heights that occur:

- Below 2^52 rows, a correctly rounded `blacks/h` lies above 0.5 exactly when
  the true ratio does.
- `float64(h)*0.65` never rounds below an integer that the true product reaches.
  For heights below 2^40, its rounding error is far below the 1/20 margin of the
  integer test.
- A zero-height canvas gives NaN in `sheet.go`, which compares as false. The
  integer test is also false there.

## Model

| member | source | states |
|---|---|---|
| Canvas.Merge | sheet.go:121-145 | fails exactly when some page's height differs from the first non-zero height before it, naming the first such page, its height and the expected one; otherwise a new canvas as wide as all pages and as high as the fixed height, every pixel being the grey of the owning page's alpha |
| Canvas.Grey | sheet.go:138-139 | `uint8(255 - a)` on a 32-bit alpha: 255 - a for alphas up to 255, and in general the byte whose sum with a is 0xFF modulo 256 |
| Canvas.GreyOf8BitAlpha | segment.go:29-30 | an 8-bit alpha A, reported as A*0x101, becomes grey 255 - A |
| Canvas.HeightBeforeIsFirstNonZero | segment.go:13-23 | the height merge holds before page i is 0 exactly when all earlier pages are flat, and otherwise is the height of the first non-flat page |
| Canvas.StitchedAt | segment.go:25-34 | column xx of page k lands at canvas column offset(k)+xx, inside the canvas, holding the grey of that page's pixel |
| Score.MeasureLength | sheet.go:155-157 | a measure's length is the length of the line holding only that measure |
| Score.LineLength | sheet.go:161-166 | a non-empty line whose first measure starts no later than its last is at least as wide as that last measure, so `length() == 0` only for the empty line |
| Score.ExtraLength | segment.go:59-64 | extraLength(l, m) is the length the line would have with m appended |
| Score.GreedyRoundTrip | segment.go:97-105 | the packed lines concatenate back to the measures, in order |
| Score.GreedyFits | segment.go:98-101 | every prefix of two or more measures of a line is shorter than the bound (each append kept the line below it), and a non-empty first line starts with a measure shorter than the bound |
| Score.GreedyMaximal | segment.go:102-103 | a line is closed only when the next measure would have brought it to the bound |
| Score.GreedyFirstLine | segment.go:98-103 | the first line is empty exactly when there are no measures or the first measure alone reaches the bound, and otherwise starts with the first measure |
| Score.GreedyNonEmptyTail | segment.go:97-105 | after at least one measure the open last line is non-empty, ends with the last measure and starts with one of the measures |
| BarScan.ScanInvHolds | sheet.go:229-255 | after each column, the open region, the emitted bars and the covered dark columns satisfy the scan invariant |
| BarScan.BarsAreGood | sheet.go:241-258 | every bar starts after column 0 on a dark column preceded by a light one, ends on a dark column inside the canvas, and every column more than tol past its start is dark |
| BarScan.BarsAreApart | sheet.go:249-253 | consecutive bars are separated by light columns and start more than tol+1 columns apart |
| BarScan.DarkFirstColumnHidesAllBars | sheet.go:242-257 | when column 0 is dark, no bar is found at all |
| BarScan.BarsCoverDarkColumns | segment.go:128-146 | when column 0 is light, every dark column lies inside some bar, and no dark column lies before the first bar or after the last |
| BarScan.PairedBarsOrdered | sheet.go:188-193 | measures made from consecutive bars are laid out left to right, each longer than tol+2 pixels |
| Sheet.IsDarkIsRatioAboveHalf | sheet.go:240-241 | the integer test 2*blacks > height holds exactly when the height is positive and blacks/height > 0.5 |
| Sheet.DetectBars | sheet.go:220-260 | the bars are those the region scan yields on the columns' darkness verdicts, inside the canvas and strictly left to right |
| Sheet.NewMeasures | sheet.go:180-199 | fails with the bar count exactly when fewer than two bars are found; otherwise measure i runs from bar i to bar i+1, the measures are ordered and the canvas size is kept |
| Sheet.ComputeLines | sheet.go:201-218 | succeeds exactly when the fold succeeds, with the greedy packing's lines, which concatenate back to the measures; the error is "line too short" with the bound; for ordered measures it fails exactly when the first measure alone reaches the bound |
| Sheet.PackOkIsGreedy | sheet.go:206-217 | a successful fold is the greedy packing |
| Sheet.PackErrSticky | sheet.go:211-213 | once the fold has failed on a prefix it fails on every longer prefix |
| Sheet.PackFailsOnlyAtFirst | sheet.go:206-217 | for ordered measures the fold fails exactly when there is a first measure and it alone reaches the bound |
| Sheet.OversizedLineAccepted | sheet.go:211-215 | two ordered measures, the second 96 pixels long, packed with bound 10: the fold succeeds with the second on a line of its own, while the corrected fold fails |
| Sheet.PackStrictOkIsGreedy | sheet.go:206-217 | the corrected fold, when it succeeds, is the greedy packing |
| Sheet.PackStrictFailsIffSomeTooLong | sheet.go:207-216 | for ordered measures the corrected fold fails exactly when some measure alone reaches the bound |
| Sheet.PackStrictLinesFit | sheet.go:207-216 | every non-empty line of a successful corrected fold is shorter than the bound |
| Sheet.WidestLine | sheet.go:273-278 | the result is at least 0 and every line's length, and it is 0 or some line's length |
| Segment.IsDarkIsAbove65Percent | segment.go:128 | the integer test 20*blacks > 13*height holds exactly when blacks > height*0.65 |
| Segment.DetectBars | segment.go:108-147 | the bars are those the region scan yields on the 0.65 verdicts, inside the canvas and strictly left to right |
| Segment.NewMeasures | segment.go:71-90 | fails with the bar count exactly when fewer than two bars are found; otherwise consecutive bars paired into ordered measures and the canvas size kept |
| Segment.ComputeLines | segment.go:92-106 | the lines are the greedy packing's, at least one of them, concatenating back to the measures; the first line is empty exactly when there are no measures or the first alone reaches the bound |
| Download.Pow2 | download.go:94 | the doubling factor is at least 1 and exceeds the number of rounds |
| Download.FindMax | download.go:86-121 | doubling probes 4, 8, 16, ... while true and stops at the first probe that is not true; an error stops the search at once with the probed index; otherwise the result k has f(k) false and is 0 or has f(k-1) true |
| Download.FindMaxOfThreshold | download.go:84-85 | for the probe "n < total", the result is total without an error |
| Files.SplitFirstDot | files.go:31-34 | no split exactly when the name has no dot; otherwise the name is stem + "." + rest with no dot in the stem |
| Files.SplitFirstDotUnique | sheet.go:79-82 | the split is the only one whose stem has no dot |
| Files.PngExtensions | files.go:35-37 | the extension lowercases to "png" exactly when it is three letters p, n, g in either case |
| Files.AcceptName | files.go:31-41 | a name without a '.' is rejected, and an accepted name ends in '.' and a png extension in any case |
| Files.AcceptNameIff | files.go:31-41 | a name is taken as page n exactly when it splits at its first dot into a stem that parses to n and a png extension |
| Files.DoubleExtensionRejected | sheet.go:79-85 | "1.x.png" is rejected: its extension is "x.png" |
| Files.UpperCaseExtensionAccepted | sheet.go:83-89 | "12.PNG" is taken as page 12 |
| Files.Collect | files.go:24-53 | the collected map has key n exactly when some entry's name is taken as page n |
| Files.CollectKeepsLast | files.go:51 | the image kept for page n is the last entry taken as page n |
| Files.CompleteIffRange | sheet.go:105-118 | every index below the count is present exactly when the indices are 0 .. count-1 |
| Files.AssembleImages | files.go:57-70 | one slot per collected page, slot i holding page i's image or nothing; the missing indices are exactly the absent ones below the count, ascending; none are missing exactly when the indices are 0 .. count-1 |
| Files.Tokenizer.Next | files.go:90-92 | the next token's type, consuming it; ErrorToken, without consuming, once the input is used up |
| Files.SkipText | files.go:113-116 | the first position at or after p whose token is not text, all tokens before it being text |
| Files.ParseMetaData | files.go:88-134 | the result is what the single left-to-right match over the remaining tokens gives: passes are repeated from where the previous one broke off, and the tokenizer's error ends the search |
| Files.MatchPastSpan | files.go:101-133 | the rest of one pass after a <span> tag: the metadata when the pass completes the pattern, otherwise the tokenizer left where the next pass starts, or at the end of the input |
| Files.AttemptAt | files.go:89-133 | one pass either finds the metadata or resumes strictly after its own start, never re-reading a token |
| Files.MatchErrIsFailure | files.go:90-93 | any failure is the tokenizer's own error |
| Files.MatchSound | files.go:97-133 | metadata is returned only for a full span/text/end-tag/texts/h4/text pattern, with the composer from the span and the title from the h4 |
| Files.MatchAtPattern | files.go:97-133 | a full pattern starting at the current token is matched there |
| Files.FirstSpanFound | files.go:89-133 | when a full pattern starts at the first `<span>` at or after the cursor, its metadata is returned, with the composer from that span and the title from the h4 |
| Files.NoBacktracking | files.go:94-128 | a second span right after a first one breaks the match, and the full pattern starting at the second span is never found |

## Left out

- `render`, `pxToPt` and `centeredText` compute in floating point and drive the
  PDF library. Only the widest-line loop of `render` is modelled.
- `Download`, `DownloadAll` and `NewDownloader` do HTTP requests, PNG
  decoding, concurrent fan-out and string and path handling. The `fmt.Println` inside `findMax` is output only. The probe's
  caching of fetched pages is a side effect of the probe and not modelled.
- `main.go`, the command-line wiring and `Sheet.Create` only sequence the
  modelled steps with I/O.
- `filepath.Walk`, `os.Open`, `png.Decode` and `html.NewTokenizer` are not
  modelled. The walk becomes the list of `(name, image)` entries that pass the
  `IsDir` check. `strconv.ParseInt` becomes a parameter. The token stream is the
  `Tokenizer` class's list of tokens and final error. Their error returns are
  not modelled, and neither is the directory skip.
- The non-grey `panic` in `detectBars` is not modelled. The canvas is always grey.
- Page bounds are taken to start at (0, 0), as decoded PNGs do.
- Download.FindMax: does not model 64-bit overflow of `n *= 2`, and requires a
  ghost round `stop` at which the probe does not answer true. The Go loop has
  no such bound. On a probe that answers true at every doubling point, `n`
  wraps to -2^63 after the 61st doubling and then to 0. From then on a probe
  that stays true keeps `n` at 0, and `findMax` never returns. A probe that
  answers false only after the wrap sends the search phase a negative or zero
  bound, and the index returned means nothing. The model covers only probes
  that stop answering true before the wrap. It also does not state the bound
  of O(log k) probes.
- Canvas.Merge: reads rows below a page's height as alpha 0 (grey 255), as the
  RGBA images do, where an `*image.Gray` page would give grey 0 and a paletted
  page its first colour. Such rows are read only on a zero-height page ahead
  of the first page with rows, which `png.Decode` never produces.
- Canvas.Merge: does not model overflow of the width sum. The canvas is an
  unbounded array.
- Files.PngExtensions: lowercasing is modelled on ASCII letters only. This is
  exact for a comparison with "png".
- Files.AssembleImages: returns the slots and the missing indices. It does not
  return the Go error value: the error is reported exactly when the missing
  list is non-empty.
- `segment.go` and `sheet.go` declare the same identifiers and cannot be built
  into one package together. They are modelled as two modules that share
  `Canvas`, `Score` and `BarScan`.

## Findings

| source | as written | input that shows it | evidently intended | confidence | as-written member | corrected member |
|---|---|---|---|---|---|---|
| sheet.go:211-213 | the "maximum line length too small" error fires only when the current line is empty, which after the first measure never happens; a later measure longer than the bound is put alone on a line that exceeds the bound | measures from bar (1,1) to (5,5) and from (5,5) to (100,100), bound 10: the second measure (96 pixels) becomes a line of its own | fail whenever a single measure alone reaches the bound, so that every emitted line fits | medium, not executed | Sheet.OversizedLineAccepted | Sheet.PackStrictFailsIffSomeTooLong |

The corrected fold `PackStrict` also satisfies `Sheet.PackStrictLinesFit`: every
line it emits is shorter than the bound.
