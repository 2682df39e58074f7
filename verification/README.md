# Small pure cores of a Streamlit toolbox, in Dafny

The repository is a set of Streamlit pages. Three pieces of them hold logic of
their own rather than calls into libraries, and this project models those three
and proves what they guarantee.

- **The "made in China" avatar overlay** (`FlagFade`, `flag_fade.dfy`). An
  `h` by `h` square is cut from the flag at horizontal offset 66, where `h` is
  the flag's height. Every pixel `(i, j)` of the square keeps its colour. Its
  alpha becomes `255 - floor(isqrt(i*i + j*j) / key)`, clamped at 0, so the
  overlay fades out with the distance from the top-left corner. The cut-out is
  an RGBA image stored column by column (`img[x][y]` is pixel `(x, y)`). Where
  the box reaches past the flag's right edge, the crop shows transparent black.
  The fade is an imperative nested loop over the square. It reads each pixel
  just before it rewrites it.
- **The arXiv link rewrite before a paper download** (`ArxivUrl`,
  `arxiv_url.dfy`, on top of `Strings`, `strings.dfy`). A URL containing
  `arxiv.org/abs/` has every occurrence of it replaced by `arxiv.org/pdf/`.
  The replacement scans left to right without overlaps, as Python's
  `str.replace` does. `.pdf` is then appended unless the URL already ends with
  it. Any other URL is used as given.
- **The one-day arXiv digest** (`ArxivDay`, `arxiv_day.dfy`). For a date and a
  list of categories, it builds the window ends `YYYYMMDD0000` and
  `YYYYMMDD2359`. It then builds one query per category, of the form
  `cat:<c> AND submittedDate:[<from> TO <to>]`. From the results the arXiv
  client returns for each category, it keeps those whose publication date is
  the chosen day. Each kept result becomes a paper record and is appended to
  the category's list in a dictionary that creates a key on first append. The
  page reads that dictionary with a lookup that defaults to the empty list.
  The client is not modelled: the result stream for the `k`-th category of the
  list is the input `streams[k]`.

The string theory in `Strings` is generic. It proves a property of the
left-to-right scan for any pattern that cannot overlap itself and any
same-length replacement that cannot overlap the pattern from either side: the
scan replaces every occurrence, changes nothing else, and leaves no occurrence
behind. `ArxivUrl.MarkersCannotOverlap` shows that the two arXiv markers meet
these conditions.

## Model

| member | source | states |
|---|---|---|
| FlagFade.Crop | CN_PNG.py:16 | The crop of box `(left, upper, right, lower)` is `right-left` columns of `lower-upper` pixels. Each of its pixels is the source pixel at the shifted position, or transparent black outside the source. |
| FlagFade.CropEmblem | CN_PNG.py:15-16 | The cut-out for box `(66, 0, h+66, h)` is a square whose side is the flag height `h`. Its pixel `(x, y)` is flag pixel `(66+x, y)`, or transparent past the flag's edge. |
| FlagFade.Isqrt | CN_PNG.py:21 | The integer square root `r` of `n` satisfies `r*r <= n < (r+1)*(r+1)`, so it is the whole part of the square root. |
| FlagFade.AlphaCountsKeySteps | CN_PNG.py:22-23 | Alpha lies in `[0, 255]`. A positive alpha `a` means `d` contains exactly `255-a` whole key-steps: `(255-a)*key <= d < (255-a)*key + key`. Alpha is 0 exactly when `d >= 255*key`. |
| FlagFade.StepsBound | CN_PNG.py:22 | `floor(d / key)` is non-negative, brackets `d` between consecutive multiples of `key`, and reaches 255 exactly when `d >= 255*key`. |
| FlagFade.FadePixel | CN_PNG.py:20-23 | The new pixel keeps red, green and blue. Only its alpha changes, and it becomes the alpha for the pixel's distance from the corner. |
| FlagFade.FadeSquare | CN_PNG.py:18-24 | After the nested loop, the result is still an `h` by `h` image. Every cell holds the faded version of its own original pixel, computed from its own coordinates, so the visiting order does not matter. |
| FlagFade.MakeOverlay | CN_PNG.py:15-24 | The overlay is `h` by `h`. Its corner pixel is fully opaque. Each pixel `(x, y)` is flag pixel `(66+x, y)` with the faded alpha. |
| FlagFade.FadedCornerIsOpaque | CN_PNG.py:21-22 | The corner `(0, 0)` is at distance 0 and always gets alpha 255, whatever the key. |
| FlagFade.AlphaNonIncreasingInDistance | CN_PNG.py:21-23 | For a fixed key, a pixel farther from the corner is never more opaque than a nearer one. |
| FlagFade.AlphaNonDecreasingInKey | CN_PNG.py:22-23 | For a fixed distance, a larger key never gives a smaller alpha: the key widens the visible part of the flag. |
| Strings.ReplaceAll | paper2vedio.py:48 | A replacement as long as the pattern leaves the text's length unchanged. |
| Strings.ReplaceAllWithoutOccurrence | paper2vedio.py:48 | A text that does not contain the pattern comes out of the scan unchanged. |
| Strings.ReplaceAllChangesOnlyOccurrences | paper2vedio.py:48 | With a same-length replacement, any character the scan changes lies inside some occurrence of the pattern in the input. |
| Strings.EveryOccurrenceReplaced | paper2vedio.py:48 | If the pattern cannot overlap itself, every occurrence of it in the input, wherever it starts, reads as the replacement afterwards. |
| Strings.NoOccurrenceAfterReplace | paper2vedio.py:48 | If the replacement cannot overlap the pattern, the scanned text no longer contains the pattern. |
| Strings.NoOccurrenceAfterAppend | paper2vedio.py:49 | Appending text that lacks the pattern's last character to a text without the pattern cannot create an occurrence. |
| ArxivUrl.MarkersCannotOverlap | paper2vedio.py:48 | `arxiv.org/abs/` cannot overlap itself. `arxiv.org/pdf/` cannot overlap it from either side. |
| ArxivUrl.Normalize | paper2vedio.py:47-49 | A URL without `arxiv.org/abs/` is returned unchanged. A URL with it comes out ending in `.pdf` and no longer containing `arxiv.org/abs/`. |
| ArxivUrl.NormalizeLength | paper2vedio.py:48-49 | In the rewrite branch, the replaced text keeps the input's length and is a prefix of the result. The result has the input's length exactly when the replaced text already ends in `.pdf`, and is 4 longer exactly when it does not. |
| ArxivUrl.NormalizeChangesOnlyMarkers | paper2vedio.py:48 | The rewrite changes a character of the input only inside an occurrence of `arxiv.org/abs/`. |
| ArxivUrl.NormalizeRewritesEveryMarker | paper2vedio.py:48 | Every occurrence of `arxiv.org/abs/` in the input reads `arxiv.org/pdf/` at the same position of the result. |
| ArxivUrl.NormalizeIdempotent | paper2vedio.py:47-49 | Rewriting an already rewritten URL changes nothing. |
| ArxivDay.PadDecimal | paperAgent.py:12-13 | A zero-padded field has exactly the requested width and only decimal digits. |
| ArxivDay.PadDecimalRoundTrip | paperAgent.py:12-13 | Reading a zero-padded field back as a decimal number gives the number written. |
| ArxivDay.DayPrefix | paperAgent.py:12-13 | The date part `YYYYMMDD` is 8 decimal digits. |
| ArxivDay.WindowStamp | paperAgent.py:12-13 | A window end is 12 decimal digits: the 8-digit date followed by the 4-digit clock time. |
| ArxivDay.StampsRoundTrip | paperAgent.py:12-13 | The window start reads back as the chosen date at 00:00 and the end as the same date at 23:59. Both share the 8-digit date prefix. |
| ArxivDay.FromStampInjective | paperAgent.py:12 | Distinct dates give distinct window starts. |
| ArxivDay.QueryLayout | paperAgent.py:15 | The query is 53 characters longer than the category. It is `cat:`, the category, ` AND submittedDate:[`, the window start, ` TO `, the window end and `]`, each at a fixed position. |
| ArxivDay.QueryInjective | paperAgent.py:15 | Two equal queries name the same category and the same day. |
| ArxivDay.ToPaper | paperAgent.py:25-31 | A stored record copies the title, the author names in order, the publication date, the summary and the entry id of its result. |
| ArxivDay.SameDay | paperAgent.py:22-31 | A category never keeps more papers than the client returned for it. Every kept paper was published on the chosen day. |
| ArxivDay.SameDayIsOrderedSelection | paperAgent.py:22-25 | The kept papers are the records of exactly the same-day results, taken at strictly increasing positions: none is reordered, dropped or duplicated. |
| ArxivDay.AppendSameDay | paperAgent.py:22-31 | The walk over one category's results appends, one by one, exactly the records of that stream's same-day results to the category's list. The key is created on the first append only. |
| ArxivDay.GroupedByCategory | paperAgent.py:9-32 | Looking up a category with an empty-list default gives everything kept for it, across every position of the list that names it, in list order. The category has a key exactly when that is non-empty. |
| ArxivDay.KeptForAbsent | paperAgent.py:9-32 | Nothing is kept for a category exactly when every position of the list naming it kept nothing, including when the list does not name it. |
| ArxivDay.KeptForSingle | paperAgent.py:14-28 | A category named once in the list gets exactly the papers kept from its own results. |
| ArxivDay.KeptForSameDay | paperAgent.py:24-28 | Every paper kept for any category was published on the chosen day. |
| ArxivDay.GroupedMeaning | paperAgent.py:9-32 | For every category at once, the grouped dictionary's lookup gives what was kept for it. It holds no empty lists, and every stored paper has the chosen date. |
| ArxivDay.FetchByDay | paperAgent.py:7-32 | The loop issues one query per category, in list order, each of the documented form. The returned dictionary, read with an empty-list default, gives every category exactly the papers kept for it. It has no key with an empty list, and every stored paper was published on the chosen day. |

## Left out

- Opening and decoding the flag and the avatar, the Pillow resize of the overlay and its alpha paste onto the avatar (CN_PNG.py:8-9, 13, 26-28): library calls whose resampling is not visible in the repository.
- The Streamlit slider that supplies `key` (CN_PNG.py:12). The model takes any `key > 0`. The slider's default of 3.0 lies outside its own range of 4.5 to 8.0, which is a user-interface matter.
- FlagFade.Distance: `int(math.sqrt(n))` is modelled as the exact integer square root. Double-precision `sqrt` agrees with it for the small sums of squares an image produces; IEEE-754 rounding is not modelled.
- FlagFade.Alpha: `distance // key` is modelled as the floor of an exact real quotient. Float rounding of the division is not modelled.
- The HTTP download, PDF parsing, script generation, speech synthesis, video rendering, temporary-directory cleanup and operation logging of the paper-to-video page: network, file and asynchronous work around the three-line URL rewrite.
- Strings.ReplaceAll: requires a non-empty pattern. Python also defines replacement of the empty string, but the only pattern used here is the 14-character abstract marker.
- The arXiv client, its `max_results` cap and its sort order (paperAgent.py:10, 16-22): its output for each category is an input sequence, so the model covers any stream it might return.
- ArxivDay.DayPrefix: the year is always padded to four digits. C-library `strftime` may print years below 1000 with fewer digits; dates that early do not occur on arXiv.
- ArxivDay.FetchByDay: the date is a valid calendar date (years 1 to 9999), which is what the host language's date type guarantees.
- The rest of the digest page (paperAgent.py:34-66), apart from the `.get(cat, [])` lookup at line 54 that `ArxivDay.Lookup` models: widgets and display only.
- The other pages (PDF to images, video helpers, GIF conversion, OCR, translation, page dispatch): thin wrappers over third-party libraries.
