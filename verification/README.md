# PresentationCreator, modelled in Dafny

PresentationCreator turns text into PowerPoint decks. Two generators share the
repository, and this project models the logic inside both of them.

`PresentationCreator2` reads a slide script: `# Слайд N: title` headers, `- `
bullets, image URLs and paragraphs. It lays out each slide in one of two ways:
stacked (text above a row of images) or in columns (text left, images right).
Before drawing, it does three things:

- it downloads images through a content-addressed disk cache, with up to three
  attempts and a backoff between them;
- it picks a font size by bisecting over a test of whether the text fits the
  text box (the test is not monotone in the size, see Findings);
- it wraps text with a word wrapper that splits long words at delimiters or
  hyphenates them, then runs one anti-orphan pass.

`PresentationCreator` works on a folder. Its `text.txt` is cut into blocks at
`//`. Each block is parsed into a title, bullets and an optional
`!image: file` directive, and the result is padded or truncated to exactly 20
slides. The source URLs in titles and bullets are collected in first-seen
order. Folder images are listed in natural order, so `img2` comes before
`img10`, and they are handed out round-robin to slides without an image of
their own.

The modules:

| module | what it models |
|---|---|
| `Wrappers` | `Option` and `Result` |
| `JavaText` | `String.trim`, `strip`, `isBlank`, `split`, `indexOf`, `replace` and `toLowerCase`, and the regex classes `\s` and `\d`, as the code uses them |
| `WordWrap` | `wrapSmart`, `appendFitting`, `forceHyphenate` |
| `FontFit` | `charsPerLine`, `fits`, `maxLineLength`, `fitFontSize`, `clamp`, over `real` |
| `Bytes` | byte strings and `MAX_IMAGE_BYTES` |
| `ImageFetch` | `fetchBytesWithRetries` and `backoff`: the attempt loop, the classification of a response, the capped body read |
| `UrlPattern` | `URL_RE` (`^(?i)https?://.+`) |
| `ImageCache` | `sha256Hex`'s hex encoding, `getBytesCached` over a map from file names to bytes, `downloadImageWithCache` up to decoding |
| `SlideScript` | `parseSlides` and `ensureSlide` |
| `SlideLayout` | the stacked and column layouts of `main`, and the image row of `addImagesThreeColumns` |
| `TextBlocks` | `readBlocks` |
| `SlideBlocks` | `parseBlocks`, `normalize`, and `readBlocks` → `parseBlocks` → `normalize` for 20 slides |
| `Sources` | `collectSources` and `trimPunct` |
| `ImageFiles` | `sanitizeName`, `detectPictureType`, `listImages`, `naturalKeyString`, and the fallback image of a slide |

Loops over mutable state are Dafny methods proved equal to a specification
function, for example `ensures out == Wrap(text, cpl)`. What the source
promises is then proved about that function. Pure stream pipelines and
single-expression helpers are functions.

Inputs and outputs are parameters:

- the lines of the input file;
- the responses of the three HTTP attempts;
- the backoff jitter, as a function;
- the cache directory, as a map;
- the SHA-256 digest, as a function fixed when the cache is created;
- the file names of a folder;
- the shuffled image list.

## Model

| member | source | states |
|---|---|---|
| WordWrap.WrapSmart | src/main/java/kinet/smaug/PresentationCreator2.java:621-658 | The in-place wrapper computes `Wrap`. Blank text gives `[""]`. Otherwise the result is empty exactly when the trimmed text is empty, and every line but the last has at most cpl characters. The lines hold the trimmed text's non-whitespace characters in order, none lost, with only '-' characters inserted (`Hyphened`). Proved for the corrected appendFitting (see Findings). |
| WordWrap.WrapSpec | src/main/java/kinet/smaug/PresentationCreator2.java:621-658 | The same promises for `Wrap` itself, with every line non-empty. Proved for the corrected appendFitting (see Findings). |
| WordWrap.GreedyLoop | src/main/java/kinet/smaug/PresentationCreator2.java:628-642 | The for-each loop over the words and the final flush compute `Flush(Pack(words, cpl))`. |
| WordWrap.GreedySpec | src/main/java/kinet/smaug/PresentationCreator2.java:628-642 | Before the anti-orphan pass, every line has between 1 and cpl characters, and the result is empty only for an empty trim. The lines hold the trimmed text's non-whitespace characters in order, with only '-' characters inserted. Proved for the corrected appendFitting (see Findings). |
| WordWrap.PackSound | src/main/java/kinet/smaug/PresentationCreator2.java:631-641 | The greedy loop emits only non-empty lines of at most cpl characters and keeps a buffer of at most cpl characters. It emits nothing exactly when every word is empty. The lines and the buffer hold every non-whitespace character of every word, in order, with only '-' characters inserted. Proved for the corrected appendFitting (see Findings). |
| WordWrap.JoinSound | src/main/java/kinet/smaug/PresentationCreator2.java:634-635 | A word joined to the buffer with one space, when `len + 1 + |w| <= cpl`, keeps those properties. |
| WordWrap.AppendFitting | src/main/java/kinet/smaug/PresentationCreator2.java:660-681 | appendFitting on the shared list and buffer computes the corrected `Fit`. |
| WordWrap.FitSound | src/main/java/kinet/smaug/PresentationCreator2.java:660-681 | From an empty buffer, appendFitting emits only non-empty lines of at most cpl characters. It leaves a buffer of at most cpl characters, empty only for the empty word. The lines and the buffer hold the word's non-whitespace characters in order, with only '-' characters inserted. Proved for the corrected appendFitting (see Findings). |
| WordWrap.SplitSound | src/main/java/kinet/smaug/PresentationCreator2.java:666-679 | The delimiter branch (left part, flush, then the right part) keeps those properties and leaves a non-empty buffer. Proved for the corrected appendFitting (see Findings). |
| WordWrap.ForceHyphenate | src/main/java/kinet/smaug/PresentationCreator2.java:683-693 | forceHyphenate on the shared list and buffer computes `Hyphenate`. |
| WordWrap.HyphenateSound | src/main/java/kinet/smaug/PresentationCreator2.java:683-693 | forceHyphenate flushes the buffer and emits the fragment plus '-'. Every emitted line fits and the buffer left behind is non-empty. The content is the buffer's and the word's, with only '-' characters inserted. This holds of forceHyphenate as written too, on every word appendFitting gives it (`HyphenateAsWrittenSound`). |
| WordWrap.FlushSound | src/main/java/kinet/smaug/PresentationCreator2.java:685-691 | The flush of the buffer, then the fragment with its '-', keep the lines within cpl and add only the '-' to the content. |
| WordWrap.FlushWithin | src/main/java/kinet/smaug/PresentationCreator2.java:686-690 | Flushing a buffer of at most cpl characters adds it as one line, or nothing when it is empty. |
| WordWrap.DashHyphened | src/main/java/kinet/smaug/PresentationCreator2.java:685 | A fragment plus its '-' holds the fragment's content with one '-' inserted. |
| WordWrap.HyphenedNoDash | src/main/java/kinet/smaug/PresentationCreator2.java:685 | The content relation admits only inserted '-' characters: when no '-' is in the lines, they hold exactly the text's non-whitespace characters. |
| WordWrap.HyphenedAppend | src/main/java/kinet/smaug/PresentationCreator2.java:631-641 | Content kept stretch by stretch is kept for the stretches joined. |
| WordWrap.DelimiterCut | src/main/java/kinet/smaug/PresentationCreator2.java:666 | The cut is the rightmost '-', '/' or '.', or -1 when the word has none. |
| WordWrap.HyphenCut | src/main/java/kinet/smaug/PresentationCreator2.java:684 | `idx` lies in 1..cpl-1 and below the word's length, so the fragment plus '-' fits and the remainder is strictly shorter, which makes the recursion terminate. |
| WordWrap.PullUpOrphan | src/main/java/kinet/smaug/PresentationCreator2.java:644-656 | The in-place anti-orphan pass computes `FixOrphan`. |
| WordWrap.FixOrphanSpec | src/main/java/kinet/smaug/PresentationCreator2.java:645-656 | The pass keeps the line count and every line before the last two. It changes something exactly when there are two or more lines, the last is shorter than max(6, cpl/4), and the second-to-last has a space at a position above 0. It then moves exactly the word after that line's last space to the front of the last line. |
| WordWrap.FixOrphanContent | src/main/java/kinet/smaug/PresentationCreator2.java:648-653 | The pass keeps the non-whitespace characters exactly, in order. |
| WordWrap.AsWrittenDropsRightPart | src/main/java/kinet/smaug/PresentationCreator2.java:666-679 | As written, wrapping "aaaaaaaaaaaaa-b" at 12 emits "aaaaaaa-", leaves "aaaaaa-" in the buffer, and drops the "b". |
| WordWrap.CorrectedKeepsRightPart | src/main/java/kinet/smaug/PresentationCreator2.java:666-679 | The corrected appendFitting keeps "b" on a line of its own. |
| WordWrap.FitAsWrittenWithin | src/main/java/kinet/smaug/PresentationCreator2.java:660-681 | appendFitting as written, from an empty buffer, still emits only non-empty lines of at most cpl characters and leaves a buffer of at most cpl characters: only the content goes wrong. |
| WordWrap.HyphenatedWordsEdgeCut | src/main/java/kinet/smaug/PresentationCreator2.java:666-679 | Every word appendFitting passes to forceHyphenate has its rightmost delimiter missing, first or last: the part up to a delimiter ends with it, and a whole word goes there only when its delimiter is at an edge. |
| WordWrap.RemainderEdgeCut | src/main/java/kinet/smaug/PresentationCreator2.java:684-686 | The remainder `word.substring(idx)` of such a word keeps its last character, so its rightmost delimiter is at its end or missing. |
| WordWrap.FitAsWrittenAgrees | src/main/java/kinet/smaug/PresentationCreator2.java:660-681 | On a word whose rightmost delimiter is at an edge, appendFitting as written gives exactly what the corrected one gives. |
| WordWrap.HyphenateAsWrittenAgrees | src/main/java/kinet/smaug/PresentationCreator2.java:683-693 | forceHyphenate as written gives exactly what the corrected one gives on every such word: its recursion never reaches the branch that drops text. |
| WordWrap.HyphenateAsWrittenSound | src/main/java/kinet/smaug/PresentationCreator2.java:683-693 | forceHyphenate as written, on every word appendFitting gives it, keeps lines within cpl, leaves a non-empty buffer and keeps the content with only '-' inserted. |
| WordWrap.WrapThreeLines | src/main/java/kinet/smaug/PresentationCreator2.java:621-658 | "AAAA BBBBBBBBBB CCCC" at 10 characters gives the three lines "AAAA", "BBBBBBBBBB" and "CCCC": "CCCC" is an orphan, but the line above it has no space, so nothing moves. |
| WordWrap.ThreeWords | src/main/java/kinet/smaug/PresentationCreator2.java:622-627 | Three whitespace-free words joined by single spaces, starting and ending with characters trim() keeps, are not blank, are left alone by trim(), and split into those three words. |
| WordWrap.HyphenateAsWrittenWithin | src/main/java/kinet/smaug/PresentationCreator2.java:683-693 | forceHyphenate as written keeps every emitted line, and the buffer, within cpl. |
| WordWrap.PackAsWrittenWithin | src/main/java/kinet/smaug/PresentationCreator2.java:628-642 | wrapSmart's loop over the words, with appendFitting as written, emits only non-empty lines of at most cpl characters and keeps the buffer within cpl. |
| WordWrap.GreedyAsWrittenWithin | src/main/java/kinet/smaug/PresentationCreator2.java:621-642 | Before the anti-orphan pass, every line wrapSmart as written produces is non-empty and at most cpl long. |
| WordWrap.WrapAsWrittenWithin | src/main/java/kinet/smaug/PresentationCreator2.java:621-658 | wrapSmart as written gives [""] for blank text. Otherwise every line is non-empty and every line but the last has at most cpl characters. |
| WordWrap.OrphanLines | src/main/java/kinet/smaug/PresentationCreator2.java:645-656 | Over lines that fit, the anti-orphan pass keeps the line count and keeps every line non-empty, and every line but the last still fits. |
| WordWrap.NonSpaceWords | src/main/java/kinet/smaug/PresentationCreator2.java:628 | The words of `split("\\s+")` carry all the non-whitespace characters of the trimmed text, in order. |
| WordWrap.WordsOfTrimmed | src/main/java/kinet/smaug/PresentationCreator2.java:628 | The words of a non-empty trimmed text are not all empty. |
| FontFit.CharsPerLine | src/main/java/kinet/smaug/PresentationCreator2.java:609-613 | charsPerLine never returns less than 12. |
| FontFit.CharsPerLineMeaning | src/main/java/kinet/smaug/PresentationCreator2.java:609-613 | Above the minimum of 12, cpl average glyphs fit in `boxW - 10` and cpl + 1 do not. |
| FontFit.CharsPerLineAntitone | src/main/java/kinet/smaug/PresentationCreator2.java:609-613 | A larger point size never gives more characters per line. |
| FontFit.MaxLineLength | src/main/java/kinet/smaug/PresentationCreator2.java:615-619 | The loop computes `MaxLen`. |
| FontFit.MaxLen | src/main/java/kinet/smaug/PresentationCreator2.java:615-619 | The result bounds every line's length, is attained by some line, and is 0 for no lines. |
| FontFit.CheckFits | src/main/java/kinet/smaug/PresentationCreator2.java:600-607 | fits, computed paragraph by paragraph into one list, is the predicate `Fits`. |
| FontFit.WrapEach | src/main/java/kinet/smaug/PresentationCreator2.java:603 | The paragraph loop appends every paragraph's wrapped lines in order. |
| FontFit.FitsNotMonotone | src/main/java/kinet/smaug/PresentationCreator2.java:600-607 | fits is not monotone in the point size. "aa bbbbbbbbbb ccccc" in a box 179 wide and 500 high does not fit at 25 pt: 13 characters per line, and the anti-orphan pass makes the line "bbbbbbbbbb ccccc", 16 long. It fits at 26 pt: 12 characters per line and three lines, 402.48 high. |
| FontFit.SettlesBelowAFit | src/main/java/kinet/smaug/PresentationCreator2.java:584-597 | fitFontSize on "aa bbbbbbbbbb ccccc" in a box 179 by 500, between 24 and 26 pt, returns at most 25 pt, although the text fits at 26 pt. |
| FontFit.ScanFontSize | src/main/java/kinet/smaug/PresentationCreator2.java:584-597 | Corrected search: the largest size that fits on the grid maxPt, maxPt - 0.25, ... down to minPt. The result is at least minPt. It is minPt or a grid size that fits, and no larger grid size at least minPt fits. This holds with `fits` not monotone. |
| FontFit.ScanDown | src/main/java/kinet/smaug/PresentationCreator2.java:584-597 | The same downward scan for any test of a size. |
| FontFit.Clamp | src/main/java/kinet/smaug/PresentationCreator2.java:717-719 | The result is at least lo, and at most hi when lo <= hi. A value inside the bounds is returned as it is, and lo wins when the bounds cross. |
| FontFit.FitFontSize | src/main/java/kinet/smaug/PresentationCreator2.java:584-597 | fitFontSize is `Bisect` with `fits` as its test. With ordered bounds the result r and the last upper end top bracket the answer: minPt <= r <= top <= maxPt, r is minPt or a size for which `fits` holds, and top is maxPt or a size for which it does not. top - r is maxPt - minPt halved once per round. The loop makes 1 to 18 rounds and stops at the first round that leaves a bracket narrower than 0.25, so the bracket ends narrower than 0.25 unless all 18 rounds were made. Crossed bounds give minPt. When the first midpoint does not fit, top ends at or below it. |
| FontFit.Bisect | src/main/java/kinet/smaug/PresentationCreator2.java:585-597 | The loop of fitFontSize, for any test of a size: the same bracket, ends, halving and stopping rule as above, then the clamp. |
| FontFit.NarrowStep | src/main/java/kinet/smaug/PresentationCreator2.java:587-594 | One round keeps one half of the bracket, inside [minPt, maxPt]. The bracket is then either narrower than 0.25, and the loop stops, or at least 0.25 wide and halved once more. |
| FontFit.NarrowEnd | src/main/java/kinet/smaug/PresentationCreator2.java:586-595 | After 18 rounds without an early stop, the stopping conditions hold for 18 rounds. |
| FontFit.HalvedIsDivision | src/main/java/kinet/smaug/PresentationCreator2.java:587 | Halving w n times gives w / 2^n. |
| ImageFetch.FetchBytesWithRetries | src/main/java/kinet/smaug/PresentationCreator2.java:508-574 | A URL that `URI.create` rejects gives its IllegalArgumentException, with no attempt and no delay. Any other URL gives the result and the delays of the attempt loop `Fetch`. |
| ImageFetch.AttemptLoop | src/main/java/kinet/smaug/PresentationCreator2.java:517-573 | The attempt loop, with its early returns and final rethrow, gives the result and the delays of `Fetch`. |
| ImageFetch.UriRejectedFirst | src/main/java/kinet/smaug/PresentationCreator2.java:508-509 | The IllegalArgumentException comes exactly from a rejected URL, which makes no attempt and sleeps no delay. An accepted URL gives the attempt loop's trace. |
| ImageFetch.RunNeverBadUri | src/main/java/kinet/smaug/PresentationCreator2.java:517-573 | The attempts end with bytes, null or a rethrown IOException, never with the URI exception. |
| ImageFetch.TryOnce | src/main/java/kinet/smaug/PresentationCreator2.java:518-568 | One attempt's try block classifies the attempt as `Classify` does. |
| ImageFetch.Classify | src/main/java/kinet/smaug/PresentationCreator2.java:530-568 | An attempt that finishes never finishes with an exception. |
| ImageFetch.ReadBody | src/main/java/kinet/smaug/PresentationCreator2.java:540-553 | The read loop gives `BodyOutcome`. It stops with null as soon as the running total exceeds 10 MiB, having read exactly the chunks up to that one. Otherwise it reads every chunk, and an empty body gives null. |
| ImageFetch.FetchShape | src/main/java/kinet/smaug/PresentationCreator2.java:517-581 | There are at most three attempts. Delay k is 250·(k+1) plus the jitter of attempt k+1, and a delay, and so a retry, follows only an attempt that asked for one. |
| ImageFetch.RunCounts | src/main/java/kinet/smaug/PresentationCreator2.java:517-569 | From any attempt on, at most the remaining attempts are made and at least one while any remain. One delay follows each attempt except a last one that finishes. |
| ImageFetch.RunDelays | src/main/java/kinet/smaug/PresentationCreator2.java:559-581 | Each delay follows its attempt and lasts 250 times the attempt number plus its jitter. |
| ImageFetch.RunRetried | src/main/java/kinet/smaug/PresentationCreator2.java:544-566 | Every delay follows an attempt that asked for a retry: an IOException, a 429 or a 5xx. |
| ImageFetch.DelayBounds | src/main/java/kinet/smaug/PresentationCreator2.java:576-581 | With a jitter in [0, 200), delay k lies in [250·(k+1), 250·(k+1)+200). |
| ImageFetch.RetryOnlyWhenTransient | src/main/java/kinet/smaug/PresentationCreator2.java:555-568 | An attempt asks for a retry exactly after an IOException, a 429 or a 5xx. |
| ImageFetch.FinishStopsAtOnce | src/main/java/kinet/smaug/PresentationCreator2.java:533-563 | An attempt that finishes ends the download at once, with no delay and no further attempt. |
| ImageFetch.DeniedGivesNull | src/main/java/kinet/smaug/PresentationCreator2.java:555-557 | 401, 403 and 404 give null after the first attempt. |
| ImageFetch.Exhausted | src/main/java/kinet/smaug/PresentationCreator2.java:564-573 | When all three attempts ask for a retry, three attempts are made and three delays slept. The IOException of the latest attempt that had one is then rethrown, even when later attempts got a 5xx, and the result is null when none had one. The third delay follows the last attempt, where nothing is retried: `backoff(attempt)` runs on the final attempt too, so the source sleeps before it gives up. |
| ImageFetch.GotWithinCap | src/main/java/kinet/smaug/PresentationCreator2.java:547-553 | Bytes handed back are never empty and never over the cap. |
| ImageFetch.ThrownOnlyWhenExhausted | src/main/java/kinet/smaug/PresentationCreator2.java:564-571 | An IOException is rethrown only after three attempts, and it belongs to an attempt that had it. |
| Bytes.FlattenPrefix | src/main/java/kinet/smaug/PresentationCreator2.java:544-546 | The bytes read up to some chunk are a prefix of all the bytes. |
| UrlPattern.UrlExamples | src/main/java/kinet/smaug/PresentationCreator2.java:64 | Upper-case schemes match. A bare scheme, another scheme, and a line break after the scheme do not. |
| UrlPattern.AsciiLower | src/main/java/kinet/smaug/PresentationCreator2.java:64 | `(?i)` folds ASCII letters only. |
| ImageCache.Sha256Hex | src/main/java/kinet/smaug/PresentationCreator2.java:496-506 | The formatting loop gives `HexOf` of the digest. |
| ImageCache.HexShape | src/main/java/kinet/smaug/PresentationCreator2.java:500-501 | The key has two lowercase hex characters per digest byte. |
| ImageCache.HexRoundTrip | src/main/java/kinet/smaug/PresentationCreator2.java:501 | Reading the key back gives the digest's bytes. |
| ImageCache.HexInjective | src/main/java/kinet/smaug/PresentationCreator2.java:501 | Different digests give different keys. |
| ImageCache.Cache.GetBytesCached | src/main/java/kinet/smaug/PresentationCreator2.java:466-494 | Look up, else download, write ".tmp", then move it to ".bin": the new directory and the result are those of `GetCached`. The write and the move can fail as the `disk` argument says. The IOException then escapes in place of the bytes (`DiskFailed`). |
| ImageCache.CacheProtocol | src/main/java/kinet/smaug/PresentationCreator2.java:466-494 | A non-empty hit does not download and changes nothing. A miss downloads. When the cache write succeeds, downloaded bytes are returned unchanged and stored under the key. A null download or a fetch exception stores nothing and is passed on. |
| ImageCache.DiskFailureKeepsBin | src/main/java/kinet/smaug/PresentationCreator2.java:482-491 | When writing or moving the ".tmp" file throws, the fetched bytes are not returned and the IOException escapes. The ".bin" lookup is still a miss, and only the ".tmp" entry differs, holding a prefix of the bytes (all of them when the move failed). |
| ImageCache.StoreThenHit | src/main/java/kinet/smaug/PresentationCreator2.java:482-491 | After a store of non-empty bytes, the key hits with those bytes, no ".tmp" is left, and every other file is as before. |
| ImageCache.NamesDiffer | src/main/java/kinet/smaug/PresentationCreator2.java:468-482 | The ".tmp" and ".bin" names of a key differ. |
| ImageCache.TmpWriteInvisible | src/main/java/kinet/smaug/PresentationCreator2.java:482-491 | Writing the ".tmp" file publishes nothing: until the move, a lookup of the key sees what it saw before the write. |
| ImageCache.SecondCallHits | src/main/java/kinet/smaug/PresentationCreator2.java:466-494 | After a first call that yields bytes, a second call hits and gives the same bytes without downloading. |
| ImageCache.Cache.DownloadImageWithCache | src/main/java/kinet/smaug/PresentationCreator2.java:449-464 | The method computes `DownloadOutcome` on the cache it updates. A URL that `URI.create` rejects ends in `Rejected`, the exception, and a failed cache write in `CacheWriteFailed`, the IOException. |
| ImageCache.DownloadOutcome | src/main/java/kinet/smaug/PresentationCreator2.java:449-453 | Bytes reach the decoder only for a URL matching `URL_RE`, and only when they number between 1 and the cap. A URL that does not match gives null, with no download and no change to the cache. |
| ImageCache.OversizedHitRefused | src/main/java/kinet/smaug/PresentationCreator2.java:453-473 | A cached entry over the cap is refused, and nothing is downloaded. |
| SlideScript.ParseSlides | src/main/java/kinet/smaug/PresentationCreator2.java:218-251 | The line loop, filling the current slide in place, computes `Slides`. |
| SlideScript.ApplyLine | src/main/java/kinet/smaug/PresentationCreator2.java:228-246 | One classified line updates the slides as `Feed` says. ensureSlide fails when no slide is open. |
| SlideScript.ClassifyLine | src/main/java/kinet/smaug/PresentationCreator2.java:224-246 | The tests run in the source's order: blank, header, bullet, image URL (with Cloudinary's f_auto rewritten to f_jpg), paragraph. |
| SlideScript.JpgUrl | src/main/java/kinet/smaug/PresentationCreator2.java:237-240 | The image branch's URL is the line as written, except that a Cloudinary URL asking for f_auto has every f_auto replaced by f_jpg. |
| SlideScript.CloudinaryJpgRewrite | src/main/java/kinet/smaug/PresentationCreator2.java:238-240 | After the rewrite a Cloudinary URL contains no f_auto at all, and a URL that is not on Cloudinary or has no f_auto is left as it is. |
| SlideScript.ParseErrorIff | src/main/java/kinet/smaug/PresentationCreator2.java:233-255 | parseSlides fails exactly when a line with content comes before every header, and then with ensureSlide's message. |
| SlideScript.ScanError | src/main/java/kinet/smaug/PresentationCreator2.java:221-246 | While only blank lines have been seen there is no current slide, and no slide is finished without one. |
| SlideScript.FeedCases | src/main/java/kinet/smaug/PresentationCreator2.java:224-246 | An error stays and a blank line changes nothing. Content with no current slide fails, and after any other non-blank line a slide is open. |
| SlideScript.ErrorSticks | src/main/java/kinet/smaug/PresentationCreator2.java:253-255 | Once the parse has failed, later lines change nothing. |
| SlideScript.FeedEffect | src/main/java/kinet/smaug/PresentationCreator2.java:228-245 | A blank line changes nothing. A header adds an empty slide after the others, titled by the trimmed text after its first ':' if text follows, else by the line. A bullet, URL or paragraph needs an open slide, leaves the finished slides as they were, and adds exactly that item to the open slide. |
| SlideScript.ScanContents | src/main/java/kinet/smaug/PresentationCreator2.java:221-249 | Every line's content lands in the slides, in order, and nothing else does. |
| SlideScript.ParseContents | src/main/java/kinet/smaug/PresentationCreator2.java:218-251 | A successful parse has one slide per header line, titled as that line says. The slides' bullets, image URLs and paragraphs, taken slide after slide, are those of the script's lines, in order. |
| SlideScript.SlideOfSection | src/main/java/kinet/smaug/PresentationCreator2.java:222-248 | Slide by slide: the j-th header line opens slide j, which holds that header's title and exactly the bullets, paragraphs and image URLs of the lines between it and the next header (or the end), in order. |
| SlideScript.ParseSections | src/main/java/kinet/smaug/PresentationCreator2.java:218-251 | The same for the slides `parseSlides` returns. |
| SlideScript.ScanSection | src/main/java/kinet/smaug/PresentationCreator2.java:226-245 | After a header and the header-free lines that follow it, the slides finished before the header are followed by the open slide, holding the items of those lines. |
| SlideScript.HeaderCloses | src/main/java/kinet/smaug/PresentationCreator2.java:226-227 | A header finishes every slide open before it: they stay among the finished slides to the end. |
| SlideScript.OutGrows | src/main/java/kinet/smaug/PresentationCreator2.java:222-248 | The slides finished after some lines stay finished, in order, after more lines. |
| SlideLayout.PlanLayout | src/main/java/kinet/smaug/PresentationCreator2.java:110-169 | The layout is stacked exactly for 1 to 3 images. An images area exists exactly when there are images. A stacked slide without text gets the empty text box. |
| SlideLayout.StackedGeometry | src/main/java/kinet/smaug/PresentationCreator2.java:132-153 | Stacked: the text spans the slide above the images area, which is centred and reaches the bottom. |
| SlideLayout.ColumnGeometry | src/main/java/kinet/smaug/PresentationCreator2.java:154-168 | Columns: the text takes the left 40% below the title (the middle 92% without images), and the images area takes the rest of the width to its right. |
| SlideLayout.RowShape | src/main/java/kinet/smaug/PresentationCreator2.java:360-380 | One 16:9 slot per placed image (at most three), 20 apart, the group centred horizontally and each slot centred vertically. |
| SlideLayout.ColumnRowOverflows | src/main/java/kinet/smaug/PresentationCreator2.java:359-380 | As written, a column layout (four or more images) gets a row 2142.4 wide in the area 1112 wide that lines 157-167 give it. |
| SlideLayout.SlotsInside | src/main/java/kinet/smaug/PresentationCreator2.java:359-380 | With the corrected slot height, every slot lies inside its area. |
| SlideLayout.ImagesPlaced | src/main/java/kinet/smaug/PresentationCreator2.java:110-169 | With the corrected height in addImagesThreeColumns (lines 359-380), every image of every slide lies in its images area, on the slide, below the title bar and clear of the text box. |
| SlideLayout.StackedRowUnchanged | src/main/java/kinet/smaug/PresentationCreator2.java:132-153 | In the stacked layout the correction of addImagesThreeColumns (lines 365-376) changes nothing. |
| SlideLayout.AreaPlacement | src/main/java/kinet/smaug/PresentationCreator2.java:132-168 | In either layout, the images area lies on the slide, below the title bar and clear of the text box. |
| TextBlocks.ReadBlocksPieces | src/main/java/kinet/smaug/PresentationCreator.java:172-180 | readBlocks gives the trimmed, non-empty pieces between the "//" separators, in order. |
| TextBlocks.RegexSplitTrim | src/main/java/kinet/smaug/PresentationCreator.java:175-176 | Once trimmed, the pieces of the `\s*//\s*` split are the pieces between the "//" separators. |
| TextBlocks.SplitAtSlashesJoin | src/main/java/kinet/smaug/PresentationCreator.java:175 | Joining the pieces with "//" gives the text back. |
| TextBlocks.SplitAtSlashesPieces | src/main/java/kinet/smaug/PresentationCreator.java:175 | No piece contains "//", and no piece but the last ends in '/': the separators are the leftmost ones. |
| TextBlocks.ReadBlocksShape | src/main/java/kinet/smaug/PresentationCreator.java:175-176 | Every block is non-empty, trimmed and free of "//". |
| TextBlocks.TwoBlocks | src/main/java/kinet/smaug/PresentationCreator.java:175-176 | Two trimmed texts free of "//", joined by "//", read back as those two blocks, so "http:" and "example.com/a.png" are cut apart. |
| TextBlocks.UrlIsCutPieces | src/main/java/kinet/smaug/PresentationCreator.java:175 | "http://a" splits into "http:" and "a". |
| SlideBlocks.LinesShape | src/main/java/kinet/smaug/PresentationCreator.java:188-189 | Every line of a block is non-empty and trimmed, with no line break or line terminator in it. |
| SlideBlocks.DirectiveArg | src/main/java/kinet/smaug/PresentationCreator.java:193-194 | A name is produced exactly for lines the directive pattern of line 163 matches, and it is trimmed. |
| SlideBlocks.DirectiveOf | src/main/java/kinet/smaug/PresentationCreator.java:163 | The directive word (in any letter case), a colon and a trimmed name give that name back. |
| SlideBlocks.PlainLineKept | src/main/java/kinet/smaug/PresentationCreator.java:163 | A line whose first character is not '!' is never a directive. |
| SlideBlocks.RemoveDirectives | src/main/java/kinet/smaug/PresentationCreator.java:192-196 | removeIf keeps `Kept(lines)`, and `explicitImage` ends as the name in the last directive. |
| SlideBlocks.KeptMembers | src/main/java/kinet/smaug/PresentationCreator.java:192-196 | Exactly the lines that are not directives stay. |
| SlideBlocks.KeptAll | src/main/java/kinet/smaug/PresentationCreator.java:192-196 | Without directives every line stays and no image is named. |
| SlideBlocks.LastDirectiveWins | src/main/java/kinet/smaug/PresentationCreator.java:194 | The line the image comes from is a directive, and none follows it. |
| SlideBlocks.LastDirectiveNamed | src/main/java/kinet/smaug/PresentationCreator.java:194 | A block names no image exactly when none of its lines is a directive. |
| SlideBlocks.HashTitle | src/main/java/kinet/smaug/PresentationCreator.java:205-206 | A first line starting with '#' gives a trimmed title. Any other first line is the title unchanged. |
| SlideBlocks.HeadingTitle | src/main/java/kinet/smaug/PresentationCreator.java:205 | The title of a heading is its text after the whole '#' run and the whole whitespace run after it, trimmed. That text may itself start with '#' when whitespace precedes it: "# #x" gives "#x". |
| SlideBlocks.ParseBlockShape | src/main/java/kinet/smaug/PresentationCreator.java:182-210 | A block with no lines left is titled "Слайд" and has no bullets. Otherwise the title comes from the first remaining line, and the bullets are the other remaining lines: non-empty, trimmed, not directives, in order. |
| SlideBlocks.PlainBlock | src/main/java/kinet/smaug/PresentationCreator.java:204-208 | Without directives or headings, the first line is the title and the others are the bullets. |
| SlideBlocks.ParseOne | src/main/java/kinet/smaug/PresentationCreator.java:185-210 | One iteration of the loop builds `ParseBlock(block)`. |
| SlideBlocks.BuildBlock | src/main/java/kinet/smaug/PresentationCreator.java:192-208 | Directives out, then the title and the bullets, as `FromLines` says. |
| SlideBlocks.Bullets | src/main/java/kinet/smaug/PresentationCreator.java:208 | The bullets are every remaining line after the first, in order. |
| SlideBlocks.ParseBlocks | src/main/java/kinet/smaug/PresentationCreator.java:182-213 | parseBlocks computes `ParseAll`. |
| SlideBlocks.ParseAllEach | src/main/java/kinet/smaug/PresentationCreator.java:182-213 | parseBlocks keeps count and order: block i of the result is text block i parsed. |
| SlideBlocks.Normalize | src/main/java/kinet/smaug/PresentationCreator.java:215-236 | The three branches compute `Normalized(raw, target)`. |
| SlideBlocks.NormalizedShape | src/main/java/kinet/smaug/PresentationCreator.java:215-236 | Exactly target blocks. The input blocks come first, unchanged and in order, as far as they fit, and every other position i holds filler i. |
| SlideBlocks.NormalizedIdempotent | src/main/java/kinet/smaug/PresentationCreator.java:215-236 | Normalising twice changes nothing. |
| SlideBlocks.FillersDistinct | src/main/java/kinet/smaug/PresentationCreator.java:216-232 | Fillers in different positions differ in title and in bullet. |
| SlideBlocks.NewFiller | src/main/java/kinet/smaug/PresentationCreator.java:219-221 | A filler is titled "Слайд i+1", with the single bullet "Содержимое слайда i+1". |
| SlideBlocks.BodySlidesShape | src/main/java/kinet/smaug/PresentationCreator.java:110-111 | The text always gives 20 body slides (the constant of line 39). Slide i is text block i parsed while there are blocks, and filler i after them. |
| Sources.CollectSources | src/main/java/kinet/smaug/PresentationCreator.java:238-250 | The nested loops build `CollectedSources`: the trimmed matches of every title and bullet, each kept once, in order of first occurrence. |
| Sources.AddSlide | src/main/java/kinet/smaug/PresentationCreator.java:241-248 | One slide adds its title's matches, then each bullet's. |
| Sources.AddBullets | src/main/java/kinet/smaug/PresentationCreator.java:244-247 | Bullet after bullet, their matches are added. |
| Sources.AddText | src/main/java/kinet/smaug/PresentationCreator.java:242-243 | The trimmed matches of one text are added in order. |
| Sources.FindAll | src/main/java/kinet/smaug/PresentationCreator.java:239-243 | `Matcher.find` in a loop gives `FindUrls`. |
| Sources.FoundUrlsShape | src/main/java/kinet/smaug/PresentationCreator.java:239 | Every match is an `http://` or `https://` scheme followed by a non-empty run of non-`\s` characters, and is a slice of the text. |
| Sources.MatchShape | src/main/java/kinet/smaug/PresentationCreator.java:239 | A match cannot be extended: it ends at the end of the text or before a `\s` character. |
| Sources.WholeUrl | src/main/java/kinet/smaug/PresentationCreator.java:239 | A text that is one URL is found as exactly that URL. |
| Sources.NoSchemeNoUrls | src/main/java/kinet/smaug/PresentationCreator.java:239 | Text without "http" has no URL. |
| Sources.SourcesShape | src/main/java/kinet/smaug/PresentationCreator.java:238-250 | No source appears twice, and the sources are exactly the trimmed matches. |
| Sources.DedupSet | src/main/java/kinet/smaug/PresentationCreator.java:240 | The insertion-ordered set holds each added string once, and nothing else. |
| Sources.DedupPrefix | src/main/java/kinet/smaug/PresentationCreator.java:240 | Insertion order: what the set held earlier stays at its front. |
| Sources.DedupDistinct | src/main/java/kinet/smaug/PresentationCreator.java:240 | Adding distinct strings keeps them all, in order. |
| Sources.TrimPunctCuts | src/main/java/kinet/smaug/PresentationCreator.java:252-254 | On a string without line terminators, trimPunct cuts the maximal trailing run of `)]},.;!?`. The result is a prefix that does not end in one of them. |
| Sources.TrimPunctIdempotent | src/main/java/kinet/smaug/PresentationCreator.java:252-254 | trimPunct is idempotent on strings without line terminators. |
| Sources.TrimPunctKeeps | src/main/java/kinet/smaug/PresentationCreator.java:252-254 | A URL ending in a letter, digit or '/' is kept whole. |
| Sources.TrimPunctNotIdempotent | src/main/java/kinet/smaug/PresentationCreator.java:253 | `$` may also match before a final line terminator. "a." + U+2028 + "." loses only its last '.', and a second pass then removes the '.' before the U+2028. |
| ImageFiles.SanitizeNameShape | src/main/java/kinet/smaug/PresentationCreator.java:472-476 | Only letters, digits, '.', '_' and '-' are left, and every such character of the input survives unless the result is emptied. The result is never "." or "..". |
| ImageFiles.SanitizeNameIdempotent | src/main/java/kinet/smaug/PresentationCreator.java:472-476 | Sanitising twice changes nothing. |
| ImageFiles.KeepNameCharsMembers | src/main/java/kinet/smaug/PresentationCreator.java:473 | The characters left are exactly the name characters of the input. |
| ImageFiles.PictureTypeOfExtension | src/main/java/kinet/smaug/PresentationCreator.java:457-463 | GIF exactly for ".gif" and JPEG exactly for ".jpg" and ".jpeg", in any letter case. PNG for ".png" and for every name the image filter refuses. |
| ImageFiles.ImageNamesMembers | src/main/java/kinet/smaug/PresentationCreator.java:482-485 | The filter keeps exactly the names ending, in lower case, in .jpg, .jpeg, .png or .gif. |
| ImageFiles.ListImagesShape | src/main/java/kinet/smaug/PresentationCreator.java:478-491 | The listing holds every image name of the folder, as often as it occurs and nothing else, ordered by the natural key. |
| ImageFiles.SortBySorted | src/main/java/kinet/smaug/PresentationCreator.java:486 | The sort returns a permutation of its input ordered by key. |
| ImageFiles.NaturalKeyString | src/main/java/kinet/smaug/PresentationCreator.java:494-508 | The matcher loop over the lower-cased name computes `NaturalKey`. |
| ImageFiles.RunsConcat | src/main/java/kinet/smaug/PresentationCreator.java:497-498 | The matches of `\d+|\D+` put together give the name back. |
| ImageFiles.RunsShape | src/main/java/kinet/smaug/PresentationCreator.java:497-498 | Every match is non-empty and all digits or no digits, and digit and non-digit runs alternate. |
| ImageFiles.StripZerosValue | src/main/java/kinet/smaug/PresentationCreator.java:502 | Dropping the leading zeros keeps the digits and the value. |
| ImageFiles.NumberKeyValue | src/main/java/kinet/smaug/PresentationCreator.java:502-503 | A number key is all digits, at least 20 of them, and has the run's value. |
| ImageFiles.NumberKeyOrder | src/main/java/kinet/smaug/PresentationCreator.java:503 | Below 10^20, number keys have 20 digits and compare as their values do, and they are equal exactly when the values are. |
| ImageFiles.NumberedNames | src/main/java/kinet/smaug/PresentationCreator.java:493-508 | Names that differ only in their number sort by the number's value, so img2 comes before img10. |
| ImageFiles.StrLeTotal | src/main/java/kinet/smaug/PresentationCreator.java:486 | Any two keys compare one way or the other. |
| ImageFiles.SlideImage | src/main/java/kinet/smaug/PresentationCreator.java:143-145 | The block's own image wins. Otherwise the slide gets a folder image if there is one, and none otherwise. |
| ImageFiles.RoundRobin | src/main/java/kinet/smaug/PresentationCreator.java:144-145 | Slide i gets image i while there are enough images, and the choice repeats every n slides. |
| ImageFiles.EveryImageUsed | src/main/java/kinet/smaug/PresentationCreator.java:141-145 | With no more images than slides, every image appears on some slide. |
| JavaText.TrimIdempotent | src/main/java/kinet/smaug/PresentationCreator.java:176 | `trim()` is idempotent. |
| JavaText.TrimSlice | src/main/java/kinet/smaug/PresentationCreator.java:176 | `trim()` returns a slice of its argument. |
| JavaText.Strip | src/main/java/kinet/smaug/PresentationCreator2.java:224-225 | `strip()` gives a string empty exactly for blank input, with no whitespace at either end. |
| JavaText.NatToDecimal | src/main/java/kinet/smaug/PresentationCreator.java:220 | Decimal rendering has no leading zero, only digits, and reads back as the number. |

## Left out

- Apache POI rendering is not modelled: themes, titles, bodies, footers, pictures, hyperlinks, templates, the sources slide and saving.
- `cropToAspect`, `toPngBytes`, `toRect` and `fitRect` are not modelled. They are image drawing and double rounding.
- The network and the file system are parameters: HTTP headers, timeouts, the referer, `Files.list` and `isRegularFile`, and I/O errors while reading the cache (a failed read is a miss). An IOException writing or moving the ".tmp" file is the `disk` argument. The atomic-move fallback is one move here. A failure to open the ".tmp" file is modelled as a failure after 0 bytes, which leaves it empty; in the source, an earlier ".tmp" file stays as it was.
- SHA-256 is an abstract function, and `ImageIO` decoding and `scanForPlugins` are left out.
- `Thread.sleep` is left out and the jitter of `backoff` is an input, as is the order `Collections.shuffle` gives the images (lines 128-134). The fallback lemmas hold for any order.
- `main`, `run` and `buildOne` are left out, except the steps named above, and so are directory creation, `fatal` and the console messages.
- Lines of `sources.txt` are not modelled. They are added to the collected sources after `collectSources` (lines 117-121).
- `resolveExplicitImage` is not modelled: whether the named file exists in the folder. `SlideImage` takes its outcome as the `explicit` argument.
- `SlideBlock.raw` is not modelled, because nothing reads it. `SlideBlock` is modelled as a value, because each block is built once and never shared.
- FontFit: the double arithmetic is modelled over `real`, and IEEE-754 rounding and the `int` cast of line 611 are not modelled. `fits` is not monotone in the point size (`FitsNotMonotone`), so the bracket `FitFontSize` ends with need not hold the largest size that fits (see Findings).
- JavaText.ToLower: `toLowerCase(Locale.ROOT)` is modelled for ASCII and Cyrillic U+0400–U+042F only. Other scripts are left unchanged.
- ImageFiles.IsAlphabetic: `\p{IsAlphabetic}` is modelled for ASCII, Latin-1 and Cyrillic letters only. `\p{IsDigit}` is modelled for ASCII digits only.
- ImageFiles.NaturalKeyString: `Character.isDigit` and `BigInteger` also accept non-ASCII digits, which `\d` does not. A `\D+` run that starts with a non-ASCII digit and holds anything but digits makes `new BigInteger` throw NumberFormatException, and the model does not have that exception. The model treats ASCII digits only, which is the same for names written with ASCII digits.
- ImageFiles.StrLe: `String.compareTo` compares UTF-16 code units, and the model compares code points. The two orders differ only for characters outside the Basic Multilingual Plane.
- ImageFiles.SortBySorted: stability of the sort (the order of names with equal keys) is not stated.
- Sources.TrimPunctIdempotent: stated only for strings without line terminators. With a final U+0085, U+2028 or U+2029, which `\S` lets into a match, it does not hold (`Sources.TrimPunctNotIdempotent`).
- SlideBlocks.DirectiveGroup: exact only for lines without line terminators, which are the only lines `parseBlocks` gives it.
- WordWrap.WrapSpec: text such as "\u0000" is not blank but trims to "", and the source returns an empty list for it. The model keeps that behaviour, so "never empty" holds only for text that is blank or keeps something after trimming.
- WordWrap.WrapSmart: proved for the corrected appendFitting (see Findings). For the code as written only the line bounds are proved, for the whole wrap (`GreedyAsWrittenWithin`, `WrapAsWrittenWithin`), and content can be lost (`AsWrittenDropsRightPart`). The content clause lets a '-' be inserted anywhere; it does not say that each inserted '-' ends a line.
- WordWrap.WrapSpec: proved for the corrected appendFitting, as for `WrapSmart`.
- WordWrap.GreedySpec: proved for the corrected appendFitting, as for `WrapSmart`.
- WordWrap.PackSound: proved for the corrected appendFitting, as for `WrapSmart`.
- WordWrap.FitSound: proved for the corrected appendFitting; the as-written one has `FitAsWrittenWithin`.
- WordWrap.SplitSound: proved for the corrected appendFitting, whose delimiter branch differs from the source's when the left part is longer than cpl.
- WordWrap.WrapSmart lengths: the source counts a line's length and cuts words in UTF-16 code units, and the model in Dafny characters. A character outside the Basic Multilingual Plane counts twice in the source, and `substring` can split it; the model cannot express that. The two agree for text inside the Basic Multilingual Plane.
- FontFit.MaxLen: lengths are UTF-16 code units in the source and Dafny characters here, as for `WordWrap.WrapSmart`.
- ImageFetch.FetchBytesWithRetries: the grammar of `java.net.URI` is not modelled. Whether it accepts the URL is the parameter `uriOk`, and only what a rejection does is modelled.
- SlideBlocks.Lines: `split("\\R")` is modelled as a split at every line-break character. A "\r\n" pair then leaves an extra empty piece, which the filter on empty lines drops, so the lines are the same.

## Findings

| source | as written | input that shows it | evidently intended | confidence | as-written member | corrected member |
|---|---|---|---|---|---|---|
| src/main/java/kinet/smaug/PresentationCreator2.java:670-671 | When the left part of a delimiter split is longer than cpl, only the left part is hyphenated and the right part is dropped | "aaaaaaaaaaaaa-b" at cpl 12: "b" is lost | Wrap the right part as well, as the other branch does | not executed | WordWrap.AsWrittenDropsRightPart | WordWrap.CorrectedKeepsRightPart |
| src/main/java/kinet/smaug/PresentationCreator2.java:584-597 | The bisection keeps the lower half whenever the midpoint does not fit, which finds the largest fitting size only if `fits` is monotone in the size, and it is not: the anti-orphan pass can make a line longer than cpl at one size and not at a larger one | "aa bbbbbbbbbb ccccc" in a box 179 by 500: it does not fit at 25 pt and fits at 26 pt, so between 24 and 26 pt the first midpoint, 25, fails and the result is at most 25 | The largest size that fits, to within 0.25 pt | not executed | FontFit.SettlesBelowAFit | FontFit.ScanFontSize |
| src/main/java/kinet/smaug/PresentationCreator2.java:365-370 | The slot height is 0.45 of the area height whatever the width, so a three-image row can be wider than its area | A slide with 4 or more images: a row 2142.4 wide in an area 1112 wide, off the slide's right edge | Limit the slot height so that the row fits the area's width | not executed | SlideLayout.ColumnRowOverflows | SlideLayout.ImagesPlaced |
