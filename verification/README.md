# TikTok video evaluation — a Dafny model of its sequential core

The repository scrapes TikTok video links with a browser, downloads the
videos, and rates each downloaded video's quality with three classic
frame-based metrics (mean Laplacian variance, mean structural similarity
and mean peak signal-to-noise ratio between consecutive frames) plus a
learned score. This project models the logic under the browser and
OpenCV plumbing and proves what it does:

- `video_quality.dfy` — module `VideoQuality`, the three analysers of
  `src/video_quality_eval/traditional/video_quality_eval.py`. A video is
  either unopenable or a sequence of grayscale frames (sequences of
  bytes). The numeric kernels (Laplacian variance, SSIM, the
  `20·log10(255/√mse)` formula) are function parameters. Scores are
  `Finite(r) | Inf | NaN` with NumPy's mean semantics and IEEE `>`. The
  PSNR `mse` is modelled as the 8-bit arithmetic the code performs.
- `quality_batch.dfy` — module `QualityBatch`, `evaluate_videos_quality`
  of `src/video_quality_eval/__init__.py`: the ".mp4" filter, progress
  ordinals, the four-metric record, and the single final write, as a
  trace of `Progress(ordinal)` and `Write(records)` events. The `continue`
  on non-".mp4" entries is `VideoEntries`, which pairs each kept name
  with its listing index; the loop body runs over those entries. The
  driver's contract (`RunBatch`) holds for any per-video step, and
  `EvaluateVideosQuality` runs it with the analysers.
- `scraper.dfy` — module `Scraper`, `src/scraper/tiktok_scraping.py`:
  the `scroll_down` retry state machine over observed page heights, the
  item-container link filter, the ".mp4" counter and the bounded
  `wait_for_download` poll over observed directory listings.
- `scraper_optimized.dfy` — module `ScraperOptimized`,
  `src/scraper/tiktok_scrap_optimize.py`: duplicate-free link
  accumulation over page snapshots with the `max_links` cap, and the
  section link filter.
- `html.dfy` (anchors, read by both scrapers, and the "tiktok.com" href
  filter over all anchors of a tag, which only the optimised scraper
  applies; the first scraper takes one href per item container),
  `strings.dfy` (`endswith` and substring tests), `sequences.dfy`
  (order-preserving filter, duplicate-freedom) and `results.dfy`
  (`Option`, `Result`).

Two behaviours of the code are worth knowing. First, the PSNR analyser
subtracts and squares `uint8` frames, so each pixel contributes
`((a − b) mod 256)² mod 256`; that is zero exactly when `a − b` is a
multiple of 16, so two visibly different frames (one pixel 0 against
16) score an infinite PSNR just as identical frames do
(`VideoQuality.DistinctFramesScoreInf`). The model keeps this
wrap-around as written. Second, the SSIM and PSNR analysers have no
open check and no frame-count check: with fewer than two frames, or an
unopenable file, they average an empty list and report `NaN`, "Blur".
The batch driver has no per-video error handling: the first analyser
that raises ends the batch and nothing is written. The model follows the
code on all three points.

## Model

| member | source | states |
|---|---|---|
| VideoQuality.Classify | src/video_quality_eval/traditional/video_quality_eval.py:44 | The label is "Clear" exactly when a finite score is strictly above the threshold; an infinite score is always "Clear" and a NaN score always "Blur", so a score equal to the threshold is "Blur". |
| VideoQuality.Mean | src/video_quality_eval/traditional/video_quality_eval.py:43 | The mean of a non-empty list, taken once per element, adds up to the list's total. |
| VideoQuality.MeanUnique | src/video_quality_eval/traditional/video_quality_eval.py:43 | A non-empty list has exactly one mean, so the mean property fixes each analyser's score. |
| VideoQuality.MeanScore | src/video_quality_eval/traditional/video_quality_eval.py:75 | `np.mean` over scores: NaN exactly when the list is empty or holds a NaN; infinite exactly when it is non-empty, holds an infinity and no NaN; finite only when every element is finite, and then it is the arithmetic mean of the values. |
| VideoQuality.MeanBounds | src/video_quality_eval/traditional/video_quality_eval.py:43 | The mean of a non-empty list lies between any lower and upper bound of its elements. |
| VideoQuality.MeanScoreBounds | src/video_quality_eval/traditional/video_quality_eval.py:112 | A finite mean score lies between any bounds of the element values. |
| VideoQuality.MeanOfFinites | src/video_quality_eval/traditional/video_quality_eval.py:43 | `np.mean` of finite values is NaN for an empty list and otherwise the finite arithmetic mean. |
| VideoQuality.LaplacianValues | src/video_quality_eval/traditional/video_quality_eval.py:28-35 | Exactly one value per decoded frame, in frame order, each the variance of that frame. |
| VideoQuality.LaplacianQuality | src/video_quality_eval/traditional/video_quality_eval.py:21-46 | Fails with the open error exactly for an unopenable video and with the no-frames error exactly for an opened video with no frames; otherwise the score is the finite mean of the per-frame variances and the label is "Clear" exactly when it exceeds 100. |
| VideoQuality.LaplacianBetweenFrameExtremes | src/video_quality_eval/traditional/video_quality_eval.py:43-44 | The score lies between any bounds of the per-frame variances; all frames above 100 give "Clear", all at or below 100 give "Blur". |
| VideoQuality.LaplacianSingleFrame | src/video_quality_eval/traditional/video_quality_eval.py:40-43 | A one-frame video succeeds and scores exactly that frame's variance. |
| VideoQuality.PairsAfter | src/video_quality_eval/traditional/video_quality_eval.py:64-71 | Starting from a previous frame, each later frame is paired with the one before it, one pair per later frame. |
| VideoQuality.ConsecutivePairs | src/video_quality_eval/traditional/video_quality_eval.py:61-71 | n ≥ 1 frames give n − 1 comparisons and the k-th compares frame k with frame k + 1; no frames give none. |
| VideoQuality.SsimQuality | src/video_quality_eval/traditional/video_quality_eval.py:49-77 | Fewer than two frames, including an unopenable file, give NaN and "Blur"; otherwise the score is the finite mean of the similarities of each frame with the next; the label is "Clear" exactly when the score exceeds the threshold. |
| VideoQuality.SsimValues | src/video_quality_eval/traditional/video_quality_eval.py:59-71 | One similarity per consecutive pair, the k-th comparing frame k with frame k + 1. |
| VideoQuality.SsimBetweenPairExtremes | src/video_quality_eval/traditional/video_quality_eval.py:64-75 | The SSIM score lies between any bounds of the consecutive-pair similarities. |
| VideoQuality.SsimStillVideo | src/video_quality_eval/traditional/video_quality_eval.py:69-76 | A video of two or more identical frames, with a similarity of 1 for identical frames, scores 1.0 and is "Clear" at the 0.75 default threshold. |
| VideoQuality.SquareMultipleOf256 | src/video_quality_eval/traditional/video_quality_eval.py:100 | d² is a multiple of 256 exactly when d is a multiple of 16. |
| VideoQuality.SquaredErrorU8 | src/video_quality_eval/traditional/video_quality_eval.py:100 | The 8-bit squared pixel difference is zero exactly when the difference is a multiple of 16. |
| VideoQuality.ErrorSum | src/video_quality_eval/traditional/video_quality_eval.py:100 | The sum of 8-bit squared differences is at most 255 per pixel and is zero exactly when every pixel difference is a multiple of 16. |
| VideoQuality.PixelErrors | src/video_quality_eval/traditional/video_quality_eval.py:100 | One error per pixel, in pixel order, each the 8-bit squared difference of that pixel. |
| VideoQuality.ErrorSumIsTotal | src/video_quality_eval/traditional/video_quality_eval.py:100 | The error sum is the total of the per-pixel 8-bit squared errors. |
| VideoQuality.Mse | src/video_quality_eval/traditional/video_quality_eval.py:100 | The mean squared error lies in 0..255 and is zero exactly when every pixel difference is a multiple of 16. |
| VideoQuality.MseIsMean | src/video_quality_eval/traditional/video_quality_eval.py:100 | `mse` is exactly the mean, over all pixels, of `((a − b) mod 256)² mod 256`. |
| VideoQuality.PairPsnr | src/video_quality_eval/traditional/video_quality_eval.py:100-107 | A pair scores infinity exactly when every pixel difference is a multiple of 16, and otherwise the decibel formula applied to that pair's mse, which lies in (0, 255]. |
| VideoQuality.IdenticalFramesScoreInf | src/video_quality_eval/traditional/video_quality_eval.py:101-104 | Identical frames score infinity. |
| VideoQuality.DistinctFramesScoreInf | src/video_quality_eval/traditional/video_quality_eval.py:100-104 | The different one-pixel frames 0 and 16 also score infinity. |
| VideoQuality.PsnrValues | src/video_quality_eval/traditional/video_quality_eval.py:90-108 | One score per consecutive pair of frames, the k-th being the pair PSNR of frame k and frame k + 1: never NaN, infinite exactly when that pair's pixel differences are all multiples of 16. |
| VideoQuality.PsnrValuesFollowPairs | src/video_quality_eval/traditional/video_quality_eval.py:92-108 | The PSNR scores follow the `prev_frame` loop: one per pair it compares, each that pair's PSNR. |
| VideoQuality.PsnrQuality | src/video_quality_eval/traditional/video_quality_eval.py:80-114 | Fewer than two frames give NaN and "Blur"; the score is infinite exactly when some consecutive pair differs only by multiples of 16, and then the label is "Clear"; with two or more frames it is never NaN; a finite score is the mean of the pair PSNRs; the label is "Clear" exactly when the score exceeds the threshold. |
| VideoQuality.PsnrMean | src/video_quality_eval/traditional/video_quality_eval.py:95-112 | The mean of the pair PSNRs is NaN without a pair, never NaN with one, infinite exactly when some pair differs only by multiples of 16, and otherwise the arithmetic mean of the finite pair scores. |
| VideoQuality.PsnrStillVideo | src/video_quality_eval/traditional/video_quality_eval.py:101-113 | A video of two or more identical frames scores infinity and is "Clear" whatever the threshold. |
| QualityBatch.JsonKey | src/video_quality_eval/__init__.py:49-61 | Each metric's JSON key, spelled as the program writes it, reads back as that metric, so no two metrics share a key. |
| QualityBatch.JsonMetrics | src/video_quality_eval/__init__.py:48-64 | A record's metrics as a JSON object: every metric sits under its own key, with its entry, and every key names one of the record's metrics. |
| QualityBatch.MakeRecord | src/video_quality_eval/__init__.py:47-65 | A record is named after its video and has exactly the four metrics; the three classic ones carry the score and label of their assessment, `simple_VQA` its score only; written as JSON its keys are exactly "laplacian", "structural_similarty", "peak_signal_to_noise_ratio" and "simple_VQA". |
| QualityBatch.EvaluateVideo | src/video_quality_eval/__init__.py:40-65 | Evaluating a video succeeds exactly when the Laplacian analyser accepts it and the learned scorer returns a score; a failure names the video; a success is the record built from the three analysers (thresholds 0.75 and 30) and the scorer, all on that video, and it has four metrics with labels on exactly the three classic ones, each "Clear" exactly when its own score exceeds 100, 0.75 or 30 respectively. |
| QualityBatch.MakeRecordShape | src/video_quality_eval/__init__.py:47-65 | A record has four metrics, the label present on exactly the three classic ones, each label "Clear" exactly when its score exceeds that metric's threshold, given assessments that label that way. |
| QualityBatch.VideoEntries | src/video_quality_eval/__init__.py:33-36 | Each kept entry is an ".mp4" name paired with its index in the full listing, in increasing index order. |
| QualityBatch.VideoEntriesComplete | src/video_quality_eval/__init__.py:35-36 | An entry of the listing is kept, with its index, exactly when its name ends with ".mp4". |
| QualityBatch.Names | src/video_quality_eval/__init__.py:33 | The names of the kept entries, in order. |
| QualityBatch.Announce | src/video_quality_eval/__init__.py:38 | One progress line per kept entry, numbered by the entry's listing index plus 1, so skipped entries still use up numbers. |
| QualityBatch.RecordsOf | src/video_quality_eval/__init__.py:67 | One record per entry, in order, each that entry's evaluation. |
| QualityBatch.EvaluateEntries | src/video_quality_eval/__init__.py:33-67 | The loop only prints progress lines; it never writes. |
| QualityBatch.EvaluateEntriesCompletes | src/video_quality_eval/__init__.py:33-67 | The loop finishes without error exactly when every ".mp4" video evaluates; it has then announced each one and appended each one's record, in listing order. |
| QualityBatch.EvaluateEntriesStops | src/video_quality_eval/__init__.py:38-45 | A failing loop stops at the first video that fails, with that video's error, after announcing exactly it and every earlier video. |
| QualityBatch.RunBatch | src/video_quality_eval/__init__.py:25-69 | A failed listing aborts with no events; otherwise the batch succeeds exactly when every ".mp4" video evaluates, and then announces each and writes all records once, as the last event; a failure stops at the first failing video and writes nothing. |
| QualityBatch.AllSucceedIffEveryVideo | src/video_quality_eval/__init__.py:33-45 | Every kept entry evaluates exactly when every ".mp4" name of the listing does. |
| QualityBatch.WrittenRecordsSatisfy | src/video_quality_eval/__init__.py:42-69 | Any property every successful evaluation gives its record holds of every record the batch writes. |
| QualityBatch.EvaluateVideosQuality | src/video_quality_eval/__init__.py:25-69 | A listing failure aborts with no events; otherwise the batch completes exactly when every ".mp4" entry of the listing evaluates; every record written has the four metrics with labels matching their thresholds. |
| QualityBatch.VideoEntriesAreVideoFiles | src/video_quality_eval/__init__.py:32-36 | The kept names are the listing filtered by the ".mp4" suffix, in listing order. |
| QualityBatch.BatchWritesOneRecordPerVideoFile | src/video_quality_eval/__init__.py:32-69 | A completed batch writes exactly one record per ".mp4" entry, named after it, in listing order. |
| QualityBatch.RecordsNamedAfterVideos | src/video_quality_eval/__init__.py:32-69 | For any per-video step that names each record after its video, a completed batch writes one record per ".mp4" entry, in listing order. |
| Html.TikTokHrefs | src/scraper/tiktok_scrap_optimize.py:62-66 | The kept hrefs are the present hrefs containing "tiktok.com": no more than there are anchors, and a string is kept exactly when some anchor has it as href and it contains "tiktok.com". |
| Html.TikTokHrefsAppend | src/scraper/tiktok_scrap_optimize.py:89-93 | The href filter keeps document order across consecutive runs of anchors. |
| Scraper.ScrollStep | src/scraper/tiktok_scraping.py:81-92 | The loop breaks exactly on an unchanged height with no retries left; an unchanged height otherwise spends one retry; a changed height resets the retries to 3 and becomes the last height; the retries stay within 0..5. |
| Scraper.ScrollOver | src/scraper/tiktok_scraping.py:76-92 | The loop can break only after an observation, within the observed heights. |
| Scraper.ScrollDown | src/scraper/tiktok_scraping.py:65-92 | From the initial height with 5 retries: a break comes only within the observed heights, with no retries left, on a height equal to the last one; while scrolling the retries stay within 0..5. |
| Scraper.ScrollStopsOnlyWhenExhausted | src/scraper/tiktok_scraping.py:81-89 | When the loop breaks, its state has 0 retries, the breaking height equals the last height, and the earlier observations led into that state without breaking. |
| Scraper.ScrollRetriesBounded | src/scraper/tiktok_scraping.py:74-91 | From 5 retries, every reachable state keeps the retries within 0..5. |
| Scraper.ScrollTracksLastHeight | src/scraper/tiktok_scraping.py:90-92 | While scrolling, the last height is the most recent observation, so it changes only when a different height is seen. |
| Scraper.ScrollStall | src/scraper/tiktok_scraping.py:81-89 | With r retries, r unchanged heights are survived and the next one breaks. |
| Scraper.ScrollGivesUp | src/scraper/tiktok_scraping.py:74-92 | A page that never grows breaks on the 6th unchanged check and not before; after a growth it breaks on the 4th unchanged check and not before. |
| Scraper.FirstHref | src/scraper/tiktok_scraping.py:111 | The href taken from a container is that of its first anchor with an href, and there is none exactly when no anchor has one. |
| Scraper.FirstHrefUnique | src/scraper/tiktok_scraping.py:111 | The first href is that of the first anchor with one, and no other href is first. |
| Scraper.ContainerLink | src/scraper/tiktok_scraping.py:111-113 | A container contributes its first href when that contains "tiktok.com", and nothing exactly when no anchor has an href or the first href points elsewhere, whatever later anchors hold. |
| Scraper.ExtractVideoLinks | src/scraper/tiktok_scraping.py:95-114 | A missing section gives no links; otherwise at most one link per item container, each containing "tiktok.com", and a link is returned exactly when some container contributes it. |
| Scraper.LinksOf | src/scraper/tiktok_scraping.py:108-113 | Over the item containers: at most one link each, all containing "tiktok.com", exactly the links some container contributes. |
| Scraper.LinksOfAppend | src/scraper/tiktok_scraping.py:108-113 | Links keep document order across consecutive runs of containers. |
| Scraper.CalculateDownloadedVideos | src/scraper/tiktok_scraping.py:117-128 | A failed listing counts 0; otherwise the count is the number of ".mp4" entries, at most the listing size. |
| Scraper.CountVideoFiles | src/scraper/tiktok_scraping.py:125 | The count is the length of the listing filtered by the ".mp4" suffix. |
| Scraper.PollFrom | src/scraper/tiktok_scraping.py:139-148 | From retry r: a download is reported at a poll after r and within `max_retries`, with a count above the earlier one, taken at that poll; otherwise it gives up at `max_retries` (or at r if that is already reached). |
| Scraper.WaitForDownload | src/scraper/tiktok_scraping.py:131-148 | At most `max_retries` polls: it stops at the first poll whose count is strictly greater than the earlier count, and gives up after exactly `max_retries` (none when negative) polls with no growth. |
| Scraper.WaitForDownloadDefault | src/scraper/tiktok_scraping.py:131 | With the default of 10 retries: a download is seen within 10 polls, or all 10 polls saw no growth. |
| Scraper.PollDownloaded | src/scraper/tiktok_scraping.py:140-146 | A poll loop that ends by a download ends at the first growing poll, within the retry bound. |
| Scraper.PollGaveUp | src/scraper/tiktok_scraping.py:140-148 | A poll loop that gives up has seen no growth in any of its `max_retries` polls. |
| ScraperOptimized.ExtractVideosLinks | src/scraper/tiktok_scrap_optimize.py:84-96 | A missing section gives no links; otherwise every link contains "tiktok.com" and a string is returned exactly when some anchor of the section has it as href. |
| ScraperOptimized.NewLinks | src/scraper/tiktok_scrap_optimize.py:67 | The new links are distinct and are exactly the current links not already collected. |
| ScraperOptimized.NothingNew | src/scraper/tiktok_scrap_optimize.py:67 | When every current link is already collected, no link is new. |
| ScraperOptimized.RoundInvariant | src/scraper/tiktok_scrap_optimize.py:67-68 | Extending by any listing of the new links keeps the collection distinct, keeps earlier links in place, and leaves exactly the old links together with the page's. |
| ScraperOptimized.Round | src/scraper/tiktok_scrap_optimize.py:62-68 | A round only appends, and what it appends lists the page's new "tiktok.com" links. |
| ScraperOptimized.SliceTo | src/scraper/tiktok_scrap_optimize.py:81 | Python's `xs[:n]`: a prefix of `xs`, of length `min(n, |xs|)` for non-negative `n`, and `|xs| + n` (at least 0) for negative `n`. |
| ScraperOptimized.Collect | src/scraper/tiktok_scrap_optimize.py:56-81 | The loop either finishes with exactly `max_links` links (for a non-negative cap), extending the links it started with or cutting them to the cap, or runs out of snapshots holding fewer than `max_links` links that extend the starting ones. |
| ScraperOptimized.Accumulate | src/scraper/tiktok_scrap_optimize.py:62-68 | Reading every snapshot with no stopping rule only extends the links held at the start. |
| ScraperOptimized.AccumulateContents | src/scraper/tiktok_scrap_optimize.py:56-68 | The collected links never contain duplicates and are exactly the starting links together with every link some snapshot shows. |
| ScraperOptimized.AccumulateSplit | src/scraper/tiktok_scrap_optimize.py:68 | The collection only grows: what is held after the first snapshots is a prefix of what is held after all of them. |
| ScraperOptimized.CollectMatchesAccumulate | src/scraper/tiktok_scrap_optimize.py:56-81 | The loop returns the first `max_links` links that collecting over every snapshot would gather, and runs out of snapshots exactly when all of them give fewer. |
| ScraperOptimized.RoundIdempotent | src/scraper/tiktok_scrap_optimize.py:62-68 | Reading the same snapshot twice adds nothing the second time. |
| ScraperOptimized.StuckPageNeverFinishes | src/scraper/tiktok_scrap_optimize.py:56-79 | Once the page stops changing short of `max_links` links, no number of further snapshots ends the loop. |
| ScraperOptimized.ScrollDownAndExtractLinks | src/scraper/tiktok_scrap_optimize.py:42-81 | From no links: a non-positive cap returns nothing; a finished loop returns exactly `max_links` distinct "tiktok.com" links seen on some snapshot; a loop out of snapshots holds fewer than `max_links`, distinct, exactly those seen. |
| ScraperOptimized.ScrollDownAndExtractLinksDefault | src/scraper/tiktok_scrap_optimize.py:42 | With the default cap of 100: a finished run returns exactly 100 distinct links; a run out of snapshots holds fewer than 100 distinct links. |

## Left out

- Video decoding and colour conversion (`cv2.VideoCapture`, `cvtColor`, `release`): a video is given as its grayscale frames, or as unopenable.
- VideoQuality.PsnrQuality: assumes that all frames of a video share one non-zero size (the `DecodedVideo` subset type). `cv2.VideoCapture` does not promise this, so the model leaves out the `ValueError` NumPy raises at video_quality_eval.py:100 when consecutive frames differ in shape, and the matching error of skimage's SSIM.
- The numeric kernels (Laplacian variance, skimage SSIM, `20·log10(255/√mse)`): floating-point library code, taken as function parameters over exact reals.
- VideoQuality.SsimQuality: says nothing about the SSIM value range, because the similarity function is a parameter.
- Floating-point rounding of the means: `np.mean` is modelled as the exact real mean.
- `simple_vqa_infer`: its module is not part of this model; it is a function of the video name that returns a score or fails.
- `os.path.join(DOWNLOADED_VIDS_DIR, video)`: folded into the `open` and scorer parameters, which take the entry name.
- `save_json` and `json.dump`: file I/O, including how infinite and NaN scores are written; the write is a `Write(records)` event.
- Console output other than the progress line is not modelled; the progress line is the `Progress(ordinal)` event.
- The browser (Selenium, BeautifulSoup, `create_browser_options`, `open_url`, `get_html_soup`, `download_video`, `download_tiktok_videos`, `random_delay`) and every `time.sleep`: the page is given as observed heights, item containers, anchors and snapshots.
- Scraper.ScrollDown: runs over a finite sequence of observed heights; a run that has not broken when they end is reported as still scrolling.
- ScraperOptimized.ScrollDownAndExtractLinks: runs over a finite sequence of page snapshots; running out of them stands for the source's loop going on forever. The page heights that loop queries only choose how long to sleep and are not modelled.
- ScraperOptimized.NewLinks: lists `set(current) - set(links_collected)` in first-occurrence order, while Python's set order is unspecified; `RoundInvariant` holds for any order of the new links.
- Scraper.WaitForDownload: each poll's directory listing is a parameter, not a real directory.
- `main.py`: two lines of glue that import `assess_videos_quality`, a name the quality package does not define (it defines `evaluate_videos_quality`).
- Recovering from a failing video: the code has none, so the model aborts the batch; a design that skips failing videos, or reports an error instead of NaN for fewer than two frames, is not what the code does.
