# hraizn-distillery: a verified model of the crawl driver's sequential logic

The distillery crawls documentation sites and writes each site's pages to one markdown file.
Fetching, rendering and memory-throttled parallelism all happen inside the crawl4ai library. What
the repository's own code adds around the crawler is sequential and is modelled here:

- **Tally and partition** (`crawl_parallel`): one pass over the crawler's result list keeps the
  successful results in order, and counts and reports the failed ones.
- **Peak-memory tracking** (`log_memory`): a running maximum of resident-memory samples starting
  at 0, printed in megabytes by floor division by 1024 * 1024.
- **Sitemap discovery** (`get_docs_urls`): the `<loc>` entries of a sitemap. Any failure gives the
  empty list.
- **Output file name**: `url.replace('https://', '').replace('.', '_').replace('/', '_')`, with
  Python's `str.replace` semantics (all non-overlapping occurrences, left to right).
- **Markdown serialisation**: each result becomes `URL: <url>\n\nContent:\n\n<markdown>`, and the
  blocks are joined with `\n---\n\n` into `output/<name>.md`.
- **Mode selection** (`crawl`, `main`): a non-empty URL list goes to parallel mode. Otherwise
  `crawl` uses recursive mode and `main` does nothing.

Files:

- `text.dfy`, module `Text`: Python's `str.replace` (`ReplaceAll`, including the empty-target
  case), the substring test (`Occurs`) and `str.join` (`Join`), with lemmas that pin down their
  results.
- `parallel.dfy`, module `Parallel`: distillery/parallel.py. `Tally` is the loop, proved against
  the filter functions `Successes` and `Failures`. `MemoryMonitor` is a class whose `peakMemory`
  field `LogMemory` updates in place. `CrawlParallel` and `RunMain` are the two procedures.
  `SafeFilename`, `Block` and `FileContent` are the output expressions.
- `names.dfy`, module `Names`: the concrete file names the program derives, computed from the
  general lemmas about `SafeFilename`.
- `crawl.dfy`, module `Crawl`: crawl.py. `CrawlWithUrls` is the mode choice for any URL list.
  `Crawl` fixes the list to empty, as the source does. `WriteMarkdownFile` builds the output file.

Inputs that stand for the outside world:

- the crawler's result list (`results`, `crawlerResults`, `parallelResults`);
- the resident-memory samples (`memBefore`, `memAfter`);
- the outcome of the sitemap request (`SitemapResponse`);
- the recursive crawler's output (`recursiveOutput`).

Files the program writes are returned as `Artifact(path, content)` values.

Two things the code does not do:

- `main` does not fall back to recursive mode when discovery fails: it prints a message and stops.
  `crawl` never asks for a sitemap: its URL list is the constant `[]`.
- Result records carry no outbound links, and no concurrency bound is validated.

## Model

| member | source | states |
|---|---|---|
| `Text.Occurs` | distillery/parallel.py:103 | Python's `target in s`: the empty target occurs in every string, and a target that occurs is no longer than the string |
| `Text.OccursAt` | distillery/parallel.py:103 | a target found at any position of the string occurs in it |
| `Text.ReplaceNoOccurrence` | distillery/parallel.py:103 | replacing a non-empty target that does not occur leaves the string unchanged |
| `Text.ReplaceAll` | distillery/parallel.py:103 | Python `str.replace`: with an empty target the replacement is inserted before every character and at the end, so the length grows by (\|s\|+1)·\|replacement\| |
| `Text.ReplaceCharPointwise` | distillery/parallel.py:103 | replacing one character by another keeps the length and changes exactly the positions that held that character |
| `Text.ReplaceCharRemoves` | distillery/parallel.py:103 | after `.replace('.', '_')` (or `'/'`) the character is gone, and every character left came from the input or is the replacement |
| `Text.AbsentCharNoOccurrence` | distillery/parallel.py:103 | a target with a character the string lacks does not occur in it |
| `Text.ReplaceAbsent` | distillery/parallel.py:103 | replacing a target that cannot occur leaves the string unchanged |
| `Text.ReplaceLeading` | distillery/parallel.py:103 | a leading occurrence is replaced and scanning resumes right after it (non-overlapping, left to right) |
| `Text.Join` | distillery/parallel.py:105 | `sep.join` of no parts is `""`, and of one part is that part with no separator |
| `Text.JoinLength` | distillery/parallel.py:105 | `sep.join` of no parts is `""`; of n ≥ 1 parts its length is the parts' total plus exactly n−1 separators |
| `Text.JoinPart` | distillery/parallel.py:105 | part i sits at offset (lengths of parts before i) + i·\|sep\|, and every part after the first is directly preceded by one separator |
| `Parallel.Successes` | distillery/parallel.py:57-60 | the kept list holds only successful results and is no longer than the input |
| `Parallel.Failures` | distillery/parallel.py:61-63 | the reported list holds only failed results and is no longer than the input |
| `Parallel.SuccessesAreSubsequence` | distillery/parallel.py:57-63 | the output is exactly the results at strictly increasing positions, and a position is picked if and only if its result succeeded |
| `Parallel.Partition` | distillery/parallel.py:54-63 | success count + failure count = number of results, and the two lists together are a permutation of the results |
| `Parallel.SuccessMultiplicity` | distillery/parallel.py:57-63 | a successful result is kept as often as it was returned; a failed one never appears in the output |
| `Parallel.Tally` | distillery/parallel.py:54-63 | the loop leaves `output` = the successes in order, reports the failures in order, `success_count` = \|output\|, `fail_count` = number of failures, and the two counts sum to the number of results |
| `Parallel.ToMb` | distillery/parallel.py:26 | m = bytes // (1024·1024) satisfies m·1048576 ≤ bytes < (m+1)·1048576 |
| `Parallel.Peak` | distillery/parallel.py:19-25 | the running maximum starting at 0 is ≥ every sample and is either 0 or one of the samples |
| `Parallel.PeakMonotone` | distillery/parallel.py:24-25 | later samples never lower the peak |
| `Parallel.PeakIsLeast` | distillery/parallel.py:24-25 | the peak is ≤ every upper bound of the samples, so it is their maximum |
| `Parallel.MemoryMonitor.constructor` | distillery/parallel.py:19 | `peak_memory` starts at 0 with no samples seen |
| `Parallel.MemoryMonitor.LogMemory` | distillery/parallel.py:21-26 | records the sample; the peak becomes max(old peak, sample), never decreases, stays the maximum of all samples, and both printed values are in MB |
| `Parallel.CrawlParallel` | distillery/parallel.py:15-71 | returns exactly the successful results in order; the summary's counts are \|output\| and the number of failures; the printed peak is the larger of the two samples in MB |
| `Parallel.GetDocsUrls` | distillery/parallel.py:73-94 | a connection failure, an HTTP 4xx/5xx status or malformed XML gives `[]` instead of raising; a non-empty list only comes from a parsed sitemap and is its `<loc>` list |
| `Parallel.SafeFilename` | distillery/parallel.py:103 | the derived name contains no `.`, no `/` and no `https://` (crawl.py:20 derives its name with the same expression) |
| `Parallel.SafeFilenameIdempotent` | distillery/parallel.py:103 | deriving a name from a derived name changes nothing |
| `Parallel.SafeFilenameOfHttps` | distillery/parallel.py:103 | for `https://` + a rest in which `https://` does not occur, the name is the rest with every `.` and `/` turned into `_` |
| `Names.SitemapFilename` | distillery/parallel.py:97-103 | `https://www.wobcom.de/faq-sitemap.xml` becomes `www_wobcom_de_faq-sitemap_xml` |
| `Names.SafeFilenameCollision` | distillery/parallel.py:103 | the name is not injective: `https://a.b` and `https://a/b` both become `a_b` |
| `Parallel.OutputPath` | distillery/parallel.py:106 | the file is `output/<name>.md` |
| `Parallel.Block` | distillery/parallel.py:105 | a block is `URL: `, then the url, then `\n\nContent:\n\n`, then the markdown, with nothing else |
| `Parallel.Blocks` | distillery/parallel.py:105 | one block per result |
| `Parallel.FileContent` | distillery/parallel.py:105 | the content is empty exactly when there are no results |
| `Parallel.FileContentLayout` | distillery/parallel.py:105 | block i is result i's block, at the offset after i earlier blocks and separators; each later block is preceded by `\n---\n\n`; the length leaves room for nothing else |
| `Parallel.RunMain` | distillery/parallel.py:96-110 | crawls and writes if and only if sitemap discovery found URLs; then it keeps exactly the successful results, its counts cover every result, and it writes them serialised to `output/` + the name derived from the sitemap URL (`Names.SitemapFilename` computes that name) |
| `Crawl.WriteMarkdownFile` | crawl.py:25-31 | writes `output/<filename>.md` with the same serialisation as `main` (after creating `output/`); the content is empty exactly when there are no results |
| `Crawl.CrawlWithUrls` | crawl.py:12-22 | parallel mode (max_concurrent 10) exactly when the URL list is non-empty; otherwise recursive mode with max_depth = depth and max_concurrent 10; the file is named from the seed URL |
| `Crawl.Crawl` | crawl.py:8-22 | with the URL list fixed to `[]`, every session is recursive (seed, depth, 10) and writes the recursive crawler's output |

## Left out

- The crawler (`AsyncWebCrawler`, `arun_many`), its configuration objects and the
  `MemoryAdaptiveDispatcher` with its constants (70 % threshold, 1 s check interval, session
  permit = max_concurrent). They are library code. Their result list is an input, and
  `CrawlParallel` therefore takes no URL list or concurrency bound.
- Resident-memory sampling through `psutil`. It is an OS query, so each sample is a parameter.
- The HTTP request and the XML parser behind `get_docs_urls`. Their outcome is the abstract
  `SitemapResponse`. A `<loc>` element without text yields `None` in the source's list. The model's
  `<loc>` entries are always strings, so that case is not represented.
- `print` output, except what the model returns: the failures reported by the tally loop, and
  the numbers of the summary and the memory lines.
- File writing and `mkdir`. The file is returned as a path and content.
- Parallel.RunMain: `main` opens `output/<name>.md` without creating `output/` (only `write_markdown_file` in crawl.py does), so it raises `FileNotFoundError` when that directory is missing. The model treats the write as always happening and always returns `written`.
- `argparse`, the loop over command-line seeds and `asyncio.run`. These are command-line plumbing.
- distillery/recursive.py is not part of this model. It holds the recursive crawler
  (frontier, depth bound, deduplication). Its output is the parameter `recursiveOutput`.
- tests/test_docker_api.py. It calls a server handler that is not part of this model and asserts
  nothing.
- Python's `str.replace` for the empty target is modelled, but no call site uses it.
