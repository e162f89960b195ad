/**
 * The sequential logic of distillery/parallel.py around the crawler: tallying the crawler's
 * results, tracking peak resident memory, discovering URLs from a sitemap, deriving the output
 * file name and serialising the successful pages to markdown.
 *
 * The crawler itself (browser, dispatcher, concurrent fetching) is outside the model: its result
 * list and the process's memory samples are inputs.
 */
module Parallel {
  import opened Text

  /** One entry of the crawler's result list. */
  datatype CrawlResult = CrawlResult(url: string, success: bool, markdown: string, errorMessage: string)

  /** What `crawl_parallel` prints after the batch. */
  datatype Summary = Summary(successCount: nat, failCount: nat, beforeMb: nat, afterMb: nat, peakMemoryMb: nat)

  /** A file the program writes: its path and its content. */
  datatype Artifact = Artifact(path: string, content: string)

  const BytesPerMb: nat := 1024 * 1024
  const MaxConcurrent: nat := 10
  const SitemapUrl: string := "https://www.wobcom.de/faq-sitemap.xml"
  const BlockSeparator: string := "\n---\n\n"

  // ---------------------------------------------------------------------------------------------
  // Tally and partition of the crawler's results

  /** The successful results, in the order the crawler returned them. */
  function Successes(results: seq<CrawlResult>): (output: seq<CrawlResult>)
    ensures forall r :: r in output ==> r.success
    ensures |output| <= |results|
    decreases |results|
  {
    if results == [] then []
    else
      var last := results[|results| - 1];
      Successes(results[..|results| - 1]) + (if last.success then [last] else [])
  }

  /** The failed results, in the order the crawler returned them (each one is reported). */
  function Failures(results: seq<CrawlResult>): (failed: seq<CrawlResult>)
    ensures forall r :: r in failed ==> !r.success
    ensures |failed| <= |results|
    decreases |results|
  {
    if results == [] then []
    else
      var last := results[|results| - 1];
      Failures(results[..|results| - 1]) + (if last.success then [] else [last])
  }

  /** The positions of the successful results, in increasing order. */
  function SuccessIndices(results: seq<CrawlResult>): (indices: seq<nat>)
    ensures forall k :: 0 <= k < |indices| ==> indices[k] < |results|
    decreases |results|
  {
    if results == [] then []
    else
      SuccessIndices(results[..|results| - 1]) + (if results[|results| - 1].success then [|results| - 1] else [])
  }

  /**
   * Successes(results) is exactly the subsequence of `results` at the positions whose result
   * succeeded: the positions increase, and a position is picked if and only if it succeeded.
   */
  lemma {:induction false} SuccessesAreSubsequence(results: seq<CrawlResult>)
    ensures |SuccessIndices(results)| == |Successes(results)|
    ensures forall k :: 0 <= k < |SuccessIndices(results)| ==>
              results[SuccessIndices(results)[k]] == Successes(results)[k]
    ensures forall k, l :: 0 <= k < l < |SuccessIndices(results)| ==>
              SuccessIndices(results)[k] < SuccessIndices(results)[l]
    ensures forall i :: 0 <= i < |results| ==> (results[i].success <==> i in SuccessIndices(results))
    decreases |results|
  {
    if results != [] {
      var n := |results|;
      var init := results[..n - 1];
      var last := results[n - 1];
      SuccessesAreSubsequence(init);
      var before := SuccessIndices(init);
      var indices := SuccessIndices(results);
      assert indices == before + (if last.success then [n - 1] else []);
      assert Successes(results) == Successes(init) + (if last.success then [last] else []);
      assert |indices| == |Successes(results)|;
      forall k | 0 <= k < |indices| ensures results[indices[k]] == Successes(results)[k] {
        if k < |before| {
          assert indices[k] == before[k] && Successes(results)[k] == Successes(init)[k];
          assert results[before[k]] == init[before[k]];
        }
      }
      forall k, l | 0 <= k < l < |indices| ensures indices[k] < indices[l] {
        assert indices[k] == before[k];
        if l < |before| {
          assert indices[l] == before[l];
        }
      }
      forall i | 0 <= i < n ensures results[i].success <==> i in indices {
        if i < n - 1 {
          assert results[i] == init[i];
          assert i in before <==> i in indices;
        } else {
          assert n - 1 !in before;
        }
      }
    }
  }

  /** Every result lands in exactly one of the two lists: counts and multiplicities add up. */
  lemma {:induction false} Partition(results: seq<CrawlResult>)
    ensures |Successes(results)| + |Failures(results)| == |results|
    ensures multiset(Successes(results)) + multiset(Failures(results)) == multiset(results)
    decreases |results|
  {
    if results != [] {
      var n := |results|;
      var init, last := results[..n - 1], results[n - 1];
      Partition(init);
      assert results == init + [last];
      assert Successes(results) == Successes(init) + (if last.success then [last] else []);
      assert Failures(results) == Failures(init) + (if last.success then [] else [last]);
      PartitionStep(Successes(init), Failures(init), init, last, Successes(results), Failures(results));
    }
  }

  /** Appending one result to exactly one of two lists that partition `init` partitions `init + [last]`. */
  lemma PartitionStep(kept: seq<CrawlResult>, failed: seq<CrawlResult>, init: seq<CrawlResult>,
                      last: CrawlResult, kept': seq<CrawlResult>, failed': seq<CrawlResult>)
    requires |kept| + |failed| == |init| && multiset(kept) + multiset(failed) == multiset(init)
    requires (kept' == kept + [last] && failed' == failed) || (kept' == kept && failed' == failed + [last])
    ensures |kept'| + |failed'| == |init + [last]|
    ensures multiset(kept') + multiset(failed') == multiset(init + [last])
  {
  }

  /** A result is kept as often as it was returned if it succeeded, and never if it failed. */
  lemma SuccessMultiplicity(results: seq<CrawlResult>, r: CrawlResult)
    ensures multiset(Successes(results))[r] == if r.success then multiset(results)[r] else 0
    ensures multiset(Failures(results))[r] == if r.success then 0 else multiset(results)[r]
  {
    Partition(results);
    if r.success {
      assert r !in Failures(results);
    } else {
      assert r !in Successes(results);
    }
  }

  /** The tally loop of `crawl_parallel`: keep the successes, count and report the failures. */
  method Tally(results: seq<CrawlResult>)
    returns (output: seq<CrawlResult>, successCount: nat, failCount: nat, reported: seq<CrawlResult>)
    ensures output == Successes(results)
    ensures reported == Failures(results)
    ensures successCount == |output| && failCount == |reported|
    ensures successCount + failCount == |results|
  {
    output, successCount, failCount, reported := [], 0, 0, [];
    for i := 0 to |results|
      invariant output == Successes(results[..i])
      invariant reported == Failures(results[..i])
      invariant successCount == |output| && failCount == |reported|
      invariant successCount + failCount == i
    {
      assert results[..i + 1][..i] == results[..i];
      var result := results[i];
      if result.success {
        successCount := successCount + 1;
        output := output + [result];
      } else {
        reported := reported + [result];
        failCount := failCount + 1;
      }
    }
    assert results[..|results|] == results;
  }

  // ---------------------------------------------------------------------------------------------
  // Memory tracking

  /** Floor division of a byte count by 1024 * 1024, as printed in megabytes. */
  function ToMb(bytes: nat): (mb: nat)
    ensures mb * BytesPerMb <= bytes < (mb + 1) * BytesPerMb
  {
    bytes / BytesPerMb
  }

  /** The running maximum over the samples, starting from 0. */
  function Peak(samples: seq<nat>): (peak: nat)
    ensures forall i :: 0 <= i < |samples| ==> samples[i] <= peak
    ensures peak == 0 || peak in samples
    decreases |samples|
  {
    if samples == [] then 0
    else
      var before := Peak(samples[..|samples| - 1]);
      var current := samples[|samples| - 1];
      assert before != 0 ==> before in samples by {
        assert forall x :: x in samples[..|samples| - 1] ==> x in samples;
      }
      if current > before then current else before
  }

  /** Later samples never lower the peak. */
  lemma PeakMonotone(samples: seq<nat>, later: seq<nat>)
    ensures Peak(samples) <= Peak(samples + later)
  {
    var p := Peak(samples);
    if p != 0 {
      var i :| 0 <= i < |samples| && samples[i] == p;
      assert (samples + later)[i] == p;
    }
  }

  /** The peak is the least upper bound of the samples (and 0 when there are none). */
  lemma PeakIsLeast(samples: seq<nat>, bound: nat)
    requires forall i :: 0 <= i < |samples| ==> samples[i] <= bound
    ensures Peak(samples) <= bound
  {
    var p := Peak(samples);
    if p != 0 {
      var i :| 0 <= i < |samples| && samples[i] == p;
    }
  }

  /** The `peak_memory` variable of `crawl_parallel` and its `log_memory` closure. */
  class MemoryMonitor {
    var peakMemory: nat
    ghost var samples: seq<nat>

    ghost predicate Valid()
      reads this
    {
      peakMemory == Peak(samples)
    }

    constructor ()
      ensures Valid() && samples == [] && peakMemory == 0
    {
      peakMemory := 0;
      samples := [];
    }

    /** Record one resident-memory sample; return the current and peak values in MB. */
    method LogMemory(currentMem: nat) returns (currentMb: nat, peakMb: nat)
      requires Valid()
      modifies this
      ensures Valid() && samples == old(samples) + [currentMem]
      ensures peakMemory == if currentMem > old(peakMemory) then currentMem else old(peakMemory)
      ensures old(peakMemory) <= peakMemory && currentMem <= peakMemory
      ensures currentMb == ToMb(currentMem) && peakMb == ToMb(peakMemory)
    {
      if currentMem > peakMemory {
        peakMemory := currentMem;
      }
      samples := samples + [currentMem];
      assert samples[..|samples| - 1] == old(samples);
      currentMb := ToMb(currentMem);
      peakMb := ToMb(peakMemory);
    }
  }

  /**
   * `crawl_parallel`: `results` is what the crawler returned for the URL list, `memBefore` and
   * `memAfter` are the resident-memory samples taken before and after the batch.
   */
  method CrawlParallel(results: seq<CrawlResult>, memBefore: nat, memAfter: nat)
    returns (output: seq<CrawlResult>, summary: Summary)
    ensures output == Successes(results)
    ensures summary.successCount == |output|
    ensures summary.failCount == |Failures(results)| == |results| - |output|
    ensures summary.beforeMb == ToMb(memBefore) && summary.afterMb == ToMb(memAfter)
    ensures summary.peakMemoryMb == ToMb(if memAfter > memBefore then memAfter else memBefore)
  {
    var monitor := new MemoryMonitor();
    var beforeMb, _ := monitor.LogMemory(memBefore);
    var successCount, failCount, reported;
    output, successCount, failCount, reported := Tally(results);
    var afterMb, _ := monitor.LogMemory(memAfter);
    summary := Summary(successCount, failCount, beforeMb, afterMb, ToMb(monitor.peakMemory));
  }

  // ---------------------------------------------------------------------------------------------
  // Sitemap discovery

  /** How the sitemap document came back. */
  datatype SitemapDocument = Malformed | Parsed(locs: seq<string>)

  /** The outcome of requesting the sitemap. */
  datatype SitemapResponse =
    | ConnectionFailed(reason: string)
    | Response(status: int, document: SitemapDocument)

  /** `get_docs_urls`: the `<loc>` texts of the sitemap; every failure gives the empty list. */
  function GetDocsUrls(response: SitemapResponse): (urls: seq<string>)
    ensures urls != [] ==> response.Response? && !(400 <= response.status < 600) &&
                           response.document.Parsed? && urls == response.document.locs
    ensures response.Response? && !(400 <= response.status < 600) && response.document.Parsed? ==>
              urls == response.document.locs
  {
    match response
    case ConnectionFailed(_) => []
    case Response(status, document) =>
      if 400 <= status < 600 then []
      else match document
        case Malformed => []
        case Parsed(locs) => locs
  }

  // ---------------------------------------------------------------------------------------------
  // Output file name and content

  /**
   * `url.replace('https://', '').replace('.', '_').replace('/', '_')`: the name has no '.', no '/'
   * and hence no "https://".
   */
  function SafeFilename(url: string): (name: string)
    ensures '.' !in name && '/' !in name
    ensures !Occurs(name, "https://")
  {
    var stripped := ReplaceAll(url, "https://", "");
    var dotless := ReplaceAll(stripped, ".", "_");
    ReplaceCharRemoves(stripped, '.', '_');
    ReplaceCharRemoves(dotless, '/', '_');
    var name := ReplaceAll(dotless, "/", "_");
    AbsentCharNoOccurrence(name, "https://", 6);
    name
  }

  /** Deriving the name from an already derived name changes nothing. */
  lemma SafeFilenameIdempotent(url: string)
    ensures SafeFilename(SafeFilename(url)) == SafeFilename(url)
  {
    var f := SafeFilename(url);
    ReplaceAbsent(f, "https://", "", 6);
    ReplaceAbsent(f, ".", "_", 0);
    ReplaceAbsent(f, "/", "_", 0);
  }

  /**
   * For a URL made of "https://" and a rest in which "https://" does not occur, the name is the
   * rest with every '.' and every '/' turned into '_'.
   */
  lemma SafeFilenameOfHttps(url: string, rest: string, name: string)
    requires url == "https://" + rest && !Occurs(rest, "https://")
    requires |name| == |rest|
    requires forall i :: 0 <= i < |rest| ==> name[i] == (if rest[i] == '.' || rest[i] == '/' then '_' else rest[i])
    ensures SafeFilename(url) == name
  {
    ReplaceLeading("https://", rest, "");
    ReplaceNoOccurrence(rest, "https://", "");
    assert ReplaceAll(url, "https://", "") == rest;
    ReplaceCharPointwise(rest, '.', '_');
    ReplaceCharPointwise(ReplaceAll(rest, ".", "_"), '/', '_');
  }

  /** The path both entry points write to. */
  function OutputPath(filename: string): (path: string)
    ensures |path| == |filename| + 10
    ensures path[..7] == "output/" && path[|path| - 3..] == ".md"
    ensures path[7..|path| - 3] == filename
  {
    "output/" + filename + ".md"
  }

  /** One result as a markdown block. */
  function Block(result: CrawlResult): (block: string)
    ensures |block| == 17 + |result.url| + |result.markdown|
    ensures block[..5] == "URL: " && block[5..5 + |result.url|] == result.url
    ensures block[5 + |result.url|..17 + |result.url|] == "\n\nContent:\n\n"
    ensures block[17 + |result.url|..] == result.markdown
  {
    "URL: " + result.url + "\n\nContent:\n\n" + result.markdown
  }

  function Blocks(results: seq<CrawlResult>): (blocks: seq<string>)
    ensures |blocks| == |results|
  {
    seq(|results|, i requires 0 <= i < |results| => Block(results[i]))
  }

  /** The file content: the blocks joined by the separator line. */
  function FileContent(results: seq<CrawlResult>): (content: string)
    ensures content == "" <==> results == []
  {
    JoinLength(Blocks(results), BlockSeparator);
    assert results != [] ==> TotalLength(Blocks(results)) >= |Blocks(results)[0]| > 0;
    Join(Blocks(results), BlockSeparator)
  }

  /**
   * Block i of the file is result i's block, each block after the first is preceded by exactly
   * one separator, and the length leaves room for nothing else.
   */
  lemma FileContentLayout(results: seq<CrawlResult>, i: nat)
    requires i < |results|
    ensures |FileContent(results)| == TotalLength(Blocks(results)) + (|results| - 1) * |BlockSeparator|
    ensures var o := PartOffset(Blocks(results), BlockSeparator, i);
            o + |Block(results[i])| <= |FileContent(results)| &&
            FileContent(results)[o..o + |Block(results[i])|] == Block(results[i]) &&
            (0 < i ==> 6 <= o && FileContent(results)[o - 6..o] == BlockSeparator)
  {
    JoinLength(Blocks(results), BlockSeparator);
    JoinPart(Blocks(results), BlockSeparator, i);
  }

  // ---------------------------------------------------------------------------------------------
  // Entry point

  /** What `main` did: nothing beyond a message, or a crawl followed by one file written. */
  datatype MainRun =
    | NoUrlsFound
    | Crawled(urls: seq<string>, output: seq<CrawlResult>, summary: Summary, written: Artifact)

  /**
   * `main`: discover the sitemap's URLs; if there are any, crawl them in parallel and write the
   * successful pages to the file named after the sitemap URL. `crawlerResults` is what the
   * crawler returns for those URLs.
   */
  method RunMain(response: SitemapResponse, crawlerResults: seq<CrawlResult>, memBefore: nat, memAfter: nat)
    returns (run: MainRun)
    ensures run.NoUrlsFound? <==> GetDocsUrls(response) == []
    ensures run.Crawled? ==> run.urls == GetDocsUrls(response) && run.output == Successes(crawlerResults)
    ensures run.Crawled? ==> run.summary.successCount + run.summary.failCount == |crawlerResults|
    ensures run.Crawled? ==>
              run.written == Artifact(OutputPath(SafeFilename(SitemapUrl)), FileContent(run.output))
  {
    var urls := GetDocsUrls(response);
    if urls != [] {
      var output, summary := CrawlParallel(crawlerResults, memBefore, memAfter);
      var filename := SafeFilename(SitemapUrl);
      run := Crawled(urls, output, summary, Artifact(OutputPath(filename), FileContent(output)));
    } else {
      run := NoUrlsFound;
    }
  }
}
