/**
 * crawl.py: one crawl session for one seed URL. It picks flat (parallel) mode when it has a list
 * of URLs and recursive mode otherwise, then writes the successful pages to a markdown file named
 * after the seed. The recursive crawler is not part of this model: its output is an input here.
 */
module Crawl {
  import opened Parallel

  /** The crawl the session runs, with the bounds it passes on. */
  datatype Mode =
    | ParallelMode(urls: seq<string>, maxConcurrent: nat)
    | RecursiveMode(seed: string, maxDepth: int, maxConcurrent: nat)

  /** What one session did: the mode, the pages it kept and the file it wrote. */
  datatype CrawlRun = CrawlRun(mode: Mode, output: seq<CrawlResult>, written: Artifact)

  /** `write_markdown_file`: the file `output/<filename>.md` holding the serialised results. */
  function WriteMarkdownFile(results: seq<CrawlResult>, filename: string): (written: Artifact)
    ensures written.path == OutputPath(filename)
    ensures written.content == FileContent(results)
    ensures written.content == "" <==> results == []
  {
    Artifact(OutputPath(filename), FileContent(results))
  }

  /**
   * The body of `crawl` for a given URL list: parallel mode with the crawler's `parallelResults`
   * when the list is non-empty, otherwise recursive mode whose output is `recursiveOutput`.
   */
  function CrawlWithUrls(url: string, depth: int, urls: seq<string>,
                         parallelResults: seq<CrawlResult>, recursiveOutput: seq<CrawlResult>): (run: CrawlRun)
    ensures run.mode.ParallelMode? <==> urls != []
    ensures run.mode.maxConcurrent == MaxConcurrent
    ensures run.mode.ParallelMode? ==> run.mode.urls == urls && run.output == Successes(parallelResults)
    ensures run.mode.RecursiveMode? ==>
              run.mode.seed == url && run.mode.maxDepth == depth && run.output == recursiveOutput
    ensures run.written == WriteMarkdownFile(run.output, SafeFilename(url))
  {
    var mode := if urls != [] then ParallelMode(urls, MaxConcurrent)
                else RecursiveMode(url, depth, MaxConcurrent);
    var output := if mode.ParallelMode? then Successes(parallelResults) else recursiveOutput;
    CrawlRun(mode, output, WriteMarkdownFile(output, SafeFilename(url)))
  }

  /** `crawl`: the URL list is fixed to empty, so every session is a recursive crawl. */
  function Crawl(url: string, depth: int, recursiveOutput: seq<CrawlResult>): (run: CrawlRun)
    ensures run.mode == RecursiveMode(url, depth, 10)
    ensures run.output == recursiveOutput
    ensures run.written.path == OutputPath(SafeFilename(url))
    ensures run.written.content == FileContent(recursiveOutput)
  {
    CrawlWithUrls(url, depth, [], [], recursiveOutput)
  }
}
