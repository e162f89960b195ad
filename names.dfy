/**
 * The output file names the program actually derives, computed from the general facts about
 * `SafeFilename`.
 */
module Names {
  import opened Text
  import opened Parallel

  /**
   * The name `main` derives from its sitemap URL, and hence the file it writes. The URL is taken
   * as a parameter equal to the constant so that the verifier does not unfold `ReplaceAll` on the
   * literal character by character, which exhausts its resources.
   */
  lemma SitemapFilename(sitemapUrl: string)
    requires sitemapUrl == SitemapUrl
    ensures SafeFilename(sitemapUrl) == "www_wobcom_de_faq-sitemap_xml"
  {
    SitemapUrlParts(sitemapUrl);
    SitemapRestHasNoH();
    SitemapNamePointwise();
    HostFilename(sitemapUrl, "www.wobcom.de/faq-sitemap.xml", "www_wobcom_de_faq-sitemap_xml");
  }

  /** The sitemap URL is "https://" followed by its host and path. */
  lemma SitemapUrlParts(sitemapUrl: string)
    requires sitemapUrl == SitemapUrl
    ensures sitemapUrl == "https://" + "www.wobcom.de/faq-sitemap.xml"
  {
  }

  /** The sitemap's host and path have no 'h', so "https://" cannot occur in them. */
  lemma SitemapRestHasNoH()
    ensures 'h' !in "www.wobcom.de/faq-sitemap.xml"
  {
  }

  /** The expected name is the sitemap's host and path with '.' and '/' turned into '_'. */
  lemma SitemapNamePointwise()
    ensures var rest, name := "www.wobcom.de/faq-sitemap.xml", "www_wobcom_de_faq-sitemap_xml";
            |name| == |rest| &&
            forall i :: 0 <= i < |rest| ==> name[i] == (if rest[i] == '.' || rest[i] == '/' then '_' else rest[i])
  {
    var rest, name := "www.wobcom.de/faq-sitemap.xml", "www_wobcom_de_faq-sitemap_xml";
    forall i | 0 <= i < 8 ensures name[i] == (if rest[i] == '.' || rest[i] == '/' then '_' else rest[i]) {}
    forall i | 8 <= i < 15 ensures name[i] == (if rest[i] == '.' || rest[i] == '/' then '_' else rest[i]) {}
    forall i | 15 <= i < 22 ensures name[i] == (if rest[i] == '.' || rest[i] == '/' then '_' else rest[i]) {}
    forall i | 22 <= i < |rest| ensures name[i] == (if rest[i] == '.' || rest[i] == '/' then '_' else rest[i]) {}
  }

  /** Distinct URLs can share one output file: '.' and '/' both become '_'. */
  lemma SafeFilenameCollision()
    ensures SafeFilename("https://a.b") == SafeFilename("https://a/b") == "a_b"
  {
    HostFilename("https://a.b", "a.b", "a_b");
    HostFilename("https://a/b", "a/b", "a_b");
  }

  /** SafeFilenameOfHttps for a rest without 'h', which therefore cannot contain "https://". */
  lemma HostFilename(url: string, rest: string, name: string)
    requires url == "https://" + rest && 'h' !in rest
    requires |name| == |rest|
    requires forall i :: 0 <= i < |rest| ==> name[i] == (if rest[i] == '.' || rest[i] == '/' then '_' else rest[i])
    ensures SafeFilename(url) == name
  {
    AbsentCharNoOccurrence(rest, "https://", 0);
    SafeFilenameOfHttps(url, rest, name);
  }
}
