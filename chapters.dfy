/** `get_website_urls`: the chapter page URLs, in chapter order. */
module Chapters {
  import opened Wrappers
  import opened Decimal

  /** The fixed template `https://asuratoon.com/7367709877-myst-might-mayhem-chapter-{p}/`,
      in parts: the site, the series id, and the series words before the number. */
  const Host: string := "https://asuratoon.com"
  const SeriesId: string := "7367709877"
  const SeriesWords: string := "myst-might-mayhem-chapter-"
  /** The last path segment before the chapter number. */
  const SlugPrefix: string := SeriesId + "-" + SeriesWords
  /** The template's text before the chapter number. */
  const UrlPrefix: string := Host + "/" + SlugPrefix

  /** The template filled in with chapter number p. */
  function ChapterUrl(p: nat): (url: string)
    ensures |url| >= |UrlPrefix| + 2 && url[..|UrlPrefix|] == UrlPrefix && url[|url| - 1] == '/'
    ensures AllDigits(url[|UrlPrefix|..|url| - 1])
  {
    var url := UrlPrefix + NatToDecimal(p) + "/";
    assert url[|UrlPrefix|..|url| - 1] == NatToDecimal(p);
    url
  }

  /** `list(get_website_urls(chapters))`: one URL per number in `range(1, chapters + 1)`. */
  function GetWebsiteUrls(chapters: int): (urls: seq<string>)
    ensures |urls| == if chapters > 0 then chapters else 0
    ensures forall i :: 0 <= i < |urls| ==> urls[i] == ChapterUrl(i + 1)
    decreases chapters
  {
    if chapters <= 0 then [] else GetWebsiteUrls(chapters - 1) + [ChapterUrl(chapters)]
  }

  /** Inverse of the template: the chapter number a URL was built from, if it was. */
  function ChapterNumber(url: string): Option<nat>
  {
    var n := |UrlPrefix|;
    if |url| >= n + 2 && url[..n] == UrlPrefix && url[|url| - 1] == '/' && AllDigits(url[n..|url| - 1])
    then Some(DecimalValue(url[n..|url| - 1]))
    else None
  }

  lemma ChapterNumberOfUrl(p: nat)
    ensures ChapterNumber(ChapterUrl(p)) == Some(p)
  {
    var u, d := ChapterUrl(p), NatToDecimal(p);
    assert u[..|UrlPrefix|] == UrlPrefix;
    assert u[|UrlPrefix|..|u| - 1] == d;
    DecimalRoundTrip(p);
  }

  /** Every URL ends in `/`, and no two chapters share a URL. */
  lemma WebsiteUrlsWellFormed(chapters: int)
    ensures forall i :: 0 <= i < |GetWebsiteUrls(chapters)| ==>
      |GetWebsiteUrls(chapters)[i]| > 0 && GetWebsiteUrls(chapters)[i][|GetWebsiteUrls(chapters)[i]| - 1] == '/'
    ensures forall i, j :: 0 <= i < j < |GetWebsiteUrls(chapters)| ==>
      GetWebsiteUrls(chapters)[i] != GetWebsiteUrls(chapters)[j]
  {
    var urls := GetWebsiteUrls(chapters);
    forall i, j | 0 <= i < j < |urls| ensures urls[i] != urls[j] {
      ChapterNumberOfUrl(i + 1);
      ChapterNumberOfUrl(j + 1);
    }
  }
}
