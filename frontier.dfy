/**
 * Which links the crawl follows: the pattern the enqueue step filters the
 * (already resolved) page links with.
 */
module Frontier {
  import opened JsString

  /** Where every listing page of the archive lives. */
  const ArchiveRoot: string := "https://vault.omniarchive.uk/archive/java/"

  /** What the regular-expression `.` refuses to match. */
  predicate IsLineTerminator(c: char) {
    var n := c as int;
    n == 0x0A || n == 0x0D || n == 0x2028 || n == 0x2029
  }

  predicate OnOneLine(s: string) {
    forall i :: 0 <= i < |s| ==> !IsLineTerminator(s[i])
  }

  /** The part of a candidate url between the archive root and its last ten characters. */
  function Middle(url: string): string
    requires |ArchiveRoot| + 10 <= |url|
  {
    url[|ArchiveRoot|..|url| - 10]
  }

  /** The enqueue pattern as written: the archive root, any characters on one
      line, `index`, then ANY one character (the dot is not escaped), then
      `html` at the very end. */
  predicate MatchesAsWritten(url: string) {
    && |ArchiveRoot| + 10 <= |url|
    && StartsWith(url, ArchiveRoot)
    && OnOneLine(Middle(url))
    && url[|url| - 10..|url| - 5] == "index"
    && !IsLineTerminator(url[|url| - 5])
    && url[|url| - 4..] == "html"
  }

  /** The pattern as intended: a listing page's `index.html` under the archive root. */
  predicate IsIndexPage(url: string) {
    && |ArchiveRoot| + 10 <= |url|
    && StartsWith(url, ArchiveRoot)
    && OnOneLine(Middle(url))
    && EndsWith(url, "index.html")
  }

  /** The url made of the archive root, `middle`, `index`, the character `c` and `html`. */
  function IndexUrl(middle: string, c: char): (url: string)
    ensures |url| == |ArchiveRoot| + |middle| + 10
  {
    ArchiveRoot + (middle + ("index" + ([c] + "html")))
  }

  lemma IndexUrlParts(middle: string, c: char)
    ensures var url := IndexUrl(middle, c);
      && StartsWith(url, ArchiveRoot)
      && Middle(url) == middle
      && url[|url| - 10..|url| - 5] == "index"
      && url[|url| - 5] == c
      && url[|url| - 4..] == "html"
      && url[|url| - 10..] == "index" + ([c] + "html")
  {
    var url := IndexUrl(middle, c);
    var n := |ArchiveRoot| + |middle|;
    assert url[..|ArchiveRoot|] == ArchiveRoot;
    assert url[|ArchiveRoot|..] == middle + ("index" + ([c] + "html"));
    assert url[n..] == "index" + ([c] + "html");
  }

  /** The unescaped dot lets through a url ending in `index` + any character +
      `html` that is not a line terminator, such as `indexXhtml`, which is not
      an `index.html` page. */
  lemma AsWrittenAcceptsAnyCharacter(middle: string, c: char)
    requires OnOneLine(middle) && !IsLineTerminator(c)
    ensures MatchesAsWritten(IndexUrl(middle, c))
    ensures IsIndexPage(IndexUrl(middle, c)) <==> c == '.'
  {
    IndexUrlParts(middle, c);
    var url := IndexUrl(middle, c);
    if EndsWith(url, "index.html") {
      assert url[|url| - 5] == "index.html"[5];
    }
  }

  /** Every url the intended pattern passes is an index page url, and the
      pattern as written passes it too: the slip only ever widens the filter. */
  lemma IndexPageShape(url: string)
    requires IsIndexPage(url)
    ensures url == IndexUrl(Middle(url), '.')
    ensures MatchesAsWritten(url)
  {
    var middle := Middle(url);
    IndexUrlParts(middle, '.');
    var other := IndexUrl(middle, '.');
    assert url == url[..|ArchiveRoot|] + (url[|ArchiveRoot|..|url| - 10] + url[|url| - 10..]);
    assert url[|url| - 10..] == "index.html";
    assert "index.html" == "index" + (['.'] + "html");
  }

  /** The links the enqueue step keeps, in page order: those the pattern as
      written accepts. */
  function Enqueue(links: seq<string>): (kept: seq<string>)
    ensures forall u :: u in kept <==> u in links && MatchesAsWritten(u)
    ensures |kept| <= |links|
  {
    if links == [] then []
    else (if MatchesAsWritten(links[0]) then [links[0]] else []) + Enqueue(links[1..])
  }

  /** Every index page among the links is enqueued, and so is every link that
      differs from one only in the character the unescaped dot stands for. */
  lemma EnqueueKeepsIndexPages(links: seq<string>, middle: string, c: char)
    requires OnOneLine(middle) && !IsLineTerminator(c)
    ensures forall u :: u in links && IsIndexPage(u) ==> u in Enqueue(links)
    ensures IndexUrl(middle, c) in links ==> IndexUrl(middle, c) in Enqueue(links)
  {
    forall u | u in links && IsIndexPage(u)
      ensures u in Enqueue(links)
    {
      IndexPageShape(u);
    }
    AsWrittenAcceptsAnyCharacter(middle, c);
  }
}
