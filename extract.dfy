/**
 * The entry extractor: which anchors of a page are artifacts, and the upload
 * time and size read from the text that follows each of them.
 */
module Extract {
  import opened Wrappers
  import opened JsString
  import opened Classify

  /** An anchor of a listing page: its `href` (empty when it has none) and the
      text of the node that follows it. */
  datatype Anchor = Anchor(href: string, followingText: string)

  /** The six arguments given to `new Date(year, monthIndex, day, hour, minute, second)`. */
  datatype Timestamp = Timestamp(
    year: JsNumber, monthIndex: JsNumber, day: JsNumber,
    hour: JsNumber, minute: JsNumber, second: JsNumber)

  /** What the text after an artifact link says about it. */
  datatype Description = Description(timeUploaded: Timestamp, size: JsNumber)

  /** One downloadable artifact; `vtype` is its era. */
  datatype Download = Download(
    id: string, vtype: VersionType, side: Side, link: string,
    timeUploaded: Timestamp, size: JsNumber)

  /** verifyExtension: every `.jar`, and a `.zip` only on the `server-classic` side. */
  predicate VerifyExtension(link: string) {
    EndsWith(link, ".jar") || (EndsWith(link, ".zip") && Includes(link, "server-classic"))
  }

  /** An accepted link ends in one of the two four-character extensions, and its
      file stem is its final path segment less exactly that extension. */
  lemma AcceptedLinkStem(link: string)
    requires VerifyExtension(link)
    ensures var ext := link[|link| - 4..];
      (ext == ".jar" || (ext == ".zip" && Includes(link, "server-classic")))
      && LastField(link, '/') == FileStem(link) + ext
  {
    var ext := link[|link| - 4..];
    LastFieldKeepsSuffix(link, '/', ext);
    var segment := LastField(link, '/');
    assert segment == segment[..|segment| - 4] + segment[|segment| - 4..];
  }

  /** The text after an artifact link, trimmed and split on whitespace: the first
      token is `day/month/year` (the month is passed on less one), the second
      `hour:minute:second`, the third the size. A missing second token throws,
      because the code splits it without looking. */
  function ParseDescription(text: string): (r: Result<Description, CrawlError>)
    ensures r.Failure? ==> r.error == MissingTimeToken
  {
    ParseTokens(SplitWhitespace(Trim(text)))
  }

  function ParseTokens(tokens: seq<string>): Result<Description, CrawlError> {
    if |tokens| < 2 then Failure(MissingTimeToken)
    else
      var date := Split(tokens[0], '/');
      var time := Split(tokens[1], ':');
      Success(Description(
        Timestamp(FieldNumber(date, 2), Decrement(FieldNumber(date, 1)), FieldNumber(date, 0),
                  FieldNumber(time, 0), FieldNumber(time, 1), FieldNumber(time, 2)),
        FieldNumber(tokens, 2)))
  }

  /** The only failure: the trimmed text is a single word or empty. */
  lemma ParseDescriptionFailsIffOneWord(text: string)
    ensures ParseDescription(text).Failure? <==> NoWhitespace(Trim(text))
  {
    SplitWhitespaceCount(Trim(text));
  }

  predicate Numeral(s: string) {
    s != [] && IsDigits(s)
  }

  lemma NumeralIsWord(s: string)
    requires Numeral(s)
    ensures NoWhitespace(s) && '/' !in s && ':' !in s
  {
    assert forall i :: 0 <= i < |s| ==> IsDigit(s[i]);
  }

  lemma JoinedIsWord(a: string, sep: char, b: string, c: string)
    requires NoWhitespace(a) && NoWhitespace(b) && NoWhitespace(c) && !IsWhitespace(sep)
    ensures NoWhitespace(a + [sep] + b + [sep] + c)
  {
    var s := a + [sep] + b + [sep] + c;
    forall i | 0 <= i < |s| ensures !IsWhitespace(s[i]) {
      if i < |a| { assert s[i] == a[i]; }
      else if i == |a| { assert s[i] == sep; }
      else if i < |a| + 1 + |b| { assert s[i] == b[i - |a| - 1]; }
      else if i == |a| + 1 + |b| { assert s[i] == sep; }
      else { assert s[i] == c[i - |a| - 2 - |b|]; }
    }
  }

  lemma SplitThree(a: string, sep: char, b: string, c: string)
    requires sep !in a && sep !in b && sep !in c
    ensures Split(a + [sep] + b + [sep] + c, sep) == [a, b, c]
  {
    assert a + [sep] + b + [sep] + c == a + [sep] + (b + [sep] + c);
    SplitAtSeparator(a, sep, b + [sep] + c);
    SplitAtSeparator(b, sep, c);
    SplitWithoutSeparator(c, sep);
  }

  /** Three words with whitespace around and between them split into those words. */
  lemma DescriptionTokens(lead: string, date: string, gap1: string, time: string, gap2: string,
                          size: string, trail: string)
    requires AllWhitespace(lead) && AllWhitespace(trail)
    requires AllWhitespace(gap1) && gap1 != [] && AllWhitespace(gap2) && gap2 != []
    requires NoWhitespace(date) && NoWhitespace(time) && NoWhitespace(size)
    requires date != [] && time != [] && size != []
    ensures SplitWhitespace(Trim(lead + (date + gap1 + (time + gap2 + size)) + trail)) == [date, time, size]
  {
    var core := date + gap1 + (time + gap2 + size);
    assert Trim(lead + core + trail) == core by {
      assert core[0] == date[0] && core[|core| - 1] == size[|size| - 1];
      TrimSurrounded(lead, core, trail);
    }
    SplitWhitespaceThree(date, gap1, time, gap2, size);
  }

  lemma SplitWhitespaceThree(date: string, gap1: string, time: string, gap2: string, size: string)
    requires AllWhitespace(gap1) && gap1 != [] && AllWhitespace(gap2) && gap2 != []
    requires NoWhitespace(date) && NoWhitespace(time) && NoWhitespace(size)
    requires time != [] && size != []
    ensures SplitWhitespace(date + gap1 + (time + gap2 + size)) == [date, time, size]
  {
    SplitWhitespaceAtRun(time, gap2, size);
    SplitWhitespaceOfWord(size);
    SplitWhitespaceAtRun(date, gap1, time + gap2 + size);
  }

  /** `day/month/year`, as the listing writes a date. */
  function DateText(day: string, month: string, year: string): string {
    day + ['/'] + month + ['/'] + year
  }

  /** `hour:minute:second`, as the listing writes a time of day. */
  function TimeText(hour: string, minute: string, second: string): string {
    hour + [':'] + minute + [':'] + second
  }

  /** The description the crawler derives from numerals for these fields. */
  function DescriptionOf(day: string, month: string, year: string,
                         hour: string, minute: string, second: string, size: string): Description
    requires Numeral(day) && Numeral(month) && Numeral(year)
    requires Numeral(hour) && Numeral(minute) && Numeral(second) && Numeral(size)
  {
    Description(
      Timestamp(Num(DecimalValue(year)), Num(DecimalValue(month) - 1), Num(DecimalValue(day)),
                Num(DecimalValue(hour)), Num(DecimalValue(minute)), Num(DecimalValue(second))),
      Num(DecimalValue(size)))
  }

  /** Text in the listing's format, with any whitespace around and between the
      tokens, parses to the numbers written in it, the month made zero-based. */
  lemma ParseWellFormed(lead: string, day: string, month: string, year: string, gap1: string,
                        hour: string, minute: string, second: string, gap2: string,
                        size: string, trail: string)
    requires AllWhitespace(lead) && AllWhitespace(trail)
    requires AllWhitespace(gap1) && gap1 != [] && AllWhitespace(gap2) && gap2 != []
    requires Numeral(day) && Numeral(month) && Numeral(year)
    requires Numeral(hour) && Numeral(minute) && Numeral(second) && Numeral(size)
    ensures ParseDescription(lead + (DateText(day, month, year) + gap1
                                     + (TimeText(hour, minute, second) + gap2 + size)) + trail)
         == Success(DescriptionOf(day, month, year, hour, minute, second, size))
  {
    var date, time := DateText(day, month, year), TimeText(hour, minute, second);
    var text := lead + (date + gap1 + (time + gap2 + size)) + trail;
    assert SplitWhitespace(Trim(text)) == [date, time, size] by {
      NumeralIsWord(day); NumeralIsWord(month); NumeralIsWord(year);
      NumeralIsWord(hour); NumeralIsWord(minute); NumeralIsWord(second); NumeralIsWord(size);
      JoinedIsWord(day, '/', month, year);
      JoinedIsWord(hour, ':', minute, second);
      DescriptionTokens(lead, date, gap1, time, gap2, size, trail);
    }
    ParseNumeralTokens(day, month, year, hour, minute, second, size);
  }

  lemma ParseNumeralTokens(day: string, month: string, year: string,
                           hour: string, minute: string, second: string, size: string)
    requires Numeral(day) && Numeral(month) && Numeral(year)
    requires Numeral(hour) && Numeral(minute) && Numeral(second) && Numeral(size)
    ensures ParseTokens([DateText(day, month, year), TimeText(hour, minute, second), size])
         == Success(DescriptionOf(day, month, year, hour, minute, second, size))
  {
    assert Split(DateText(day, month, year), '/') == [day, month, year] by {
      NumeralIsWord(day); NumeralIsWord(month); NumeralIsWord(year);
      SplitThree(day, '/', month, year);
    }
    assert Split(TimeText(hour, minute, second), ':') == [hour, minute, second] by {
      NumeralIsWord(hour); NumeralIsWord(minute); NumeralIsWord(second);
      SplitThree(hour, ':', minute, second);
    }
  }

  // ---------------------------------------------------------------------
  // The anchors of one page

  /** What one anchor contributes: nothing, a download, or a thrown error. */
  datatype AnchorResult = Skipped | Extracted(download: Download) | Crashed(error: CrawlError)

  /** The body of the `forEach` over anchors, for a page of era `vt`. */
  function ReadAnchor(vt: VersionType, a: Anchor): (r: AnchorResult)
    ensures r.Skipped? <==> !VerifyExtension(a.href)
    ensures r.Crashed? <==> VerifyExtension(a.href) && ParseDescription(a.followingText).Failure?
    ensures r.Extracted? ==>
      var d := r.download;
      && d.link == a.href && d.vtype == vt && d.id == DeriveId(a.href)
      && (d.side == Server <==> Includes(a.href, "server"))
      && ParseDescription(a.followingText) == Success(Description(d.timeUploaded, d.size))
  {
    if a.href == [] || !VerifyExtension(a.href) then Skipped
    else match ParseDescription(a.followingText)
      case Failure(e) => Crashed(e)
      case Success(desc) =>
        Extracted(Download(DeriveId(a.href), vt, DeriveSide(a.href), a.href, desc.timeUploaded, desc.size))
  }

  /** An accepted anchor followed by text in the listing's format yields the
      download with the numbers written in that text. */
  lemma ReadWellFormedAnchor(vt: VersionType, href: string,
                             lead: string, day: string, month: string, year: string, gap1: string,
                             hour: string, minute: string, second: string, gap2: string,
                             size: string, trail: string)
    requires VerifyExtension(href)
    requires AllWhitespace(lead) && AllWhitespace(trail)
    requires AllWhitespace(gap1) && gap1 != [] && AllWhitespace(gap2) && gap2 != []
    requires Numeral(day) && Numeral(month) && Numeral(year)
    requires Numeral(hour) && Numeral(minute) && Numeral(second) && Numeral(size)
    ensures ReadAnchor(vt, Anchor(href, lead + (DateText(day, month, year) + gap1
                                         + (TimeText(hour, minute, second) + gap2 + size)) + trail))
         == Extracted(Download(DeriveId(href), vt, DeriveSide(href), href,
                               DescriptionOf(day, month, year, hour, minute, second, size).timeUploaded,
                               DescriptionOf(day, month, year, hour, minute, second, size).size))
  {
    ParseWellFormed(lead, day, month, year, gap1, hour, minute, second, gap2, size, trail);
  }

  /** The downloads a page yields in anchor order, and the error, if any, that
      stopped it; downloads read before the error are kept. */
  datatype Scan = Scan(downloads: seq<Download>, failure: Option<CrawlError>)

  function ScanAnchors(vt: VersionType, anchors: seq<Anchor>): (r: Scan)
    ensures |r.downloads| <= |anchors|
    ensures forall d :: d in r.downloads ==>
      d.vtype == vt && VerifyExtension(d.link) && d.id == DeriveId(d.link) && d.side == DeriveSide(d.link)
  {
    if anchors == [] then Scan([], None)
    else match ReadAnchor(vt, anchors[0])
      case Skipped => ScanAnchors(vt, anchors[1..])
      case Crashed(e) => Scan([], Some(e))
      case Extracted(d) =>
        var rest := ScanAnchors(vt, anchors[1..]);
        Scan([d] + rest.downloads, rest.failure)
  }

  /** The hrefs of the anchors that pass the extension filter, in order. */
  function AcceptedLinks(anchors: seq<Anchor>): seq<string> {
    if anchors == [] then []
    else (if VerifyExtension(anchors[0].href) then [anchors[0].href] else []) + AcceptedLinks(anchors[1..])
  }

  function Links(ds: seq<Download>): seq<string> {
    if ds == [] then [] else [ds[0].link] + Links(ds[1..])
  }

  /** A page stops with an error exactly when one of its accepted anchors has
      text without a second token; when it does not, it yields one download per
      accepted anchor, in anchor order. */
  lemma {:induction false} ScanAnchorsComplete(vt: VersionType, anchors: seq<Anchor>)
    ensures ScanAnchors(vt, anchors).failure.Some?
        <==> exists i :: 0 <= i < |anchors| && ReadAnchor(vt, anchors[i]).Crashed?
    ensures ScanAnchors(vt, anchors).failure.None?
        ==> Links(ScanAnchors(vt, anchors).downloads) == AcceptedLinks(anchors)
  {
    if anchors != [] {
      ScanAnchorsComplete(vt, anchors[1..]);
      var rest := ScanAnchors(vt, anchors[1..]);
      if exists i :: 0 <= i < |anchors[1..]| && ReadAnchor(vt, anchors[1..][i]).Crashed? {
        var i :| 0 <= i < |anchors[1..]| && ReadAnchor(vt, anchors[1..][i]).Crashed?;
        assert anchors[i + 1] == anchors[1..][i];
      }
      if exists i :: 0 <= i < |anchors| && ReadAnchor(vt, anchors[i]).Crashed? {
        var i :| 0 <= i < |anchors| && ReadAnchor(vt, anchors[i]).Crashed?;
        if i > 0 { assert anchors[1..][i - 1] == anchors[i]; }
      }
      match ReadAnchor(vt, anchors[0])
      case Skipped =>
      case Crashed(e) =>
      case Extracted(d) =>
        assert ([d] + rest.downloads)[1..] == rest.downloads;
    }
  }

  /** The scan `s` of `anchors` stopped at anchor `i`: the first anchor that
      crashes, whose error it reports, after one download per accepted anchor
      before it. */
  predicate StopsAt(vt: VersionType, anchors: seq<Anchor>, i: nat, s: Scan)
    requires i < |anchors|
  {
    && ReadAnchor(vt, anchors[i]).Crashed?
    && s.failure == Some(ReadAnchor(vt, anchors[i]).error)
    && (forall j :: 0 <= j < i ==> !ReadAnchor(vt, anchors[j]).Crashed?)
    && Links(s.downloads) == AcceptedLinks(anchors[..i])
  }

  /** A page that stops, stops at its first crashing anchor. */
  lemma {:induction false} ScanStopsAtFirstCrash(vt: VersionType, anchors: seq<Anchor>)
    requires ScanAnchors(vt, anchors).failure.Some?
    ensures exists i :: 0 <= i < |anchors| && StopsAt(vt, anchors, i, ScanAnchors(vt, anchors))
  {
    var rest := ScanAnchors(vt, anchors[1..]);
    var r := ReadAnchor(vt, anchors[0]);
    if r.Crashed? {
      assert anchors[..0] == [];
      assert StopsAt(vt, anchors, 0, ScanAnchors(vt, anchors));
    } else {
      ScanStopsAtFirstCrash(vt, anchors[1..]);
      var k :| 0 <= k < |anchors[1..]| && StopsAt(vt, anchors[1..], k, rest);
      StopsLater(vt, anchors, k, rest);
    }
  }

  /** Stopping at `k` in `anchors[1..]` after a first anchor that did not crash
      is stopping at `k + 1` in `anchors`. */
  lemma StopsLater(vt: VersionType, anchors: seq<Anchor>, k: nat, rest: Scan)
    requires k < |anchors| - 1 && rest == ScanAnchors(vt, anchors[1..])
    requires !ReadAnchor(vt, anchors[0]).Crashed?
    requires StopsAt(vt, anchors[1..], k, rest)
    ensures StopsAt(vt, anchors, k + 1, ScanAnchors(vt, anchors))
  {
    ShiftedCrashes(vt, anchors, k);
    AcceptedLinksShift(anchors, k);
    var s := ScanAnchors(vt, anchors);
    if ReadAnchor(vt, anchors[0]).Extracted? {
      var d := ReadAnchor(vt, anchors[0]).download;
      assert s == Scan([d] + rest.downloads, rest.failure);
      assert ([d] + rest.downloads)[1..] == rest.downloads;
    }
  }

  lemma ShiftedCrashes(vt: VersionType, anchors: seq<Anchor>, k: nat)
    requires k < |anchors| - 1
    requires !ReadAnchor(vt, anchors[0]).Crashed?
    requires forall j :: 0 <= j < k ==> !ReadAnchor(vt, anchors[1..][j]).Crashed?
    ensures anchors[k + 1] == anchors[1..][k]
    ensures forall j :: 0 <= j < k + 1 ==> !ReadAnchor(vt, anchors[j]).Crashed?
  {
    forall j | 0 < j < k + 1
      ensures !ReadAnchor(vt, anchors[j]).Crashed?
    {
      assert anchors[j] == anchors[1..][j - 1];
    }
  }

  lemma AcceptedLinksShift(anchors: seq<Anchor>, k: nat)
    requires k < |anchors| - 1
    ensures AcceptedLinks(anchors[..k + 1])
         == (if VerifyExtension(anchors[0].href) then [anchors[0].href] else []) + AcceptedLinks(anchors[1..][..k])
  {
    assert anchors[..k + 1][1..] == anchors[1..][..k];
    assert anchors[..k + 1][0] == anchors[0];
  }

  /** The page handler's reading of one page: nothing when the title does not
      match, an error (and no downloads) when its era is unknown, otherwise the
      scan of its anchors under that era. */
  function PageScan(title: string, anchors: seq<Anchor>): (r: Scan)
    ensures TitleSegment(title).None? ==> r == Scan([], None)
    ensures TitleSegment(title).Some? && GetVersionType(TitleSegment(title).value).Failure? ==>
      r == Scan([], Some(UnknownVersionType(TitleSegment(title).value)))
    ensures TitleSegment(title).Some? && GetVersionType(TitleSegment(title).value).Success? ==>
      && (forall d :: d in r.downloads ==> d.vtype == GetVersionType(TitleSegment(title).value).value)
      && (r.failure.Some? <==>
            exists i :: 0 <= i < |anchors|
              && ReadAnchor(GetVersionType(TitleSegment(title).value).value, anchors[i]).Crashed?)
  {
    match TitleSegment(title)
    case None => Scan([], None)
    case Some(raw) =>
      match GetVersionType(raw)
      case Failure(e) => Scan([], Some(e))
      case Success(vt) =>
        ScanAnchorsComplete(vt, anchors);
        ScanAnchors(vt, anchors)
  }

  /** Every artifact of a `misc` page is a release. */
  lemma MiscPageIsRelease(title: string, anchors: seq<Anchor>)
    requires TitleSegment(title) == Some("misc")
    ensures forall d :: d in PageScan(title, anchors).downloads ==> d.vtype == Release
  {
    assert OccursAt("misc", "misc", 0);
  }
}
