/**
 * Classification of what a listing page holds: the release era of the page
 * (from its title), and the side and identity of each artifact (from its link).
 */
module Classify {
  import opened Wrappers
  import opened JsString

  /** The closed set of release eras an artifact is filed under. */
  datatype VersionType = PreClassic | Classic | Indev | Infdev | Alpha | Beta | Release | AprilFools

  /** Every era, in the order the catalog lists them. */
  const VersionTypes: seq<VersionType> := [PreClassic, Classic, Indev, Infdev, Alpha, Beta, Release, AprilFools]

  /** The name an era is written under in the catalog. */
  function Name(t: VersionType): string {
    match t
    case PreClassic => "pre-classic"
    case Classic => "classic"
    case Indev => "indev"
    case Infdev => "infdev"
    case Alpha => "alpha"
    case Beta => "beta"
    case Release => "release"
    case AprilFools => "april-fools"
  }

  /** Which build an artifact is. */
  datatype Side = Client | Server

  /** The ways handling a page can throw. */
  datatype CrawlError =
    | UnknownVersionType(raw: string)   // the title names an era outside the closed set
    | MissingTimeToken                  // the text after an artifact link has no second token

  // ---------------------------------------------------------------------
  // The era of a page

  /** The field of a directory name (after its first `-`) that names each era. */
  function Slug(t: VersionType): string {
    match t
    case PreClassic => "preclassic"
    case Classic => "classic"
    case Indev => "indev"
    case Infdev => "infdev"
    case Alpha => "alpha"
    case Beta => "beta"
    case Release => "release"
    case AprilFools => "april"
  }

  /** The `switch` of getVersionType: the era a field names, if any. */
  function TypeOfSlug(field: string): (r: Option<VersionType>)
    ensures r.Some? ==> Slug(r.value) == field
    ensures forall t :: Slug(t) == field ==> r == Some(t)
  {
    if field == "preclassic" then Some(PreClassic)
    else if field == "classic" then Some(Classic)
    else if field == "indev" then Some(Indev)
    else if field == "infdev" then Some(Infdev)
    else if field == "alpha" then Some(Alpha)
    else if field == "beta" then Some(Beta)
    else if field == "release" then Some(Release)
    else if field == "april" then Some(AprilFools)
    else None
  }

  /** getVersionType: a segment mentioning `misc` is a release; otherwise the
      second `-`-separated field must name an era, and anything else throws. */
  function GetVersionType(raw: string): (r: Result<VersionType, CrawlError>)
    ensures r.Failure? ==> r.error == UnknownVersionType(raw)
  {
    if Includes(raw, "misc") then Success(Release)
    else
      var fields := Split(raw, '-');
      if |fields| >= 2 && TypeOfSlug(fields[1]).Some? then Success(TypeOfSlug(fields[1]).value)
      else Failure(UnknownVersionType(raw))
  }

  /** The era of a segment, against the slug table: a release when the segment
      mentions `misc`, otherwise exactly the era whose slug is the second field. */
  lemma GetVersionTypeIff(raw: string, t: VersionType)
    ensures GetVersionType(raw) == Success(t)
        <==> (Includes(raw, "misc") && t == Release)
             || (!Includes(raw, "misc") && |Split(raw, '-')| >= 2 && Split(raw, '-')[1] == Slug(t))
  {
    if !Includes(raw, "misc") {
      GetVersionTypeBySecondField(raw, t);
    }
  }

  /** Outside `misc`, the era is decided by the second field alone, and a field
      that names no era fails rather than defaulting. */
  lemma GetVersionTypeBySecondField(raw: string, t: VersionType)
    requires !Includes(raw, "misc")
    ensures GetVersionType(raw) == Success(t)
        <==> |Split(raw, '-')| >= 2 && Split(raw, '-')[1] == Slug(t)
    ensures GetVersionType(raw).Failure?
        <==> |Split(raw, '-')| < 2 || forall u :: Slug(u) != Split(raw, '-')[1]
  {
    var fields := Split(raw, '-');
    if |fields| >= 2 && TypeOfSlug(fields[1]).Some? {
      assert Slug(TypeOfSlug(fields[1]).value) == fields[1];
    }
  }

  /** A directory segment `client-<slug>` or `server-<slug>`, optionally followed
      by more `-`-separated words, classifies as the era of its slug. */
  lemma GetVersionTypeOfSideSegment(side: string, t: VersionType, tail: string)
    requires side == "client" || side == "server"
    requires tail == [] || tail[0] == '-'
    requires !Includes(side + "-" + Slug(t) + tail, "misc")
    ensures GetVersionType(side + "-" + Slug(t) + tail) == Success(t)
  {
    var raw := side + "-" + Slug(t) + tail;
    assert raw == side + ['-'] + (Slug(t) + tail);
    SplitAtSeparator(side, '-', Slug(t) + tail);
    if tail == [] {
      assert Slug(t) + tail == Slug(t);
      SplitWithoutSeparator(Slug(t), '-');
    } else {
      assert Slug(t) + tail == Slug(t) + ['-'] + tail[1..];
      SplitAtSeparator(Slug(t), '-', tail[1..]);
    }
    GetVersionTypeBySecondField(raw, t);
  }

  /** A directory segment whose slug names no era (such as `client-omega`)
      fails: there is no default era. */
  lemma GetVersionTypeOfUnknownSlug(side: string, field: string, tail: string)
    requires side == "client" || side == "server"
    requires '-' !in field && forall t :: Slug(t) != field
    requires tail == [] || tail[0] == '-'
    requires !Includes(side + "-" + field + tail, "misc")
    ensures GetVersionType(side + "-" + field + tail).Failure?
  {
    var raw := side + "-" + field + tail;
    assert raw == side + ['-'] + (field + tail);
    SplitAtSeparator(side, '-', field + tail);
    if tail == [] {
      assert field + tail == field;
      SplitWithoutSeparator(field, '-');
    } else {
      assert field + tail == field + ['-'] + tail[1..];
      SplitAtSeparator(field, '-', tail[1..]);
    }
    GetVersionTypeBySecondField(raw, Release);
  }

  // ---------------------------------------------------------------------
  // The era segment of a page title

  const ArchiveJavaPath: string := "/archive/java/"

  predicate IsSlugChar(c: char) {
    'a' <= c <= 'z' || c == '-'
  }

  /** Length of the longest prefix of `[a-z\-]` characters. */
  function SlugLength(s: string): (n: nat)
    ensures n <= |s|
    ensures forall i :: 0 <= i < n ==> IsSlugChar(s[i])
    ensures n < |s| ==> !IsSlugChar(s[n])
    decreases |s|
  {
    if s == [] || !IsSlugChar(s[0]) then 0 else 1 + SlugLength(s[1..])
  }

  /** The first alternative of the title pattern matches at `i`: the title has
      `/archive/java/` just before `i` and `client-` or `server-` from `i` on. */
  predicate SideSegmentAt(title: string, i: nat) {
    |ArchiveJavaPath| <= i <= |title|
    && title[i - |ArchiveJavaPath|..i] == ArchiveJavaPath
    && (StartsWith(title[i..], "client-") || StartsWith(title[i..], "server-"))
  }

  /** The second alternative matches at `i`: `misc` followed by `/`, anywhere. */
  predicate MiscAt(title: string, i: nat) {
    i <= |title| && StartsWith(title[i..], "misc/")
  }

  predicate MatchesAt(title: string, i: nat) {
    SideSegmentAt(title, i) || MiscAt(title, i)
  }

  /** The text matched at `i`: the side prefix and the longest run of
      `[a-z\-]` after it, or `misc` (the `/` is only looked at). */
  function MatchText(title: string, i: nat): string
    requires MatchesAt(title, i)
  {
    if SideSegmentAt(title, i) then title[i..i + 7 + SlugLength(title[i + 7..])] else "misc"
  }

  /** The leftmost position at or after `from` where the title pattern matches. */
  function FirstMatch(title: string, from: nat): (r: Option<nat>)
    requires from <= |title|
    ensures r.Some? ==> from <= r.value < |title| && MatchesAt(title, r.value)
    ensures forall i: nat :: from <= i <= |title| && (r.None? || i < r.value) ==> !MatchesAt(title, i)
    decreases |title| - from
  {
    if from == |title| then None
    else if MatchesAt(title, from) then Some(from)
    else FirstMatch(title, from + 1)
  }

  /** `match[0]` of the title pattern, or None when the title does not match. */
  function TitleSegment(title: string): (r: Option<string>)
    ensures r.None? <==> forall i: nat :: i <= |title| ==> !MatchesAt(title, i)
    ensures r.Some? ==>
      (r.value == "misc"
       || ((StartsWith(r.value, "client-") || StartsWith(r.value, "server-"))
           && forall i :: 7 <= i < |r.value| ==> IsSlugChar(r.value[i])))
    ensures r.Some? ==>
      exists i: nat :: i <= |title| && MatchesAt(title, i) && OccursAt(title, r.value, i)
        && (forall j: nat :: j < i ==> !MatchesAt(title, j))
        && (r.value != "misc" ==> i + |r.value| == |title| || !IsSlugChar(title[i + |r.value|]))
  {
    match FirstMatch(title, 0)
    case None => None
    case Some(i) =>
      MatchTextAt(title, i);
      Some(MatchText(title, i))
  }

  /** The text matched at `i` is the title's text from `i` on: `misc`, or a side
      prefix and the whole run of slug characters that follows it. */
  lemma MatchTextAt(title: string, i: nat)
    requires MatchesAt(title, i)
    ensures var v := MatchText(title, i);
      && OccursAt(title, v, i)
      && (v == "misc"
          || ((StartsWith(v, "client-") || StartsWith(v, "server-"))
              && forall k :: 7 <= k < |v| ==> IsSlugChar(v[k])))
      && (v != "misc" ==> i + |v| == |title| || !IsSlugChar(title[i + |v|]))
  {
    var v := MatchText(title, i);
    if SideSegmentAt(title, i) {
      var n := SlugLength(title[i + 7..]);
      assert i + |v| == i + 7 + n;
      assert i + |v| < |title| ==> title[i + |v|] == title[i + 7..][n];
      assert v[..7] == title[i..][..7];
      forall k | 7 <= k < |v|
        ensures IsSlugChar(v[k])
      {
        assert v[k] == title[i + 7..][k - 7];
      }
    } else {
      assert title[i..i + 4] == title[i..][..5][..4];
      assert "misc/"[..4] == "misc";
    }
  }

  // ---------------------------------------------------------------------
  // The identity and side of an artifact

  /** The final path segment of a link without its last four characters
      (an extension such as `.jar`); shorter segments give the empty string. */
  function FileStem(link: string): string {
    var segment := LastField(link, '/');
    segment[..if |segment| >= 4 then |segment| - 4 else 0]
  }

  /** The identity of an artifact: its file stem, cut to its first 14 characters
      when it ends with `-server`. */
  function DeriveId(link: string): string {
    var stem := FileStem(link);
    if EndsWith(stem, "-server") then stem[..if |stem| < 14 then |stem| else 14] else stem
  }

  /** Any link that mentions `server` is a server artifact. */
  function DeriveSide(link: string): Side {
    if Includes(link, "server") then Server else Client
  }

  /** The identity is a prefix of the final path segment, never longer than the
      segment less four characters, and is the whole stem unless that ends with `-server`. */
  lemma DeriveIdIsStemPrefix(link: string)
    ensures var segment, id := LastField(link, '/'), DeriveId(link);
      |id| <= |FileStem(link)| && |id| <= (if |segment| >= 4 then |segment| - 4 else 0)
      && id == segment[..|id|]
      && (id == FileStem(link) <==> !EndsWith(FileStem(link), "-server") || |FileStem(link)| <= 14)
  {
    var stem := FileStem(link);
    if EndsWith(stem, "-server") {
      assert stem[|stem| - 7..] == "-server";
      assert |stem| >= 7;
      if |stem| <= 14 {
        assert DeriveId(link) == stem;
      }
    }
  }

  /** The fixed-length cut removes exactly the `-server` suffix if and only if
      the stem is 21 characters long. */
  lemma ServerCutIsSuffixStripOnlyAt21(link: string)
    requires EndsWith(FileStem(link), "-server")
    ensures var stem := FileStem(link);
      DeriveId(link) == stem[..|stem| - 7] <==> |stem| == 21
  {
  }
}
