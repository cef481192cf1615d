/** Teste 1's discovery of the quarterly filings on the ANS open-data site:
    which year folders exist, which ZIP archives each folder lists, grouped by
    the quarter their name gives, and which three quarters are the most
    recent. Reading a page's links is the parameter `linksOf`, from a URL to
    the links on that page, in page order. */
module Downloader {
  import opened Wrappers
  import opened Text
  import opened Seqs
  import opened Dicts
  import opened Sorting

  const BaseUrl: string := "https://dadosabertos.ans.gov.br/FTP/PDA/demonstracoes_contabeis/"

  /** The `(year, quarter)` key of the quarter maps. */
  datatype Period = Period(year: int, quarter: int)

  /** The periods an archive name can carry: quarter 1 to 4 of a year 20xx. */
  predicate ZipPeriod(p: Period) {
    1 <= p.quarter <= 4 && 2000 <= p.year <= 2099
  }

  // ---------------------------------------------------------------------------
  // Archive names
  // ---------------------------------------------------------------------------

  /** The archive-name pattern `([1-4])T(20\d{2})\.zip`, ignoring letter case
      and anchored at the start only: what follows the tenth character is not
      looked at. */
  function MatchZip(link: string): (r: Option<Period>)
    ensures r.Some? ==> ZipPeriod(r.value)
  {
    if |link| >= 10 && '1' <= link[0] <= '4' && UpperChar(link[1]) == 'T'
       && link[2] == '2' && link[3] == '0' && IsDigit(link[4]) && IsDigit(link[5])
       && link[6] == '.' && UpperChar(link[7]) == 'Z' && UpperChar(link[8]) == 'I'
       && UpperChar(link[9]) == 'P'
    then Some(Period(2000 + 10 * DigitValue(link[4]) + DigitValue(link[5]), DigitValue(link[0])))
    else None
  }

  /** The four digits of a year 20xx. */
  function YearText(y: int): (r: string)
    requires 2000 <= y <= 2099
    ensures |r| == 4 && AllDigits(r)
  {
    "20" + [DigitChar((y - 2000) / 10), DigitChar((y - 2000) % 10)]
  }

  /** The archive name the site uses for a period, such as `1T2023.zip`. */
  function ZipName(p: Period): (r: string)
    requires ZipPeriod(p)
    ensures |r| == 10
  {
    [DigitChar(p.quarter)] + "T" + YearText(p.year) + ".zip"
  }

  /** Upper-casing leaves every character but a lower-case letter alone,
      and only a letter's lower case upper-cases to it. */
  lemma UpperCharIs(c: char, d: char)
    requires !IsLower(d) && !('A' <= d <= 'Z')
    ensures UpperChar(c) == d <==> c == d
  {
  }

  /** A link matches with period `p` exactly when its first ten characters
      spell `p`'s archive name, in any letter case. */
  lemma MatchZipSpec(link: string, p: Period)
    ensures MatchZip(link) == Some(p)
        <==> ZipPeriod(p) && |link| >= 10 && Upper(link[..10]) == Upper(ZipName(p))
  {
    if ZipPeriod(p) && |link| >= 10 {
      var n := ZipName(p);
      var u, un := Upper(link[..10]), Upper(n);
      var d1, d2 := (p.year - 2000) / 10, (p.year - 2000) % 10;
      assert n[0] == DigitChar(p.quarter) && n[1] == 'T' && n[2] == '2' && n[3] == '0';
      assert n[4] == DigitChar(d1) && n[5] == DigitChar(d2);
      assert n[6] == '.' && n[7] == 'z' && n[8] == 'i' && n[9] == 'p';
      if u == un {
        assert u[0] == un[0] && u[2] == un[2] && u[3] == un[3] && u[6] == un[6];
        assert u[4] == un[4] && u[5] == un[5];
        UpperCharIs(link[0], n[0]);
        UpperCharIs(link[2], n[2]);
        UpperCharIs(link[3], n[3]);
        UpperCharIs(link[4], n[4]);
        UpperCharIs(link[5], n[5]);
        UpperCharIs(link[6], n[6]);
        assert u[1] == un[1] && u[7] == un[7] && u[8] == un[8] && u[9] == un[9];
      }
      if MatchZip(link) == Some(p) {
        assert link[4] == DigitChar(d1) && link[5] == DigitChar(d2);
        forall i | 0 <= i < 10
          ensures u[i] == un[i]
        {
        }
      }
    }
  }

  /** Text after the archive name is not rejected: `1T2023.zip.tmp` still
      names the first quarter of 2023. */
  lemma TrailingTextAccepted(p: Period, rest: string)
    requires ZipPeriod(p)
    ensures MatchZip(ZipName(p) + rest) == Some(p)
  {
    assert (ZipName(p) + rest)[..10] == ZipName(p);
    MatchZipSpec(ZipName(p) + rest, p);
  }

  // ---------------------------------------------------------------------------
  // The archives of one year folder
  // ---------------------------------------------------------------------------

  /** The URL of a year folder. */
  function YearUrl(year: int): string {
    BaseUrl + IntToString(year) + "/"
  }

  /** The links of a folder whose name matches `p`. */
  function InPeriod(p: Period): string -> bool {
    (link: string) => MatchZip(link) == Some(p)
  }

  /** The URLs of a folder's archives grouped by the period their name gives
      (not the folder's year), each group in link order; links that are not
      archive names contribute nothing. */
  function ZipFiles(folderUrl: string, links: seq<string>): (d: Dict<Period, seq<string>>)
    ensures Valid(d)
    ensures forall p :: p in d.entries ==> ZipPeriod(p) && d.entries[p] != []
    decreases |links|
  {
    if links == [] then Empty()
    else
      var d := ZipFiles(folderUrl, links[..|links| - 1]);
      var link := links[|links| - 1];
      match MatchZip(link)
      case None => d
      case Some(p) => Put(d, p, GetOr(d, p, []) + [folderUrl + link])
  }

  /** The archives of the folder of `year`, as the site lists them. */
  function ZipFilesForYear(year: int, linksOf: string -> seq<string>): (d: Dict<Period, seq<string>>)
    ensures Valid(d)
    ensures forall p :: p in d.entries ==> ZipPeriod(p) && d.entries[p] != []
  {
    ZipFiles(YearUrl(year), linksOf(YearUrl(year)))
  }

  /** One more link: the step the loop over the folder's links takes. */
  lemma ZipFilesSnoc(folderUrl: string, links: seq<string>, link: string, p: Period)
    ensures var before, after := ZipFiles(folderUrl, links), ZipFiles(folderUrl, links + [link]);
      GetOr(after, p, []) == GetOr(before, p, []) + (if InPeriod(p)(link) then [folderUrl + link] else [])
  {
    assert (links + [link])[..|links|] == links;
  }

  /** Each period maps to the folder URL joined to every link of that
      period, in link order, and is present exactly when such a link exists. */
  lemma {:induction false} ZipFilesContents(folderUrl: string, links: seq<string>, p: Period)
    ensures GetOr(ZipFiles(folderUrl, links), p, [])
         == Map(Filter(links, InPeriod(p)), (link: string) => folderUrl + link)
    ensures p in ZipFiles(folderUrl, links).entries <==> Filter(links, InPeriod(p)) != []
    decreases |links|
  {
    var url := (link: string) => folderUrl + link;
    if links != [] {
      var n := |links| - 1;
      var front, link := links[..n], links[n];
      assert links == front + [link];
      ZipFilesContents(folderUrl, front, p);
      ZipFilesSnoc(folderUrl, front, link, p);
      FilterAppend(front, [link], InPeriod(p));
      assert Filter([link], InPeriod(p)) == if InPeriod(p)(link) then [link] else [];
      MapAppend(Filter(front, InPeriod(p)), Filter([link], InPeriod(p)), url);
    }
  }

  // ---------------------------------------------------------------------------
  // Year folders
  // ---------------------------------------------------------------------------

  /** The year a link names when it is a folder: it ends in `/` and what is
      left once the slashes around it are stripped is a non-empty run of
      digits. */
  function YearOf(link: string): Option<nat> {
    var name := StripSlashes(link);
    if EndsWith(link, '/') && |name| > 0 && AllDigits(name) then Some(DigitsValue(name)) else None
  }

  /** Digits between slashes, with at least one slash after them, name their
      year; leading zeros and repeated slashes do not matter. */
  lemma YearOfFolder(lead: string, digits: string, trail: string)
    requires forall i :: 0 <= i < |lead| ==> lead[i] == '/'
    requires |trail| > 0 && forall i :: 0 <= i < |trail| ==> trail[i] == '/'
    requires |digits| > 0 && AllDigits(digits)
    ensures YearOf(lead + digits + trail) == Some(DigitsValue(digits))
  {
    StripSlashesAround(lead, digits, trail);
  }

  /** The folder link `str(y) + "/"` is read back as `y`. */
  lemma YearLinkRoundTrip(y: nat)
    ensures YearOf(IntToString(y) + "/") == Some(y)
  {
    assert IntToString(y) + "/" == [] + IntToString(y) + "/";
    YearOfFolder([], IntToString(y), "/");
  }

  function Ascending(): (nat, nat) -> bool {
    (a: nat, b: nat) => a <= b
  }

  /** The years of the folders the site lists, in ascending order. */
  function AvailableYears(links: seq<string>): (years: seq<nat>)
    ensures multiset(years) == multiset(FilterMap(links, YearOf))
    ensures forall i, j :: 0 <= i < j < |years| ==> years[i] <= years[j]
  {
    var years := Sort(FilterMap(links, YearOf), Ascending());
    SortSorted(FilterMap(links, YearOf), Ascending());
    years
  }

  // ---------------------------------------------------------------------------
  // Merging the folders and picking the latest quarters
  // ---------------------------------------------------------------------------

  /** The archive maps of the year folders, in the order of `years`. */
  function Folders(years: seq<nat>, linksOf: string -> seq<string>): (fs: seq<Dict<Period, seq<string>>>)
    ensures |fs| == |years| && AllValid(fs)
    ensures forall i :: 0 <= i < |years| ==> fs[i] == ZipFilesForYear(years[i], linksOf)
  {
    Map(years, (y: nat) => ZipFilesForYear(y, linksOf))
  }

  /** The archive maps of the folders, merged in the given order with
      `dict.update`, so a later folder's list replaces an earlier one's. */
  function Merged(years: seq<nat>, linksOf: string -> seq<string>): (d: Dict<Period, seq<string>>)
    ensures Valid(d)
    ensures forall p :: p in d.entries ==> ZipPeriod(p) && d.entries[p] != []
  {
    var fs := Folders(years, linksOf);
    var d := UpdateAll(fs);
    forall p | p in d.entries
      ensures ZipPeriod(p) && d.entries[p] != []
    {
      var j := UpdateAllSource(fs, p);
    }
    d
  }

  /** A period is in the merge exactly when some folder lists it, and it maps
      to the list of the last folder that does. */
  lemma MergedLastWins(years: seq<nat>, linksOf: string -> seq<string>, p: Period, j: nat)
    requires j < |years| && p in ZipFilesForYear(years[j], linksOf).entries
    requires forall k :: j < k < |years| ==> p !in ZipFilesForYear(years[k], linksOf).entries
    ensures p in Merged(years, linksOf).entries
    ensures Merged(years, linksOf).entries[p] == ZipFilesForYear(years[j], linksOf).entries[p]
  {
    UpdateAllLastWins(Folders(years, linksOf), p, j);
  }

  /** A period no folder lists is not in the merge. */
  lemma MergedOnlyListed(years: seq<nat>, linksOf: string -> seq<string>, p: Period)
    requires forall k :: 0 <= k < |years| ==> p !in ZipFilesForYear(years[k], linksOf).entries
    ensures p !in Merged(years, linksOf).entries
  {
    UpdateAllUnlisted(Folders(years, linksOf), p);
  }

  /** The key order of the selection: later year first, then later quarter. */
  function Later(): (Period, Period) -> bool {
    (a: Period, b: Period) => a.year > b.year || (a.year == b.year && a.quarter >= b.quarter)
  }

  /** Strictly later. */
  predicate After(a: Period, b: Period) {
    a.year > b.year || (a.year == b.year && a.quarter > b.quarter)
  }

  function Min(a: nat, b: nat): nat {
    if a <= b then a else b
  }

  /** The three latest periods of `all` with their lists, latest first (all
      of them when there are fewer than three). */
  function Latest(all: Dict<Period, seq<string>>): (r: Dict<Period, seq<string>>)
    requires Valid(all)
    ensures Valid(r)
    ensures |r.keys| == Min(3, |all.keys|)
    ensures forall p :: p in r.entries ==> p in all.entries && r.entries[p] == all.entries[p]
    ensures forall p, q :: p in r.entries && q in all.entries && q !in r.entries ==> After(p, q)
    ensures forall i, j :: 0 <= i < j < |r.keys| ==> After(r.keys[i], r.keys[j])
  {
    var sorted := Sort(all.keys, Later());
    SortSorted(all.keys, Later());
    SortDistinct(all.keys, Later());
    var top := sorted[..Min(3, |sorted|)];
    PrefixOfSorted(all, sorted, |top|);
    Dict(top, map p | p in top :: all.entries[p])
  }

  /** Two distinct periods in `Later` order are strictly ordered. */
  lemma LaterDistinct(a: Period, b: Period)
    requires Later()(a, b) && a != b
    ensures After(a, b)
  {
  }

  /** A prefix of the keys of `all` sorted latest first holds keys of `all`,
      each strictly after every key it leaves out. */
  lemma PrefixOfSorted(all: Dict<Period, seq<string>>, sorted: seq<Period>, m: nat)
    requires Valid(all) && multiset(sorted) == multiset(all.keys)
    requires SortedBy(sorted, Later()) && Distinct(sorted) && m <= |sorted|
    ensures |sorted| == |all.keys|
    ensures forall p :: p in sorted[..m] ==> p in all.entries
    ensures forall p, q :: p in sorted[..m] && q in all.entries && q !in sorted[..m] ==> After(p, q)
    ensures forall i, j :: 0 <= i < j < m ==> After(sorted[i], sorted[j])
  {
    var top := sorted[..m];
    assert |multiset(sorted)| == |multiset(all.keys)|;
    forall p | p in top
      ensures p in all.entries
    {
      assert p in multiset(sorted);
    }
    forall p, q | p in top && q in all.entries && q !in top
      ensures After(p, q)
    {
      assert q in multiset(all.keys);
      var i, j := Find(top, p), Find(sorted, q);
      assert sorted[i] == p;
      assert j >= m;
      LaterDistinct(p, q);
    }
    forall i, j | 0 <= i < j < m
      ensures After(sorted[i], sorted[j])
    {
      LaterDistinct(sorted[i], sorted[j]);
    }
  }

  /** `get_last_three_trimesters_with_zips`: the archive lists of the three
      latest quarters found in the year folders the site lists. */
  function LastThreeQuarters(linksOf: string -> seq<string>): (r: Dict<Period, seq<string>>)
    ensures Valid(r) && |r.keys| <= 3
    ensures forall p :: p in r.entries ==> ZipPeriod(p) && r.entries[p] != []
  {
    Latest(Merged(AvailableYears(linksOf(BaseUrl)), linksOf))
  }
}
