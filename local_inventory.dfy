/** The local inventory filter: an episode URL is missing when the output
    directory has no file named after the URL's last path element. The
    filesystem is the set `existing` of paths that exist. */
module LocalInventory {
  import opened Subsequences
  import opened Decimal
  import opened UrlProber

  /** p without its trailing slashes. */
  function TrimTrailingSlashes(p: string): string {
    if p != [] && p[|p| - 1] == '/' then TrimTrailingSlashes(p[..|p| - 1]) else p
  }

  /** The text after the last slash of p (all of p when it has none). */
  function AfterLastSlash(p: string): string {
    if p == [] || p[|p| - 1] == '/' then [] else AfterLastSlash(p[..|p| - 1]) + [p[|p| - 1]]
  }

  /** Go's path.Base: "." for the empty path, "/" for a path of slashes only,
      otherwise the last element once trailing slashes are removed. */
  function Base(p: string): string {
    if p == [] then "."
    else
      var t := TrimTrailingSlashes(p);
      if t == [] then "/"
      else
        var e := AfterLastSlash(t);
        if e == [] then "/" else e
  }

  /** Trimming removes a run of slashes from the end and nothing else. */
  lemma {:induction false} TrimTrailingSlashesSpec(p: string)
    ensures var t := TrimTrailingSlashes(p);
      && |t| <= |p| && t == p[..|t|]
      && (t == [] || t[|t| - 1] != '/')
      && forall i :: |t| <= i < |p| ==> p[i] == '/'
  {
    if p != [] && p[|p| - 1] == '/' {
      TrimTrailingSlashesSpec(p[..|p| - 1]);
    }
  }

  /** The text after the last slash is a slash-free suffix preceded by a
      slash, unless it is the whole of p. */
  lemma {:induction false} AfterLastSlashSpec(p: string)
    ensures var r := AfterLastSlash(p);
      && |r| <= |p| && r == p[|p| - |r|..]
      && '/' !in r
      && (|r| < |p| ==> p[|p| - |r| - 1] == '/')
  {
    if !(p == [] || p[|p| - 1] == '/') {
      AfterLastSlashSpec(p[..|p| - 1]);
    }
  }

  lemma {:induction false} AfterLastSlashOfName(dirPart: string, name: string)
    requires |dirPart| > 0 && dirPart[|dirPart| - 1] == '/'
    requires '/' !in name
    ensures AfterLastSlash(dirPart + name) == name
  {
    if name != [] {
      var init := name[..|name| - 1];
      AfterLastSlashOfName(dirPart, init);
      assert (dirPart + name)[..|dirPart + name| - 1] == dirPart + init;
      assert init + [name[|name| - 1]] == name;
    } else {
      assert dirPart + name == dirPart;
    }
  }

  /** A file name after a directory part ending in '/' is that path's base. */
  lemma BaseOfFileInDirectory(dirPart: string, name: string)
    requires |dirPart| > 0 && dirPart[|dirPart| - 1] == '/'
    requires name != [] && '/' !in name
    ensures Base(dirPart + name) == name
  {
    var p := dirPart + name;
    assert TrimTrailingSlashes(p) == p;
    AfterLastSlashOfName(dirPart, name);
  }

  /** The path of a file named `name` in directory `dir`. */
  function Join(dir: string, name: string): string {
    dir + "/" + name
  }

  /** Within one directory, distinct names give distinct paths. */
  lemma JoinInjective(dir: string, a: string, b: string)
    ensures Join(dir, a) == Join(dir, b) ==> a == b
  {
    assert Join(dir, a)[|dir| + 1..] == a;
    assert Join(dir, b)[|dir| + 1..] == b;
  }

  /** Whether a URL's file is absent from the output directory. */
  function MissingFrom(outputDir: string, existing: set<string>): string -> bool {
    url => Join(outputDir, Base(url)) !in existing
  }

  /** A URL is missing exactly when filtering the one-element list keeps it. */
  function IsDownloadMissing(outputDir: string, existing: set<string>, link: string): (missing: bool)
    ensures missing <==> Filter([link], MissingFrom(outputDir, existing)) == [link]
  {
    Join(outputDir, Base(link)) !in existing
  }

  /** The URLs whose files are not in the output directory, in their order. */
  method FilterMissingDownloads(outputDir: string, existing: set<string>, urls: seq<string>)
    returns (missing: seq<string>)
    ensures missing == Filter(urls, MissingFrom(outputDir, existing))
  {
    missing := [];
    for i := 0 to |urls|
      invariant missing == Filter(urls[..i], MissingFrom(outputDir, existing))
    {
      assert urls[..i + 1][..i] == urls[..i];
      var outputPath := Join(outputDir, Base(urls[i]));
      if outputPath !in existing {
        missing := missing + [urls[i]];
      }
    }
    assert urls[..|urls|] == urls;
  }

  /** The missing list holds exactly the URLs for which IsDownloadMissing holds. */
  lemma MissingAgreesWithIsDownloadMissing(outputDir: string, existing: set<string>, urls: seq<string>, u: string)
    ensures u in Filter(urls, MissingFrom(outputDir, existing)) <==> u in urls && IsDownloadMissing(outputDir, existing, u)
  {
    FilterMembership(urls, MissingFrom(outputDir, existing), u);
  }

  /** Once a file exists for every URL, nothing is missing any more: a second
      run right after a complete one downloads nothing. */
  lemma NothingMissingAfterDownload(outputDir: string, existing: set<string>, urls: seq<string>)
    ensures Filter(urls, MissingFrom(outputDir, existing + set u | u in urls :: Join(outputDir, Base(u)))) == []
  {
    var after := existing + set u | u in urls :: Join(outputDir, Base(u));
    var r := Filter(urls, MissingFrom(outputDir, after));
    if r != [] {
      FilterMembership(urls, MissingFrom(outputDir, after), r[0]);
      assert false;
    }
  }

  /** With the file of one URL present and no two URLs sharing a file name,
      that URL is dropped and every other URL stays. */
  lemma PresentFileExcludesOnlyItsURL(outputDir: string, urls: seq<string>, u: string, x: string)
    requires forall i, j :: 0 <= i < |urls| && 0 <= j < |urls| && Base(urls[i]) == Base(urls[j]) ==> urls[i] == urls[j]
    requires u in urls
    ensures x in Filter(urls, MissingFrom(outputDir, {Join(outputDir, Base(u))})) <==> x in urls && x != u
  {
    FilterMembership(urls, MissingFrom(outputDir, {Join(outputDir, Base(u))}), x);
    JoinInjective(outputDir, Base(x), Base(u));
    if x in urls {
      var i :| 0 <= i < |urls| && urls[i] == x;
      var j :| 0 <= j < |urls| && urls[j] == u;
      assert Base(urls[i]) == Base(urls[j]) ==> x == u;
    }
  }

  /** The file name an episode URL is stored under. */
  function EpisodeFile(date: string, n: int): string {
    date + FixedSegment + PrintfZeroPadded(n, 2) + TrailingIdentifier
  }

  lemma EpisodeFileHasNoSlash(date: string, n: int)
    requires '/' !in date && 0 <= n <= 99
    ensures '/' !in EpisodeFile(date, n)
  {
    assert Pow10(2) == 100;
    PadNatExact(n, 2);
    assert '/' !in PrintfZeroPadded(n, 2) by {
      assert AllDigits(PrintfZeroPadded(n, 2));
    }
    assert '/' !in FixedSegment;
    assert '/' !in TrailingIdentifier;
    NotInAppend('/', date, FixedSegment, PrintfZeroPadded(n, 2), TrailingIdentifier);
  }

  lemma URLOfEpisodeFile(date: string, n: int)
    ensures MakeURLForDate(date, n) == ArchivePrefix + EpisodeFile(date, n)
  {
    AppendAfterFirst(ArchivePrefix, date, FixedSegment, PrintfZeroPadded(n, 2), TrailingIdentifier);
  }

  /** An episode URL's file name is the date key, the fixed segment, the
      two-digit suffix and the trailing identifier. */
  lemma EpisodeFileName(date: string, n: int)
    requires '/' !in date && 0 <= n <= 99
    ensures Base(MakeURLForDate(date, n)) == EpisodeFile(date, n)
  {
    var name := EpisodeFile(date, n);
    EpisodeFileHasNoSlash(date, n);
    URLOfEpisodeFile(date, n);
    assert |ArchivePrefix| > 0 && ArchivePrefix[|ArchivePrefix| - 1] == '/';
    BaseOfFileInDirectory(ArchivePrefix, name);
  }

  /** Episode URLs for suffixes in 0..99 are stored under distinct file
      names, so no two of them share a local file. */
  lemma EpisodeFileNamesDistinct(d1: string, n1: int, d2: string, n2: int)
    requires '/' !in d1 && '/' !in d2
    requires 0 <= n1 <= 99 && 0 <= n2 <= 99
    ensures Base(MakeURLForDate(d1, n1)) == Base(MakeURLForDate(d2, n2)) ==> d1 == d2 && n1 == n2
  {
    EpisodeFileName(d1, n1);
    EpisodeFileName(d2, n2);
    if EpisodeFile(d1, n1) == EpisodeFile(d2, n2) {
      URLOfEpisodeFile(d1, n1);
      URLOfEpisodeFile(d2, n2);
      MakeURLForDateInjective(d1, n1, d2, n2);
    }
  }
}
