/** The URL prober: candidate archive addresses for a date key, and the
    descending search for the suffix the archive answers to. The archive's
    answer to a HEAD request is the parameter `found`: found(u) holds when a
    HEAD request for u succeeds with status 200. */
module UrlProber {
  import opened Decimal

  const ArchivePrefix: string := "https://kexp-archive.streamguys1.com/content/kexp/"
  const FixedSegment: string := "0550"
  const TrailingIdentifier: string := "-33-1962-pacific-notions.mp3"

  /** The template: prefix, date key, fixed segment, the suffix as %02d, and
      the trailing identifier. */
  function MakeURLForDate(date: string, mysteriousNumber: int): string {
    ArchivePrefix + date + FixedSegment + PrintfZeroPadded(mysteriousNumber, 2) + TrailingIdentifier
  }

  /** For a suffix in 0..99 the URL is the fixed text around the date key and
      exactly two digits that read back as the suffix. */
  lemma MakeURLForDateLayout(date: string, n: int)
    requires 0 <= n <= 99
    ensures var u := MakeURLForDate(date, n);
      var k := |ArchivePrefix| + |date| + |FixedSegment|;
      && |u| == k + 2 + |TrailingIdentifier|
      && u[..|ArchivePrefix|] == ArchivePrefix
      && u[|ArchivePrefix|..|ArchivePrefix| + |date|] == date
      && u[|ArchivePrefix| + |date|..k] == FixedSegment
      && AllDigits(u[k..k + 2]) && Value(u[k..k + 2]) == n
      && u[k + 2..] == TrailingIdentifier
  {
    assert Pow10(2) == 100;
    PadNatExact(n, 2);
  }

  /** Suffixes in 0..99 make the URL determine both the key and the suffix. */
  lemma MakeURLForDateInjective(d1: string, n1: int, d2: string, n2: int)
    requires 0 <= n1 <= 99 && 0 <= n2 <= 99
    requires MakeURLForDate(d1, n1) == MakeURLForDate(d2, n2)
    ensures d1 == d2 && n1 == n2
  {
    MakeURLForDateLayout(d1, n1);
    MakeURLForDateLayout(d2, n2);
  }

  /** The first URL, trying suffixes from mysteriousNumber down to 0, that the
      archive answers; "" when none does. */
  function TryFindURLForDateMysteriosNumber(date: string, mysteriousNumber: int, found: string -> bool): (r: string)
    ensures mysteriousNumber < 0 ==> r == ""
    ensures r == "" <==> forall k :: 0 <= k <= mysteriousNumber ==> !found(MakeURLForDate(date, k))
    ensures r != "" ==> exists k :: 0 <= k <= mysteriousNumber && r == MakeURLForDate(date, k) && found(r)
                          && forall j :: k < j <= mysteriousNumber ==> !found(MakeURLForDate(date, j))
    decreases mysteriousNumber
  {
    if mysteriousNumber < 0 then ""
    else
      var urlCandidate := MakeURLForDate(date, mysteriousNumber);
      if found(urlCandidate) then urlCandidate
      else TryFindURLForDateMysteriosNumber(date, mysteriousNumber - 1, found)
  }

  /** The suffixes a search sends HEAD requests for, in the order it sends them. */
  function ProbedSuffixes(date: string, mysteriousNumber: int, found: string -> bool): (p: seq<int>)
    ensures mysteriousNumber >= 0 ==> |p| >= 1 && p[0] == mysteriousNumber
    ensures forall i :: 0 <= i < |p| ==> p[i] == mysteriousNumber - i && p[i] >= 0
    decreases mysteriousNumber
  {
    if mysteriousNumber < 0 then []
    else if found(MakeURLForDate(date, mysteriousNumber)) then [mysteriousNumber]
    else [mysteriousNumber] + ProbedSuffixes(date, mysteriousNumber - 1, found)
  }

  /** Every probe before the last one was refused: each suffix from n down to
      just above the last one probed. */
  lemma {:induction false} ProbesBeforeLastRefused(date: string, n: int, found: string -> bool)
    ensures var p := ProbedSuffixes(date, n, found);
      forall j :: n - |p| + 1 < j <= n ==> !found(MakeURLForDate(date, j))
    decreases n
  {
    if n >= 0 && !found(MakeURLForDate(date, n)) {
      ProbesBeforeLastRefused(date, n - 1, found);
    }
  }

  /** The search stops at the first accepted probe: it returns the URL of the
      last suffix probed when that one was accepted, and "" when every suffix
      down to 0 was probed and refused. */
  lemma {:induction false} SearchEndsAtLastProbe(date: string, n: int, found: string -> bool)
    ensures var p := ProbedSuffixes(date, n, found);
      var r := TryFindURLForDateMysteriosNumber(date, n, found);
      && (r != "" ==> |p| >= 1 && r == MakeURLForDate(date, p[|p| - 1]) && found(r))
      && (r == "" ==> |p| == (if n < 0 then 0 else n + 1))
    decreases n
  {
    if n >= 0 && !found(MakeURLForDate(date, n)) {
      SearchEndsAtLastProbe(date, n - 1, found);
    }
  }

  /** Distinct suffixes in 0..99 give distinct URLs for the same key. */
  lemma MakeURLForDateDistinct(date: string, j: int, k: int)
    requires 0 <= j <= 99 && 0 <= k <= 99 && j != k
    ensures MakeURLForDate(date, j) != MakeURLForDate(date, k)
  {
    MakeURLForDateLayout(date, j);
    MakeURLForDateLayout(date, k);
  }

  /** When suffix k is answered and none above it up to n is, the search
      sends n - k + 1 probes: n, n - 1, ..., k. */
  lemma {:induction false} ProbesDownTo(date: string, n: int, k: int, found: string -> bool)
    requires 0 <= k <= n
    requires found(MakeURLForDate(date, k))
    requires forall j :: k < j <= n ==> !found(MakeURLForDate(date, j))
    ensures |ProbedSuffixes(date, n, found)| == n - k + 1
    decreases n
  {
    if n > k {
      ProbesDownTo(date, n - 1, k, found);
    }
  }

  /** A list of n - k + 1 entries counting down from n is n, n - 1, ..., k. */
  lemma Countdown(p: seq<int>, n: int, k: int)
    requires |p| == n - k + 1
    requires forall i :: 0 <= i < |p| ==> p[i] == n - i
    ensures p == seq(n - k + 1, i => n - i)
  {
  }

  /** An archive that answers to one URL only. */
  function AnswersOnly(target: string): string -> bool {
    u => u == target
  }

  /** Such an archive refuses every other suffix in 0..99. */
  lemma OthersRefused(date: string, n: int, k: int)
    requires 0 <= k <= n <= 99
    ensures forall j :: k < j <= n ==> !AnswersOnly(MakeURLForDate(date, k))(MakeURLForDate(date, j))
  {
    forall j | k < j <= n
      ensures MakeURLForDate(date, j) != MakeURLForDate(date, k)
    {
      MakeURLForDateDistinct(date, j, k);
    }
  }

  /** With an archive that answers only to suffix k, a search from n >= k
      returns the suffix-k URL ... */
  lemma OnlyOneSuffixAnswers(date: string, n: int, k: int)
    requires 0 <= k <= n
    ensures TryFindURLForDateMysteriosNumber(date, n, AnswersOnly(MakeURLForDate(date, k))) == MakeURLForDate(date, k)
  {
    var found := AnswersOnly(MakeURLForDate(date, k));
    assert found(MakeURLForDate(date, k));
  }

  /** ... after probing n, n - 1, ..., k in that order (for n = 12 and k = 7:
      12, 11, 10, 9, 8, 7). */
  lemma OnlyOneSuffixAnswersProbes(date: string, n: int, k: int)
    requires 0 <= k <= n <= 99
    ensures ProbedSuffixes(date, n, AnswersOnly(MakeURLForDate(date, k))) == seq(n - k + 1, i => n - i)
  {
    var found := AnswersOnly(MakeURLForDate(date, k));
    OthersRefused(date, n, k);
    ProbesDownTo(date, n, k, found);
    Countdown(ProbedSuffixes(date, n, found), n, k);
  }
}
