/** The ID-discovery scraper of scraper/scraper.py: the URL list, ID
    recovery from a URL, the classification of a fetched page and of a
    failed request, and the header-once save file. The network is replaced
    by the sequence of outcomes its successive `requests.get` calls would
    have. */
module Scraper {
  import opened Wrappers
  import opened PyStr

  const UrlPrefix: String := "https://www.gunviolencearchive.org/incident/"
  /** `range(200000, 202000)` */
  const FirstId: int := 200000
  const EndId: int := 202000
  /** First line of the save file. */
  const Header: String := "ids"
  /** The `h1` texts of a record page and of a missing page. */
  const IncidentTitle: String := "\nIncident\n"
  const NotFoundTitle: String := "\nPage not found\n"

  // ---------------------------------------------------------------------
  // URLs and IDs
  // ---------------------------------------------------------------------

  /** `f'https://www.gunviolencearchive.org/incident/{idx}'` */
  function Url(idx: int): String {
    UrlPrefix + IntToString(idx)
  }

  /** `url[-6:]`: the last six characters, or all of a shorter string. */
  function LastSix(url: String): (r: String)
    ensures |r| == if |url| >= 6 then 6 else |url|
    ensures r == url[|url| - |r|..]
  {
    if |url| >= 6 then url[|url| - 6..] else url
  }

  /** `int(url[-6:])`; `None` where it raises ValueError. */
  function IdOf(url: String): Option<int> {
    ParseInt(LastSix(url))
  }

  /** The round trip: a six-digit ID is recovered from its URL. */
  lemma IdOfUrlSixDigits(idx: int)
    requires 100000 <= idx < 1000000
    ensures IdOf(Url(idx)) == Some(idx)
  {
    var digits := NatToString(idx);
    assert |digits| == 6 by {
      NatToStringLength(idx, 5);
      NatToStringLength(idx, 6);
      assert Pow10(5) == 100000 && Pow10(6) == 1000000;
    }
    assert LastSix(Url(idx)) == digits by {
      assert Url(idx) == UrlPrefix + digits;
    }
    NatToStringDigits(idx);
    DigitsValueOfNat(idx);
    ParseIntOfDigits(digits);
  }

  /** An ID of five digits or fewer cannot be read back: the last six
      characters of its URL take in part of the prefix, and `int` raises. */
  lemma IdOfShortUrl(idx: int)
    requires 0 <= idx < 100000
    ensures IdOf(Url(idx)) == None
  {
    var digits := NatToString(idx);
    NatToStringLength(idx, 5);
    assert Pow10(5) == 100000;
    assert |digits| <= 5;
    var url := Url(idx);
    assert url == UrlPrefix + digits;
    var six := LastSix(url);
    var j := |UrlPrefix| - (6 - |digits|);
    assert six[0] == url[|url| - 6] == UrlPrefix[j];
    PrefixTail(j);
    StripKeepsHead(six, IsIntSpace);
    var t := Strip(six, IsIntSpace);
    assert !(t[0] == '+' || t[0] == '-');
    assert !ValidDigits(t);
  }

  /** The last five characters of the prefix are "dent/". */
  lemma PrefixTail(j: int)
    requires |UrlPrefix| - 5 <= j < |UrlPrefix|
    ensures !IsIntSpace(UrlPrefix[j]) && !IsDigit(UrlPrefix[j])
    ensures UrlPrefix[j] != '+' && UrlPrefix[j] != '-'
  {
    assert |UrlPrefix| == 44;
    assert UrlPrefix[39] == 'd' && UrlPrefix[40] == 'e' && UrlPrefix[41] == 'n';
    assert UrlPrefix[42] == 't' && UrlPrefix[43] == '/';
  }

  /** The `__main__` loop that builds the URL list: 2000 URLs, one per ID of
      the range in increasing order, each ID recoverable from its URL. */
  method ScanUrls() returns (urls: seq<String>)
    ensures |urls| == EndId - FirstId
    ensures forall i :: 0 <= i < |urls| ==> urls[i] == Url(FirstId + i)
    ensures forall i :: 0 <= i < |urls| ==> IdOf(urls[i]) == Some(FirstId + i)
  {
    urls := [];
    var idx := FirstId;
    while idx < EndId
      invariant FirstId <= idx <= EndId
      invariant |urls| == idx - FirstId
      invariant forall i :: 0 <= i < |urls| ==> urls[i] == Url(FirstId + i)
    {
      urls := urls + [Url(idx)];
      idx := idx + 1;
    }
    forall i | 0 <= i < |urls| ensures IdOf(urls[i]) == Some(FirstId + i) {
      IdOfUrlSixDigits(FirstId + i);
    }
  }

  // ---------------------------------------------------------------------
  // Classification of a fetched page and of a failed request
  // ---------------------------------------------------------------------

  datatype Title = IncidentPage | MissingPage | OtherPage

  /** The branches of `check_idx` on `soup.h1.text`. */
  function ClassifyTitle(text: String): (r: Title)
    ensures r == IncidentPage <==> text == IncidentTitle
    ensures r == MissingPage <==> text == NotFoundTitle
  {
    if text == IncidentTitle then IncidentPage
    else if text == NotFoundTitle then MissingPage
    else OtherPage
  }

  /** The exceptions `requests.get` may raise, as far as `open_soup` tells
      them apart. */
  datatype Fault = SSLError | ChunkedEncodingError | ConnectionError | ReadTimeout
                 | OtherFault(name: String)

  /** The four `except` clauses of `open_soup`: each retries the same URL;
      any other exception propagates. */
  predicate Retryable(f: Fault) {
    match f
    case SSLError => true
    case ChunkedEncodingError => true
    case ConnectionError => true
    case ReadTimeout => true
    case OtherFault(_) => false
  }

  /** One `requests.get` call: a parsed page (with the text of its first
      `h1`, or `None` when it has none) or a raised exception. */
  datatype Attempt = Response(h1: Option<String>) | Raised(fault: Fault)

  /** What `open_soup` ends with. `GaveUp` is the end of the modelled
      attempts, where the source would go on retrying. */
  datatype Soup = Parsed(h1: Option<String>) | Raises(fault: Fault) | GaveUp

  /** An attempt that `open_soup` itself retries: one of the four caught
      faults. */
  predicate RetriedFault(a: Attempt) {
    a.Raised? && Retryable(a.fault)
  }

  /** `open_soup`: retry while the request raises one of the four retried
      faults. Returns the outcome and the attempts not consumed. The first
      attempt that is not a retried fault ends the call, whatever page it
      returns; every attempt before it is a retried fault. */
  function OpenSoup(attempts: seq<Attempt>): (r: (Soup, seq<Attempt>))
    ensures |r.1| <= |attempts| && r.1 == attempts[|attempts| - |r.1|..]
    ensures r.0.GaveUp? <==> r.1 == [] && forall j :: 0 <= j < |attempts| ==> RetriedFault(attempts[j])
    ensures !r.0.GaveUp? ==>
              && |r.1| < |attempts|
              && (forall j :: 0 <= j < |attempts| - |r.1| - 1 ==> RetriedFault(attempts[j]))
              && !RetriedFault(attempts[|attempts| - |r.1| - 1])
    ensures r.0.Parsed? ==> attempts[|attempts| - |r.1| - 1] == Response(r.0.h1)
    ensures r.0.Raises? ==> attempts[|attempts| - |r.1| - 1] == Raised(r.0.fault) && !Retryable(r.0.fault)
  {
    if |attempts| == 0 then (GaveUp, [])
    else match attempts[0]
      case Response(h) => (Parsed(h), attempts[1..])
      case Raised(f) =>
        if Retryable(f) then
          OpenSoup(attempts[1..])
        else (Raises(f), attempts[1..])
  }

  /** How `check_idx` ends for one URL. */
  datatype Crash = InvalidId | MissingHeading | Unhandled(fault: Fault)
  datatype Outcome = Saved(idx: int) | NoRecord | Crashed(crash: Crash) | Unresolved

  /** `check_idx`: read the ID from the URL, fetch the page, save the ID on
      an incident page, do nothing on a missing page, start over on any
      other page. `Unresolved` is the end of the modelled attempts. */
  function CheckIdxRun(url: String, attempts: seq<Attempt>): Outcome
    decreases |attempts|
  {
    match IdOf(url)
    case None => Crashed(InvalidId)
    case Some(idx) =>
      var (soup, rest) := OpenSoup(attempts);
      match soup
      case GaveUp => Unresolved
      case Raises(f) => Crashed(Unhandled(f))
      case Parsed(None) => Crashed(MissingHeading)
      case Parsed(Some(text)) =>
        match ClassifyTitle(text)
        case IncidentPage => Saved(idx)
        case MissingPage => NoRecord
        case OtherPage => CheckIdxRun(url, rest)
  }

  /** An attempt after which the source asks for the same URL again: a
      retried fault, or a page that is neither a record nor "not found". */
  predicate IsRetry(a: Attempt) {
    match a
    case Raised(f) => Retryable(f)
    case Response(None) => false
    case Response(Some(text)) => ClassifyTitle(text) == OtherPage
  }

  /** The outcome decided by an attempt that is not a retry. */
  function Decide(idx: int, a: Attempt): Outcome
    requires !IsRetry(a)
  {
    match a
    case Raised(f) => Crashed(Unhandled(f))
    case Response(None) => Crashed(MissingHeading)
    case Response(Some(text)) => if text == IncidentTitle then Saved(idx) else NoRecord
  }

  /** Reference run: skip the retries, let the first other attempt decide. */
  function FlatRun(idx: int, attempts: seq<Attempt>): Outcome {
    if |attempts| == 0 then Unresolved
    else if IsRetry(attempts[0]) then FlatRun(idx, attempts[1..])
    else Decide(idx, attempts[0])
  }

  lemma {:induction false} OpenSoupFlat(idx: int, attempts: seq<Attempt>)
    ensures var (soup, rest) := OpenSoup(attempts);
      match soup
      case GaveUp => FlatRun(idx, attempts) == Unresolved
      case Raises(f) => FlatRun(idx, attempts) == Crashed(Unhandled(f))
      case Parsed(None) => FlatRun(idx, attempts) == Crashed(MissingHeading)
      case Parsed(Some(text)) =>
        match ClassifyTitle(text)
        case IncidentPage => FlatRun(idx, attempts) == Saved(idx)
        case MissingPage => FlatRun(idx, attempts) == NoRecord
        case OtherPage => FlatRun(idx, attempts) == FlatRun(idx, rest)
    decreases |attempts|
  {
    if |attempts| > 0 && attempts[0].Raised? && Retryable(attempts[0].fault) {
      OpenSoupFlat(idx, attempts[1..]);
    }
  }

  /** The nested retries of `check_idx` and `open_soup` amount to one scan:
      the first attempt that is not a retry decides the outcome. */
  lemma {:induction false} CheckIdxRunIsFlat(url: String, attempts: seq<Attempt>)
    ensures CheckIdxRun(url, attempts)
         == match IdOf(url) case None => Crashed(InvalidId) case Some(idx) => FlatRun(idx, attempts)
    decreases |attempts|
  {
    if IdOf(url).Some? {
      var idx := IdOf(url).value;
      OpenSoupFlat(idx, attempts);
      var (soup, rest) := OpenSoup(attempts);
      if soup.Parsed? && soup.h1.Some? && ClassifyTitle(soup.h1.value) == OtherPage {
        CheckIdxRunIsFlat(url, rest);
      }
    }
  }

  /** The reference run saves exactly when some attempt returns the record
      page and every attempt before it was a retry. */
  lemma {:induction false} FlatRunSaves(idx: int, attempts: seq<Attempt>, saved: int)
    ensures FlatRun(idx, attempts) == Saved(saved)
        <==> saved == idx && (exists k :: 0 <= k < |attempts|
                                 && attempts[k] == Response(Some(IncidentTitle))
                                 && forall j :: 0 <= j < k ==> IsRetry(attempts[j]))
    decreases |attempts|
  {
    if |attempts| > 0 {
      FlatRunSaves(idx, attempts[1..], saved);
      var P := (k: int) => 0 <= k < |attempts|
               && attempts[k] == Response(Some(IncidentTitle))
               && forall j :: 0 <= j < k ==> IsRetry(attempts[j]);
      if IsRetry(attempts[0]) {
        assert !P(0);
        if saved == idx && exists k :: P(k) {
          var k :| P(k);
          assert k >= 1;
          assert attempts[1..][k - 1] == attempts[k];
          forall j | 0 <= j < k - 1 ensures IsRetry(attempts[1..][j]) {
            assert attempts[1..][j] == attempts[j + 1];
          }
        }
        if FlatRun(idx, attempts[1..]) == Saved(saved) {
          var k :| 0 <= k < |attempts[1..]|
               && attempts[1..][k] == Response(Some(IncidentTitle))
               && forall j :: 0 <= j < k ==> IsRetry(attempts[1..][j]);
          assert P(k + 1);
        }
      } else {
        if saved == idx && exists k :: P(k) {
          var k :| P(k);
          assert k == 0;
        }
        if attempts[0] == Response(Some(IncidentTitle)) {
          assert P(0);
        }
      }
    }
  }

  /** When every attempt is a retry, `check_idx` never decides, and in
      particular never saves. */
  lemma {:induction false} RetriesNeverDecide(url: String, attempts: seq<Attempt>)
    requires IdOf(url).Some?
    requires forall k :: 0 <= k < |attempts| ==> IsRetry(attempts[k])
    ensures CheckIdxRun(url, attempts) == Unresolved
  {
    CheckIdxRunIsFlat(url, attempts);
    FlatAllRetries(IdOf(url).value, attempts);
  }

  lemma {:induction false} FlatAllRetries(idx: int, attempts: seq<Attempt>)
    requires forall k :: 0 <= k < |attempts| ==> IsRetry(attempts[k])
    ensures FlatRun(idx, attempts) == Unresolved
    decreases |attempts|
  {
    if |attempts| > 0 {
      assert IsRetry(attempts[0]);
      forall k | 0 <= k < |attempts[1..]| ensures IsRetry(attempts[1..][k]) {
        assert attempts[1..][k] == attempts[k + 1];
      }
      FlatAllRetries(idx, attempts[1..]);
    }
  }

  /** One step of `check_idx`, per kind of first attempt. */
  lemma CheckIdxStep(url: String, a: Attempt, rest: seq<Attempt>)
    requires IdOf(url).Some?
    ensures a == Response(Some(IncidentTitle))
        ==> CheckIdxRun(url, [a] + rest) == Saved(IdOf(url).value)
    ensures a == Response(Some(NotFoundTitle)) ==> CheckIdxRun(url, [a] + rest) == NoRecord
    ensures IsRetry(a) ==> CheckIdxRun(url, [a] + rest) == CheckIdxRun(url, rest)
    ensures a.Raised? && !Retryable(a.fault)
        ==> CheckIdxRun(url, [a] + rest) == Crashed(Unhandled(a.fault))
  {
    CheckIdxRunIsFlat(url, [a] + rest);
    CheckIdxRunIsFlat(url, rest);
    assert ([a] + rest)[1..] == rest;
  }

  // ---------------------------------------------------------------------
  // The save file
  // ---------------------------------------------------------------------

  /** The file `scraped.csv`: whether it exists, and its lines. */
  datatype FileState = FileState(present: bool, lines: seq<String>)

  /** `save(idx)`: create the file with the header line when it does not
      exist, then append the ID as one line. */
  function AfterSave(f: FileState, idx: int): (r: FileState)
    ensures r.present
    ensures !f.present ==> r.lines == [Header, IntToString(idx)]
    ensures f.present ==> |r.lines| == |f.lines| + 1 && r.lines[..|f.lines|] == f.lines
                          && r.lines[|f.lines|] == IntToString(idx)
  {
    var lines := if f.present then f.lines else [Header];
    assert (lines + [IntToString(idx)])[..|lines|] == lines;
    FileState(true, lines + [IntToString(idx)])
  }

  /** A sequence of saves, in order. */
  function AfterSaves(f: FileState, idxs: seq<int>): FileState
    decreases |idxs|
  {
    if |idxs| == 0 then f else AfterSaves(AfterSave(f, idxs[0]), idxs[1..])
  }

  /** The lines that saving `idxs` in order appends. */
  function Lines(idxs: seq<int>): (r: seq<String>)
    ensures |r| == |idxs|
  {
    if |idxs| == 0 then [] else [IntToString(idxs[0])] + Lines(idxs[1..])
  }

  /** Line `i` is the text of the `i`-th ID. */
  lemma {:induction false} LinesAt(idxs: seq<int>)
    ensures forall i :: 0 <= i < |idxs| ==> Lines(idxs)[i] == IntToString(idxs[i])
  {
    if |idxs| > 0 {
      LinesAt(idxs[1..]);
      forall i | 1 <= i < |idxs| ensures Lines(idxs)[i] == IntToString(idxs[i]) {
        assert Lines(idxs)[i] == Lines(idxs[1..])[i - 1];
      }
    }
  }

  /** The header line is the first line and appears nowhere else. */
  predicate HeaderOnce(lines: seq<String>) {
    |lines| >= 1 && lines[0] == Header
    && forall i :: 1 <= i < |lines| ==> lines[i] != Header
  }

  /** No ID line is a header line. */
  lemma IdLineIsNotHeader(idx: int)
    ensures IntToString(idx) != Header
  {
    var s := IntToString(idx);
    assert IsDigit(s[|s| - 1]);
    assert !IsDigit(Header[|Header| - 1]);
  }

  /** Saves into a file that exists append their lines and nothing else. */
  lemma {:induction false} SavesAppend(lines: seq<String>, idxs: seq<int>)
    ensures AfterSaves(FileState(true, lines), idxs) == FileState(true, lines + Lines(idxs))
    decreases |idxs|
  {
    if |idxs| == 0 {
      assert lines + Lines(idxs) == lines;
    } else {
      var line := IntToString(idxs[0]);
      var next := lines + [line];
      assert AfterSaves(FileState(true, lines), idxs) == AfterSaves(FileState(true, next), idxs[1..]);
      SavesAppend(next, idxs[1..]);
      assert Lines(idxs) == [line] + Lines(idxs[1..]);
      AppendOne(lines, line, Lines(idxs[1..]));
    }
  }

  lemma AppendOne<T>(a: seq<T>, x: T, b: seq<T>)
    ensures (a + [x]) + b == a + ([x] + b)
  {
  }

  /** Saves starting from a missing file leave exactly the header followed
      by one line per saved ID, in order; the header appears once. */
  lemma SavesFromMissingFile(idxs: seq<int>)
    requires |idxs| > 0
    ensures AfterSaves(FileState(false, []), idxs) == FileState(true, [Header] + Lines(idxs))
    ensures HeaderOnce(AfterSaves(FileState(false, []), idxs).lines)
  {
    var line := IntToString(idxs[0]);
    var head := [Header] + [line];
    assert AfterSaves(FileState(false, []), idxs) == AfterSaves(FileState(true, head), idxs[1..]);
    SavesAppend(head, idxs[1..]);
    assert Lines(idxs) == [line] + Lines(idxs[1..]);
    AppendOne([Header], line, Lines(idxs[1..]));
    HeaderThenIds(idxs);
  }

  /** The header followed by ID lines has the header exactly once. */
  lemma HeaderThenIds(idxs: seq<int>)
    ensures HeaderOnce([Header] + Lines(idxs))
  {
    var ids := Lines(idxs);
    LinesAt(idxs);
    forall j | 0 <= j < |ids| ensures ids[j] != Header {
      IdLineIsNotHeader(idxs[j]);
    }
    var lines := [Header] + ids;
    assert forall i :: 1 <= i < |lines| ==> lines[i] == ids[i - 1];
  }

  /** A save keeps a file that has its header once in that state. */
  lemma SaveKeepsHeaderOnce(f: FileState, idx: int)
    requires f.present ==> HeaderOnce(f.lines)
    ensures HeaderOnce(AfterSave(f, idx).lines)
  {
    IdLineIsNotHeader(idx);
  }

  /** The save file as an object whose methods update it in place. */
  class ScrapedFile {
    var present: bool
    var lines: seq<String>

    function State(): FileState
      reads this
    {
      FileState(present, lines)
    }

    /** The file before the first save of a run. */
    constructor Missing()
      ensures State() == FileState(false, [])
    {
      present := false;
      lines := [];
    }

    /** A file that already exists with the given lines. */
    constructor Existing(lines: seq<String>)
      ensures State() == FileState(true, lines)
    {
      present := true;
      this.lines := lines;
    }

    /** `save(idx)` */
    method Save(idx: int)
      modifies this
      ensures State() == AfterSave(old(State()), idx)
    {
      if !present {
        present := true;
        lines := [Header];
      }
      lines := lines + [IntToString(idx)];
    }
  }

  /** `check_idx(url)` with its effect on the save file: the ID is saved
      once when the run ends on the record page, and the file is left alone
      otherwise. */
  method CheckIdx(file: ScrapedFile, url: String, attempts: seq<Attempt>) returns (r: Outcome)
    modifies file
    ensures r == CheckIdxRun(url, attempts)
    ensures file.State() == if r.Saved? then AfterSave(old(file.State()), r.idx) else old(file.State())
  {
    r := CheckIdxRun(url, attempts);
    if r.Saved? {
      file.Save(r.idx);
    }
  }
}
