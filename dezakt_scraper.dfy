/**
  dezakt-scraper.py: the later version of the same function. It asks the
  rendering service to wait for the "Profil" heading, refuses one more kind of
  body (the empty-document skeleton near the start), and on each failure
  after a response it saves the response text to a debug file whose name
  carries the failure kind, the ticker and the time.

  The file write is modelled as data: the result records the name and the
  contents of the file the function writes, if any. The clock reading
  `int(time.time())` is the parameter `now`.
*/
module DezaktScraper {
  import opened Strings
  import Scraper

  /** What the service returns for a page that rendered to nothing. */
  const Skeleton := "<html><head></head><body></body></html>"

  /** How many leading characters of the body are searched for `Skeleton`. */
  const HeadLength := 100

  /** Python's `text[:n]`: the first `n` characters, or all of a shorter text. */
  function Head(text: string, n: nat): (h: string)
    ensures h <= text
    ensures |h| == if |text| < n then |text| else n
  {
    if |text| < n then text else text[..n]
  }

  /**
    The guard `not text or text.isspace() or Skeleton in text[:100]`: a body
    is refused when it is all whitespace (the empty body included) or when
    the skeleton lies wholly inside its first 100 characters.
  */
  function BodyRejected(text: string, isSpace: char -> bool): (rejected: bool)
    ensures rejected <==>
      || AllSpace(text, isSpace)
      || exists i: nat :: i + |Skeleton| <= HeadLength && OccursAt(text, Skeleton, i)
  {
    var head := Head(text, HeadLength);
    assert Find(head, Skeleton).Some? <==>
        exists i: nat :: i + |Skeleton| <= HeadLength && OccursAt(text, Skeleton, i) by {
      SkeletonInHead(text);
    }
    text == [] || IsSpaceStr(text, isSpace) || Find(head, Skeleton).Some?
  }

  lemma SkeletonInHead(text: string)
    ensures Occurs(Head(text, HeadLength), Skeleton) <==>
      exists i: nat :: i + |Skeleton| <= HeadLength && OccursAt(text, Skeleton, i)
  {
    var head := Head(text, HeadLength);
    if Occurs(head, Skeleton) {
      var i: nat :| OccursAt(head, Skeleton, i);
      assert text[i..i + |Skeleton|] == head[i..i + |Skeleton|];
      assert OccursAt(text, Skeleton, i);
    }
    if exists i: nat :: i + |Skeleton| <= HeadLength && OccursAt(text, Skeleton, i) {
      var i: nat :| i + |Skeleton| <= HeadLength && OccursAt(text, Skeleton, i);
      assert head[i..i + |Skeleton|] == text[i..i + |Skeleton|];
      assert OccursAt(head, Skeleton, i);
    }
  }

  /** Every body the earlier version refuses, this version refuses too. */
  lemma RejectsMoreThanScraper(text: string, isSpace: char -> bool)
    ensures Scraper.BodyRejected(text, isSpace) ==> BodyRejected(text, isSpace)
  {
  }

  /**
    The skeleton itself is refused here, though the earlier version would
    parse it whenever its first character is not whitespace.
  */
  lemma SkeletonRejected(isSpace: char -> bool)
    requires !isSpace('<')
    ensures BodyRejected(Skeleton, isSpace)
    ensures !Scraper.BodyRejected(Skeleton, isSpace)
  {
    assert OccursAt(Skeleton, Skeleton, 0);
    assert !isSpace(Skeleton[0]);
  }

  /** The failures after which the response text is saved. */
  datatype DumpKind =
    | EmptyBody       // the body was refused
    | NoDescription   // the query found no nodes
    | ParseFailure    // the parser raised

  /** The start of the file name for each kind. Every prefix ends in `_`, and
      its first and seventh characters tell the kinds apart. */
  function DumpPrefix(kind: DumpKind): (p: string)
    ensures 7 <= |p| && p[|p| - 1] == '_'
    ensures p[0] == 'd' <==> kind == NoDescription
    ensures p[6] == 'p' <==> kind == ParseFailure
  {
    match kind
    case EmptyBody => "error_empty_"
    case NoDescription => "debug_html_"
    case ParseFailure => "error_parsing_"
  }

  const DumpSuffix := ".html"

  /** `f"{prefix}{ticker}_{int(time.time())}.html"` */
  function DebugFileName(kind: DumpKind, ticker: string, now: int): (name: string)
    ensures DumpPrefix(kind) <= name
    ensures |DumpPrefix(kind)| + |DumpSuffix| <= |name|
    ensures name[|name| - |DumpSuffix|..] == DumpSuffix
    ensures name[|DumpPrefix(kind)|..|name| - |DumpSuffix|] == ticker + "_" + IntToDecimal(now)
  {
    DumpPrefix(kind) + ticker + "_" + IntToDecimal(now) + DumpSuffix
  }

  /** A name starts with the prefix of one kind only. */
  lemma PrefixesExclusive(k1: DumpKind, k2: DumpKind, name: string)
    requires DumpPrefix(k1) <= name && DumpPrefix(k2) <= name
    ensures k1 == k2
  {
    assert DumpPrefix(k1)[0] == name[0] == DumpPrefix(k2)[0];
    assert DumpPrefix(k1)[6] == name[6] == DumpPrefix(k2)[6];
  }

  /** The three failure kinds never write to the same file name, whatever the
      tickers and times. */
  lemma DebugFileNamesDistinct(k1: DumpKind, t1: string, n1: int, k2: DumpKind, t2: string, n2: int)
    requires k1 != k2
    ensures DebugFileName(k1, t1, n1) != DebugFileName(k2, t2, n2)
  {
    if DebugFileName(k1, t1, n1) == DebugFileName(k2, t2, n2) {
      PrefixesExclusive(k1, k2, DebugFileName(k1, t1, n1));
    }
  }

  /** The index of the last `c` in `s`. */
  function LastIndexOf(s: string, c: char): (r: Option<nat>)
    ensures r.Some? ==> r.value < |s| && s[r.value] == c
    ensures r.Some? ==> forall j :: r.value < j < |s| ==> s[j] != c
    ensures r.None? ==> c !in s
  {
    if s == [] then None
    else if s[|s| - 1] == c then Some(|s| - 1)
    else LastIndexOf(s[..|s| - 1], c)
  }

  /** The failure kind whose prefix starts `name`. */
  function KindOf(name: string): Option<DumpKind> {
    if DumpPrefix(EmptyBody) <= name then Some(EmptyBody)
    else if DumpPrefix(NoDescription) <= name then Some(NoDescription)
    else if DumpPrefix(ParseFailure) <= name then Some(ParseFailure)
    else None
  }

  /** Splits `ticker_time` at its last underscore. */
  function SplitStamp(middle: string): Option<(string, int)> {
    match LastIndexOf(middle, '_')
    case None => None
    case Some(i) =>
      match ParseInt(middle[i + 1..])
      case None => None
      case Some(n) => Some((middle[..i], n))
  }

  /** Reads a debug file name back into its kind, ticker and time. */
  function ParseDebugFileName(name: string): Option<(DumpKind, string, int)> {
    match KindOf(name)
    case None => None
    case Some(kind) =>
      if |name| < |DumpPrefix(kind)| + |DumpSuffix| then None
      else
        match SplitStamp(name[|DumpPrefix(kind)|..|name| - |DumpSuffix|])
        case None => None
        case Some((ticker, now)) => Some((kind, ticker, now))
  }

  /** The prefix of a name tells its kind: no other kind's prefix starts it,
      so the ordered test in `KindOf` finds the kind it was made with. */
  lemma KindOfName(kind: DumpKind, ticker: string, now: int)
    ensures forall k :: DumpPrefix(k) <= DebugFileName(kind, ticker, now) ==> k == kind
    ensures KindOf(DebugFileName(kind, ticker, now)) == Some(kind)
  {
    var name := DebugFileName(kind, ticker, now);
    forall k | DumpPrefix(k) <= name ensures k == kind {
      PrefixesExclusive(k, kind, name);
    }
  }

  /** The time printed after the last underscore is read back, and the ticker
      before it, even when the ticker holds underscores itself. */
  lemma SplitStampRoundTrip(ticker: string, now: int)
    ensures SplitStamp(ticker + "_" + IntToDecimal(now)) == Some((ticker, now))
  {
    var digits := IntToDecimal(now);
    var middle := ticker + "_" + digits;
    assert middle[|ticker|] == '_';
    assert LastIndexOf(middle, '_') == Some(|ticker|) by {
      forall j | |ticker| < j < |middle| ensures middle[j] != '_' {
        assert middle[j] == digits[j - |ticker| - 1];
      }
    }
    assert middle[..|ticker|] == ticker;
    assert middle[|ticker| + 1..] == digits;
    ParseIntDecimal(now);
  }

  /** A debug file name gives back the kind, the ticker and the time it was
      made from. */
  lemma ParseDebugFileNameRoundTrip(kind: DumpKind, ticker: string, now: int)
    ensures ParseDebugFileName(DebugFileName(kind, ticker, now)) == Some((kind, ticker, now))
  {
    KindOfName(kind, ticker, now);
    SplitStampRoundTrip(ticker, now);
  }

  /** Two debug writes go to the same file only when kind, ticker and time
      (in whole seconds) are all the same. */
  lemma DebugFileNameInjective(k1: DumpKind, t1: string, n1: int, k2: DumpKind, t2: string, n2: int)
    requires DebugFileName(k1, t1, n1) == DebugFileName(k2, t2, n2)
    ensures k1 == k2 && t1 == t2 && n1 == n2
  {
    ParseDebugFileNameRoundTrip(k1, t1, n1);
    ParseDebugFileNameRoundTrip(k2, t2, n2);
  }

  /** A file the function writes: its name and the text written to it. */
  datatype Dump = Dump(fileName: string, contents: string)

  /** What one call does: the value it returns and the file it writes, if any. */
  datatype Run = Run(returned: Option<string>, dump: Option<Dump>)

  /**
    The whole function. A description comes back exactly when the request
    succeeded, the body passes the stricter guard, the parser accepted it and
    the query found nodes; then nothing is written. After a response on every
    other path the response text is written to a file named for that failure.
  */
  function Scrape(ticker: string, fetch: string -> Scraper.Fetched,
                  extract: string -> Scraper.Extraction, now: int,
                  isSpace: char -> bool): (run: Run)
    ensures var response := fetch(Scraper.TargetUrl(ticker));
      run.returned.Some? <==>
        && response.Received?
        && !BodyRejected(response.text, isSpace)
        && extract(response.text).TextNodes?
        && extract(response.text).nodes != []
    ensures run.returned.Some? ==>
      NoEdgeSpace(run.returned.value, isSpace) && !Occurs(run.returned.value, Scraper.Marker)
    ensures var response := fetch(Scraper.TargetUrl(ticker));
      response.Received? && !BodyRejected(response.text, isSpace) && extract(response.text).TextNodes? ==>
        run.returned == Scraper.CleanDescription(extract(response.text).nodes, isSpace)
    ensures var response := fetch(Scraper.TargetUrl(ticker));
      run.dump.Some? <==> response.Received? && run.returned.None?
    ensures run.dump.Some? ==> run.dump.value.contents == fetch(Scraper.TargetUrl(ticker)).text
    ensures var response := fetch(Scraper.TargetUrl(ticker));
      response.Received? && BodyRejected(response.text, isSpace) ==>
        run.dump == Some(Dump(DebugFileName(EmptyBody, ticker, now), response.text))
    ensures var response := fetch(Scraper.TargetUrl(ticker));
      response.Received? && !BodyRejected(response.text, isSpace) && extract(response.text).ParserError? ==>
        run.dump == Some(Dump(DebugFileName(ParseFailure, ticker, now), response.text))
    ensures var response := fetch(Scraper.TargetUrl(ticker));
      response.Received? && !BodyRejected(response.text, isSpace) && extract(response.text) == Scraper.TextNodes([]) ==>
        run.dump == Some(Dump(DebugFileName(NoDescription, ticker, now), response.text))
  {
    match fetch(Scraper.TargetUrl(ticker))
    case RequestFailed(_) => Run(None, None)
    case Received(text) =>
      if BodyRejected(text, isSpace) then
        Run(None, Some(Dump(DebugFileName(EmptyBody, ticker, now), text)))
      else
        match extract(text)
        case ParserError(_) =>
          Run(None, Some(Dump(DebugFileName(ParseFailure, ticker, now), text)))
        case TextNodes(nodes) =>
          if nodes == [] then
            Run(None, Some(Dump(DebugFileName(NoDescription, ticker, now), text)))
          else
            Run(Scraper.CleanDescription(nodes, isSpace), None)
  }

  /**
    A refused body is never handed to the parser: two extractors that agree on
    every body the guard lets through give the same run, and a refused body
    ends in the "empty" debug file and `None`.
  */
  lemma ScrapeParsesOnlyAccepted(ticker: string, fetch: string -> Scraper.Fetched,
                                 e1: string -> Scraper.Extraction, e2: string -> Scraper.Extraction,
                                 now: int, isSpace: char -> bool)
    requires forall t :: !BodyRejected(t, isSpace) ==> e1(t) == e2(t)
    ensures Scrape(ticker, fetch, e1, now, isSpace) == Scrape(ticker, fetch, e2, now, isSpace)
    ensures var response := fetch(Scraper.TargetUrl(ticker));
      response.Received? && BodyRejected(response.text, isSpace) ==>
        Scrape(ticker, fetch, e1, now, isSpace)
          == Run(None, Some(Dump(DebugFileName(EmptyBody, ticker, now), response.text)))
  {
  }

  /**
    Given the same response, the two versions agree on the value returned,
    except that this one also returns `None` for a body whose first 100
    characters hold the skeleton. (The two send different request
    parameters, so the same response is an assumption, not a consequence.)
  */
  lemma AgreesWithScraper(ticker: string, fetch: string -> Scraper.Fetched,
                          extract: string -> Scraper.Extraction, now: int,
                          isSpace: char -> bool)
    ensures var response := fetch(Scraper.TargetUrl(ticker));
      Scrape(ticker, fetch, extract, now, isSpace).returned ==
        if response.Received? && BodyRejected(response.text, isSpace) then None
        else Scraper.Scrape(ticker, fetch, extract, isSpace)
  {
  }

  /**
    Before the footer is cut off, the description is the text nodes in the
    order the query returned them, each stripped, with exactly one space
    between neighbours.
  */
  lemma FragmentsInOrder(nodes: seq<string>, k: nat, isSpace: char -> bool)
    requires k < |nodes|
    ensures var joined := Join(" ", Scraper.StripAll(nodes, isSpace));
      var at := Offset(" ", Scraper.StripAll(nodes, isSpace), k);
      && at + |Strip(nodes[k], isSpace)| <= |joined|
      && joined[at..at + |Strip(nodes[k], isSpace)|] == Strip(nodes[k], isSpace)
      && (k + 1 < |nodes| ==>
            && Offset(" ", Scraper.StripAll(nodes, isSpace), k + 1) == at + |Strip(nodes[k], isSpace)| + 1
            && at + |Strip(nodes[k], isSpace)| < |joined|
            && joined[at + |Strip(nodes[k], isSpace)|] == ' ')
      && (k + 1 == |nodes| ==> at + |Strip(nodes[k], isSpace)| == |joined|)
  {
    var stripped := Scraper.StripAll(nodes, isSpace);
    JoinWithSpace(stripped, k);
    assert stripped[k] == Strip(nodes[k], isSpace);
  }

  /**
    What the caller at the end of the script prints: a description exactly
    when the body passes the stricter guard, some node holds more than
    whitespace, and the joined text does not start with the footer.
  */
  lemma ScrapeReported(ticker: string, fetch: string -> Scraper.Fetched,
                       extract: string -> Scraper.Extraction, now: int,
                       isSpace: char -> bool)
    requires isSpace(' ')
    ensures var response := fetch(Scraper.TargetUrl(ticker));
      Scraper.Reported(Scrape(ticker, fetch, extract, now, isSpace).returned) <==>
        && response.Received?
        && !BodyRejected(response.text, isSpace)
        && extract(response.text).TextNodes?
        && extract(response.text).nodes != []
        && !(forall i :: 0 <= i < |extract(response.text).nodes| ==>
               AllSpace(extract(response.text).nodes[i], isSpace))
        && !(Scraper.Marker <= Scraper.JoinedText(extract(response.text).nodes, isSpace))
  {
    var response := fetch(Scraper.TargetUrl(ticker));
    if response.Received? && !BodyRejected(response.text, isSpace) && extract(response.text).TextNodes? {
      var nodes := extract(response.text).nodes;
      if nodes != [] {
        Scraper.CleanEmptyExactly(nodes, isSpace);
      }
    }
  }
}
