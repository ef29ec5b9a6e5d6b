/**
  scraper.py: `scrape_stooq_profile_with_scrapingbee(ticker)` asks the
  ScrapingBee rendering service for the stooq.pl profile page of `ticker`,
  rejects a blank body, extracts the text nodes that follow the "Profil"
  table and cleans them into the company description.

  The network call is the parameter `fetch` (the page text, or the failure of
  the request); lxml's parser together with the XPath query is the parameter
  `extract` (the list of text nodes, or the parser's error). Both scripts
  return `None` on every failure, so the result is an `Option<string>`.
*/
module Scraper {
  import opened Strings

  /** The profile page address without the ticker. */
  const UrlPrefix := "https://stooq.pl/q/p/?s="

  /** The attribution footer ("Source:") that ends the description on the page. */
  const Marker := "Źródło:"

  /** The outcome of the request to the rendering service. */
  datatype Fetched =
    | Received(text: string)      // a response `raise_for_status` let through, and its text
    | RequestFailed(detail: string)

  /** The outcome of parsing the body and running the description query. */
  datatype Extraction =
    | TextNodes(nodes: seq<string>)
    | ParserError(message: string)

  /** The page that is requested for `ticker`: the prefix, then the ticker unchanged. */
  function TargetUrl(ticker: string): (url: string)
    ensures UrlPrefix <= url
    ensures url[|UrlPrefix|..] == ticker
  {
    UrlPrefix + ticker
  }

  /** Different tickers ask for different pages. */
  lemma TargetUrlInjective(a: string, b: string)
    ensures TargetUrl(a) == TargetUrl(b) <==> a == b
  {
    if TargetUrl(a) == TargetUrl(b) {
      assert a == TargetUrl(a)[|UrlPrefix|..];
    }
  }

  /** The guard `not text or text.isspace()`: a body is refused exactly when
      every character in it is whitespace, the empty body included. */
  function BodyRejected(text: string, isSpace: char -> bool): (rejected: bool)
    ensures rejected <==> AllSpace(text, isSpace)
  {
    text == [] || IsSpaceStr(text, isSpace)
  }

  /** Every node stripped, in order. */
  function StripAll(nodes: seq<string>, isSpace: char -> bool): (r: seq<string>)
    ensures |r| == |nodes|
    ensures forall i :: 0 <= i < |nodes| ==> r[i] == Strip(nodes[i], isSpace)
  {
    seq(|nodes|, i requires 0 <= i < |nodes| => Strip(nodes[i], isSpace))
  }

  /** `" ".join(node.strip() for node in nodes).strip()`: the description
      before the attribution footer is cut off. */
  function JoinedText(nodes: seq<string>, isSpace: char -> bool): (t: string)
    ensures NoEdgeSpace(t, isSpace)
  {
    Strip(Join(" ", StripAll(nodes, isSpace)), isSpace)
  }

  /**
    The cleaning of the description nodes: no nodes is "not found"; otherwise
    the joined text, cut before the first "Źródło:" when there is one. The
    result never has whitespace at its edges and never holds the marker.
  */
  function CleanDescription(nodes: seq<string>, isSpace: char -> bool): (r: Option<string>)
    ensures r.None? <==> nodes == []
    ensures r.Some? ==> NoEdgeSpace(r.value, isSpace)
    ensures r.Some? ==> !Occurs(r.value, Marker)
  {
    if nodes == [] then None
    else
      var description := JoinedText(nodes, isSpace);
      if Find(description, Marker).Some? then
        var before := SplitFirst(description, Marker);
        var cleaned := Strip(before, isSpace);
        assert !Occurs(cleaned, Marker) by {
          if Occurs(cleaned, Marker) {
            StripShape(before, isSpace);
            OccursInWhole(before, cleaned, LeadingSpace(before, isSpace), Marker);
          }
        }
        Some(cleaned)
      else
        Some(description)
  }

  /** Without the footer, the description is the joined text, not shortened. */
  lemma CleanWithoutMarker(nodes: seq<string>, isSpace: char -> bool)
    requires nodes != []
    requires !Occurs(JoinedText(nodes, isSpace), Marker)
    ensures CleanDescription(nodes, isSpace) == Some(JoinedText(nodes, isSpace))
  {
  }

  /**
    With the footer, the description is the stripped text before its first
    occurrence, and it is a piece of the joined text.
  */
  lemma CleanWithMarker(nodes: seq<string>, isSpace: char -> bool, i: nat)
    requires nodes != []
    requires OccursAt(JoinedText(nodes, isSpace), Marker, i)
    requires forall j: nat :: j < i ==> !OccursAt(JoinedText(nodes, isSpace), Marker, j)
    ensures CleanDescription(nodes, isSpace) == Some(Strip(JoinedText(nodes, isSpace)[..i], isSpace))
    ensures Occurs(JoinedText(nodes, isSpace), CleanDescription(nodes, isSpace).value)
  {
    var joined := JoinedText(nodes, isSpace);
    var before := SplitFirst(joined, Marker);
    assert Occurs(joined, Marker);
    // `SplitFirst` stops at the first occurrence, which is the one at `i`:
    // a shorter prefix would be followed by an earlier occurrence, and a
    // longer one would contain the occurrence at `i`.
    assert |before| == i by {
      if |before| < i {
      } else if |before| > i {
      }
    }
    assert before == joined[..i];
    var cleaned := Strip(before, isSpace);
    StripShape(before, isSpace);
    var a := LeadingSpace(before, isSpace);
    assert joined[a..a + |cleaned|] == cleaned;
    assert OccursAt(joined, cleaned, a);
  }

  /**
    A joined text that starts with the footer cleans to the empty string,
    which the caller's truthiness test treats as a failure.
  */
  lemma CleanStartsWithMarker(nodes: seq<string>, isSpace: char -> bool)
    requires nodes != []
    requires Marker <= JoinedText(nodes, isSpace)
    ensures CleanDescription(nodes, isSpace) == Some("")
    ensures !Reported(CleanDescription(nodes, isSpace))
  {
    var joined := JoinedText(nodes, isSpace);
    assert joined[0..|Marker|] == Marker;
    CleanWithMarker(nodes, isSpace, 0);
  }

  /** No occurrence of the footer can start inside a text that lacks its first letter. */
  lemma MarkerNotBefore(front: string, back: string)
    requires Marker[0] !in front
    ensures forall j: nat :: j < |front| ==> !OccursAt(front + back, Marker, j)
  {
    forall j: nat | j < |front| ensures !OccursAt(front + back, Marker, j) {
      assert (front + back)[j] == front[j];
    }
  }

  /** Stripping the nodes of `CleanTwoFragments` removes only the padding. */
  lemma TwoFragmentsStripped(a: string, b: string, pad: string, footer: string, isSpace: char -> bool)
    requires NoEdgeSpace(a, isSpace) && NoEdgeSpace(b, isSpace) && NoEdgeSpace(footer, isSpace)
    requires AllSpace(pad, isSpace)
    ensures StripAll([a, pad + b + pad, footer], isSpace) == [a, b, footer]
  {
    StripNoEdge(a, isSpace);
    StripUnique(pad, b, pad, isSpace);
    StripNoEdge(footer, isSpace);
  }

  /** The nodes of `CleanTwoFragments` join to the fragments, one space apart,
      followed by the footer. */
  lemma TwoFragmentsJoined(a: string, b: string, pad: string, rest: string, isSpace: char -> bool)
    requires a != [] && NoEdgeSpace(a, isSpace) && NoEdgeSpace(b, isSpace)
    requires AllSpace(pad, isSpace)
    requires NoEdgeSpace(Marker + rest, isSpace)
    ensures JoinedText([a, pad + b + pad, Marker + rest], isSpace) == (a + " " + b + " ") + (Marker + rest)
  {
    var footer := Marker + rest;
    TwoFragmentsStripped(a, b, pad, footer, isSpace);
    Join3(" ", a, b, footer);
    var joined := a + " " + b + " " + footer;
    assert joined[0] == a[0];
    assert joined[|joined| - 1] == footer[|footer| - 1];
    StripNoEdge(joined, isSpace);
  }

  /** The first footer in `front + Marker + rest` is the one right after `front`. */
  lemma FirstMarkerAfter(front: string, rest: string)
    requires Marker[0] !in front
    ensures OccursAt(front + (Marker + rest), Marker, |front|)
    ensures forall j: nat :: j < |front| ==> !OccursAt(front + (Marker + rest), Marker, j)
    ensures (front + (Marker + rest))[..|front|] == front
  {
    var joined := front + (Marker + rest);
    MarkerNotBefore(front, Marker + rest);
    assert joined[|front|..|front| + |Marker|] == Marker;
  }

  /** A trailing space is stripped from a text with no whitespace at its edges. */
  lemma StripTrailingBlank(core: string, isSpace: char -> bool)
    requires isSpace(' ') && NoEdgeSpace(core, isSpace)
    ensures Strip(core + " ", isSpace) == core
  {
    StripUnique([], core, " ", isSpace);
    assert [] + core + " " == core + " ";
  }

  /**
    Two description fragments followed by the footer clean to the two
    fragments joined by one space: the footer is cut off, whatever follows
    it, and the whitespace around each fragment is gone.
  */
  lemma CleanTwoFragments(a: string, b: string, pad: string, rest: string, isSpace: char -> bool)
    requires isSpace(' ')
    requires a != [] && b != [] && NoEdgeSpace(a, isSpace) && NoEdgeSpace(b, isSpace)
    requires AllSpace(pad, isSpace)
    requires Marker[0] !in a && Marker[0] !in b
    requires NoEdgeSpace(Marker + rest, isSpace)
    ensures CleanDescription([a, pad + b + pad, Marker + rest], isSpace) == Some(a + " " + b)
  {
    var core := a + " " + b;
    var front := core + " ";
    TwoFragmentsJoined(a, b, pad, rest, isSpace);
    assert Marker[0] !in front by {
      assert Marker[0] != ' ';
    }
    FirstMarkerAfter(front, rest);
    CleanWithMarker([a, pad + b + pad, Marker + rest], isSpace, |front|);
    assert NoEdgeSpace(core, isSpace) by {
      assert core[0] == a[0];
      assert core[|a| + |b|] == b[|b| - 1];
    }
    StripTrailingBlank(core, isSpace);
  }

  /** The caller's `if profile_description:` test: `None` and `""` are both
      false, and every other string is true. */
  function Reported(r: Option<string>): (reported: bool)
    ensures r.None? ==> !reported
    ensures r.Some? ==> (reported <==> |r.value| > 0)
  {
    r.Some? && r.value != []
  }

  /** The joined text is empty exactly when every node is whitespace only. */
  lemma JoinedBlank(nodes: seq<string>, isSpace: char -> bool)
    requires isSpace(' ')
    ensures JoinedText(nodes, isSpace) == [] <==> forall i :: 0 <= i < |nodes| ==> AllSpace(nodes[i], isSpace)
  {
    var stripped := StripAll(nodes, isSpace);
    JoinBlank(stripped, isSpace);
  }

  /**
    The cleaned description of a non-empty node list is `""` in exactly two
    cases: every node is whitespace only (to Python; the query's
    `normalize-space()` filter keeps a node made of other whitespace, such as
    a no-break space), or the joined text starts with the footer.
  */
  lemma CleanEmptyExactly(nodes: seq<string>, isSpace: char -> bool)
    requires nodes != [] && isSpace(' ')
    ensures CleanDescription(nodes, isSpace) == Some("") <==>
      || (forall i :: 0 <= i < |nodes| ==> AllSpace(nodes[i], isSpace))
      || Marker <= JoinedText(nodes, isSpace)
  {
    JoinedBlank(nodes, isSpace);
    var joined := JoinedText(nodes, isSpace);
    if joined == [] {
      CleanWithoutMarker(nodes, isSpace);
    } else if Find(joined, Marker).Some? {
      var i := Find(joined, Marker).value;
      CleanWithMarker(nodes, isSpace, i);
      PrefixOccurs(joined, Marker);
      if i == 0 {
        assert joined[..|Marker|] == Marker;
      } else {
        assert joined[..i][0] == joined[0];
      }
    } else {
      CleanWithoutMarker(nodes, isSpace);
      PrefixOccurs(joined, Marker);
    }
  }

  /**
    The whole function. A description comes back exactly when the request
    succeeded, the body is not blank, the parser accepted it and the query
    found nodes; it is then cleaned as `CleanDescription` says.
  */
  function Scrape(ticker: string, fetch: string -> Fetched, extract: string -> Extraction,
                  isSpace: char -> bool): (r: Option<string>)
    ensures var response := fetch(TargetUrl(ticker));
      r.Some? <==>
        && response.Received?
        && !AllSpace(response.text, isSpace)
        && extract(response.text).TextNodes?
        && extract(response.text).nodes != []
    ensures r.Some? ==> NoEdgeSpace(r.value, isSpace) && !Occurs(r.value, Marker)
    ensures var response := fetch(TargetUrl(ticker));
      response.Received? && !AllSpace(response.text, isSpace) && extract(response.text).TextNodes? ==>
        r == CleanDescription(extract(response.text).nodes, isSpace)
  {
    match fetch(TargetUrl(ticker))
    case RequestFailed(_) => None
    case Received(text) =>
      if BodyRejected(text, isSpace) then None
      else
        match extract(text)
        case ParserError(_) => None
        case TextNodes(nodes) => CleanDescription(nodes, isSpace)
  }

  /**
    A blank body is never handed to the parser: two extractors that agree on
    every non-blank text give the same result, and on a blank body the result
    is `None` whatever the extractor.
  */
  lemma ScrapeParsesOnlyNonBlank(ticker: string, fetch: string -> Fetched,
                                 e1: string -> Extraction, e2: string -> Extraction,
                                 isSpace: char -> bool)
    requires forall t :: !AllSpace(t, isSpace) ==> e1(t) == e2(t)
    ensures Scrape(ticker, fetch, e1, isSpace) == Scrape(ticker, fetch, e2, isSpace)
    ensures fetch(TargetUrl(ticker)).Received? && AllSpace(fetch(TargetUrl(ticker)).text, isSpace) ==>
      Scrape(ticker, fetch, e1, isSpace) == None
  {
  }

  /**
    What the caller at the end of the script prints: a description exactly
    when `Scrape` succeeds, some node holds more than whitespace, and the
    joined text does not start with the footer.
  */
  lemma ScrapeReported(ticker: string, fetch: string -> Fetched, extract: string -> Extraction,
                       isSpace: char -> bool)
    requires isSpace(' ')
    ensures var response := fetch(TargetUrl(ticker));
      Reported(Scrape(ticker, fetch, extract, isSpace)) <==>
        && response.Received?
        && !AllSpace(response.text, isSpace)
        && extract(response.text).TextNodes?
        && extract(response.text).nodes != []
        && !(forall i :: 0 <= i < |extract(response.text).nodes| ==>
               AllSpace(extract(response.text).nodes[i], isSpace))
        && !(Marker <= JoinedText(extract(response.text).nodes, isSpace))
  {
    var response := fetch(TargetUrl(ticker));
    if response.Received? && !AllSpace(response.text, isSpace) && extract(response.text).TextNodes? {
      var nodes := extract(response.text).nodes;
      if nodes != [] {
        CleanEmptyExactly(nodes, isSpace);
      }
    }
  }
}
