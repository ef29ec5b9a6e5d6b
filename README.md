# stooq profile scraper: a Dafny model of its text pipeline

Two versions of one Python script, `scraper.py` and the later `dezakt-scraper.py`,
fetch the stooq.pl profile page of a stock ticker through the ScrapingBee
rendering service and pull out the company description. Around the network
call and the HTML parser sits a small text pipeline. It builds the page address
from the ticker, refuses a blank response body, and then cleans the text nodes
that the XPath query returns. Cleaning strips each node, joins the nodes with
single spaces, strips the result, and cuts it before the attribution footer
`Źródło:` ("Source:"). The later version also refuses a body whose first 100
characters hold the empty-document skeleton
`<html><head></head><body></body></html>`. After each failure that follows a
response, it also writes the response text to a debug file named after the
failure kind, the ticker and the time.

This project models that pipeline and proves its properties:

- `strings.dfy` (module `Strings`) holds the Python `str` operations the
  pipeline uses: `strip`, `isspace`, `in`, `split(sep)[0]`, `sep.join` and
  `str()` of an integer.
- `scraper.dfy` (module `Scraper`) models `scraper.py`.
- `dezakt_scraper.dfy` (module `DezaktScraper`) models `dezakt-scraper.py`.

The two scripts build the address and clean the nodes with the same code, so
`DezaktScraper` reuses `Scraper.TargetUrl` and `Scraper.CleanDescription`.
It adds only what differs: the stricter guard, the debug files, and the
function built from them.

Every function that needs whitespace takes a parameter `isSpace: char -> bool`.
Python decides whitespace from the Unicode table. The properties hold for any
table that, like Python's, counts `' '` as whitespace and `'<'` as not. Most
hold for every table; the few that need one of those two facts list it in
their `requires`. The request is the parameter `fetch`. It gives
the page text, or the failure of the request. The lxml parser and the XPath
query together are the parameter `extract`. It gives the list of text nodes, or
the parser's error. The statement "a refused body never reaches the parser" is
proved as: two extractors that agree on every accepted body give the same
result. The clock reading `int(time.time())` is the parameter `now`. The file
write is data in the result: the file name and the text written.

Both functions return `None` on every failure, and a description string
otherwise. The description can be the empty string, in exactly two cases.
In the first, every node the query returned is whitespace to Python. The
query's `normalize-space()` filter removes only spaces, tabs and line breaks,
so it keeps a node made of a no-break space, and `.strip()` then removes that
node entirely. In the second, the joined text starts with the footer. The
function returns `""` in both cases, and only the caller's
`if profile_description:` test treats it as a failure.
The model follows the code here. It does not turn an empty description into
"not found" inside the function.

## Model

| member | source | states |
|---|---|---|
| `Strings.IsSpaceStr` | scraper.py:55 | `str.isspace()`: false on the empty string; otherwise true exactly when every character is whitespace |
| `Strings.Strip` | scraper.py:70 | `str.strip()`: the result has no whitespace at either end, and it is empty exactly when the input is all whitespace |
| `Strings.StripShape` | scraper.py:70 | stripping removes only whitespace, and only from the two ends: the result is the piece of the input that starts after the leading whitespace |
| `Strings.StripUnique` | scraper.py:70 | whitespace, then a core with no whitespace at its edges, then whitespace again, strips to exactly that core |
| `Strings.StripIdempotent` | scraper.py:70 | stripping text that is already stripped changes nothing |
| `Strings.Find` | scraper.py:72 | `marker in text`: the result is present exactly when the marker occurs, and it is the index of the first occurrence |
| `Strings.SplitFirst` | scraper.py:73 | `split(sep)[0]` is the prefix before the first occurrence of `sep`: no occurrence starts inside it, `sep` follows it when `sep` occurs, and it is the whole text when `sep` does not occur |
| `Strings.JoinLayout` | scraper.py:70 | `sep.join(parts)` holds every part unchanged and in order, at a computed offset, with exactly one `sep` after each part but the last, and the last part ends the string |
| `Strings.JoinBlank` | scraper.py:70 | a space-joined list of stripped parts is all whitespace exactly when every part is empty |
| `Strings.IntToDecimal` | dezakt-scraper.py:44 | `str()` of an integer: digits, with a minus sign in front exactly when the number is negative; the digits start with `0` only for zero itself, so there is no leading zero and no `-0` |
| `Strings.ParseIntDecimal` | dezakt-scraper.py:44 | the decimal text of any integer parses back to that integer |
| `Strings.IntToDecimalInjective` | dezakt-scraper.py:44 | two different timestamps never print the same |
| `Scraper.TargetUrl` | scraper.py:28 | the requested address is `https://stooq.pl/q/p/?s=` followed by the ticker, unchanged |
| `Scraper.TargetUrlInjective` | scraper.py:28 | two tickers give the same address exactly when they are equal |
| `Scraper.BodyRejected` | scraper.py:55-57 | `not text or text.isspace()` is true exactly when every character of the body is whitespace, the empty body included |
| `Scraper.JoinedText` | scraper.py:70 | `" ".join(node.strip() ...).strip()` has no whitespace at either end |
| `Scraper.JoinedBlank` | scraper.py:70 | the joined text is empty exactly when every node is whitespace only |
| `Scraper.CleanDescription` | scraper.py:68-75 | no nodes gives `None`, and any nodes give a string; that string has no whitespace at either end and never holds `Źródło:` |
| `Scraper.CleanWithoutMarker` | scraper.py:70-75 | when the joined text holds no footer, the description is the joined and stripped text, not shortened |
| `Scraper.CleanWithMarker` | scraper.py:72-73 | when the footer first occurs at index `i`, the description is the stripped text before `i`, and it is a substring of the joined text |
| `Scraper.CleanStartsWithMarker` | scraper.py:73 | a joined text that starts with the footer cleans to `""`, which the caller's truthiness test at line 145 treats as a failure |
| `Scraper.CleanEmptyExactly` | scraper.py:64-75 | for a non-empty node list the description is `""` exactly when every node is whitespace only, or when the joined text starts with the footer |
| `Scraper.CleanTwoFragments` | scraper.py:68-75 | nodes `a`, a padded `b` and a footer clean to `a + " " + b`: the footer and everything after it is cut off and the padding is gone |
| `Scraper.Reported` | scraper.py:145 | the caller's truthiness test: `None` is false, and a description is true exactly when it is non-empty |
| `Scraper.Scrape` | scraper.py:28-75 | a description comes back exactly when the request succeeded, the body is not blank, the parser accepted it and the query found nodes. It is then `CleanDescription` of those nodes, so it has no edge whitespace and no footer |
| `Scraper.ScrapeParsesOnlyNonBlank` | scraper.py:55-61 | a blank body never reaches the parser: extractors that agree on non-blank bodies give the same result, and a blank body gives `None` |
| `Scraper.ScrapeReported` | scraper.py:142-149 | the script prints a description exactly when the request succeeded, the body is not blank, the parser accepted it, some returned node holds more than whitespace, and the joined text does not start with the footer |
| `DezaktScraper.Head` | dezakt-scraper.py:41 | `text[:100]` is a prefix of the text, of length 100 or the whole text when it is shorter |
| `DezaktScraper.BodyRejected` | dezakt-scraper.py:41 | a body is refused exactly when it is all whitespace, or when the skeleton lies wholly inside its first 100 characters |
| `DezaktScraper.SkeletonInHead` | dezakt-scraper.py:41 | the skeleton occurs in `text[:100]` exactly when it occurs in the text at some index `i` with `i + 39 <= 100` |
| `DezaktScraper.RejectsMoreThanScraper` | dezakt-scraper.py:41 | every body the earlier version refuses, the later version refuses too |
| `DezaktScraper.SkeletonRejected` | dezakt-scraper.py:41 | the bare skeleton is refused by the later guard and accepted by the earlier one |
| `DezaktScraper.DumpPrefix` | dezakt-scraper.py:44-76 | each prefix ends in `_`; its first character is `d` only for the no-description kind, and its seventh is `p` only for the parse-failure kind |
| `DezaktScraper.PrefixesExclusive` | dezakt-scraper.py:44-76 | no name starts with the prefixes of two different kinds |
| `DezaktScraper.DebugFileName` | dezakt-scraper.py:44 | the file name is the kind's prefix, then the ticker, `_`, the decimal time, and `.html` |
| `DezaktScraper.DebugFileNamesDistinct` | dezakt-scraper.py:44-76 | the prefixes `error_empty_`, `debug_html_` and `error_parsing_` never produce the same name, whatever the tickers and times |
| `DezaktScraper.KindOfName` | dezakt-scraper.py:44-76 | no kind's prefix but its own starts a debug file name, so testing the prefixes in any order finds the kind the name was made with |
| `DezaktScraper.SplitStampRoundTrip` | dezakt-scraper.py:44 | the ticker and time are read back from `ticker_time` at its last underscore, even when the ticker holds underscores |
| `DezaktScraper.ParseDebugFileNameRoundTrip` | dezakt-scraper.py:76 | every debug file name reads back to the kind, ticker and time it was made from |
| `DezaktScraper.DebugFileNameInjective` | dezakt-scraper.py:44 | two writes go to the same file only when the kind, the ticker and the time in whole seconds are all equal |
| `DezaktScraper.Scrape` | dezakt-scraper.py:17-83 | a description comes back exactly when the request succeeded, the body passes the stricter guard, the parser accepted it and nodes were found. It is then `Scraper.CleanDescription` of those nodes, and nothing is written. After any other response the response text is written: to `error_empty_…` for a refused body, to `error_parsing_…` when the parser fails, and to `debug_html_…` when the query finds no nodes |
| `DezaktScraper.ScrapeParsesOnlyAccepted` | dezakt-scraper.py:41-51 | a refused body never reaches the parser: extractors that agree on accepted bodies give the same run, and a refused body gives `None` and the `error_empty_` file |
| `DezaktScraper.AgreesWithScraper` | dezakt-scraper.py:41-59 | given the same response, both versions return the same value, except that the later one also returns `None` for a body its stricter guard refuses |
| `DezaktScraper.FragmentsInOrder` | dezakt-scraper.py:56 | before the footer is cut, the text holds the nodes in input order, each stripped, with exactly one space between neighbours |
| `DezaktScraper.ScrapeReported` | dezakt-scraper.py:106-108 | the script prints a description exactly when the body passes the stricter guard, the parser accepted it, some returned node holds more than whitespace, and the joined text does not start with the footer |

The address at dezakt-scraper.py:17 and the cleaning at dezakt-scraper.py:55-59
are the same expressions as scraper.py:28 and scraper.py:68-75.
`DezaktScraper.Scrape` calls `Scraper.TargetUrl` and `Scraper.CleanDescription`,
so the rows for those members cover both files.

## Left out

- The HTTP request to ScrapingBee is left out: its parameters (`render_js`, `premium_proxy`, `wait_for`, `timeout`), the timeouts, `raise_for_status` and the JSON error-detail extraction are network I/O and a foreign service. The request is the input `fetch`.
- The `SCRAPINGBEE_API_KEY` check and `sys.exit` at start-up are process plumbing.
- `html.fromstring` and the XPath query belong to a foreign library whose behaviour cannot be seen here. Their combined result is the input `extract`. A real parser can also fail on a body that passes the guard, and the model covers that through `extract`.
- Printing, `traceback`, `.upper()` in messages and the terminal-encoding fallback in the `__main__` block are output only.
- The commented-out HTML debugging block in scraper.py is dead code.
- The catch-all `except Exception` handler is not modelled as a separate path. In both versions it returns `None`, as every modelled failure does. In the later version it writes no debug file.
- `DezaktScraper.Scrape`: a failing file write is not modelled; the dump records the write that is attempted. A failed write does not change the returned value. In the "debug_html" and "error_parsing" cases the script catches the error. In the "error_empty" case the outer handler catches it and also returns `None`.
- Python's exact Unicode whitespace table is left abstract: `isSpace` is a parameter. Python strings can hold lone surrogate code points. Dafny's `char` cannot, so such strings are outside the model.
- The `__main__` block of both scripts always scrapes the ticker `wod`. The model takes any ticker.
- `DezaktScraper.AgreesWithScraper` compares the two versions on the same response. The two send different request parameters (`premium_proxy`, `wait_for`, `timeout`), so in practice the service may answer them differently.
