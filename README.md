# WebPage probe model

A Dafny model of the string-processing half of the `WebPage` class of WebMonitor, a
single-target HTTP availability probe. A `WebPage` holds a configured `url` and expected
`content`, and what its last probe observed: `status`, `responseTime` and the raw `response`.

- `Url` covers scheme stripping (`cutProtocol`) and the host/path split (`solveDomain`,
  `solveDirectory`). These are what `request()` connects to and asks for.
- `Probe.CheckCondition` is the content check (`checkCondition`). It is a case-sensitive
  substring test.
- `Render` holds the HTML fragment (`getFormatHTML`) and the fixed-width log line
  (`operator<<`). Their contracts place every field. The log line reads back whole; from the
  HTML fragment the href and the response time read back.
- `Record` models `operator>>`, the reader for one configuration record. It is built on
  `std::getline` over a stream value: the unread input, eofbit and failbit.
- `Probe.WebPage` is the class. Its `Read` method assigns `url` and `content` in place, as
  `operator>>` does. Its `Request` method stands for `request()`: the network is passed in as
  parameters.
- `Text` holds the library behaviour the source relies on. This covers `std::string::find`
  (with `None` for `npos`), `std::setw` padding with `left`/`right`, and decimal insertion of
  an integer.

Assumptions. `headers/WebPage.h` is not part of this model, so the field types are assumed.
`status` is a string and `responseTime` a non-negative integer, written in decimal with no
leading zeros. The stream's fill character is assumed to be the default space. A Dafny
`string` here stands for the bytes of a `std::string`: `setw` widths and `find` indices count
bytes, so a URL holding a multi-byte UTF-8 character is padded by its byte count.

Behaviour of the code worth noting:
- A record with empty fields is accepted. `";\n"` gives an empty url and content
  (`Record.EmptyFieldsAccepted`). Only a missing `;`, or nothing at all after it, fails.
- The content check does not look at whether the exchange succeeded. An empty expected
  content matches every response (`Probe.EmptyContentMatches`). A failed `request()` leaves
  the previous `response` in place (`Probe.WebPage.Request`).
- The log line never truncates a field. A URL longer than 70 characters pushes the later
  columns right (`Render.LogLine`).

## Model

| member | source | states |
|---|---|---|
| `Text.Find` | WebPage.cpp:103 | `find` returns the first index where the pattern occurs, and `None` (npos) exactly when it does not occur |
| `Text.PadRight` | WebPage.cpp:126-127 | a left-justified `setw` field is the text followed by spaces up to the width; longer text is kept whole |
| `Text.PadLeft` | WebPage.cpp:128 | a right-justified `setw` field is spaces followed by the text; longer text is kept whole |
| `Text.TrimRightPadRight` | WebPage.cpp:126-127 | trimming the padding of a left-justified field gives back text that does not end in a space |
| `Text.TrimLeftPadLeft` | WebPage.cpp:128 | trimming the padding of a right-justified field gives back text that does not start with a space |
| `Text.NatToString` | WebPage.cpp:117 | the time is written as at least one decimal digit, with no leading zero except for 0 itself |
| `Text.DecimalValueNatToString` | WebPage.cpp:128 | the decimal text of the response time reads back to the same number |
| `Text.NatToStringLength` | WebPage.cpp:128 | the time fits its 6-wide column exactly when it is below 10^6 |
| `Url.CutProtocol` | WebPage.cpp:84-92 | unchanged when "//" does not occur; otherwise the suffix after the first "//", strictly shorter than the URL |
| `Url.SolveDomain` | WebPage.cpp:58-66 | a prefix of its input with no '/': the whole input when there is no '/', otherwise it stops at the first '/' |
| `Url.SolveDirectory` | WebPage.cpp:71-79 | starts with '/': "/" when the input has no '/', otherwise the suffix from the first '/' |
| `Url.DomainDirectoryPartition` | WebPage.cpp:58-79 | host followed by path rebuilds the stripped URL when it has a '/', and adds just "/" when it has none |
| `Url.RequestTarget` | WebPage.cpp:28-39 | the host `request()` resolves has no '/', and the request target it sends starts with '/' |
| `Url.Examples` | WebPage.cpp:58-92 | "http://a.com/x" loses its scheme, "a.com/x" is kept, "a.com/x/y" splits into "a.com" and "/x/y", "a.com" gets "/" |
| `Render.FormatHtml` | WebPage.cpp:114-118 | the fragment opens with the anchor and the URL, ends with "ms</p>", and its length accounts for the URL twice plus status and time |
| `Render.FormatHtmlFields` | WebPage.cpp:117 | each field sits in place: `">` after the link target, the URL again as link text, `</a> `, the status, a space, then the time before "ms</p>" |
| `Render.HrefFormatHtml` | WebPage.cpp:117 | a URL without a double quote is recovered whole from the href attribute |
| `Render.HrefStopsAtQuote` | WebPage.cpp:117 | with no escaping, a double quote in the URL cuts the href short at the first quote of the URL |
| `Render.HtmlTimeFormatHtml` | WebPage.cpp:117 | the response time is always read back from the digits before "ms</p>", whatever the URL and status hold |
| `Render.LogLine` | WebPage.cpp:124-130 | the url in full, padded with spaces to 70 columns; the status in full, padded with spaces to 15 columns; the time right-aligned in 6 columns; then "ms" |
| `Render.ParseLogLineRoundTrip` | WebPage.cpp:124-130 | when the fields fit their columns and url and status do not end in a space, reading the 93-character line back gives the url, status and time |
| `Record.GetLine` | WebPage.cpp:139-146 | getline takes the text before the delimiter and consumes the delimiter, or takes all the remaining input when the delimiter is missing; it sets eofbit when the delimiter is missing and failbit when nothing was extracted |
| `Record.GetLineAt` | WebPage.cpp:139-146 | on a good stream, getline returns the text up to the next delimiter and leaves the stream good after it |
| `Record.ReadRecord` | WebPage.cpp:136-148 | a stream that is not good keeps both fields and fails; on a good stream url is the input up to its first ';', or all of it when there is none; with a ';' content has no newline, without one content is kept |
| `Record.ReadRecordSucceeds` | WebPage.cpp:136-148 | on a good stream the read succeeds exactly when a ';' occurs and something follows the first one |
| `Record.ReadRecordFields` | WebPage.cpp:136-148 | url is everything before the first ';', line ends included; content is the rest of that line up to its newline, all of the rest when no newline follows (end of input is then reached), and empty with the read failed when nothing follows the ';' |
| `Record.ReadRecordNoSeparator` | WebPage.cpp:139-146 | with no ';' the whole input lands in url, content is kept and the stream fails |
| `Record.ReadRecordNotGood` | WebPage.cpp:136-148 | a stream already at end of input or failed changes neither field and fails |
| `Record.ReadRecordRoundTrip` | WebPage.cpp:136-148 | when url has no ';' and content has no newline, "url;content\n" followed by more input reads back both fields and leaves the stream good at the next record; a url holding ';' cannot be written as a record and read back |
| `Record.ReadRecordLastLine` | WebPage.cpp:136-148 | a final record with non-empty content and no line end is still read and leaves the stream at end of input; with empty content (`"a;"`) the read fails (`Record.ReadRecordFields`) |
| `Record.EmptyFieldsAccepted` | WebPage.cpp:136-148 | ";\n" is read successfully as an empty url and an empty content |
| `Record.OnlyOneFieldFails` | WebPage.cpp:139-146 | "onlyonefield" fails the read |
| `Probe.CheckCondition` | WebPage.cpp:101-109 | true exactly when the content occurs as a contiguous substring of the response |
| `Probe.EmptyContentMatches` | WebPage.cpp:103 | empty content matches every response, the empty response included |
| `Probe.EmptyResponseMatches` | WebPage.cpp:101-109 | an empty response matches only empty content |
| `Probe.CheckConditionExtends` | WebPage.cpp:101-109 | a match still holds when text is added before or after the response |
| `Probe.CheckConditionCaseSensitive` | WebPage.cpp:103 | the test folds no case: "a" is not found in "A" |
| `Probe.WebPage.Read` | WebPage.cpp:136-148 | `operator>>` assigns url and content in place and returns the stream, as the two getlines determine |
| `Probe.WebPage.Request` | WebPage.cpp:22-53 | succeeds exactly when the host of the stripped URL connects; the response is then the body served for the path, and is otherwise left unchanged |

## Left out

- `Probe.WebPage.Request`: DNS resolution, the TCP connect on port 80, the HTTP/1.1 GET with its `Host` and `User-Agent` headers, the read and the socket shutdown are Boost.Asio/Beast calls. The model passes `connects` and `serve` in as parameters. Exceptions thrown after a successful connect, by the write, by the read, or by the socket shutdown after `response` was assigned, are not modelled.
- Setting `status` and `responseTime` is not done in WebPage.cpp. Both are treated as given fields.
- The constructor and the declarations of `WebPage`: `headers/WebPage.h` is not part of this model.
- Stream state beyond the unread input, eofbit and failbit is not modelled. This includes badbit, `max_size` limits, locales and the adjustfield that `operator<<` leaves set to `right` on the stream.
- Truncation of the log line to its column widths: `setw` never truncates, so no such step exists.
