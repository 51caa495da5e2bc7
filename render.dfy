/** The two renderings of a probed page: the HTML fragment and the fixed-width log line. */
module Render {
  import opened Text

  // ---------------------------------------------------------------- getFormatHTML

  const AnchorOpen := "<a href=\""
  const HtmlEnd := "ms</p>"

  /** getFormatHTML: the URL as link target and link text, then status and time, unescaped. */
  function FormatHtml(url: string, status: string, responseTime: nat): (r: string)
    ensures |r| == 2 * |url| + |status| + |NatToString(responseTime)| + 23
    ensures r[..|AnchorOpen| + |url|] == AnchorOpen + url
    ensures r[|r| - |HtmlEnd|..] == HtmlEnd
  {
    AnchorOpen + url + "\">" + url + "</a>" + " " + status + " " + NatToString(responseTime) + HtmlEnd
  }

  /** The piece `y` of `x + y + z` sits right after `x`. */
  lemma SliceMiddle(x: string, y: string, z: string, r: string)
    requires r == x + y + z
    ensures r[|x|..|x| + |y|] == y
  {
    assert forall i :: 0 <= i < |y| ==> r[|x| + i] == y[i];
  }

  /**
   * Where each field of the fragment sits: the link target, then `">`, the link text, `</a> `,
   * the status, a space, the time and "ms</p>".
   */
  lemma FormatHtmlFields(url: string, status: string, responseTime: nat)
    ensures var r := FormatHtml(url, status, responseTime);
            var a := |AnchorOpen| + |url|;
            var d := NatToString(responseTime);
            r[a..a + 2] == "\">" && r[a + 2..a + 2 + |url|] == url &&
            r[a + 2 + |url|..a + 7 + |url|] == "</a> " &&
            r[a + 7 + |url|..a + 7 + |url| + |status|] == status &&
            r[a + 7 + |url| + |status|] == ' ' &&
            r[a + 8 + |url| + |status|..|r| - |HtmlEnd|] == d
  {
    var d := NatToString(responseTime);
    var r := FormatHtml(url, status, responseTime);
    var x := AnchorOpen + url;
    var y := x + "\">" + url;
    var w := y + "</a>" + " " + status;
    var v := w + " " + d;
    assert r == v + HtmlEnd;
    assert v == w + " " + d;
    assert w == y + "</a>" + " " + status;
    assert y == x + "\">" + url;
    assert r[..|v|] == v;
    SliceMiddle(w + " ", d, [], v);
    assert v[..|w|] == w && r[..|w|] == w && r[|w|] == ' ';
    assert w[..|y|] == y && r[..|y|] == y;
    SliceMiddle(y + "</a>" + " ", status, [], w);
    SliceMiddle(y, "</a> ", status, w);
    SliceMiddle(x, "\">", url, y);
    SliceMiddle(x + "\">", url, [], y);
  }

  /** The href attribute of a fragment: what follows `<a href="` up to the next double quote. */
  function Href(html: string): Option<string>
  {
    if |html| < |AnchorOpen| || html[..|AnchorOpen|] != AnchorOpen then None
    else
      var rest := html[|AnchorOpen|..];
      match Find(rest, "\"")
      case None => None
      case Some(i) => Some(rest[..i])
  }

  /** A URL without a double quote is recovered from the href attribute. */
  lemma HrefFormatHtml(url: string, status: string, responseTime: nat)
    requires '"' !in url
    ensures Href(FormatHtml(url, status, responseTime)) == Some(url)
  {
    var html := FormatHtml(url, status, responseTime);
    var rest := html[|AnchorOpen|..];
    assert rest == url + "\">" + url + "</a>" + " " + status + " " + NatToString(responseTime) + HtmlEnd;
    assert rest[|url|] == '"';
    assert forall j :: 0 <= j < |url| ==> rest[j] == url[j];
    FindCharAt(rest, '"', |url|);
    assert html[..|AnchorOpen|] == AnchorOpen && rest[..|url|] == url;
  }

  /**
   * Nothing is escaped: a double quote in the URL closes the attribute early, so the href
   * browsers see is the part of the URL before its first double quote.
   */
  lemma HrefStopsAtQuote(url: string, status: string, responseTime: nat)
    requires '"' in url
    ensures var h := Href(FormatHtml(url, status, responseTime));
            h.Some? && |h.value| < |url| && h.value == url[..|h.value|] && url[|h.value|] == '"' &&
            '"' !in h.value
  {
    var html := FormatHtml(url, status, responseTime);
    var rest := html[|AnchorOpen|..];
    assert rest == url + "\">" + url + "</a>" + " " + status + " " + NatToString(responseTime) + HtmlEnd;
    FindChar(url, '"');
    var k := Find(url, "\"").value;
    assert rest[k] == '"';
    assert forall j :: 0 <= j < k ==> rest[j] == url[..k][j];
    FindCharAt(rest, '"', k);
    assert html[..|AnchorOpen|] == AnchorOpen && rest[..k] == url[..k];
  }

  /** Index of the last `c` in `s`. */
  function LastIndexOf(s: string, c: char): (r: Option<nat>)
    ensures r.None? <==> c !in s
    ensures r.Some? ==> r.value < |s| && s[r.value] == c && c !in s[r.value + 1..]
  {
    if s == [] then None
    else if s[|s| - 1] == c then Some(|s| - 1)
    else
      var r := LastIndexOf(s[..|s| - 1], c);
      assert s[..|s| - 1] + [s[|s| - 1]] == s;
      if r.Some? then
        assert s[r.value + 1..] == s[..|s| - 1][r.value + 1..] + [s[|s| - 1]];
        r
      else r
  }

  /** The response time read back from a fragment: the digits between its last space and "ms</p>". */
  function HtmlTime(html: string): Option<nat>
  {
    if |html| < |HtmlEnd| || html[|html| - |HtmlEnd|..] != HtmlEnd then None
    else
      var body := html[..|html| - |HtmlEnd|];
      match LastIndexOf(body, ' ')
      case None => None
      case Some(i) =>
        var digits := body[i + 1..];
        if AllDigits(digits) then Some(DecimalValue(digits)) else None
  }

  /** The response time is always recoverable, whatever the URL and status hold. */
  lemma HtmlTimeFormatHtml(url: string, status: string, responseTime: nat)
    ensures HtmlTime(FormatHtml(url, status, responseTime)) == Some(responseTime)
  {
    var d := NatToString(responseTime);
    var front := AnchorOpen + url + "\">" + url + "</a>" + " " + status;
    var body := front + " " + d;
    var html := FormatHtml(url, status, responseTime);
    assert html == body + HtmlEnd;
    assert html[..|html| - |HtmlEnd|] == body;
    LastSpaceBeforeDigits(front, d);
    assert body[|front| + 1..] == d;
    DecimalValueNatToString(responseTime);
  }

  /** In `front`, a space, then digits, the last space is the one just before the digits. */
  lemma LastSpaceBeforeDigits(front: string, d: string)
    requires AllDigits(d)
    ensures LastIndexOf(front + " " + d, ' ') == Some(|front|)
  {
    var body := front + " " + d;
    assert body[|front|] == ' ';
    assert body[|front| + 1..] == d;
    assert ' ' !in d by {
      forall j | 0 <= j < |d| ensures d[j] != ' ' {
        assert IsDigit(d[j]);
      }
    }
  }

  // ---------------------------------------------------------------- operator<<

  const UrlWidth: nat := 70
  const StatusWidth: nat := 15
  const TimeWidth: nat := 6
  const Unit := "ms"

  /**
   * operator<<: url left-justified to 70, status left-justified to 15 (std::left is sticky),
   * time right-justified to 6, then "ms". A field wider than its column is written whole.
   */
  function LogLine(url: string, status: string, responseTime: nat): (r: string)
    ensures var a := Max(|url|, UrlWidth);
            var b := a + Max(|status|, StatusWidth);
            var d := NatToString(responseTime);
            |r| == b + Max(|d|, TimeWidth) + |Unit| &&
            r[..|url|] == url && (forall i :: |url| <= i < a ==> r[i] == ' ') &&
            r[a..a + |status|] == status && (forall i :: a + |status| <= i < b ==> r[i] == ' ') &&
            (forall i :: b <= i < |r| - |Unit| - |d| ==> r[i] == ' ') &&
            r[|r| - |Unit| - |d|..|r| - |Unit|] == d && r[|r| - |Unit|..] == Unit
  {
    var u := PadRight(url, UrlWidth);
    var s := PadRight(status, StatusWidth);
    var t := PadLeft(NatToString(responseTime), TimeWidth);
    var r := u + s + t + Unit;
    assert r[..|u|] == u && r[|u|..|u| + |s|] == s;
    assert r[|u| + |s|..|r| - |Unit|] == t && r[|r| - |Unit|..] == Unit;
    r
  }

  datatype LogEntry = LogEntry(url: string, status: string, responseTime: nat)

  /** Width of a log line whose fields all fit their columns. */
  const LineWidth: nat := UrlWidth + StatusWidth + TimeWidth + |Unit|

  /** Reads the three columns of a log line back, trimming the padding. */
  function ParseLogLine(line: string): Option<LogEntry>
  {
    if |line| != LineWidth || line[LineWidth - |Unit|..] != Unit then None
    else
      var time := TrimLeft(line[UrlWidth + StatusWidth..LineWidth - |Unit|]);
      if time == [] || !AllDigits(time) then None
      else Some(LogEntry(TrimRight(line[..UrlWidth]),
                         TrimRight(line[UrlWidth..UrlWidth + StatusWidth]),
                         DecimalValue(time)))
  }

  /**
   * A log line reads back to the page's fields when each fits its column and the URL and
   * status do not end in a space (the padding would swallow such a space).
   */
  lemma {:induction false} ParseLogLineRoundTrip(url: string, status: string, responseTime: nat)
    requires |url| <= UrlWidth && (url == [] || url[|url| - 1] != ' ')
    requires |status| <= StatusWidth && (status == [] || status[|status| - 1] != ' ')
    requires responseTime < Pow10(TimeWidth)
    ensures ParseLogLine(LogLine(url, status, responseTime)) == Some(LogEntry(url, status, responseTime))
  {
    var d := NatToString(responseTime);
    NatToStringLength(responseTime, TimeWidth);
    var u, s, t := PadRight(url, UrlWidth), PadRight(status, StatusWidth), PadLeft(d, TimeWidth);
    var line := LogLine(url, status, responseTime);
    assert line == u + s + t + Unit;
    assert line[..UrlWidth] == u;
    assert line[UrlWidth..UrlWidth + StatusWidth] == s;
    assert line[UrlWidth + StatusWidth..LineWidth - |Unit|] == t;
    TrimRightPadRight(url, UrlWidth);
    TrimRightPadRight(status, StatusWidth);
    assert IsDigit(d[0]);
    TrimLeftPadLeft(d, TimeWidth);
    DecimalValueNatToString(responseTime);
  }
}
