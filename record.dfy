/** Reading one configuration record (operator>>) with std::getline, over stream values. */
module Record {
  import opened Text

  /** The unread characters of an input stream with its eofbit and failbit. */
  datatype Stream = Stream(pending: string, eof: bool, fail: bool) {
    /** std::ios::good(): the sentry of an input operation lets it proceed. */
    predicate Good() { !eof && !fail }
  }

  /** The string a getline leaves behind and the stream after it. */
  datatype Extraction = Extraction(text: string, stream: Stream)

  /** `c` first occurs in `s` at index `k`. */
  predicate FirstAt(s: string, c: char, k: int) {
    0 <= k < |s| && s[k] == c && c !in s[..k]
  }

  /**
   * std::getline(in, str, delim). A stream that is not good is not read: str is kept and
   * failbit is set. Otherwise str becomes the characters before the first delim, the delim
   * is consumed but not stored, running out of input sets eofbit, and failbit is set only
   * when nothing at all was extracted (a lone delim counts as extracted).
   */
  function GetLine(input: Stream, str: string, delim: char): (e: Extraction)
    ensures !input.Good() ==> e.text == str && e.stream == input.(fail := true)
    ensures input.Good() ==> delim !in e.text
    ensures input.Good() ==>
              input.pending == e.text + (if delim in input.pending then [delim] else []) + e.stream.pending
    ensures input.Good() ==> e.stream.eof == (delim !in input.pending)
    ensures input.Good() ==> e.stream.fail == (input.pending == [])
    ensures input.Good() && delim !in input.pending ==> e.text == input.pending && e.stream.pending == []
  {
    if !input.Good() then Extraction(str, input.(fail := true))
    else
      FindChar(input.pending, delim);
      match Find(input.pending, [delim])
      case Some(i) =>
        assert input.pending == input.pending[..i] + [delim] + input.pending[i + 1..];
        Extraction(input.pending[..i], Stream(input.pending[i + 1..], false, false))
      case None =>
        assert input.pending == input.pending + [] + [];
        Extraction(input.pending, Stream([], true, input.pending == []))
  }

  /** The outcome of operator>>: the url and content fields afterwards, and the stream. */
  datatype Outcome = Outcome(url: string, content: string, stream: Stream)

  /**
   * operator>>: url is read up to ';', then content up to the end of the line. Each failed
   * getline is followed by setstate(failbit), which finds failbit already set. This is the
   * specification that the in-place method Probe.WebPage.Read is proved against.
   */
  function ReadRecord(input: Stream, url: string, content: string): (o: Outcome)
    ensures !input.Good() ==> o.url == url && o.content == content && o.stream.fail
    ensures input.Good() ==> ';' !in o.url && |o.url| <= |input.pending| && o.url == input.pending[..|o.url|]
    ensures input.Good() && ';' in input.pending ==>
              input.pending[|o.url|] == ';' && '\n' !in o.content
    ensures input.Good() && ';' !in input.pending ==> o.url == input.pending && o.content == content
  {
    var first := GetLine(input, url, ';');
    var second := GetLine(first.stream, content, '\n');
    Outcome(first.text, second.text, second.stream)
  }

  /** The delimiters in `s` after the first `c` are found at the offsets of the rest. */
  lemma SplitAtFirst(s: string, c: char, k: int, text: string, rest: string)
    requires FirstAt(s, c, k)
    requires c !in text && s == text + [c] + rest
    ensures text == s[..k] && rest == s[k + 1..]
  {
    assert s[|text|] == c;
    assert forall i :: 0 <= i < |text| ==> text[i] == s[i];
    assert |text| == k;
  }

  /**
   * On a good stream the read succeeds exactly when a ';' is present and something
   * (possibly just the line end) follows the first one.
   */
  lemma {:induction false} ReadRecordSucceeds(input: Stream, url: string, content: string)
    requires input.Good()
    ensures !ReadRecord(input, url, content).stream.fail <==>
              exists k :: FirstAt(input.pending, ';', k) && k + 1 < |input.pending|
  {
    var first := GetLine(input, url, ';');
    if ';' in input.pending {
      FindChar(input.pending, ';');
      var k := Find(input.pending, [';']).value;
      assert FirstAt(input.pending, ';', k);
      SplitAtFirst(input.pending, ';', k, first.text, first.stream.pending);
    }
  }

  /**
   * On a good stream with a ';': url is everything before the first ';' (line ends
   * included), and content is the rest of that line, when the rest is not empty.
   */
  lemma {:induction false} ReadRecordFields(input: Stream, url: string, content: string, k: int)
    requires input.Good() && FirstAt(input.pending, ';', k)
    ensures ReadRecord(input, url, content).url == input.pending[..k]
    ensures var after := input.pending[k + 1..];
            var o := ReadRecord(input, url, content);
            after != [] ==>
              '\n' !in o.content && after == o.content + (if '\n' in after then "\n" else "") + o.stream.pending
    ensures var after := input.pending[k + 1..];
            var o := ReadRecord(input, url, content);
            '\n' !in after ==> o.content == after && o.stream.pending == [] && o.stream.eof
    ensures var after := input.pending[k + 1..];
            var o := ReadRecord(input, url, content);
            after == [] ==> o.content == [] && o.stream.fail
  {
    var first := GetLine(input, url, ';');
    SplitAtFirst(input.pending, ';', k, first.text, first.stream.pending);
  }

  /** A good stream without ';' leaves the whole input in url, keeps content, and fails. */
  lemma ReadRecordNoSeparator(input: Stream, url: string, content: string)
    requires input.Good() && ';' !in input.pending
    ensures ReadRecord(input, url, content) == Outcome(input.pending, content, Stream([], true, true))
  {
  }

  /** A stream that is already at end of input or failed changes neither field, and fails. */
  lemma ReadRecordNotGood(input: Stream, url: string, content: string)
    requires !input.Good()
    ensures ReadRecord(input, url, content) == Outcome(url, content, input.(fail := true))
  {
  }

  /** getline on a good stream whose next delimiter ends `text`. */
  lemma GetLineAt(input: Stream, str: string, delim: char, text: string, rest: string)
    requires input.Good() && delim !in text && input.pending == text + [delim] + rest
    ensures GetLine(input, str, delim) == Extraction(text, Stream(rest, false, false))
  {
    var s := input.pending;
    assert s[|text|] == delim;
    assert forall j :: 0 <= j < |text| ==> s[j] == text[j];
    FindCharAt(s, delim, |text|);
    assert s[|text| + 1..] == rest;
  }

  /**
   * Writing a record as `url;content` and a line end, then reading it, gives back both
   * fields and leaves the stream good at the next record.
   */
  lemma {:induction false} ReadRecordRoundTrip(url: string, content: string, rest: string, url0: string, content0: string)
    requires ';' !in url && '\n' !in content
    ensures ReadRecord(Stream(url + ";" + content + "\n" + rest, false, false), url0, content0)
            == Outcome(url, content, Stream(rest, false, false))
  {
    var after := content + "\n" + rest;
    assert url + ";" + content + "\n" + rest == url + [';'] + after;
    GetLineAt(Stream(url + [';'] + after, false, false), url0, ';', url, after);
    assert after == content + ['\n'] + rest;
    GetLineAt(Stream(after, false, false), content0, '\n', content, rest);
  }

  /** A last record without a line end is still read, and leaves the stream at end of input. */
  lemma {:induction false} ReadRecordLastLine(url: string, content: string, url0: string, content0: string)
    requires ';' !in url && '\n' !in content && content != []
    ensures ReadRecord(Stream(url + ";" + content, false, false), url0, content0)
            == Outcome(url, content, Stream([], true, false))
  {
    assert url + ";" + content == url + [';'] + content;
    GetLineAt(Stream(url + [';'] + content, false, false), url0, ';', url, content);
  }

  /**
   * Only a missing ';' or nothing after it fails the read: ";\n" is accepted and yields an
   * empty url and an empty content.
   */
  lemma EmptyFieldsAccepted(url0: string, content0: string)
    ensures ReadRecord(Stream(";\n", false, false), url0, content0) == Outcome("", "", Stream("", false, false))
  {
    ReadRecordRoundTrip("", "", "", url0, content0);
  }

  /** A record with no ';' fails the read. */
  lemma OnlyOneFieldFails(url0: string, content0: string)
    ensures var o := ReadRecord(Stream("onlyonefield", false, false), url0, content0);
            o.stream.fail && o.url == "onlyonefield" && o.content == content0
  {
    ReadRecordNoSeparator(Stream("onlyonefield", false, false), url0, content0);
  }
}
