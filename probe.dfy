/** The WebPage probe: the content check and the page object whose fields are read and requested. */
module Probe {
  import opened Text
  import opened Url
  import opened Record

  /** checkCondition: the expected content is a contiguous, case-sensitive substring of the response. */
  function CheckCondition(response: string, content: string): (r: bool)
    ensures r <==> Occurs(response, content)
  {
    Find(response, content).Some?
  }

  /** find("") is 0, so empty expected content matches any response, the empty one included. */
  lemma EmptyContentMatches(response: string)
    ensures CheckCondition(response, "")
  {
    assert OccursAt(response, "", 0);
  }

  /** An empty response matches only empty expected content. */
  lemma EmptyResponseMatches(content: string)
    ensures CheckCondition("", content) <==> content == ""
  {
    if content == "" {
      EmptyContentMatches("");
    }
  }

  /** A match survives anything written around the response. */
  lemma {:induction false} CheckConditionExtends(before: string, response: string, after: string, content: string)
    requires CheckCondition(response, content)
    ensures CheckCondition(before + response + after, content)
  {
    var i: nat :| OccursAt(response, content, i);
    var whole := before + response + after;
    assert whole[|before| + i..|before| + i + |content|] == response[i..i + |content|];
    assert OccursAt(whole, content, |before| + i);
  }

  /** No case folding: "a" is not found in "A". */
  lemma CheckConditionCaseSensitive()
    ensures !CheckCondition("A", "a")
  {
    forall j: nat ensures !OccursAt("A", "a", j) {
      if j == 0 {
        assert "A"[0..1][0] == 'A';
      }
    }
  }

  /** A target page: the configured url and expected content, and what the last probe observed. */
  class WebPage {
    var url: string
    var content: string
    var status: string
    var responseTime: nat
    var response: string

    /** operator>>: assigns url and content from the next record of `input`, as Record.ReadRecord specifies. */
    method Read(input: Stream) returns (output: Stream)
      modifies this`url, this`content
      ensures var o := ReadRecord(input, old(url), old(content));
              url == o.url && content == o.content && output == o.stream
    {
      var first := GetLine(input, url, ';');
      url := first.text;
      output := first.stream;
      if output.fail {
        output := output.(fail := true);
      }
      var second := GetLine(output, content, '\n');
      content := second.text;
      output := second.stream;
      if output.fail {
        output := output.(fail := true);
      }
    }

    /**
     * request(): connects to the host of the URL and, when that succeeds, stores the body
     * served for its path. `connects` stands for DNS resolution plus the TCP connect on
     * port 80, `serve` for the GET exchange; a failed connect leaves `response` as it was.
     */
    method Request(connects: string -> bool, serve: (string, string) -> string) returns (ok: bool)
      modifies this`response
      ensures var rest := CutProtocol(url); ok == connects(SolveDomain(rest))
      ensures var rest := CutProtocol(url);
              ok ==> response == serve(SolveDomain(rest), SolveDirectory(rest))
      ensures !ok ==> response == old(response)
    {
      var domain := SolveDomain(CutProtocol(url));
      if !connects(domain) {
        return false;
      }
      var dir := SolveDirectory(CutProtocol(url));
      response := serve(domain, dir);
      return true;
    }
  }
}
