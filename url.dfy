/** URL decomposition of the WebPage probe: scheme stripping, then the host/path split. */
module Url {
  import opened Text

  /**
   * cutProtocol: everything after the first "//" when there is one, the URL itself otherwise.
   * No scheme is validated: "a//b" loses "a//" just as "http://b" loses "http://".
   */
  function CutProtocol(url: string): (r: string)
    ensures !Occurs(url, "//") ==> r == url
    ensures Occurs(url, "//") ==>
              |r| + 2 <= |url| && r == url[|url| - |r|..] && OccursAt(url, "//", |url| - |r| - 2)
    ensures Occurs(url, "//") ==> forall j: nat :: j + |r| + 2 < |url| ==> !OccursAt(url, "//", j)
  {
    match Find(url, "//")
    case None => url
    case Some(i) => url[i + 2..]
  }

  /** solveDomain: the text before the first '/', or all of it when there is no '/'. */
  function SolveDomain(npUrl: string): (r: string)
    ensures |r| <= |npUrl| && r == npUrl[..|r|]
    ensures '/' !in r
    ensures '/' !in npUrl ==> r == npUrl
    ensures '/' in npUrl ==> |r| < |npUrl| && npUrl[|r|] == '/'
  {
    FindChar(npUrl, '/');
    match Find(npUrl, "/")
    case None => npUrl
    case Some(i) => npUrl[..i]
  }

  /** solveDirectory: the text from the first '/' on, or "/" when there is no '/'. */
  function SolveDirectory(npUrl: string): (r: string)
    ensures |r| >= 1 && r[0] == '/'
    ensures '/' !in npUrl ==> r == "/"
    ensures '/' in npUrl ==> |r| <= |npUrl| && r == npUrl[|npUrl| - |r|..]
    ensures '/' in npUrl ==> '/' !in npUrl[..|npUrl| - |r|]
  {
    FindChar(npUrl, '/');
    match Find(npUrl, "/")
    case None => "/"
    case Some(i) => npUrl[i..]
  }

  /**
   * Host and path split the stripped URL at its first '/' with nothing lost or repeated;
   * a URL without '/' gains the root path "/".
   */
  lemma DomainDirectoryPartition(npUrl: string)
    ensures '/' in npUrl ==> SolveDomain(npUrl) + SolveDirectory(npUrl) == npUrl
    ensures '/' !in npUrl ==> SolveDomain(npUrl) + SolveDirectory(npUrl) == npUrl + "/"
  {
    if '/' in npUrl {
      var d, p := SolveDomain(npUrl), SolveDirectory(npUrl);
      var k := |npUrl| - |p|;
      assert npUrl[k] == '/';
      assert |d| == k;
      assert npUrl == npUrl[..k] + npUrl[k..];
    }
  }

  /** What request() sends to: a host without '/', and a request target that starts with '/'. */
  lemma RequestTarget(url: string)
    ensures '/' !in SolveDomain(CutProtocol(url))
    ensures SolveDirectory(CutProtocol(url))[0] == '/'
    ensures var rest := CutProtocol(url);
            SolveDomain(rest) + SolveDirectory(rest) == if '/' in rest then rest else rest + "/"
  {
    DomainDirectoryPartition(CutProtocol(url));
  }

  /** Sample URLs: scheme stripped or kept, path split or defaulted. */
  lemma Examples()
    ensures CutProtocol("http://a.com/x") == "a.com/x"
    ensures CutProtocol("a.com/x") == "a.com/x"
    ensures SolveDomain("a.com/x/y") == "a.com" && SolveDirectory("a.com/x/y") == "/x/y"
    ensures SolveDomain("a.com") == "a.com" && SolveDirectory("a.com") == "/"
  {
    assert OccursAt("http://a.com/x", "//", 5);
    forall j: nat | j < 5 ensures !OccursAt("http://a.com/x", "//", j) {
      assert "http://a.com/x"[j] != '/';
    }
    assert !Occurs("a.com/x", "//") by {
      forall j: nat ensures !OccursAt("a.com/x", "//", j) {
        if j + 2 <= 7 {
          assert "a.com/x"[j + 1] != '/' || "a.com/x"[j] != '/';
        }
      }
    }
    assert "a.com/x/y"[5] == '/';
    assert '/' !in "a.com";
  }
}
