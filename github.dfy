/**
 * The pure parts of internal/github/github.go: the owner/name form of a repository
 * URL, and reading the issue number from what `gh issue create` prints. Running gh
 * is outside the model; its output is a parameter.
 */
module GitHub {
  import opened Wrappers
  import opened Json
  import opened Text
  import Repo

  /** toGHRepo: "github.com/owner/repo" becomes "owner/repo"; other text is unchanged. */
  function ToGHRepo(repoURL: string): (r: string)
    ensures HasPrefix(repoURL, Repo.Host) ==> Repo.Host + r == repoURL
    ensures !HasPrefix(repoURL, Repo.Host) ==> r == repoURL
  {
    TrimPrefix(repoURL, Repo.Host)
  }

  /** Only one leading host is removed. */
  lemma ToGHRepoOnce(rest: string)
    ensures ToGHRepo(Repo.Host + rest) == rest
  {
    assert (Repo.Host + rest)[..|Repo.Host|] == Repo.Host;
  }

  datatype Issue = Issue(number: int, url: string)

  function DecodeIssue(j: Json): (r: Option<Issue>)
    ensures j.JNull? ==> r == Some(Issue(0, ""))
  {
    match Members(j)
    case None => None
    case Some(ms) =>
      var number, url := DecodeInt(Field(ms, "number")), DecodeString(Field(ms, "url"));
      if number.Some? && url.Some? then Some(Issue(number.value, url.value)) else None
  }

  function LastPiece(s: string): string {
    var parts := Split(s, '/');
    parts[|parts| - 1]
  }

  /**
   * extractIssueNumber: the last "/"-separated piece read as a decimal integer;
   * failing that, the whole text read as a JSON issue, accepted only with a positive
   * number. Split never returns an empty list, so the check for one has no case here.
   */
  function ExtractIssueNumber(c: Codec, issueURL: string): (r: Result<int, string>)
    ensures Atoi(LastPiece(issueURL)).Some? ==> r == Ok(Atoi(LastPiece(issueURL)).value)
    ensures Atoi(LastPiece(issueURL)).None? && r.Ok? ==> r.value > 0
    ensures r.Err? ==>
      && Atoi(LastPiece(issueURL)).None?
      && r.error == "extracting issue number from \"" + issueURL + "\": " + AtoiError(LastPiece(issueURL))
  {
    match Atoi(LastPiece(issueURL))
    case Some(n) => Ok(n)
    case None =>
      var issue := match c.parse(issueURL) case None => None case Some(j) => DecodeIssue(j);
      if issue.Some? && issue.value.number > 0 then Ok(issue.value.number)
      else Err("extracting issue number from \"" + issueURL + "\": " + AtoiError(LastPiece(issueURL)))
  }

  /** A URL ending in "/<n>" yields n. */
  lemma NumberFromURL(c: Codec, prefix: string, n: nat)
    requires n <= MaxInt64
    ensures ExtractIssueNumber(c, prefix + "/" + Decimal(n)) == Ok(n)
  {
    assert '/' !in Decimal(n) by {
      assert !IsDigit('/');
    }
    SplitLastPiece(prefix, '/', Decimal(n));
    assert prefix + "/" + Decimal(n) == prefix + ['/'] + Decimal(n);
    AtoiDecimal(n);
  }

  /**
   * A trailing slash leaves an empty last piece, and a text that is not a JSON object
   * is no issue either: the result is an error.
   */
  lemma TrailingSlashIsError(c: Codec, prefix: string)
    requires Lawful(c)
    requires prefix != [] && !JsonSpace(prefix[0]) && prefix[0] != '{'
    ensures ExtractIssueNumber(c, prefix + "/").Err?
  {
    var s := prefix + "/";
    SplitLastPiece(prefix, '/', "");
    assert s == prefix + ['/'] + "";
    assert s[0] == prefix[0];
    assert !StartsObject(s);
  }

  /**
   * A last piece that starts with neither a digit nor a sign, in a text that is no JSON
   * object: Atoi's syntax error, wrapped with the URL.
   */
  lemma WordPieceError(c: Codec, prefix: string, w: string)
    requires Lawful(c)
    requires prefix != [] && !JsonSpace(prefix[0]) && prefix[0] != '{'
    requires '/' !in w && (w == [] || (!IsDigit(w[0]) && w[0] != '+' && w[0] != '-'))
    ensures Atoi(w).None? && AtoiReason(w) == "invalid syntax"
    ensures var url := prefix + "/" + w;
      ExtractIssueNumber(c, url) == Err("extracting issue number from \"" + url + "\": " + AtoiError(w))
  {
    var url := prefix + "/" + w;
    SplitLastPiece(prefix, '/', w);
    assert url == prefix + ['/'] + w;
    AtoiSyntaxError(w);
    assert !StartsObject(url) by {
      assert url[0] == prefix[0];
    }
  }

  /** A last piece of digits too large for 64 bits: Atoi's range error, wrapped with the URL. */
  lemma HugePieceError(c: Codec, prefix: string, d: string)
    requires Lawful(c) && d != [] && AllDigits(d) && DigitsValue(d) > MaxInt64
    requires prefix != [] && !JsonSpace(prefix[0]) && prefix[0] != '{'
    ensures Atoi(d).None? && AtoiReason(d) == "value out of range"
    ensures var url := prefix + "/" + d;
      ExtractIssueNumber(c, url) == Err("extracting issue number from \"" + url + "\": " + AtoiError(d))
  {
    var url := prefix + "/" + d;
    assert '/' !in d by {
      assert !IsDigit('/');
    }
    SplitLastPiece(prefix, '/', d);
    assert url == prefix + ['/'] + d;
    DigitsOutOfRange(d);
    assert !StartsObject(url) by {
      assert url[0] == prefix[0];
    }
  }

  /** The JSON an issue is printed as, in a gh configuration that prints JSON. */
  function EncodeIssue(issue: Issue): Json {
    JObject([("number", JInt(issue.number)), ("url", JString(issue.url))])
  }

  lemma IssueRoundTrip(issue: Issue)
    requires MinInt64 <= issue.number <= MaxInt64
    ensures DecodeIssue(EncodeIssue(issue)) == Some(issue)
  {
    var ms := EncodeIssue(issue).members;
    FieldAt(ms, 0, "number");
    FieldAt(ms, 1, "url");
  }

  /**
   * When the last piece is no integer, a JSON issue gives its number if that is
   * positive, and an error otherwise.
   */
  lemma NumberFromJson(c: Codec, issue: Issue)
    requires Lawful(c) && MinInt64 <= issue.number <= MaxInt64
    requires Atoi(LastPiece(c.serialize(EncodeIssue(issue)))).None?
    ensures var r := ExtractIssueNumber(c, c.serialize(EncodeIssue(issue)));
      (issue.number > 0 ==> r == Ok(issue.number)) && (issue.number <= 0 ==> r.Err?)
  {
    IssueRoundTrip(issue);
  }

  /**
   * What CreateIssue makes of gh's output: the output with white space trimmed is the
   * issue's URL, and its number is read from that URL.
   */
  function IssueFromOutput(c: Codec, output: string): (r: Result<Issue, string>)
    ensures r.Ok? ==> r.value.url == TrimSpace(output)
    ensures r.Ok? <==> ExtractIssueNumber(c, TrimSpace(output)).Ok?
    ensures r.Ok? ==> r.value.number == ExtractIssueNumber(c, TrimSpace(output)).value
  {
    var url := TrimSpace(output);
    match ExtractIssueNumber(c, url)
    case Ok(n) => Ok(Issue(n, url))
    case Err(e) => Err(e)
  }

  /** gh's usual single line, "<issue URL>\n", gives that URL and its number. */
  lemma IssueFromLine(c: Codec, prefix: string, n: nat)
    requires n <= MaxInt64
    requires prefix != [] && !IsSpace(prefix[0])
    ensures var url := prefix + "/" + Decimal(n);
      IssueFromOutput(c, url + "\n") == Ok(Issue(n, url))
  {
    var url := prefix + "/" + Decimal(n);
    assert url[0] == prefix[0];
    assert IsDigit(url[|url| - 1]) by {
      assert url[|url| - 1] == Decimal(n)[|Decimal(n)| - 1];
    }
    TrimNewline(url);
    NumberFromURL(c, prefix, n);
  }
}
