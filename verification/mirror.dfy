/** Mirror mode: scan the page's tokens for `href`/`src` links, resolve each
    against the page URL, skip the ones the filter excludes and try to
    download the rest, one after another. */
module Mirror {
  import opened Strings
  import opened Filter
  import opened Flags
  import opened Html

  /** The arguments of one page download: the page URL (also the base for
      resolving links), the output folder and the two rule lists. */
  datatype Job = Job(url: string, folder: string, reject: seq<string>, exclude: seq<string>)

  /** What fetching the page itself gave: a transport failure, or the tokens
      of its body. */
  datatype Page = Unreachable(reason: string) | Fetched(tokens: seq<Token>)

  /** Result of a download: success or an error with its message. */
  datatype Outcome = Done | Failed(reason: string)

  /** One call of the asset download step and what it returned. */
  datatype Attempt = Attempt(url: string, outcome: Outcome)

  /** `urljoin(base, ref)`; its definition is not part of this model. */
  type Joiner = (string, string) -> string

  /** `mirrorDownload(url, folder)`, told how many downloads came before it,
      so that every pattern of successes and failures can be expressed. */
  type Downloader = (nat, string, string) -> Outcome

  /** The URLs of a list of attempts, in order. */
  function Urls(attempts: seq<Attempt>): seq<string>
  {
    seq(|attempts|, k requires 0 <= k < |attempts| => attempts[k].url)
  }

  /** Where the scan stops: the index of the first error token, or the end
      of the sequence, which stands for the tokenizer's end-of-input error. */
  function FirstError(tokens: seq<Token>): (n: nat)
    ensures n <= |tokens|
    ensures forall i :: 0 <= i < n ==> tokens[i].kind != ErrorToken
    ensures n < |tokens| ==> tokens[n].kind == ErrorToken
  {
    if |tokens| == 0 || tokens[0].kind == ErrorToken then 0
    else 1 + FirstError(tokens[1..])
  }

  /** The download targets one tag yields, in attribute order: every `href`
      or `src` value resolved against the page URL, unless the filter
      excludes it. */
  function TagTargets(job: Job, join: Joiner, attrs: seq<Attribute>): (r: seq<string>)
    ensures forall k :: 0 <= k < |r| ==> !ShouldExclude(r[k], job.reject, job.exclude)
  {
    if |attrs| == 0 then []
    else
      var rest := TagTargets(job, join, attrs[1..]);
      var link := join(job.url, attrs[0].val);
      if IsLinkKey(attrs[0].key) && !ShouldExclude(link, job.reject, job.exclude) then
        [link] + rest
      else
        rest
  }

  /** Every target of a tag is one of its `href` or `src` values, resolved
      against the page URL. */
  lemma {:induction false} TagTargetsSound(job: Job, join: Joiner, attrs: seq<Attribute>, k: nat)
    requires k < |TagTargets(job, join, attrs)|
    ensures exists j ::
      (0 <= j < |attrs| && IsLinkKey(attrs[j].key) &&
       TagTargets(job, join, attrs)[k] == join(job.url, attrs[j].val))
    decreases |attrs|
  {
    var link := join(job.url, attrs[0].val);
    if IsLinkKey(attrs[0].key) && !ShouldExclude(link, job.reject, job.exclude) {
      if k > 0 {
        TagTargetsSound(job, join, attrs[1..], k - 1);
        var j :| 0 <= j < |attrs[1..]| && IsLinkKey(attrs[1..][j].key) &&
          TagTargets(job, join, attrs[1..])[k - 1] == join(job.url, attrs[1..][j].val);
        assert attrs[1..][j] == attrs[j + 1];
      }
    } else {
      TagTargetsSound(job, join, attrs[1..], k);
      var j :| 0 <= j < |attrs[1..]| && IsLinkKey(attrs[1..][j].key) &&
        TagTargets(job, join, attrs[1..])[k] == join(job.url, attrs[1..][j].val);
      assert attrs[1..][j] == attrs[j + 1];
    }
  }

  /** Every `href` or `src` value of a tag whose resolved URL the filter lets
      through is a target of the tag. */
  lemma {:induction false} TagTargetsComplete(job: Job, join: Joiner, attrs: seq<Attribute>, j: nat)
    requires j < |attrs| && IsLinkKey(attrs[j].key)
    requires !ShouldExclude(join(job.url, attrs[j].val), job.reject, job.exclude)
    ensures join(job.url, attrs[j].val) in TagTargets(job, join, attrs)
    decreases j
  {
    if j > 0 {
      assert attrs[1..][j - 1] == attrs[j];
      TagTargetsComplete(job, join, attrs[1..], j - 1);
    }
  }

  /** The URLs handed to the download step for a page with these tokens, in
      document order. They depend on the tokens, the page URL and the rules
      only, never on how earlier downloads went. */
  function Targets(job: Job, join: Joiner, tokens: seq<Token>): (r: seq<string>)
    ensures forall k :: 0 <= k < |r| ==> !ShouldExclude(r[k], job.reject, job.exclude)
  {
    if |tokens| == 0 || tokens[0].kind == ErrorToken then []
    else (if IsTag(tokens[0]) then TagTargets(job, join, tokens[0].attrs) else []) +
         Targets(job, join, tokens[1..])
  }

  /** One attribute of the loop: it contributes its resolved link or nothing. */
  lemma TagTargetsStep(job: Job, join: Joiner, attrs: seq<Attribute>, j: nat)
    requires j < |attrs|
    ensures TagTargets(job, join, attrs[j..]) ==
      (if IsLinkKey(attrs[j].key) && !ShouldExclude(join(job.url, attrs[j].val), job.reject, job.exclude)
       then [join(job.url, attrs[j].val)] else []) + TagTargets(job, join, attrs[j + 1..])
  {
    assert attrs[j..][0] == attrs[j] && attrs[j..][1..] == attrs[j + 1..];
  }

  /** Each attempt holds what the download step returned for it, given how
      many attempts came before. */
  predicate Recorded(attempts: seq<Attempt>, download: Downloader, folder: string)
  {
    forall k :: 0 <= k < |attempts| ==> attempts[k].outcome == download(k, attempts[k].url, folder)
  }

  lemma RecordedSnoc(attempts: seq<Attempt>, download: Downloader, folder: string, url: string)
    requires Recorded(attempts, download, folder)
    ensures Recorded(attempts + [Attempt(url, download(|attempts|, url, folder))], download, folder)
  {
  }

  lemma UrlsSnoc(attempts: seq<Attempt>, a: Attempt)
    ensures Urls(attempts + [a]) == Urls(attempts) + [a.url]
  {
  }

  /** The attribute loop for one tag: each allowed link is downloaded in
      attribute order, and a failed download does not stop the loop. */
  method VisitTag(job: Job, join: Joiner, download: Downloader, attrs: seq<Attribute>,
                  attempts: seq<Attempt>)
    returns (attempts': seq<Attempt>)
    requires Recorded(attempts, download, job.folder)
    ensures Urls(attempts') == Urls(attempts) + TagTargets(job, join, attrs)
    ensures Recorded(attempts', download, job.folder)
  {
    attempts' := attempts;
    var j := 0;
    while j < |attrs|
      invariant 0 <= j <= |attrs|
      invariant Urls(attempts) + TagTargets(job, join, attrs) ==
                Urls(attempts') + TagTargets(job, join, attrs[j..])
      invariant Recorded(attempts', download, job.folder)
    {
      var attr := attrs[j];
      TagTargetsStep(job, join, attrs, j);
      if IsLinkKey(attr.key) {
        var link := join(job.url, attr.val);
        if !ShouldExclude(link, job.reject, job.exclude) {
          // A failure is only logged; the loop carries on either way.
          var outcome := download(|attempts'|, link, job.folder);
          UrlsSnoc(attempts', Attempt(link, outcome));
          RecordedSnoc(attempts', download, job.folder, link);
          attempts' := attempts' + [Attempt(link, outcome)];
        }
      }
      j := j + 1;
    }
    assert attrs[j..] == [];
  }

  /** One token of the loop: a tag contributes its targets, any other token
      that is not an error contributes nothing. */
  lemma TargetsStep(job: Job, join: Joiner, tokens: seq<Token>, n: nat)
    requires n < |tokens| && tokens[n].kind != ErrorToken
    ensures Targets(job, join, tokens[n..]) ==
      (if IsTag(tokens[n]) then TagTargets(job, join, tokens[n].attrs) else []) +
      Targets(job, join, tokens[n + 1..])
  {
    assert tokens[n..][0] == tokens[n] && tokens[n..][1..] == tokens[n + 1..];
  }

  /** Where the loop stops, no targets remain. */
  lemma TargetsAtStop(job: Job, join: Joiner, tokens: seq<Token>, n: nat)
    requires n <= |tokens| && (n == |tokens| || tokens[n].kind == ErrorToken)
    ensures Targets(job, join, tokens[n..]) == []
  {
    if n < |tokens| {
      assert tokens[n..][0] == tokens[n];
    }
  }

  /** `downloadPage`: fetch failure is returned as is; otherwise the token
      loop calls the download step once for each target, in order, logs
      failures and goes on, and returns success at the first error token. */
  method DownloadPage(job: Job, join: Joiner, download: Downloader, page: Page)
    returns (err: Outcome, attempts: seq<Attempt>)
    ensures page.Unreachable? ==> err == Failed(page.reason) && attempts == []
    ensures page.Fetched? ==> err == Done
    ensures page.Fetched? ==> Urls(attempts) == Targets(job, join, page.tokens)
    ensures Recorded(attempts, download, job.folder)
  {
    if page.Unreachable? {
      return Failed(page.reason), [];
    }
    var tokens := page.tokens;
    attempts := [];
    var n := 0;
    while n < |tokens| && tokens[n].kind != ErrorToken
      invariant 0 <= n <= |tokens|
      invariant Targets(job, join, tokens) == Urls(attempts) + Targets(job, join, tokens[n..])
      invariant Recorded(attempts, download, job.folder)
      decreases |tokens| - n
    {
      var token := tokens[n];
      TargetsStep(job, join, tokens, n);
      if IsTag(token) {
        attempts := VisitTag(job, join, download, token.attrs, attempts);
      }
      n := n + 1;
    }
    TargetsAtStop(job, join, tokens, n);
    return Done, attempts;
  }

  /** Every target is an `href` or `src` value of a start or self-closing tag
      before the first error token, resolved against the page URL. */
  lemma {:induction false} TargetsSound(job: Job, join: Joiner, tokens: seq<Token>, k: nat)
    requires k < |Targets(job, join, tokens)|
    ensures exists i, j ::
      (0 <= i < FirstError(tokens) && IsTag(tokens[i]) &&
       0 <= j < |tokens[i].attrs| && IsLinkKey(tokens[i].attrs[j].key) &&
       Targets(job, join, tokens)[k] == join(job.url, tokens[i].attrs[j].val))
    decreases |tokens|
  {
    var head := if IsTag(tokens[0]) then TagTargets(job, join, tokens[0].attrs) else [];
    assert Targets(job, join, tokens) == head + Targets(job, join, tokens[1..]);
    if k < |head| {
      assert IsTag(tokens[0]) && head == TagTargets(job, join, tokens[0].attrs);
      TagTargetsSound(job, join, tokens[0].attrs, k);
      var j :| 0 <= j < |tokens[0].attrs| && IsLinkKey(tokens[0].attrs[j].key) &&
        head[k] == join(job.url, tokens[0].attrs[j].val);
    } else {
      TargetsSound(job, join, tokens[1..], k - |head|);
      var i, j :| 0 <= i < FirstError(tokens[1..]) && IsTag(tokens[1..][i]) &&
        0 <= j < |tokens[1..][i].attrs| && IsLinkKey(tokens[1..][i].attrs[j].key) &&
        Targets(job, join, tokens[1..])[k - |head|] == join(job.url, tokens[1..][i].attrs[j].val);
      assert tokens[1..][i] == tokens[i + 1];
    }
  }

  /** Every `href` or `src` value of a start or self-closing tag before the
      first error token whose resolved URL the filter lets through is a
      target. */
  lemma {:induction false} TargetsComplete(job: Job, join: Joiner, tokens: seq<Token>, i: nat, j: nat)
    requires i < FirstError(tokens) && IsTag(tokens[i])
    requires j < |tokens[i].attrs| && IsLinkKey(tokens[i].attrs[j].key)
    requires !ShouldExclude(join(job.url, tokens[i].attrs[j].val), job.reject, job.exclude)
    ensures join(job.url, tokens[i].attrs[j].val) in Targets(job, join, tokens)
    decreases i
  {
    var head := if IsTag(tokens[0]) then TagTargets(job, join, tokens[0].attrs) else [];
    assert Targets(job, join, tokens) == head + Targets(job, join, tokens[1..]);
    if i > 0 {
      assert tokens[1..][i - 1] == tokens[i];
      TargetsComplete(job, join, tokens[1..], i - 1, j);
    } else {
      TagTargetsComplete(job, join, tokens[0].attrs, j);
    }
  }

  /** Attribute order: the targets of two attribute runs are those of the
      first run followed by those of the second. */
  lemma {:induction false} TagTargetsAppend(job: Job, join: Joiner, a: seq<Attribute>, b: seq<Attribute>)
    ensures TagTargets(job, join, a + b) == TagTargets(job, join, a) + TagTargets(job, join, b)
    decreases |a|
  {
    if |a| == 0 {
      assert a + b == b;
    } else {
      assert (a + b)[0] == a[0] && (a + b)[1..] == a[1..] + b;
      TagTargetsAppend(job, join, a[1..], b);
    }
  }

  /** Document order: the targets of a run of tokens without an error token,
      followed by more tokens, are the run's targets followed by theirs. */
  lemma {:induction false} TargetsAppend(job: Job, join: Joiner, a: seq<Token>, b: seq<Token>)
    requires FirstError(a) == |a|
    ensures Targets(job, join, a + b) == Targets(job, join, a) + Targets(job, join, b)
    decreases |a|
  {
    if |a| == 0 {
      assert a + b == b;
    } else {
      assert (a + b)[0] == a[0] && (a + b)[1..] == a[1..] + b;
      TargetsAppend(job, join, a[1..], b);
    }
  }

  /** The scan stops at the first error token: only the tokens before it
      matter, and whatever follows an error token is never looked at. */
  lemma {:induction false} TargetsStopAtError(job: Job, join: Joiner, tokens: seq<Token>, rest: seq<Token>)
    requires FirstError(tokens) < |tokens|
    ensures Targets(job, join, tokens) == Targets(job, join, tokens[..FirstError(tokens)])
    ensures Targets(job, join, tokens + rest) == Targets(job, join, tokens)
    decreases |tokens|
  {
    var n := FirstError(tokens);
    if n == 0 {
      assert (tokens + rest)[0] == tokens[0];
      assert tokens[..0] == [];
    } else {
      assert (tokens + rest)[0] == tokens[0] && (tokens + rest)[1..] == tokens[1..] + rest;
      TargetsStopAtError(job, join, tokens[1..], rest);
      assert tokens[..n][0] == tokens[0] && tokens[..n][1..] == tokens[1..][..n - 1];
    }
  }

  /** The mirror branch of the program as written: the rule lists are the
      plain comma split of the flag values. */
  function MirrorTargetsAsWritten(url: string, folder: string, rejectFlag: string, excludeFlag: string,
                                  join: Joiner, tokens: seq<Token>): (r: seq<string>)
    ensures forall k :: 0 <= k < |r| ==>
      !ShouldExclude(r[k], SplitRules(rejectFlag), SplitRules(excludeFlag))
  {
    Targets(Job(url, folder, SplitRules(rejectFlag), SplitRules(excludeFlag)), join, tokens)
  }

  /** As written, mirror mode with `--reject` or `--exclude` left unset
      downloads nothing at all, whatever the page links to. */
  lemma UnsetFlagMirrorsNothing(url: string, folder: string, rejectFlag: string, excludeFlag: string,
                                join: Joiner, tokens: seq<Token>)
    requires rejectFlag == "" || excludeFlag == ""
    ensures MirrorTargetsAsWritten(url, folder, rejectFlag, excludeFlag, join, tokens) == []
  {
    var r := MirrorTargetsAsWritten(url, folder, rejectFlag, excludeFlag, join, tokens);
    if r != [] {
      if rejectFlag == "" {
        UnsetFlagExcludesEverything(r[0], excludeFlag);
      } else {
        UnsetFlagExcludesEverything(r[0], rejectFlag);
      }
    }
  }

  /** The mirror branch with the intended rule lists, in which an unset flag
      names no rule. For flags without empty pieces it downloads what the
      program as written downloads. */
  function MirrorTargets(url: string, folder: string, rejectFlag: string, excludeFlag: string,
                         join: Joiner, tokens: seq<Token>): (r: seq<string>)
    ensures forall k :: 0 <= k < |r| ==>
      !ShouldExclude(r[k], RuleList(rejectFlag), RuleList(excludeFlag))
    ensures NoEmptyPiece(rejectFlag) && NoEmptyPiece(excludeFlag) ==>
      r == MirrorTargetsAsWritten(url, folder, rejectFlag, excludeFlag, join, tokens)
  {
    var r := Targets(Job(url, folder, RuleList(rejectFlag), RuleList(excludeFlag)), join, tokens);
    if NoEmptyPiece(rejectFlag) && NoEmptyPiece(excludeFlag) then
      RuleListAgreesWithSplit(rejectFlag);
      RuleListAgreesWithSplit(excludeFlag);
      r
    else
      r
  }

  /** With the intended rule lists and both flags unset, every `href` or
      `src` link of the page is downloaded. */
  lemma UnsetFlagsMirrorEveryLink(url: string, folder: string, join: Joiner, tokens: seq<Token>, i: nat, j: nat)
    requires i < FirstError(tokens) && IsTag(tokens[i])
    requires j < |tokens[i].attrs| && IsLinkKey(tokens[i].attrs[j].key)
    ensures join(url, tokens[i].attrs[j].val) in MirrorTargets(url, folder, "", "", join, tokens)
  {
    RuleListFiltersByNamedRules(join(url, tokens[i].attrs[j].val), "", "");
    TargetsComplete(Job(url, folder, RuleList(""), RuleList("")), join, tokens, i, j);
  }

  /** A page with a script and a stylesheet. */
  const PageUrl: string := "http://example.test/page.html"
  const ScriptTag: Token := Token(StartTagToken, "script", [Attribute("src", "/app.js")])
  const StylesheetTag: Token :=
    Token(SelfClosingTagToken, "link", [Attribute("rel", "stylesheet"),
                                        Attribute("href", "https://cdn.test/style.css")])
  const PageTokens: seq<Token> :=
    [ScriptTag, Token(EndTagToken, "script", []), StylesheetTag, Token(ErrorToken, "", [])]

  /** Whatever the rules, the page's targets are those of its two tags, in
      document order. */
  lemma PageTokensTargets(job: Job, join: Joiner)
    ensures Targets(job, join, PageTokens) ==
      TagTargets(job, join, ScriptTag.attrs) + TagTargets(job, join, StylesheetTag.attrs)
  {
    var t := PageTokens;
    assert t[1..][1..][1..] == [t[3]];
    assert Targets(job, join, t[1..][1..][1..]) == [];
    assert Targets(job, join, t[1..][1..]) == TagTargets(job, join, StylesheetTag.attrs);
    assert Targets(job, join, t[1..]) == TagTargets(job, join, StylesheetTag.attrs);
  }

  /** The script is resolved to `jsUrl` and the stylesheet to `cssUrl`; a
      tag's targets are then those the rules let through. */
  lemma PageTagTargets(job: Job, join: Joiner, jsUrl: string, cssUrl: string)
    requires join(PageUrl, "/app.js") == jsUrl
    requires join(PageUrl, "https://cdn.test/style.css") == cssUrl
    requires job.url == PageUrl
    ensures TagTargets(job, join, ScriptTag.attrs) ==
      if ShouldExclude(jsUrl, job.reject, job.exclude) then [] else [jsUrl]
    ensures TagTargets(job, join, StylesheetTag.attrs) ==
      if ShouldExclude(cssUrl, job.reject, job.exclude) then [] else [cssUrl]
  {
    assert ScriptTag.attrs[1..] == [];
    assert StylesheetTag.attrs[1..][1..] == [];
  }

  /** Running without flags, the program as written downloads neither asset
      of the page; with the intended rule lists both are downloaded, in
      document order. */
  lemma ScriptAndStylesheetWithoutFlags(join: Joiner)
    requires join(PageUrl, "/app.js") == "http://example.test/app.js"
    requires join(PageUrl, "https://cdn.test/style.css") == "https://cdn.test/style.css"
    ensures MirrorTargetsAsWritten(PageUrl, ".", "", "", join, PageTokens) == []
    ensures MirrorTargets(PageUrl, ".", "", "", join, PageTokens) ==
      ["http://example.test/app.js", "https://cdn.test/style.css"]
  {
    UnsetFlagMirrorsNothing(PageUrl, ".", "", "", join, PageTokens);
    var plain := Job(PageUrl, ".", RuleList(""), RuleList(""));
    assert plain.reject == [] && plain.exclude == [];
    PageTokensTargets(plain, join);
    PageTagTargets(plain, join, "http://example.test/app.js", "https://cdn.test/style.css");
  }

  /** With `--reject=.css` alone, the program as written still downloads
      nothing, since `--exclude` is unset; with the intended rule lists only
      the script is downloaded. */
  lemma ScriptAndStylesheetRejectCss(join: Joiner)
    requires join(PageUrl, "/app.js") == "http://example.test/app.js"
    requires join(PageUrl, "https://cdn.test/style.css") == "https://cdn.test/style.css"
    ensures MirrorTargetsAsWritten(PageUrl, ".", ".css", "", join, PageTokens) == []
    ensures MirrorTargets(PageUrl, ".", ".css", "", join, PageTokens) == ["http://example.test/app.js"]
  {
    UnsetFlagMirrorsNothing(PageUrl, ".", ".css", "", join, PageTokens);
    var jsUrl := "http://example.test/app.js";
    var cssUrl := "https://cdn.test/style.css";
    assert ',' !in ".css";
    assert SplitRules(".css") == [".css"];
    assert RuleList(".css") == [".css"];
    assert HasSuffix(cssUrl, ".css") by {
      assert cssUrl[|cssUrl| - 4..] == ".css";
    }
    assert !HasSuffix(jsUrl, ".css") by {
      assert jsUrl[|jsUrl| - 4..][0] == 'p';
    }
    var css := Job(PageUrl, ".", RuleList(".css"), RuleList(""));
    assert css.reject == [".css"] && css.exclude == [];
    assert ShouldExclude(cssUrl, css.reject, css.exclude);
    assert !ShouldExclude(jsUrl, css.reject, css.exclude);
    PageTokensTargets(css, join);
    PageTagTargets(css, join, jsUrl, cssUrl);
  }

  /** With `--reject=.css` and an `--exclude` prefix that matches neither
      asset, the program as written downloads only the script. */
  lemma ScriptAndStylesheetRejectCssAsWritten(join: Joiner)
    requires join(PageUrl, "/app.js") == "http://example.test/app.js"
    requires join(PageUrl, "https://cdn.test/style.css") == "https://cdn.test/style.css"
    ensures MirrorTargetsAsWritten(PageUrl, ".", ".css", "ftp:", join, PageTokens) == ["http://example.test/app.js"]
  {
    var jsUrl := "http://example.test/app.js";
    var cssUrl := "https://cdn.test/style.css";
    assert ',' !in ".css" && ',' !in "ftp:";
    assert SplitRules(".css") == [".css"];
    assert SplitRules("ftp:") == ["ftp:"];
    assert HasSuffix(cssUrl, ".css") by {
      assert cssUrl[|cssUrl| - 4..] == ".css";
    }
    assert !HasSuffix(jsUrl, ".css") by {
      assert jsUrl[|jsUrl| - 4..][0] == 'p';
    }
    assert !HasPrefix(jsUrl, "ftp:") by {
      assert jsUrl[..4][0] == 'h';
    }
    var job := Job(PageUrl, ".", SplitRules(".css"), SplitRules("ftp:"));
    assert job.reject == [".css"] && job.exclude == ["ftp:"];
    assert ShouldExclude(cssUrl, job.reject, job.exclude);
    assert !ShouldExclude(jsUrl, job.reject, job.exclude);
    PageTokensTargets(job, join);
    PageTagTargets(job, join, jsUrl, cssUrl);
  }
}
