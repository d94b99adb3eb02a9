/** The link filter of mirror mode: a discovered URL is skipped when one of
    the reject rules is a suffix of it or one of the exclude rules is a
    prefix of it. */
module Filter {
  import opened Strings

  /** The reject loop: rules are tried in list order and the first one that
      is a suffix of `url` settles the answer. */
  function AnySuffix(url: string, rules: seq<string>): (b: bool)
    ensures b <==> exists i :: 0 <= i < |rules| && HasSuffix(url, rules[i])
  {
    if |rules| == 0 then false
    else if HasSuffix(url, rules[0]) then true
    else
      var b := AnySuffix(url, rules[1..]);
      assert forall i :: 1 <= i < |rules| ==> rules[i] == rules[1..][i - 1];
      b
  }

  /** The exclude loop: rules are tried in list order and the first one that
      is a prefix of `url` settles the answer. */
  function AnyPrefix(url: string, rules: seq<string>): (b: bool)
    ensures b <==> exists i :: 0 <= i < |rules| && HasPrefix(url, rules[i])
  {
    if |rules| == 0 then false
    else if HasPrefix(url, rules[0]) then true
    else
      var b := AnyPrefix(url, rules[1..]);
      assert forall i :: 1 <= i < |rules| ==> rules[i] == rules[1..][i - 1];
      b
  }

  /** `shouldExclude`: the reject loop runs first, then the exclude loop; the
      URL is excluded exactly when some reject rule ends it or some exclude
      rule starts it. */
  function ShouldExclude(url: string, reject: seq<string>, exclude: seq<string>): (b: bool)
    ensures b <==> ((exists r :: r in reject && HasSuffix(url, r)) ||
                    (exists e :: e in exclude && HasPrefix(url, e)))
  {
    AnySuffix(url, reject) || AnyPrefix(url, exclude)
  }

  /** With no rules at all, nothing is excluded. */
  lemma NoRulesExcludeNothing(url: string)
    ensures !ShouldExclude(url, [], [])
  {
  }

  /** The empty string ends and starts every URL, so one empty rule in
      either list excludes every URL. */
  lemma EmptyRuleExcludesEverything(url: string, reject: seq<string>, exclude: seq<string>)
    requires "" in reject || "" in exclude
    ensures ShouldExclude(url, reject, exclude)
  {
    assert HasSuffix(url, "") && HasPrefix(url, "");
  }

  /** Adding rules to either list never lets a URL through that was
      excluded before. */
  lemma MoreRulesExcludeMore(url: string, reject: seq<string>, exclude: seq<string>,
                             reject': seq<string>, exclude': seq<string>)
    requires forall r :: r in reject ==> r in reject'
    requires forall e :: e in exclude ==> e in exclude'
    requires ShouldExclude(url, reject, exclude)
    ensures ShouldExclude(url, reject', exclude')
  {
  }

  /** Only which rules are present matters: reordering or repeating rules
      within a list leaves the verdict unchanged, and so does running the
      exclude loop before the reject loop. */
  lemma RuleOrderIrrelevant(url: string, reject: seq<string>, exclude: seq<string>,
                            reject': seq<string>, exclude': seq<string>)
    requires forall r :: r in reject <==> r in reject'
    requires forall e :: e in exclude <==> e in exclude'
    ensures ShouldExclude(url, reject, exclude) == ShouldExclude(url, reject', exclude')
    ensures ShouldExclude(url, reject, exclude) == (AnyPrefix(url, exclude) || AnySuffix(url, reject))
  {
  }
}
