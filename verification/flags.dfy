/** Turning the `--reject` and `--exclude` flag values into rule lists. */
module Flags {
  import opened Strings
  import opened Filter

  /** Rules are given in one flag value, separated by commas. */
  const RuleSeparator: char := ','

  /** The rule list as the program builds it: `strings.Split(flag, ",")`.
      It is never empty, no rule holds a comma, and joining the rules with
      commas gives back the flag value. */
  function SplitRules(flag: string): (rules: seq<string>)
    ensures |rules| == Count(flag, RuleSeparator) + 1
    ensures forall i :: 0 <= i < |rules| ==> RuleSeparator !in rules[i]
    ensures Join(rules, RuleSeparator) == flag
  {
    Split(flag, RuleSeparator)
  }

  /** A flag left at its default value "" splits into the one empty rule. */
  lemma {:induction false} UnsetFlagIsOneEmptyRule()
    ensures SplitRules("") == [""]
  {
    assert RuleSeparator !in "";
  }

  /** Consequence of the split as written: leaving either flag unset excludes
      every URL, whatever the other flag says. */
  lemma UnsetFlagExcludesEverything(url: string, flag: string)
    ensures ShouldExclude(url, SplitRules(""), SplitRules(flag))
    ensures ShouldExclude(url, SplitRules(flag), SplitRules(""))
  {
    UnsetFlagIsOneEmptyRule();
    EmptyRuleExcludesEverything(url, SplitRules(""), SplitRules(flag));
    EmptyRuleExcludesEverything(url, SplitRules(flag), SplitRules(""));
  }

  /** The pieces that name a rule: the non-empty ones, in their order. */
  function NonEmptyPieces(pieces: seq<string>): (rules: seq<string>)
    ensures forall r :: r in rules <==> r in pieces && r != ""
    ensures |rules| <= |pieces|
    ensures (forall i :: 0 <= i < |pieces| ==> pieces[i] != "") ==> rules == pieces
  {
    if |pieces| == 0 then []
    else
      var rest := NonEmptyPieces(pieces[1..]);
      assert pieces == [pieces[0]] + pieces[1..];
      if pieces[0] == "" then rest else [pieces[0]] + rest
  }

  /** The rule list the flags are meant to give: an empty piece (a flag left
      unset, or a stray comma) names no rule, so it is dropped. */
  function RuleList(flag: string): (rules: seq<string>)
    ensures forall i :: 0 <= i < |rules| ==> rules[i] != "" && RuleSeparator !in rules[i]
    ensures forall r :: r in rules <==> r in SplitRules(flag) && r != ""
    ensures flag == "" ==> rules == []
  {
    UnsetFlagIsOneEmptyRule();
    var pieces := SplitRules(flag);
    var rules := NonEmptyPieces(pieces);
    assert forall i :: 0 <= i < |rules| ==> rules[i] in pieces;
    rules
  }

  /** With the intended rule lists, unset flags exclude nothing, and
      otherwise a URL is excluded exactly when a non-empty piece of the
      reject flag ends it or a non-empty piece of the exclude flag starts it. */
  lemma RuleListFiltersByNamedRules(url: string, rejectFlag: string, excludeFlag: string)
    ensures !ShouldExclude(url, RuleList(""), RuleList(""))
    ensures ShouldExclude(url, RuleList(rejectFlag), RuleList(excludeFlag)) <==>
      ((exists r :: r in SplitRules(rejectFlag) && r != "" && HasSuffix(url, r)) ||
       (exists e :: e in SplitRules(excludeFlag) && e != "" && HasPrefix(url, e)))
  {
  }

  /** No piece of the flag's comma split is empty. */
  predicate NoEmptyPiece(flag: string) {
    forall i :: 0 <= i < |SplitRules(flag)| ==> SplitRules(flag)[i] != ""
  }

  /** Where the flag names no empty rule, the intended list is the split as
      written. */
  lemma RuleListAgreesWithSplit(flag: string)
    requires NoEmptyPiece(flag)
    ensures RuleList(flag) == SplitRules(flag)
  {
  }
}
