# wget mirror core in Dafny

This project models the decision core of a small Go `wget` clone, in `main.go`. It covers three pieces:

- **The link filter** `shouldExclude`. A discovered URL is skipped when a reject rule is a suffix of it or an exclude rule is a prefix of it. The reject loop runs first, then the exclude loop, and the first match wins.
- **The rule lists.** In mirror mode the program builds them from the `--reject` and `--exclude` flag values with a comma split (`strings.Split`).
- **The link scan of `downloadPage`.** The HTML tokenizer's output is read token by token. Only start and self-closing tags are looked at, and in them only `href` and `src` attributes. Each value is resolved against the page URL with `urljoin`. Each link the filter lets through is handed to `mirrorDownload`, in document order and then attribute order. A failed download is only logged. The tokenizer reports the end of input or a read error as an error token, and the scan returns success at the first one.

Modules, one file each:

- `Strings` (`strings.dfy`): the three functions of Go's `strings` package that the program calls, over `string` = `seq<char>`. These are `HasPrefix`, `HasSuffix` and `Split` with a one-character separator. `Count`, `Join` and `IndexOf` are helpers for stating and proving the contract of `Split`.
- `Filter` (`filter.dfy`): the two rule loops and `shouldExclude`.
- `Flags` (`flags.dfy`): two ways to build a rule list from a flag value. `SplitRules` is the split as written. `RuleList` is the intended reading (see Findings).
- `Html` (`html.dfy`): the tokenizer's output as data, meaning token kinds, attributes and tokens.
- `Mirror` (`mirror.dfy`): two models of the scan. `Targets` is a pure function giving the URLs handed to the download step. `DownloadPage` is a method with the program's two nested loops, and it is proved to make exactly those calls. `Mirror` also holds the mirror branch of `main`.

`urljoin` and `mirrorDownload` are parameters: a `Joiner` and a `Downloader`. The `Downloader` also receives the number of downloads made before the current one. Because of that, any sequence of successes and failures can be expressed. The token sequence is an input. If it ends without an error token, its end plays the role of the tokenizer's end-of-input error token.

Behaviour of the code worth noting:

- The scan reads the flat token stream of the tokenizer. Links count on any tag name: an `<a href>` counts like a `<link href>`.
- `downloadPage` does not save the main page, and `savePage` is never called.
- An unset `--reject` or `--exclude` flag becomes the rule list `[""]`, which excludes every link. See Findings.
- A read error or the end of input ends the scan, and the call still reports success.

## Model

| member | source | states |
|---|---|---|
| `Strings.Split` | main.go:212-213 | the comma split never yields an empty list; no piece contains the separator; there is one more piece than separators; joining the pieces with the separator gives back the flag value |
| `Strings.SplitJoin` | main.go:212-213 | splitting a joined list of separator-free pieces gives back exactly those pieces, so split and join are inverse |
| `Filter.AnySuffix` | main.go:179-183 | the reject loop answers true exactly when some rule in the list is a suffix of the URL |
| `Filter.AnyPrefix` | main.go:184-188 | the exclude loop answers true exactly when some rule in the list is a prefix of the URL |
| `Filter.ShouldExclude` | main.go:178-190 | a URL is excluded exactly when some reject rule ends it or some exclude rule starts it |
| `Filter.NoRulesExcludeNothing` | main.go:189 | with both rule lists empty, no URL is excluded |
| `Filter.EmptyRuleExcludesEverything` | main.go:179-186 | an empty string in either list excludes every URL |
| `Filter.MoreRulesExcludeMore` | main.go:179-188 | adding rules to either list never lets through a URL that was excluded before |
| `Filter.RuleOrderIrrelevant` | main.go:179-188 | the verdict depends only on which rules each list holds, not on their order or repetition, and not on which loop runs first |
| `Flags.SplitRules` | main.go:212-213 | the rule list as the program builds it: never empty, one more rule than commas, no rule holds a comma, and joining the rules with commas gives back the flag value; `UnsetFlagIsOneEmptyRule` gives its value for an unset flag |
| `Flags.UnsetFlagIsOneEmptyRule` | main.go:212-213 | splitting a flag left at its default "" gives the one-element list holding the empty rule |
| `Flags.UnsetFlagExcludesEverything` | main.go:212-213 | with the split as written, leaving either flag unset excludes every URL, whatever the other flag holds |
| `Flags.RuleList` | main.go:212-213 | intended rule list: it holds the same rules as the non-empty pieces of the comma split; none is empty or holds a comma; an unset flag gives no rules |
| `Flags.RuleListFiltersByNamedRules` | main.go:212-216 | with the intended lists, unset flags exclude nothing; otherwise a URL is excluded exactly when a non-empty reject piece ends it or a non-empty exclude piece starts it |
| `Flags.RuleListAgreesWithSplit` | main.go:212-213 | for a flag whose split has no empty piece, the intended list equals the split as written |
| `Mirror.FirstError` | main.go:141-148 | the scan's stopping point: no token before it is an error token, and the token at it, if any, is one |
| `Mirror.TagTargets` | main.go:156-171 | no URL the filter excludes is among a tag's targets |
| `Mirror.TagTargetsSound` | main.go:156-159 | each target of a tag is one of its `href`/`src` values resolved against the page URL |
| `Mirror.TagTargetsComplete` | main.go:156-170 | each `href`/`src` value of a tag whose resolved URL the filter lets through is a target of the tag |
| `Mirror.Targets` | main.go:141-174 | no URL the filter excludes is ever handed to the download step |
| `Mirror.VisitTag` | main.go:156-171 | the attribute loop downloads exactly the tag's targets, in attribute order; each attempt's result is what the download step returned; a failure does not stop the loop |
| `Mirror.DownloadPage` | main.go:131-174 | a failed page fetch is returned with no downloads; otherwise the result is success whatever the downloads returned, and the URLs downloaded are exactly the targets, in order, however earlier downloads went |
| `Mirror.TargetsSound` | main.go:150-159 | every target is an `href`/`src` value of a start or self-closing tag before the first error token, resolved against the page URL |
| `Mirror.TargetsComplete` | main.go:156-170 | every `href`/`src` value of a start or self-closing tag before the first error token whose resolved URL the filter lets through is a target |
| `Mirror.TagTargetsAppend` | main.go:156-171 | attribute order: the targets of two runs of attributes are those of the first run followed by those of the second |
| `Mirror.TargetsAppend` | main.go:141-174 | document order: a run of tokens with no error token contributes its targets before those of the tokens after it |
| `Mirror.TargetsStopAtError` | main.go:143-148 | only the tokens before the first error token matter; tokens after an error token never change the targets |
| `Mirror.MirrorTargetsAsWritten` | main.go:210-216 | the mirror branch as written: no URL it downloads is excluded by the comma-split flag values; `UnsetFlagMirrorsNothing` shows that it downloads nothing when either flag is unset |
| `Mirror.MirrorTargets` | main.go:210-216 | the mirror branch with the intended rule lists: no URL it downloads is excluded by a non-empty flag piece, and for flags with no empty piece it downloads exactly what the program as written downloads; `UnsetFlagsMirrorEveryLink` shows that with no flags it downloads every link |
| `Mirror.UnsetFlagMirrorsNothing` | main.go:210-216 | as written, mirror mode with `--reject` or `--exclude` unset downloads nothing, whatever the page |
| `Mirror.UnsetFlagsMirrorEveryLink` | main.go:210-216 | with the intended rule lists and both flags unset, every `href`/`src` link before the first error token is downloaded |
| `Mirror.ScriptAndStylesheetWithoutFlags` | main.go:210-216 | on a page with a script and a stylesheet and no flags, the code as written downloads nothing; the intended rule lists download both, script first |
| `Mirror.ScriptAndStylesheetRejectCss` | main.go:210-216 | on the same page with `--reject=.css` alone, the code as written downloads nothing because `--exclude` is unset; with the intended rule lists only the script is downloaded |
| `Mirror.ScriptAndStylesheetRejectCssAsWritten` | main.go:162-164 | on the same page with `--reject=.css` and an `--exclude` prefix that matches neither asset, the code as written downloads only the script |

## Left out

- Fetching the page over HTTP is left out because it is network I/O. Its result is the `Page` input: a transport error, or the page's tokens. The source does not check the status code of the main page, and neither does the model.
- `mirrorDownload` is left out. It does HTTP, status checks, local path computation with Go's `path` and `filepath` functions, directory creation and file writing, all of which are network and filesystem I/O. It is the `Downloader` parameter, and only its success or error message is modelled.
- `savePage` is left out because it writes a file and the program never calls it.
- `urljoin` is left out because it is not defined in `main.go`. It is the `Joiner` parameter, and the model does no URL resolution of its own. The general lemmas assume nothing about it. The page scenarios `Mirror.ScriptAndStylesheetWithoutFlags`, `Mirror.ScriptAndStylesheetRejectCss` and `Mirror.ScriptAndStylesheetRejectCssAsWritten` fix, through their preconditions, what it returns for the page's two links.
- The HTML tokenizer is left out because it is a foreign library. Its output is the token-sequence input. Tokens are not built from bytes, and attribute keys are used exactly as the tokenizer reports them.
- Printing "Failed to download" for a failed download is left out because it is console output. Each `Attempt` records the error message instead.
- Parts of `main` are left out because they are I/O and glue: flag parsing, the empty-URL check, the single-file download branch, and printing the mirror error.
- The commented-out earlier program at the top of `main.go` is left out because it is not compiled.
- Byte-level strings are left out. Go strings are byte strings; here they are character sequences. For valid UTF-8, prefix, suffix and a split on `,` give the same results.

## Findings

| source | as written | input that shows it | evidently intended | confidence | as-written member | corrected member |
|---|---|---|---|---|---|---|
| main.go:212-213 | A reject or exclude flag left at its default "" is split into the rule list `[""]`. The empty string is a suffix and a prefix of every URL, so `shouldExclude` holds for every link. | `--mirror --url=http://example.test/page.html` with no `--reject`, on a page with `<script src="/app.js">`: nothing is downloaded | An unset flag, or an empty piece between commas, names no rule. The flag descriptions call them lists of suffixes or paths to avoid, with an empty default. | high; not executed | `Mirror.UnsetFlagMirrorsNothing` (via `Mirror.MirrorTargetsAsWritten`) | `Flags.RuleList` (via `Mirror.MirrorTargets`, `Mirror.UnsetFlagsMirrorEveryLink`) |

The as-written model is `Flags.SplitRules`, used by `Mirror.MirrorTargetsAsWritten`. `Mirror.UnsetFlagMirrorsNothing` and `Mirror.ScriptAndStylesheetWithoutFlags` show that it downloads nothing. The corrected `Flags.RuleList` drops empty pieces and is used by `Mirror.MirrorTargets`. For it, `Mirror.UnsetFlagsMirrorEveryLink` proves that every link is downloaded when no flags are given, and `Flags.RuleListAgreesWithSplit` proves that it changes nothing for flags without empty pieces.
