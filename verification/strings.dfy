/** The three functions of Go's `strings` package that the program calls
    (`HasPrefix`, `HasSuffix`, `Split`), over strings modelled as sequences
    of characters; `Count`, `Join` and `IndexOf` are helpers for stating and
    proving the contract of `Split`. */
module Strings {

  /** `strings.HasPrefix`: `prefix` is the leading part of `s`. */
  predicate HasPrefix(s: string, prefix: string) {
    |prefix| <= |s| && s[..|prefix|] == prefix
  }

  /** `strings.HasSuffix`: `suffix` is the trailing part of `s`. */
  predicate HasSuffix(s: string, suffix: string) {
    |suffix| <= |s| && s[|s| - |suffix|..] == suffix
  }

  /** `strings.Count` for a one-character separator: how often `c` occurs in `s`. */
  function Count(s: string, c: char): nat
  {
    if |s| == 0 then 0 else (if s[0] == c then 1 else 0) + Count(s[1..], c)
  }

  /** `strings.Index` for a one-character separator that does occur in `s`. */
  function IndexOf(s: string, c: char): (i: nat)
    requires c in s
    ensures i < |s| && s[i] == c
    ensures c !in s[..i]
  {
    if s[0] == c then 0 else 1 + IndexOf(s[1..], c)
  }

  /** `strings.Join`: the pieces with one separator between neighbours. */
  function Join(parts: seq<string>, sep: char): string
  {
    if |parts| == 0 then ""
    else if |parts| == 1 then parts[0]
    else parts[0] + [sep] + Join(parts[1..], sep)
  }

  /** `strings.Split` with a one-character separator: cut `s` at every
      occurrence of `sep`. The pieces never contain the separator, there is
      one more piece than separators (so never zero pieces, and the empty
      string gives one empty piece), and joining them restores `s`. */
  function Split(s: string, sep: char): (parts: seq<string>)
    ensures |parts| == Count(s, sep) + 1
    ensures forall i :: 0 <= i < |parts| ==> sep !in parts[i]
    ensures Join(parts, sep) == s
    decreases |s|
  {
    if sep !in s then
      CountAbsent(s, sep);
      [s]
    else
      var m := IndexOf(s, sep);
      var rest := Split(s[m + 1..], sep);
      SplitStep(s, sep, m, rest);
      [s[..m]] + rest
  }

  /** The cut at the first separator keeps the three properties of `Split`. */
  lemma SplitStep(s: string, sep: char, m: nat, rest: seq<string>)
    requires m < |s| && s[m] == sep && sep !in s[..m]
    requires |rest| == Count(s[m + 1..], sep) + 1
    requires forall i :: 0 <= i < |rest| ==> sep !in rest[i]
    requires Join(rest, sep) == s[m + 1..]
    ensures |[s[..m]] + rest| == Count(s, sep) + 1
    ensures forall i :: 0 <= i < |[s[..m]] + rest| ==> sep !in ([s[..m]] + rest)[i]
    ensures Join([s[..m]] + rest, sep) == s
  {
    var parts := [s[..m]] + rest;
    CountAround(s, m, sep);
    JoinCons(s[..m], rest, sep);
    assert s == s[..m] + [sep] + s[m + 1..];
    forall i | 0 <= i < |parts|
      ensures sep !in parts[i]
    {
      if i > 0 {
        assert parts[i] == rest[i - 1];
      }
    }
  }

  /** `Split` cuts at the first separator. */
  lemma SplitAt(s: string, sep: char, m: nat)
    requires m < |s| && s[m] == sep && sep !in s[..m]
    ensures Split(s, sep) == [s[..m]] + Split(s[m + 1..], sep)
  {
    IndexOfFirst(s, m, sep);
  }

  /** Joining a non-empty tail behind a first piece puts one separator between them. */
  lemma JoinCons(first: string, rest: seq<string>, sep: char)
    requires |rest| >= 1
    ensures Join([first] + rest, sep) == first + [sep] + Join(rest, sep)
  {
    assert ([first] + rest)[1..] == rest;
  }

  lemma {:induction false} CountAbsent(s: string, c: char)
    requires c !in s
    ensures Count(s, c) == 0
    decreases |s|
  {
    if |s| > 0 {
      assert c !in s[1..];
      CountAbsent(s[1..], c);
    }
  }

  lemma {:induction false} CountAppend(a: string, b: string, c: char)
    ensures Count(a + b, c) == Count(a, c) + Count(b, c)
    decreases |a|
  {
    if |a| == 0 {
      assert a + b == b;
    } else {
      assert (a + b)[1..] == a[1..] + b;
      CountAppend(a[1..], b, c);
    }
  }

  /** Counting around the first separator at index `m`. */
  lemma CountAround(s: string, m: nat, c: char)
    requires m < |s| && s[m] == c && c !in s[..m]
    ensures Count(s, c) == Count(s[m + 1..], c) + 1
  {
    assert s == s[..m] + ([c] + s[m + 1..]);
    CountAppend(s[..m], [c] + s[m + 1..], c);
    CountAbsent(s[..m], c);
    assert ([c] + s[m + 1..])[1..] == s[m + 1..];
  }

  /** The first occurrence found by `IndexOf` is the one with no separator before it. */
  lemma {:induction false} IndexOfFirst(s: string, k: nat, c: char)
    requires k < |s| && s[k] == c && c !in s[..k]
    ensures IndexOf(s, c) == k
    decreases k
  {
    if k > 0 {
      assert s[0] == s[..k][0];
      assert s[1..][..k - 1] == s[..k][1..];
      IndexOfFirst(s[1..], k - 1, c);
    }
  }

  /** Splitting undoes joining, as long as no piece holds the separator. */
  lemma {:induction false} SplitJoin(parts: seq<string>, sep: char)
    requires |parts| >= 1
    requires forall i :: 0 <= i < |parts| ==> sep !in parts[i]
    ensures Split(Join(parts, sep), sep) == parts
    decreases |parts|
  {
    if |parts| == 1 {
      assert Join(parts, sep) == parts[0];
    } else {
      var rest := Join(parts[1..], sep);
      var s := parts[0] + [sep] + rest;
      var m := |parts[0]|;
      assert Join(parts, sep) == s;
      assert s[..m] == parts[0];
      assert s[m + 1..] == rest;
      SplitAt(s, sep, m);
      SplitJoin(parts[1..], sep);
      assert parts == [parts[0]] + parts[1..];
    }
  }
}
