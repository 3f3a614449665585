/** Go string comparison and strings.Split, on sequences of characters. */
module Text {

  /** Go's `<` on strings. */
  predicate Less(a: string, b: string) {
    b != "" && (a == "" || a[0] < b[0] || (a[0] == b[0] && Less(a[1..], b[1..])))
  }

  lemma {:induction false} LessIrreflexive(a: string)
    ensures !Less(a, a)
  {
    if a != "" {
      LessIrreflexive(a[1..]);
    }
  }

  lemma {:induction false} LessTransitive(a: string, b: string, c: string)
    requires Less(a, b) && Less(b, c)
    ensures Less(a, c)
  {
    if a != "" && a[0] == b[0] == c[0] {
      LessTransitive(a[1..], b[1..], c[1..]);
    }
  }

  lemma {:induction false} LessTotal(a: string, b: string)
    ensures a == b || Less(a, b) || Less(b, a)
  {
    if a != "" && b != "" && a[0] == b[0] {
      LessTotal(a[1..], b[1..]);
      assert a == [a[0]] + a[1..] && b == [b[0]] + b[1..];
    }
  }

  lemma LessAsymmetric(a: string, b: string)
    requires Less(a, b)
    ensures !Less(b, a) && a != b
  {
    LessIrreflexive(a);
    if Less(b, a) {
      LessTransitive(a, b, a);
    }
  }

  /** strings.Index: where `sep` first occurs in `s`, or |s| + 1. */
  function IndexOf(s: string, sep: string): (i: nat)
    ensures i <= |s| ==> sep <= s[i..]
    ensures i <= |s| || i == |s| + 1
  {
    if sep <= s then 0 else if s == "" then 1 else IndexOf(s[1..], sep) + 1
  }

  /** strings.Split; an empty separator splits after every character. */
  function Split(s: string, sep: string): seq<string>
    decreases |s|
  {
    if sep == "" then (if s == "" then [] else [s[..1]] + Split(s[1..], sep))
    else
      var i := IndexOf(s, sep);
      if i > |s| then [s] else [s[..i]] + Split(s[i + |sep|..], sep)
  }

  /** strings.Join. */
  function Join(parts: seq<string>, sep: string): string {
    if parts == [] then "" else if |parts| == 1 then parts[0] else parts[0] + sep + Join(parts[1..], sep)
  }

  /** Splitting loses nothing: joining the parts gives the string back. */
  lemma {:induction false} JoinSplit(s: string, sep: string)
    ensures Join(Split(s, sep), sep) == s
    ensures sep != "" ==> |Split(s, sep)| > 0
    decreases |s|
  {
    if sep == "" {
      if s != "" {
        JoinSplit(s[1..], sep);
        var rest := Split(s[1..], sep);
        assert Split(s, sep) == [s[..1]] + rest;
        assert ([s[..1]] + rest)[1..] == rest;
        assert s == s[..1] + s[1..];
      }
    } else {
      var i := IndexOf(s, sep);
      if i <= |s| {
        var tail := s[i + |sep|..];
        JoinSplit(tail, sep);
        assert ([s[..i]] + Split(tail, sep))[1..] == Split(tail, sep);
        assert s == s[..i] + sep + tail;
      }
    }
  }

  lemma SplitInjective(a: string, b: string, sep: string)
    requires Split(a, sep) == Split(b, sep)
    ensures a == b
  {
    JoinSplit(a, sep);
    JoinSplit(b, sep);
  }

  /** No occurrence of the separator begins before the one found. */
  lemma {:induction false} IndexOfIsFirst(s: string, sep: string, k: nat)
    requires k <= |s| && k < IndexOf(s, sep)
    ensures !(sep <= s[k..])
  {
    if k > 0 {
      IndexOfIsFirst(s[1..], sep, k - 1);
      assert s[1..][k - 1..] == s[k..];
    }
  }

  /** The separator does not occur in this text. */
  ghost predicate Lacks(s: string, sep: string) {
    forall k :: 0 <= k <= |s| ==> !(sep <= s[k..])
  }

  lemma HeadLacks(s: string, sep: string, i: nat)
    requires sep != "" && i <= |s| && i <= IndexOf(s, sep) && (i == |s| || i == IndexOf(s, sep))
    ensures Lacks(s[..i], sep)
  {
    forall k | 0 <= k <= i ensures !(sep <= s[..i][k..]) {
      if k < IndexOf(s, sep) {
        IndexOfIsFirst(s, sep, k);
        assert s[..i][k..] + s[i..] == s[k..];
      }
    }
  }

  lemma SplitUnfold(s: string, sep: string)
    requires sep != ""
    ensures var i := IndexOf(s, sep);
            if i > |s| then Split(s, sep) == [s]
            else i + |sep| <= |s| && Split(s, sep) == [s[..i]] + Split(s[i + |sep|..], sep)
  {
    hide IndexOf;
  }

  /** The parts are cut at every separator: none is left in a part. */
  lemma {:induction false} PartsLackSeparator(s: string, sep: string, j: nat)
    requires sep != "" && j < |Split(s, sep)|
    ensures Lacks(Split(s, sep)[j], sep)
    decreases |s|
  {
    hide Lacks, Split, IndexOf;
    SplitUnfold(s, sep);
    var i := IndexOf(s, sep);
    if i > |s| {
      HeadLacks(s, sep, |s|);
      assert s[..|s|] == s;
    } else {
      HeadLacks(s, sep, i);
      if j > 0 {
        PartsLackSeparator(s[i + |sep|..], sep, j - 1);
      }
    }
  }

  /** An empty separator makes every character a part. */
  lemma {:induction false} EmptySeparator(s: string)
    ensures |Split(s, "")| == |s| && forall k :: 0 <= k < |s| ==> Split(s, "")[k] == [s[k]]
    decreases |s|
  {
    if s != "" {
      EmptySeparator(s[1..]);
    }
  }
}
