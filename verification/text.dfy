/** Splitting text at a separator character, and the joining it inverts. */
module Text {

  /** Position of the first c in s, or |s|. */
  function IndexOf(s: string, c: char): (i: nat)
    ensures i <= |s| && (i < |s| ==> s[i] == c)
    ensures forall k :: 0 <= k < i ==> s[k] != c
  {
    if |s| == 0 || s[0] == c then 0 else 1 + IndexOf(s[1..], c)
  }

  /** The pieces of s between separators. */
  function Split(s: string, sep: char): (r: seq<string>)
    ensures |r| > 0
    decreases |s|
  {
    var i := IndexOf(s, sep);
    if i == |s| then [s] else [s[..i]] + Split(s[i + 1..], sep)
  }

  lemma SplitNoSeparator(a: string, sep: char)
    requires sep !in a
    ensures Split(a, sep) == [a]
  {
    assert IndexOf(a, sep) == |a|;
  }

  lemma SplitConcat(a: string, sep: char, b: string)
    requires sep !in a
    ensures Split(a + [sep] + b, sep) == [a] + Split(b, sep)
  {
    var s := a + [sep] + b;
    assert IndexOf(s, sep) == |a| by {
      IndexOfPrefix(a, sep, [sep] + b);
      assert s == a + ([sep] + b);
    }
    assert s[..|a|] == a && s[|a| + 1..] == b;
  }

  lemma {:induction false} IndexOfPrefix(a: string, sep: char, rest: string)
    requires sep !in a && |rest| > 0 && rest[0] == sep
    ensures IndexOf(a + rest, sep) == |a|
  {
    if |a| > 0 {
      assert (a + rest)[1..] == a[1..] + rest;
      IndexOfPrefix(a[1..], sep, rest);
    } else {
      assert a + rest == rest;
    }
  }

  /** Parts glued with a separator: the inverse `Split` is checked against. */
  function Join(parts: seq<string>, sep: char): (r: string)
    requires |parts| > 0
    ensures parts[0] <= r
  {
    if |parts| == 1 then parts[0] else parts[0] + [sep] + Join(parts[1..], sep)
  }

  /** Splitting undoes joining when no part holds the separator. */
  lemma {:induction false} SplitJoin(parts: seq<string>, sep: char)
    requires |parts| > 0 && forall k :: 0 <= k < |parts| ==> sep !in parts[k]
    ensures Split(Join(parts, sep), sep) == parts
  {
    if |parts| == 1 {
      SplitNoSeparator(parts[0], sep);
    } else {
      SplitConcat(parts[0], sep, Join(parts[1..], sep));
      SplitJoin(parts[1..], sep);
      assert parts == [parts[0]] + parts[1..];
    }
  }

  lemma JoinThree(a: string, b: string, c: string, sep: char)
    ensures Join([a, b, c], sep) == a + [sep] + b + [sep] + c
  {
    assert [a, b, c][1..] == [b, c] && [b, c][1..] == [c];
    assert Join([b, c], sep) == b + [sep] + c;
    assert a + [sep] + (b + [sep] + c) == a + [sep] + b + [sep] + c;
  }

  lemma JoinFive(a: string, b: string, c: string, d: string, e: string, sep: char)
    ensures Join([a, b, c, d, e], sep) == a + [sep] + b + [sep] + c + [sep] + d + [sep] + e
  {
    assert [a, b, c, d, e][1..] == [b, c, d, e] && [b, c, d, e][1..] == [c, d, e];
    JoinThree(c, d, e, sep);
  }

  lemma SplitThree(f1: string, f2: string, f3: string, sep: char)
    requires sep !in f1 && sep !in f2 && sep !in f3
    ensures Split(f1 + [sep] + f2 + [sep] + f3, sep) == [f1, f2, f3]
  {
    JoinThree(f1, f2, f3, sep);
    SplitJoin([f1, f2, f3], sep);
  }

  lemma SplitFive(f1: string, f2: string, f3: string, f4: string, f5: string, sep: char)
    requires forall v | v in [f1, f2, f3, f4, f5] :: sep !in v
    ensures Split(f1 + [sep] + f2 + [sep] + f3 + [sep] + f4 + [sep] + f5, sep) == [f1, f2, f3, f4, f5]
  {
    JoinFive(f1, f2, f3, f4, f5, sep);
    SplitJoin([f1, f2, f3, f4, f5], sep);
  }
}
