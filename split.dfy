/** Python's `str.split(sep)` for a one-character separator, and its inverse `sep.join`. */
module SplitText {

  /** Position of the first `sep` in `s`. */
  function IndexOfChar(s: string, sep: char): (i: nat)
    requires sep in s
    ensures i < |s| && s[i] == sep
  {
    if s[0] == sep then 0 else 1 + IndexOfChar(s[1..], sep)
  }

  lemma {:induction false} IndexOfCharIsFirst(s: string, sep: char)
    requires sep in s
    ensures sep !in s[..IndexOfChar(s, sep)]
  {
    if s[0] != sep {
      IndexOfCharIsFirst(s[1..], sep);
      assert s[..IndexOfChar(s, sep)] == [s[0]] + s[1..][..IndexOfChar(s[1..], sep)];
    }
  }

  /** `s.split(sep)`: the pieces between separators, empty ones included. */
  function Split(s: string, sep: char): (pieces: seq<string>)
    ensures |pieces| > 0
    decreases |s|
  {
    if sep !in s then [s]
    else
      var i := IndexOfChar(s, sep);
      [s[..i]] + Split(s[i + 1..], sep)
  }

  /** `s.split(sep)` has one more piece than `s` has separators, and no piece holds a separator. */
  lemma {:induction false} SplitSpec(s: string, sep: char)
    ensures |Split(s, sep)| == multiset(s)[sep] + 1
    ensures forall i :: 0 <= i < |Split(s, sep)| ==> sep !in Split(s, sep)[i]
    decreases |s|
  {
    if sep in s {
      var i := IndexOfChar(s, sep);
      var rest := s[i + 1..];
      SplitSpec(rest, sep);
      IndexOfCharIsFirst(s, sep);
      assert s == s[..i] + [sep] + rest;
      assert multiset(s) == multiset(s[..i]) + multiset([sep]) + multiset(rest);
      assert Split(s, sep) == [s[..i]] + Split(rest, sep);
    }
  }

  /** `sep.join(pieces)`, the inverse of `Split`. */
  function Join(pieces: seq<string>, sep: char): string
  {
    if pieces == [] then []
    else if |pieces| == 1 then pieces[0]
    else pieces[0] + [sep] + Join(pieces[1..], sep)
  }

  lemma {:induction false} JoinSplit(s: string, sep: char)
    ensures Join(Split(s, sep), sep) == s
    decreases |s|
  {
    if sep in s {
      var i := IndexOfChar(s, sep);
      var rest := s[i + 1..];
      JoinSplit(rest, sep);
      var pieces := Split(s, sep);
      assert pieces == [s[..i]] + Split(rest, sep);
      assert |pieces| > 1 && pieces[0] == s[..i] && pieces[1..] == Split(rest, sep);
      assert Join(pieces, sep) == s[..i] + [sep] + Join(Split(rest, sep), sep);
      assert s == s[..i] + [sep] + rest;
    }
  }

  /** The first separator of `prefix + [sep] + suffix`, when `prefix` has none, is right after `prefix`. */
  lemma IndexOfCharAfter(prefix: string, sep: char, suffix: string)
    requires sep !in prefix
    ensures IndexOfChar(prefix + [sep] + suffix, sep) == |prefix|
  {
    var s := prefix + [sep] + suffix;
    var i := IndexOfChar(s, sep);
    IndexOfCharIsFirst(s, sep);
    assert s[|prefix|] == sep;
    assert s[..|prefix|] == prefix;
  }

  lemma {:induction false} SplitJoin(pieces: seq<string>, sep: char)
    requires |pieces| > 0
    requires forall i :: 0 <= i < |pieces| ==> sep !in pieces[i]
    ensures Split(Join(pieces, sep), sep) == pieces
  {
    if |pieces| > 1 {
      var first, rest := pieces[0], pieces[1..];
      SplitJoin(rest, sep);
      var tail := Join(rest, sep);
      var s := first + [sep] + tail;
      assert Join(pieces, sep) == s;
      IndexOfCharAfter(first, sep, tail);
      assert s[..|first|] == first;
      assert s[|first| + 1..] == tail;
      assert Split(s, sep) == [first] + Split(tail, sep);
      assert pieces == [first] + rest;
    }
  }
}
