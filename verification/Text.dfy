/** The parts of Go's strings package that the agent uses, on sequences of runes. */
module Text {

  /** unicode.IsSpace */
  predicate IsSpace(c: char) {
    || c == ' ' || '\t' <= c <= '\r' || c == '\U{85}' || c == '\U{A0}' || c == '\U{1680}'
    || '\U{2000}' <= c <= '\U{200A}' || c == '\U{2028}' || c == '\U{2029}' || c == '\U{202F}'
    || c == '\U{205F}' || c == '\U{3000}'
  }

  /** The white space of Unicode, written out. */
  lemma SpacesInFull(c: char)
    ensures IsSpace(c) <==>
      || c in "\t\n\U{0B}\U{0C}\r \U{85}\U{A0}\U{1680}\U{2028}\U{2029}\U{202F}\U{205F}\U{3000}"
      || c in "\U{2000}\U{2001}\U{2002}\U{2003}\U{2004}\U{2005}\U{2006}\U{2007}\U{2008}\U{2009}\U{200A}"
  {}

  function TrimLeft(s: string): string {
    if s != [] && IsSpace(s[0]) then TrimLeft(s[1..]) else s
  }

  function TrimRight(s: string): string {
    if s != [] && IsSpace(s[|s| - 1]) then TrimRight(s[..|s| - 1]) else s
  }

  /** strings.TrimSpace */
  function TrimSpace(s: string): string { TrimRight(TrimLeft(s)) }

  predicate Blank(s: string) { forall i | 0 <= i < |s| :: IsSpace(s[i]) }

  /** What is left is the middle of the string, and begins and ends with no space. */
  lemma {:induction false} TrimLeftIs(s: string) returns (n: nat)
    ensures n <= |s| && TrimLeft(s) == s[n..] && Blank(s[..n]) && (n < |s| ==> !IsSpace(s[n]))
  {
    hide IsSpace;
    n := 0;
    if s != [] && IsSpace(s[0]) {
      var m := TrimLeftIs(s[1..]);
      n := m + 1;
      assert s[1..][m..] == s[n..];
      forall i | 0 <= i < n ensures IsSpace(s[i]) {
        if i > 0 { assert s[i] == s[1..][..m][i - 1]; }
      }
    }
  }

  lemma {:induction false} TrimRightIs(s: string) returns (n: nat)
    ensures n <= |s| && TrimRight(s) == s[..n] && Blank(s[n..]) && (n > 0 ==> !IsSpace(s[n - 1]))
  {
    hide IsSpace;
    n := |s|;
    if s != [] && IsSpace(s[|s| - 1]) {
      var front := s[..|s| - 1];
      n := TrimRightIs(front);
      assert front[..n] == s[..n];
      forall i | n <= i < |s| ensures IsSpace(s[i]) {
        if i < |s| - 1 { assert s[i] == front[n..][i - n]; }
      }
    }
  }

  lemma TrimSpaceEmpty(s: string)
    ensures TrimSpace(s) == "" <==> Blank(s)
  {
    hide IsSpace;
    var n := TrimLeftIs(s);
    var t := s[n..];
    assert n < |s| ==> t[0] == s[n];
    assert s[..|s|] == s && t[0..] == t;
    var m := TrimRightIs(t);
  }

  /** strings.TrimPrefix */
  function TrimPrefix(s: string, prefix: string): string {
    if prefix <= s then s[|prefix|..] else s
  }

  /** strings.TrimSuffix for a suffix of one rune */
  function TrimSuffix(s: string, last: char): string {
    if s != [] && s[|s| - 1] == last then s[..|s| - 1] else s
  }

  /** The position of the first c in s, or |s|. */
  function IndexOf(s: string, c: char): (n: nat)
    ensures n <= |s|
    ensures n < |s| ==> s[n] == c
    ensures forall i | 0 <= i < n :: s[i] != c
  {
    if s == [] || s[0] == c then 0 else 1 + IndexOf(s[1..], c)
  }

  lemma IndexOfIs(s: string, c: char, n: nat)
    requires n <= |s| && (n < |s| ==> s[n] == c) && forall i | 0 <= i < n :: s[i] != c
    ensures IndexOf(s, c) == n
  {}

  /** strings.Split at a separator of one rune */
  function Split(s: string, c: char): (parts: seq<string>)
    ensures |parts| >= 1
    decreases |s|
  {
    var n := IndexOf(s, c);
    if n == |s| then [s] else [s[..n]] + Split(s[n + 1..], c)
  }

  /** strings.Join */
  function Join(parts: seq<string>, c: char): string
    requires |parts| >= 1
  {
    if |parts| == 1 then parts[0] else parts[0] + [c] + Join(parts[1..], c)
  }

  predicate Without(s: string, c: char) { forall i | 0 <= i < |s| :: s[i] != c }

  lemma {:induction false} SplitFirst(s: string, c: char)
    ensures var n := IndexOf(s, c);
      Split(s, c) == if n == |s| then [s] else [s[..n]] + Split(s[n + 1..], c)
  {}

  lemma {:induction false} JoinFirst(x: string, parts: seq<string>, c: char)
    requires parts != []
    ensures Join([x], c) == x
    ensures Join([x] + parts, c) == x + [c] + Join(parts, c)
  {
    assert ([x] + parts)[1..] == parts;
  }

  lemma {:induction false} JoinSplit(s: string, c: char)
    ensures Join(Split(s, c), c) == s
    decreases |s|
  {
    SplitFirst(s, c);
    var n := IndexOf(s, c);
    hide Split, Join, IndexOf;
    if n < |s| {
      var rest := s[n + 1..];
      JoinSplit(rest, c);
      JoinFirst(s[..n], Split(rest, c), c);
      assert s == s[..n] + [c] + rest;
    } else {
      JoinFirst(s, [s], c);
    }
  }

  lemma {:induction false} PartsAreWithout(s: string, c: char)
    ensures forall k | 0 <= k < |Split(s, c)| :: Without(Split(s, c)[k], c)
    decreases |s|
  {
    var n := IndexOf(s, c);
    assert Without(s[..n], c);
    if n < |s| {
      PartsAreWithout(s[n + 1..], c);
    } else {
      assert s[..n] == s;
    }
    hide Without;
  }

  lemma {:induction false} SplitAt(x: string, c: char, y: string)
    requires Without(x, c)
    ensures Split(x, c) == [x]
    ensures Split(x + [c] + y, c) == [x] + Split(y, c)
  {
    IndexOfIs(x, c, |x|);
    var s := x + [c] + y;
    IndexOfIs(s, c, |x|);
    assert s[..|x|] == x && s[|x| + 1..] == y;
  }

  lemma {:induction false} SplitJoin(parts: seq<string>, c: char)
    requires |parts| >= 1 && forall k | 0 <= k < |parts| :: Without(parts[k], c)
    ensures Split(Join(parts, c), c) == parts
  {
    if |parts| == 1 {
      SplitAt(parts[0], c, "");
    } else {
      SplitJoin(parts[1..], c);
      SplitAt(parts[0], c, Join(parts[1..], c));
    }
  }

  lemma {:induction false} TrimLeftBlank(pre: string, s: string)
    requires Blank(pre) && s != "" && !IsSpace(s[0])
    ensures TrimLeft(pre + s) == s
  {
    hide IsSpace;
    if pre == "" {
      assert pre + s == s;
    } else {
      assert (pre + s)[0] == pre[0] && (pre + s)[1..] == pre[1..] + s;
      TrimLeftBlank(pre[1..], s);
    }
  }

  lemma {:induction false} TrimRightBlank(s: string, post: string)
    requires Blank(post) && s != "" && !IsSpace(s[|s| - 1])
    ensures TrimRight(s + post) == s
    decreases |post|
  {
    hide IsSpace;
    if post == "" {
      assert s + post == s;
    } else {
      var n := |post| - 1;
      assert (s + post)[|s + post| - 1] == post[n] && (s + post)[..|s + post| - 1] == s + post[..n];
      TrimRightBlank(s, post[..n]);
    }
  }

  /** Trimming takes away exactly the white space around a text. */
  lemma TrimSpaceIs(pre: string, s: string, post: string)
    requires Blank(pre) && Blank(post) && s != "" && !IsSpace(s[0]) && !IsSpace(s[|s| - 1])
    ensures TrimSpace(pre + s + post) == s
  {
    hide IsSpace;
    TrimRightBlank(s, post);
    assert pre + s + post == pre + (s + post);
    assert (s + post)[0] == s[0];
    TrimLeftBlank(pre, s + post);
  }
}
