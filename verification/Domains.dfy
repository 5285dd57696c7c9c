/** Domain names (internal/certs): normalising one name, and a list of names without duplicates. */
module Domains {
  import opened Options
  import opened Text

  /** unicode.ToLower, as far as ASCII letters can come out of it. */
  function Lower(c: char): char {
    if 'A' <= c <= 'Z' then c - 'A' + 'a' else if c == '\U{212A}' then 'k' else if c == '\U{130}' then 'i' else c
  }

  function ToLower(s: string): (t: string)
    ensures |t| == |s|
  {
    seq(|s|, i requires 0 <= i < |s| => Lower(s[i]))
  }

  /** The number of bytes of a rune in UTF-8, and of a string. */
  function RuneLen(c: char): nat {
    if c < '\U{80}' then 1 else if c < '\U{800}' then 2 else if c < '\U{10000}' then 3 else 4
  }

  function ByteLen(s: string): (n: nat)
    ensures n >= |s|
  {
    if s == [] then 0 else RuneLen(s[0]) + ByteLen(s[1..])
  }

  /** Letters, digits and the hyphen: what section 2.1 of RFC 1123 leaves of section 2.3.1 of RFC 1035. */
  predicate LetterDigitHyphen(c: char) { 'a' <= c <= 'z' || '0' <= c <= '9' || c == '-' }

  predicate ValidRunes(s: string) { forall i | 0 <= i < |s| :: LetterDigitHyphen(s[i]) }

  predicate ValidLabel(s: string) {
    && 1 <= |s| <= 63
    && s[0] != '-' && s[|s| - 1] != '-'
    && ValidRunes(s)
  }

  predicate AllValid(labels: seq<string>) { forall k | 0 <= k < |labels| :: ValidLabel(labels[k]) }

  predicate ValidDomain(d: string) { |d| <= 253 && |Split(d, '.')| >= 2 && AllValid(Split(d, '.')) }

  function Canonical(raw: string): string { ToLower(TrimSuffix(TrimSpace(raw), '.')) }

  /** The result of normalizeDomain, without the reason for a refusal. */
  function Normalized(raw: string): Option<string> {
    if ValidDomain(Canonical(raw)) then Some(Canonical(raw)) else None
  }

  datatype DomainError =
    | Required
    | TooLong
    | NotQualified
    | EmptyLabel
    | LabelTooLong(part: string)
    | HyphenAtEdge(part: string)
    | InvalidCharacter(part: string, c: char)

  datatype Checked = Accepted(domain: string) | Refused(error: DomainError)

  /** The first invalid label, after k valid ones. */
  predicate FirstInvalid(labels: seq<string>, s: string, k: nat) {
    k < |labels| && labels[k] == s && !ValidLabel(s) && AllValid(labels[..k])
  }

  /** What is wrong with a label, length before hyphens before the first invalid rune. */
  ghost predicate Faulty(s: string, error: DomainError) {
    match error
    case EmptyLabel => s == ""
    case LabelTooLong(l) => s == l && ByteLen(s) > 63
    case HyphenAtEdge(l) => s == l && s != "" && ByteLen(s) <= 63 && (s[0] == '-' || s[|s| - 1] == '-')
    case InvalidCharacter(l, c) =>
      && s == l && s != "" && ByteLen(s) <= 63 && s[0] != '-' && s[|s| - 1] != '-' && !LetterDigitHyphen(c)
      && exists i: nat | i < |s| :: s[i] == c && ValidRunes(s[..i])
    case _ => false
  }

  /** What is wrong with a name, the whole name before its labels and these from left to right. */
  ghost predicate Explains(d: string, error: DomainError) {
    match error
    case Required => d == ""
    case TooLong => ByteLen(d) > 253
    case NotQualified => d != "" && ByteLen(d) <= 253 && Without(d, '.')
    case _ =>
      && ByteLen(d) <= 253 && !Without(d, '.')
      && exists k: nat | k < |Split(d, '.')| ::
           FirstInvalid(Split(d, '.'), Split(d, '.')[k], k) && Faulty(Split(d, '.')[k], error)
  }

  lemma {:induction false} AsciiLen(s: string)
    requires forall i | 0 <= i < |s| :: s[i] == '.' || LetterDigitHyphen(s[i])
    ensures ByteLen(s) == |s|
  {
    if s != [] { AsciiLen(s[1..]); }
  }

  lemma {:induction false} LabelRunes(d: string)
    requires AllValid(Split(d, '.'))
    ensures forall i | 0 <= i < |d| :: d[i] == '.' || LetterDigitHyphen(d[i])
    decreases |d|
  {
    var n := IndexOf(d, '.');
    var parts := Split(d, '.');
    assert ValidLabel(parts[0]);
    assert parts[0] == d[..n];
    forall i | 0 <= i < n ensures LetterDigitHyphen(d[i]) { assert parts[0][i] == d[i]; }
    if n < |d| {
      var rest := d[n + 1..];
      assert parts[1..] == Split(rest, '.');
      assert forall k | 0 <= k < |parts| - 1 :: parts[1..][k] == parts[k + 1];
      LabelRunes(rest);
      forall i | n < i < |d| ensures d[i] == '.' || LetterDigitHyphen(d[i]) { assert rest[i - n - 1] == d[i]; }
    }
  }

  lemma LabelFault(s: string, error: DomainError)
    requires Faulty(s, error)
    ensures !error.Required? && !error.TooLong? && !error.NotQualified?
  {}

  lemma OnePart(d: string)
    ensures |Split(d, '.')| < 2 <==> Without(d, '.')
  {
    var n := IndexOf(d, '.');
    if n < |d| { assert d[n] == '.'; }
  }

  lemma ValidIsShort(d: string)
    requires ValidDomain(d)
    ensures ByteLen(d) <= 253 && d != ""
  {
    LabelRunes(d);
    AsciiLen(d);
    assert ValidLabel(Split(d, '.')[0]);
  }

  /** The checks on one label. */
  method CheckLabel(s: string) returns (error: Option<DomainError>)
    ensures error.None? <==> ValidLabel(s)
    ensures error.Some? ==> Faulty(s, error.value)
  {
    if s == "" { return Some(EmptyLabel); }
    if ByteLen(s) > 63 {
      if ValidLabel(s) { AsciiLen(s); }
      return Some(LabelTooLong(s));
    }
    if s[0] == '-' || s[|s| - 1] == '-' { return Some(HyphenAtEdge(s)); }
    for i := 0 to |s|
      invariant ValidRunes(s[..i])
    {
      var c := s[i];
      if 'a' <= c <= 'z' || '0' <= c <= '9' || c == '-' { continue; }
      return Some(InvalidCharacter(s, c));
    }
    assert s[..|s|] == s;
    return None;
  }

  method NormalizeDomain(raw: string) returns (r: Checked)
    ensures r.Accepted? ==> Normalized(raw) == Some(r.domain)
    ensures r.Refused? ==> Normalized(raw) == None && Explains(Canonical(raw), r.error)
  {
    hide TrimSpace, TrimSuffix, ToLower, ByteLen, Faulty, Split, ValidLabel;
    var domain := ToLower(TrimSuffix(TrimSpace(raw), '.'));
    if ValidDomain(domain) { ValidIsShort(domain); }
    OnePart(domain);
    if domain == "" { return Refused(Required); }
    if ByteLen(domain) > 253 { return Refused(TooLong); }
    var labels := Split(domain, '.');
    if |labels| < 2 { return Refused(NotQualified); }
    for k := 0 to |labels|
      invariant AllValid(labels[..k])
    {
      var error := CheckLabel(labels[k]);
      if error.Some? {
        assert FirstInvalid(labels, labels[k], k);
        LabelFault(labels[k], error.value);
        return Refused(error.value);
      }
    }
    assert labels[..|labels|] == labels;
    return Accepted(domain);
  }

  lemma {:induction false} LastPart(d: string, c: char)
    ensures var last := Split(d, c)[|Split(d, c)| - 1];
      |last| <= |d| && d[|d| - |last|..] == last
    decreases |d|
  {
    SplitFirst(d, c);
    var n := IndexOf(d, c);
    hide Split, IndexOf;
    if n < |d| { LastPart(d[n + 1..], c); }
  }

  lemma EdgesAreNotTrimmed(s: string)
    requires s != "" && !IsSpace(s[0]) && !IsSpace(s[|s| - 1]) && s[|s| - 1] != '.'
    ensures TrimSuffix(TrimSpace(s), '.') == s
  {}

  lemma ValidIsCanonical(d: string)
    requires ValidDomain(d)
    ensures Canonical(d) == d
  {
    hide TrimSpace, TrimSuffix, Split, IsSpace, ByteLen;
    LabelRunes(d);
    LastPart(d, '.');
    var labels := Split(d, '.');
    var last := labels[|labels| - 1];
    assert ValidLabel(labels[0]) && ValidLabel(last);
    assert last[|last| - 1] == d[|d| - 1];
    NoSpaces(d[0]);
    NoSpaces(d[|d| - 1]);
    EdgesAreNotTrimmed(d);
    assert forall i | 0 <= i < |d| :: Lower(d[i]) == d[i];
    assert ToLower(d) == d;
  }

  lemma NoSpaces(c: char)
    ensures c == '.' || LetterDigitHyphen(c) ==> !IsSpace(c)
  {}

  /** A normalised name normalises to itself. */
  lemma NormalizingTwiceIsOnce(raw: string)
    requires Normalized(raw).Some?
    ensures Normalized(Normalized(raw).value) == Normalized(raw)
  {
    ValidIsCanonical(Canonical(raw));
  }

  // ---- The name on the wire ----------------------------------------------------------------------------------

  /** Section 3.1 of RFC 1035: every label after its length, and the empty label of the root. */
  function Wire(labels: seq<string>): seq<int> {
    if labels == [] then
      [0]
    else
      [|labels[0]|] + seq(|labels[0]|, i requires 0 <= i < |labels[0]| => labels[0][i] as int) + Wire(labels[1..])
  }

  lemma {:induction false} WireLength(labels: seq<string>)
    requires labels != []
    ensures |Wire(labels)| == |Join(labels, '.')| + 2
  {
    if |labels| > 1 { WireLength(labels[1..]); }
  }

  /** An accepted name is the join of at least two valid labels, and fits the limits of section 2.3.4 of RFC 1035. */
  lemma AcceptedNameFitsTheWire(raw: string)
    requires Normalized(raw).Some?
    ensures var d := Normalized(raw).value;
      && |Split(d, '.')| >= 2 && Join(Split(d, '.'), '.') == d
      && AllValid(Split(d, '.')) && (forall k | 0 <= k < |Split(d, '.')| :: Without(Split(d, '.')[k], '.'))
      && |Wire(Split(d, '.'))| == |d| + 2 <= 255
  {
    var d := Normalized(raw).value;
    JoinSplit(d, '.');
    PartsAreWithout(d, '.');
    WireLength(Split(d, '.'));
  }

  // ---- Lists of names ----------------------------------------------------------------------------------------

  function FirstOccurrences(xs: seq<string>): seq<string> {
    if xs == [] then
      []
    else
      var front, last := FirstOccurrences(xs[..|xs| - 1]), xs[|xs| - 1];
      if last in front then front else front + [last]
  }

  /** All names, or nothing if one of them is refused. */
  function AllNormalized(raws: seq<string>): Option<seq<string>> {
    if raws == [] then
      Some([])
    else
      match (AllNormalized(raws[..|raws| - 1]), Normalized(raws[|raws| - 1]))
      case (Some(ds), Some(d)) => Some(ds + [d])
      case _ => None
  }

  lemma {:induction false} EachNormalized(raws: seq<string>)
    requires AllNormalized(raws).Some?
    ensures |AllNormalized(raws).value| == |raws|
    ensures forall i | 0 <= i < |raws| :: Normalized(raws[i]) == Some(AllNormalized(raws).value[i])
  {
    hide Normalized;
    if raws != [] { EachNormalized(raws[..|raws| - 1]); }
  }

  datatype CheckedList = AcceptedList(domains: seq<string>) | RefusedList(error: DomainError)

  lemma OneMoreName(xs: seq<string>, x: string)
    ensures FirstOccurrences(xs + [x])
         == if x in FirstOccurrences(xs) then FirstOccurrences(xs) else FirstOccurrences(xs) + [x]
  {
    assert (xs + [x])[..|xs|] == xs;
  }

  lemma OneMoreNormalized(raws: seq<string>, k: nat)
    requires k < |raws| && AllNormalized(raws[..k]).Some? && Normalized(raws[k]).Some?
    ensures AllNormalized(raws[..k + 1]) == Some(AllNormalized(raws[..k]).value + [Normalized(raws[k]).value])
  {
    hide Normalized;
    assert raws[..k + 1][..k] == raws[..k];
  }

  /** The first refused name decides. */
  ghost predicate RefusedAt(raws: seq<string>, k: nat, error: DomainError) {
    k < |raws| && AllNormalized(raws[..k]).Some? && Normalized(raws[k]) == None && Explains(Canonical(raws[k]), error)
  }

  lemma {:induction false} OneRefusalIsEnough(raws: seq<string>, k: nat)
    requires k < |raws| && Normalized(raws[k]).None?
    ensures AllNormalized(raws).None?
  {
    hide Normalized;
    if k < |raws| - 1 { OneRefusalIsEnough(raws[..|raws| - 1], k); }
  }

  method NormalizeDomains(primary: string, extra: seq<string>) returns (r: CheckedList)
    ensures r.AcceptedList? <==> AllNormalized(extra).Some?
    ensures match r
      case AcceptedList(ds) =>
        ds == FirstOccurrences([primary] + AllNormalized(extra).value)
      case RefusedList(e) => exists k: nat :: RefusedAt(extra, k, e)
  {
    hide AllNormalized, FirstOccurrences, Normalized, Explains, Canonical;
    var domains := [primary];
    ghost var names := domains;
    OneName(primary, extra);
    for k := 0 to |extra|
      invariant AllNormalized(extra[..k]).Some? && names == [primary] + AllNormalized(extra[..k]).value
      invariant domains == FirstOccurrences(names)
    {
      var checked := NormalizeDomain(extra[k]);
      if checked.Refused? {
        assert RefusedAt(extra, k, checked.error);
        OneRefusalIsEnough(extra, k);
        return RefusedList(checked.error);
      }
      var domain := checked.domain;
      var seen := IsSeen(domains, domain);
      OneMoreNormalized(extra, k);
      OneMoreName(names, domain);
      names := names + [domain];
      if !seen { domains := domains + [domain]; }
    }
    assert extra[..|extra|] == extra;
    return AcceptedList(domains);
  }

  lemma OneName(primary: string, extra: seq<string>)
    ensures FirstOccurrences([primary]) == [primary] && AllNormalized(extra[..0]) == Some([])
  {}

  method IsSeen(domains: seq<string>, domain: string) returns (seen: bool)
    ensures seen <==> domain in domains
  {
    for i := 0 to |domains|
      invariant domain !in domains[..i]
    {
      if domains[i] == domain { return true; }
    }
    assert domains[..|domains|] == domains;
    return false;
  }

  function IndexIn(xs: seq<string>, x: string): (i: nat)
    ensures i <= |xs| && (i < |xs| <==> x in xs) && (i < |xs| ==> xs[i] == x)
    ensures forall j | 0 <= j < i :: xs[j] != x
  {
    if xs == [] || xs[0] == x then 0 else 1 + IndexIn(xs[1..], x)
  }

  lemma IndexInFront(xs: seq<string>, ys: seq<string>, x: string)
    requires x in xs
    ensures IndexIn(xs + ys, x) == IndexIn(xs, x)
  {
    if xs[0] != x {
      assert (xs + ys)[1..] == xs[1..] + ys;
      IndexInFront(xs[1..], ys, x);
    }
  }

  lemma {:induction false} SameNames(xs: seq<string>, x: string)
    ensures x in FirstOccurrences(xs) <==> x in xs
  {
    if xs != [] {
      var front, last := xs[..|xs| - 1], xs[|xs| - 1];
      SameNames(front, x);
      SameNames(front, last);
      OneMoreName(front, last);
      hide FirstOccurrences;
      assert xs == front + [last];
    }
  }

  lemma {:induction false} FirstStaysFirst(xs: seq<string>)
    requires xs != []
    ensures FirstOccurrences(xs) != [] && FirstOccurrences(xs)[0] == xs[0]
  {
    if |xs| > 1 { FirstStaysFirst(xs[..|xs| - 1]); }
  }

  /** The names keep the order in which they first occur. */
  lemma {:induction false} OrderIsKept(xs: seq<string>, i: nat, j: nat)
    requires i < j < |FirstOccurrences(xs)|
    ensures IndexIn(xs, FirstOccurrences(xs)[i]) < IndexIn(xs, FirstOccurrences(xs)[j])
  {
    var front, last := xs[..|xs| - 1], xs[|xs| - 1];
    var before := FirstOccurrences(front);
    OneMoreName(front, last);
    assert xs == front + [last];
    SameNames(front, before[i]);
    IndexInFront(front, [last], before[i]);
    if j < |before| {
      OrderIsKept(front, i, j);
      SameNames(front, before[j]);
      IndexInFront(front, [last], before[j]);
    } else {
      SameNames(front, last);
      NewIndex(front, last);
    }
  }

  lemma NewIndex(front: seq<string>, x: string)
    requires x !in front
    ensures IndexIn(front + [x], x) == |front|
  {
    assert (front + [x])[|front|] == x;
  }

  /** No name is given twice: first occurrences of equal names would be at equal positions. */
  lemma NamesAreDistinct(xs: seq<string>, i: nat, j: nat)
    requires i < j < |FirstOccurrences(xs)|
    ensures FirstOccurrences(xs)[i] != FirstOccurrences(xs)[j]
  {
    OrderIsKept(xs, i, j);
  }

  // What is accepted, in plain words.

  /** One to 63 small letters, digits and hyphens, no hyphen first or last. */
  predicate PlainLabel(s: string) {
    && 1 <= |s| <= 63 && s[0] != '-' && s[|s| - 1] != '-'
    && forall i | 0 <= i < |s| :: s[i] in "abcdefghijklmnopqrstuvwxyz" || s[i] in "0123456789-"
  }

  lemma LetterInFull(c: char)
    ensures LetterDigitHyphen(c) <==> c in "abcdefghijklmnopqrstuvwxyz" || c in "0123456789-"
  {}

  lemma LabelInFull(s: string)
    ensures ValidLabel(s) <==> PlainLabel(s)
  {
    forall i | 0 <= i < |s|
      ensures LetterDigitHyphen(s[i]) <==> s[i] in "abcdefghijklmnopqrstuvwxyz" || s[i] in "0123456789-"
    {
      LetterInFull(s[i]);
    }
    hide LetterDigitHyphen;
  }

  ghost predicate IsPlainDomain(d: string, labels: seq<string>) {
    && |labels| >= 2 && (forall k | 0 <= k < |labels| :: PlainLabel(labels[k])) && d == Join(labels, '.') && |d| <= 253
  }

  /** A name is valid if and only if it is two or more such labels joined by dots, in at most 253 runes. */
  lemma ValidExactlyWhenPlain(d: string)
    ensures ValidDomain(d) <==> exists labels :: IsPlainDomain(d, labels)
  {
    hide ValidLabel, PlainLabel, Split, Join;
    if ValidDomain(d) {
      JoinSplit(d, '.');
      forall k | 0 <= k < |Split(d, '.')| ensures PlainLabel(Split(d, '.')[k]) {
        assert ValidLabel(Split(d, '.')[k]);
        LabelInFull(Split(d, '.')[k]);
      }
      assert IsPlainDomain(d, Split(d, '.'));
    }
    if exists labels :: IsPlainDomain(d, labels) {
      var labels :| IsPlainDomain(d, labels);
      forall k | 0 <= k < |labels| ensures ValidLabel(labels[k]) && Without(labels[k], '.') {
        LabelInFull(labels[k]);
        NoDotInLabel(labels[k]);
      }
      SplitJoin(labels, '.');
    }
  }

  lemma NoDotInLabel(s: string)
    requires ValidLabel(s)
    ensures Without(s, '.')
  {}

  lemma ValidEnds(d: string)
    requires ValidDomain(d)
    ensures d != "" && LetterDigitHyphen(d[0]) && LetterDigitHyphen(d[|d| - 1])
    ensures forall i | 0 <= i < |d| :: d[i] == '.' || LetterDigitHyphen(d[i])
  {
    hide Split, ValidRunes;
    LabelRunes(d);
    LastPart(d, '.');
    SplitFirst(d, '.');
    var labels := Split(d, '.');
    var first, last := labels[0], labels[|labels| - 1];
    assert ValidLabel(first) && ValidLabel(last);
    assert first == d[..IndexOf(d, '.')] && first[0] == d[0];
    assert last[|last| - 1] == d[|d| - 1];
    LabelEnds(first);
    LabelEnds(last);
  }

  lemma LabelEnds(s: string)
    requires ValidLabel(s)
    ensures LetterDigitHyphen(s[0]) && LetterDigitHyphen(s[|s| - 1])
  {}

  /** The letters that become d in lower case; two of them are no ASCII letters. */
  predicate LowersTo(x: string, d: string) {
    && |x| == |d|
    && forall i | 0 <= i < |x| ::
         || x[i] == d[i] || ('A' <= x[i] <= 'Z' && x[i] as int + 32 == d[i] as int)
         || (x[i] == '\U{212A}' && d[i] == 'k') || (x[i] == '\U{130}' && d[i] == 'i')
  }

  /** raw is x between white space, with or without one dot behind it. */
  predicate Wraps(raw: string, pre: string, x: string, post: string) {
    Blank(pre) && Blank(post) && (raw == pre + x + post || raw == pre + (x + ".") + post)
  }

  /** A name normalises to d if and only if d is valid and the name is d in some case, with white space around it
      and at most one dot at its end. */
  lemma NormalizedExactly(raw: string, d: string)
    ensures Normalized(raw) == Some(d)
       <==> ValidDomain(d) && exists pre, x, post :: Wraps(raw, pre, x, post) && LowersTo(x, d)
  {
    hide ValidDomain, Wraps, LowersTo, Canonical;
    if Normalized(raw) == Some(d) { var pre, x, post := Unwrapped(raw, d); }
    if ValidDomain(d) && exists pre, x, post :: Wraps(raw, pre, x, post) && LowersTo(x, d) {
      var pre, x, post :| Wraps(raw, pre, x, post) && LowersTo(x, d);
      WrappedIsAccepted(raw, d, pre, x, post);
    }
  }

  lemma Unwrapped(raw: string, d: string) returns (pre: string, x: string, post: string)
    requires Normalized(raw) == Some(d)
    ensures ValidDomain(d) && Wraps(raw, pre, x, post) && LowersTo(x, d)
  {
    hide IsSpace, ValidDomain, LowersTo;
    var n := TrimLeftIs(raw);
    var t := raw[n..];
    var m := TrimRightIs(t);
    pre, post := raw[..n], t[m..];
    var y := t[..m];
    x := TrimSuffix(y, '.');
    assert raw == pre + y + post;
    assert y == x || y == x + ".";
    LoweredIs(x);
  }

  lemma LoweredIs(x: string)
    ensures LowersTo(x, ToLower(x))
  {
    forall i | 0 <= i < |x| ensures ToLower(x)[i] == Lower(x[i]) {}
  }

  lemma WrappedIsAccepted(raw: string, d: string, pre: string, x: string, post: string)
    requires ValidDomain(d) && Wraps(raw, pre, x, post) && LowersTo(x, d)
    ensures Normalized(raw) == Some(d)
  {
    ValidEnds(d);
    LowersEnds(x, d);
    hide IsSpace, Blank, Split, TrimSpace, ValidDomain;
    TrimSpaceIs(pre, x, post);
    TrimSpaceIs(pre, x + ".", post);
    assert (x + ".")[..|x|] == x && (x + ".")[0] == x[0];
    assert TrimSuffix(x, '.') == x && TrimSuffix(x + ".", '.') == x;
    LowersToIs(x, d);
  }

  lemma LowersEnds(x: string, d: string)
    requires LowersTo(x, d) && d != "" && LetterDigitHyphen(d[0]) && LetterDigitHyphen(d[|d| - 1])
    ensures x != "" && !IsSpace(x[0]) && !IsSpace(x[|x| - 1]) && x[|x| - 1] != '.' && !IsSpace('.')
  {}

  lemma LowersToIs(x: string, d: string)
    requires LowersTo(x, d) && forall i | 0 <= i < |d| :: d[i] == '.' || LetterDigitHyphen(d[i])
    ensures ToLower(x) == d
  {
    forall i | 0 <= i < |x| ensures Lower(x[i]) == d[i] {}
  }
}
