/** Regular expressions with the leftmost-first semantics of Go's regexp package.

    Text is a sequence of runes. A match is tried on a suffix of the text together with one bit of left
    context: whether the rune just before the suffix is a word character, which is all that `\b` can see.
    `Ends` lists the lengths that an expression can consume, most preferred first, exactly in the order in
    which a backtracking matcher would try them; the match is the first entry. */
module Regex {

  /** Sets of runes named in the patterns. */
  datatype Class =
    | Exactly(c: char)     // one rune
    | Folded(c: char)      // one lower-case letter or symbol under (?i)
    | Space                // \s
    | Key                  // [A-Za-z0-9+/=_-]
    | NotDelimiter         // [^\s,;&]
    | Plain                // [^"\\]
    | NotNewline           // .
    | Bare                 // [^,\s}\]]
    | Hex                  // [0-9a-fA-F]

  predicate IsDigit(c: char) { '0' <= c <= '9' }

  predicate IsLetter(c: char) { 'a' <= c <= 'z' || 'A' <= c <= 'Z' }

  /** The word characters of `\b`, which are ASCII only. */
  predicate IsWord(c: char) { IsDigit(c) || IsLetter(c) || c == '_' }

  predicate IsSpace(c: char) { c == ' ' || c == '\t' || c == '\n' || c == '\U{0C}' || c == '\r' }

  /** Simple case folding: besides its upper case, `s` folds to U+017F and `k` folds to U+212A. */
  predicate Folds(lower: char, c: char) {
    || c == lower
    || ('a' <= lower <= 'z' && 'A' <= c <= 'Z' && c as int == lower as int - 32)
    || (lower == 's' && c == '\U{017F}')
    || (lower == 'k' && c == '\U{212A}')
  }

  predicate In(k: Class, c: char) {
    match k
    case Exactly(x) => c == x
    case Folded(x) => Folds(x, c)
    case Space => IsSpace(c)
    case Key => IsLetter(c) || IsDigit(c) || c == '+' || c == '/' || c == '=' || c == '_' || c == '-'
    case NotDelimiter => !IsSpace(c) && c != ',' && c != ';' && c != '&'
    case Plain => c != '"' && c != '\\'
    case NotNewline => c != '\n'
    case Bare => !IsSpace(c) && c != ',' && c != '}' && c != ']'
    case Hex => IsDigit(c) || 'a' <= c <= 'f' || 'A' <= c <= 'F'
  }

  datatype Re =
    | Text(text: string)                // these very runes
    | Caseless(lower: string)           // these runes under (?i), written in lower case
    | Times(k: Class, n: nat)           // exactly n runes of a class
    | Boundary                          // \b
    | Then(first: Re, second: Re)
    | Or(preferred: Re, fallback: Re)
    | Star(body: Re)                    // greedy

  function One(k: Class): Re { Times(k, 1) }

  function Plus(k: Class): Re { Then(One(k), Star(One(k))) }

  predicate Spells(text: string, s: string) {
    |text| <= |s| && forall i | 0 <= i < |text| :: s[i] == text[i]
  }

  predicate SpellsCaseless(lower: string, s: string) {
    |lower| <= |s| && forall i | 0 <= i < |lower| :: Folds(lower[i], s[i])
  }

  predicate AllOf(k: Class, n: nat, s: string) {
    n <= |s| && forall i | 0 <= i < n :: In(k, s[i])
  }

  /** The left context after consuming n runes of s. */
  function After(w: bool, s: string, n: nat): bool
    requires n <= |s|
  {
    if n == 0 then w else IsWord(s[n - 1])
  }

  predicate AtBoundary(w: bool, s: string) { w != (s != [] && IsWord(s[0])) }

  /** Lengths that an expression can consume, most preferred first. */
  datatype Lengths = Nil | Cons(head: nat, tail: Lengths)

  predicate Within(ns: Lengths, bound: nat) {
    ns.Cons? ==> ns.head <= bound && Within(ns.tail, bound)
  }

  function Append(xs: Lengths, ys: Lengths): Lengths {
    match xs
    case Nil => ys
    case Cons(x, rest) => Cons(x, Append(rest, ys))
  }

  function Shift(n: nat, ns: Lengths): Lengths {
    match ns
    case Nil => Nil
    case Cons(x, rest) => Cons(n + x, Shift(n, rest))
  }

  lemma WithinAppend(xs: Lengths, ys: Lengths, bound: nat)
    ensures Within(Append(xs, ys), bound) <==> Within(xs, bound) && Within(ys, bound)
  {}

  lemma WithinShift(n: nat, ns: Lengths, bound: nat)
    requires Within(ns, bound)
    ensures Within(Shift(n, ns), n + bound)
  {
    if ns.Cons? { WithinShift(n, ns.tail, bound); }
  }

  /** All lengths of s that re can consume, in order of preference. An iteration of a star that consumes
      nothing is not repeated. */
  function Ends(re: Re, w: bool, s: string): (r: Lengths)
    ensures Within(r, |s|)
    decreases |s|, re, 1, Nil
  {
    match re
    case Text(text) => if Spells(text, s) then Cons(|text|, Nil) else Nil
    case Caseless(lower) => if SpellsCaseless(lower, s) then Cons(|lower|, Nil) else Nil
    case Times(k, n) => if AllOf(k, n, s) then Cons(n, Nil) else Nil
    case Boundary => if AtBoundary(w, s) then Cons(0, Nil) else Nil
    case Then(a, b) => EndsAfter(Ends(a, w, s), b, w, s)
    case Or(a, b) =>
      WithinAppend(Ends(a, w, s), Ends(b, w, s), |s|);
      Append(Ends(a, w, s), Ends(b, w, s))
    case Star(a) =>
      WithinAppend(Repeats(Ends(a, w, s), a, w, s), Cons(0, Nil), |s|);
      Append(Repeats(Ends(a, w, s), a, w, s), Cons(0, Nil))
  }

  /** What b consumes after each of the lengths ns, in order. */
  function EndsAfter(ns: Lengths, b: Re, w: bool, s: string): (r: Lengths)
    requires Within(ns, |s|)
    ensures Within(r, |s|)
    decreases |s|, b, 2, ns
  {
    match ns
    case Nil => Nil
    case Cons(n, rest) =>
      var here := Ends(b, After(w, s, n), s[n..]);
      WithinShift(n, here, |s| - n);
      WithinAppend(Shift(n, here), EndsAfter(rest, b, w, s), |s|);
      Append(Shift(n, here), EndsAfter(rest, b, w, s))
  }

  /** What further rounds of Star(a) consume after a first round of each of the lengths ns, in order. */
  function Repeats(ns: Lengths, a: Re, w: bool, s: string): (r: Lengths)
    requires Within(ns, |s|)
    ensures Within(r, |s|)
    decreases |s|, Star(a), 0, ns
  {
    match ns
    case Nil => Nil
    case Cons(n, rest) =>
      if n == 0 then Repeats(rest, a, w, s) else
      var here := Ends(Star(a), After(w, s, n), s[n..]);
      WithinShift(n, here, |s| - n);
      WithinAppend(Shift(n, here), Repeats(rest, a, w, s), |s|);
      Append(Shift(n, here), Repeats(rest, a, w, s))
  }
}
