/** Secret redaction (internal/redact/redact.go): four regular-expression rewrites run one after another. */
module Redact {
  import opened Options
  import opened Regex

  const MARKER := "[REDACTED]"
  const QUOTED_MARKER := "\"[REDACTED]\""

  /** The four patterns, in the order in which they are applied. */
  datatype Pattern = WireGuardKey | Password | JsonSecret | Uuid

  function Quote(): Re { One(Exactly('"')) }

  /** `\s*sep\s*` */
  function Spaced(sep: char): Re {
    Then(Star(One(Space)), Then(One(Exactly(sep)), Star(One(Space))))
  }

  function JsonNames(): Re {
    Or(Caseless("privatekey"),
    Or(Caseless("preshared_key"),
    Or(Caseless("secret"),
    Or(Caseless("password"), Caseless("uuid")))))
  }

  /** `\\.[^"\\]*` */
  function Escaped(): Re { Then(One(Exactly('\\')), Then(One(NotNewline), Star(One(Plain)))) }

  /** `"[^"\\]*(?:\\.[^"\\]*)*"` */
  function Quoted(): Re { Then(Quote(), Then(Star(One(Plain)), Then(Star(Escaped()), Quote()))) }

  function Dash(): Re { One(Exactly('-')) }

  /** `[0-9a-fA-F]{8}-[0-9a-fA-F]{4}-[0-9a-fA-F]{4}-[0-9a-fA-F]{4}-[0-9a-fA-F]{12}\b` */
  function UuidText(): Re {
    Then(Times(Hex, 8), Then(Dash(),
    Then(Times(Hex, 4), Then(Dash(),
    Then(Times(Hex, 4), Then(Dash(),
    Then(Times(Hex, 4), Then(Dash(),
    Then(Times(Hex, 12), Boundary)))))))))
  }

  /** The part of a pattern whose text is put back (capture group 1, or nothing). */
  function Kept(p: Pattern): Re {
    match p
    case WireGuardKey =>
      Then(Boundary, Then(Or(Text("PrivateKey"), Text("PresharedKey")), Spaced('=')))
    case Password => Then(Boundary, Caseless("password="))
    case JsonSecret => Then(Quote(), Then(JsonNames(), Then(Quote(), Spaced(':'))))
    case Uuid => Text("")
  }

  /** The part of a pattern whose text is replaced. */
  function Secret(p: Pattern): Re {
    match p
    case WireGuardKey => Plus(Key)
    case Password => Plus(NotDelimiter)
    case JsonSecret => Or(Quoted(), Plus(Bare))
    case Uuid => Then(Boundary, UuidText())
  }

  /** What replaces the secret. */
  function Inserted(p: Pattern): string {
    if p.JsonSecret? then QUOTED_MARKER else MARKER
  }

  /** A match at the front of a suffix: the runes before keep are put back, those up to end are replaced. */
  datatype Span = Span(keep: nat, end: nat)

  /** The preferred match of value right after n runes. */
  function FirstAt(n: nat, value: Re, w: bool, s: string): (r: Option<Span>)
    requires n <= |s|
    ensures r.Some? ==> r.value.keep <= r.value.end <= |s|
  {
    match Ends(value, After(w, s, n), s[n..])
    case Cons(e, _) => Some(Span(n, n + e))
    case Nil => None
  }

  /** The first way, in order of preference, in which value matches after one of the lengths ns. */
  function FirstAfter(ns: Lengths, value: Re, w: bool, s: string): (r: Option<Span>)
    requires Within(ns, |s|)
    ensures r.Some? ==> r.value.keep <= r.value.end <= |s|
  {
    match ns
    case Nil => None
    case Cons(n, rest) =>
      var here := FirstAt(n, value, w, s);
      if here.Some? then here else FirstAfter(rest, value, w, s)
  }

  /** The match of p at the very front of s, where w says whether a word character precedes s. */
  function RegexMatch(p: Pattern, w: bool, s: string): (r: Option<Span>)
    ensures r.Some? ==> r.value.keep <= r.value.end <= |s|
  {
    FirstAfter(Ends(Kept(p), w, s), Secret(p), w, s)
  }

  lemma {:induction false} FirstAfterIsPreferredEnd(ns: Lengths, value: Re, w: bool, s: string)
    requires Within(ns, |s|)
    ensures match EndsAfter(ns, value, w, s)
      case Cons(e, _) => FirstAfter(ns, value, w, s).Some? && FirstAfter(ns, value, w, s).value.end == e
      case Nil => FirstAfter(ns, value, w, s).None?
  {
    hide Ends, After;
    if ns.Cons? {
      FirstAfterIsPreferredEnd(ns.tail, value, w, s);
      var here := Ends(value, After(w, s, ns.head), s[ns.head..]);
      assert here.Cons? ==> Shift(ns.head, here).Cons? && Shift(ns.head, here).head == ns.head + here.head;
    }
  }

  /** A match of p is the preferred match of the whole expression: the same end, and none where that has none. */
  lemma MatchIsOfTheWholePattern(p: Pattern, w: bool, s: string)
    ensures match Ends(Then(Kept(p), Secret(p)), w, s)
      case Cons(e, _) => RegexMatch(p, w, s).Some? && RegexMatch(p, w, s).value.end == e
      case Nil => RegexMatch(p, w, s).None?
  {
    FirstAfterIsPreferredEnd(Ends(Kept(p), w, s), Secret(p), w, s);
  }

  /** regexp.ReplaceAllString from the current position: the leftmost match is rewritten and the scan
      resumes at its end. A match that consumed nothing would let the scan move on by one rune. */
  function ReplaceAll(p: Pattern, w: bool, s: string): string
    decreases |s|
  {
    if s == [] then [] else
    match RegexMatch(p, w, s)
    case Some(m) =>
      if m.end == 0 then Inserted(p) + s[..1] + ReplaceAll(p, IsWord(s[0]), s[1..])
      else s[..m.keep] + Inserted(p) + ReplaceAll(p, After(w, s, m.end), s[m.end..])
    case None => s[..1] + ReplaceAll(p, IsWord(s[0]), s[1..])
  }

  /** regexp.MatchString from the current position. */
  predicate MatchesSomewhere(p: Pattern, w: bool, s: string)
    decreases |s|
  {
    RegexMatch(p, w, s).Some? || (s != [] && MatchesSomewhere(p, IsWord(s[0]), s[1..]))
  }

  /** One guarded rewrite of RedactSecrets. */
  function Pass(p: Pattern, s: string): string {
    if MatchesSomewhere(p, false, s) then ReplaceAll(p, false, s) else s
  }

  function RedactSecrets(s: string): string {
    if s == "" then s else
    Pass(Uuid, Pass(JsonSecret, Pass(Password, Pass(WireGuardKey, s))))
  }
}
