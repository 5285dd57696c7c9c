/** What one rewriting pass does to the matches of the pass itself and of the passes before it. */
module RedactPasses {
  import opened Regex
  import opened RegexLaws
  import opened Redact
  import opened RedactScanner

  /** One pass, with the scanner in place of the expression. */
  function Replace(p: Pattern, w: bool, s: string): string
    decreases |s|
  {
    if s == [] then [] else
    match Scan(p, w, s)
    case Some(m) => s[..m.keep] + Inserted(p) + Replace(p, After(w, s, m.end), s[m.end..])
    case None => s[..1] + Replace(p, IsWord(s[0]), s[1..])
  }

  lemma {:induction false} ReplaceIsReplaceAll(p: Pattern, w: bool, s: string)
    ensures ReplaceAll(p, w, s) == Replace(p, w, s)
    decreases |s|
  {
    hide Scan, RegexMatch;
    if s != [] {
      ScanIsRegexMatch(p, w, s);
      match Scan(p, w, s)
      case Some(m) => ReplaceIsReplaceAll(p, After(w, s, m.end), s[m.end..]);
      case None => ReplaceIsReplaceAll(p, IsWord(s[0]), s[1..]);
    }
  }

  /** No match of p at the front of s, or one whose secret is the marker already. */
  predicate Masked(p: Pattern, w: bool, s: string) {
    match Scan(p, w, s)
    case Some(m) => s[m.keep..m.end] == Inserted(p)
    case None => true
  }

  /** Masked at every position of s. */
  predicate Everywhere(p: Pattern, w: bool, s: string)
    decreases |s|
  {
    Masked(p, w, s) && (s != [] ==> Everywhere(p, IsWord(s[0]), s[1..]))
  }

  lemma {:induction false} EverywhereAt(p: Pattern, w: bool, s: string, n: nat)
    requires Everywhere(p, w, s) && n <= |s|
    ensures Everywhere(p, After(w, s, n), s[n..])
    decreases n
  {
    hide Masked;
    if n == 0 {
      assert s[0..] == s;
    } else {
      EverywhereAt(p, IsWord(s[0]), s[1..], n - 1);
      AfterAfter(1, n - 1, w, s);
    }
  }

  // The left context does not matter in front of anything but a word character.

  predicate NoWordFirst(s: string) { s == [] || !IsWord(s[0]) }

  /** The runes with which a match can start. */
  predicate Starter(p: Pattern, c: char) {
    match p
    case WireGuardKey => c == 'P'
    case Password => c == 'p' || c == 'P'
    case JsonSecret => c == '"'
    case Uuid => In(Hex, c)
  }

  lemma MatchStart(p: Pattern, w: bool, s: string)
    ensures Scan(p, w, s).Some? ==> s != [] && Starter(p, s[0]) && (p.JsonSecret? || !w)
  {
    hide SpacedLen, JsonNameLen, Run;
    if Scan(p, w, s).Some? && p.Password? {
      assert Folds('p', s[0]);
    }
  }

  lemma ContextFree(p: Pattern, w: bool, v: bool, s: string)
    requires NoWordFirst(s)
    ensures Scan(p, w, s) == Scan(p, v, s)
    ensures Replace(p, w, s) == Replace(p, v, s)
    ensures Everywhere(p, w, s) == Everywhere(p, v, s)
  {
    MatchStart(p, w, s);
    MatchStart(p, v, s);
    assert p.JsonSecret? ==> Scan(p, w, s) == Scan(p, v, s);
    hide Scan;
  }

  lemma {:induction false} EscapesEndInQuote(s: string)
    requires EscapesLen(s).Some?
    ensures s[EscapesLen(s).value - 1] == '"'
    decreases |s|
  {
    if !StartsWithQuote(s) {
      var n := 2 + Run(Plain, s[2..]);
      EscapesEndInQuote(s[n..]);
    }
  }

  lemma JsonValueBoundary(t: string)
    requires JsonValueLen(t) > 0
    ensures var n := JsonValueLen(t); !IsWord(t[n - 1]) || NoWordFirst(t[n..])
  {
    hide EscapesLen;
    if QuotedLen(t).Some? {
      var r := 1 + Run(Plain, t[1..]);
      EscapesEndInQuote(t[r..]);
      assert t[QuotedLen(t).value - 1] == t[r..][EscapesLen(t[r..]).value - 1];
    }
  }

  lemma SecretBoundary(p: Pattern, w: bool, s: string)
    requires Scan(p, w, s).Some? && !p.JsonSecret?
    ensures NoWordFirst(s[Scan(p, w, s).value.end..])
  {
    hide KeyKeptLen, SpellsCaseless;
    var m := Scan(p, w, s).value;
    var t := s[m.keep..];
    assert s[m.end..] == t[m.end - m.keep..];
  }

  /** After a match either the last rune is no word character or the next one is none. */
  lemma MatchEndsAtBoundary(p: Pattern, w: bool, s: string)
    requires Scan(p, w, s).Some?
    ensures var e := Scan(p, w, s).value.end; !After(w, s, e) || NoWordFirst(s[e..])
  {
    hide JsonKeptLen, JsonValueLen, IsWord;
    if p.JsonSecret? {
      var m := Scan(p, w, s).value;
      JsonValueBoundary(s[m.keep..]);
      assert s[m.end..] == s[m.keep..][m.end - m.keep..];
    } else {
      SecretBoundary(p, w, s);
    }
  }

  // Where a text and its rewritten form first differ.

  /** A secret of q starts at position n of x. */
  predicate CutAt(q: Pattern, w: bool, x: string, n: nat)
    requires n < |x|
  {
    match q
    case WireGuardKey => In(Key, x[n])
    case Password => In(NotDelimiter, x[n])
    case JsonSecret => In(Bare, x[n]) && n > 0 && (x[n - 1] == ':' || IsSpace(x[n - 1]))
    case Uuid => !After(w, x, n) && IsUuid(x[n..])
  }

  /** y is x up to position n, where either both end or y has the first rune of a marker instead of a secret. */
  predicate Diverges(q: Pattern, w: bool, x: string, y: string, n: nat) {
    && n <= |x| && n <= |y| && x[..n] == y[..n]
    && (n == |x| ==> x == y)
    && (n < |x| ==> n < |y| && y[n] == Inserted(q)[0] && CutAt(q, w, x, n))
  }

  lemma SpacedEnd(sep: char, s: string)
    requires SpacedLen(sep, s).Some?
    ensures var m := SpacedLen(sep, s).value; s[m - 1] == sep || IsSpace(s[m - 1])
  {
    var r := Run(Space, s);
    var k := Run(Space, s[r + 1..]);
    if k > 0 {
      RunAll(Space, s[r + 1..], k - 1);
      assert s[r + k] == s[r + 1..][k - 1];
    }
  }

  lemma MatchCut(q: Pattern, w: bool, s: string)
    requires Scan(q, w, s).Some?
    ensures CutAt(q, w, s, Scan(q, w, s).value.keep)
  {
    hide KeyKeptLen, SpellsCaseless, JsonNameLen;
    var m := Scan(q, w, s).value;
    assert s[m.keep..][0] == s[m.keep];
    if q.JsonSecret? {
      var n := JsonNameLen(s[1..]) + 2;
      SpacedEnd(':', s[n..]);
      assert s[m.keep - 1] == s[n..][m.keep - n - 1];
    } else if q.Uuid? {
      assert s[0..] == s;
    }
  }

  /** The length of the text that a pass leaves alone before its first secret. */
  function Shared(q: Pattern, w: bool, s: string): (n: nat)
    ensures n <= |s|
    decreases |s|
  {
    if s == [] then 0 else
    match Scan(q, w, s)
    case Some(m) => m.keep
    case None => 1 + Shared(q, IsWord(s[0]), s[1..])
  }

  lemma CutShift(q: Pattern, w: bool, s: string, n: nat)
    requires s != [] && n < |s| - 1 ==> CutAt(q, IsWord(s[0]), s[1..], n)
    ensures s != [] && n < |s| - 1 ==> CutAt(q, w, s, n + 1)
  {
    if s != [] && n < |s| - 1 {
      AfterAfter(1, n, w, s);
    }
  }

  lemma DivergesCons(q: Pattern, w: bool, s: string, z: string, n: nat)
    requires s != [] && Diverges(q, IsWord(s[0]), s[1..], z, n)
    ensures Diverges(q, w, s, s[..1] + z, n + 1)
  {
    hide CutAt;
    CutShift(q, w, s, n);
    var y, t := s[..1] + z, s[1..];
    assert forall i | 0 <= i <= n && i < |s| && i < |y| :: y[i] == if i == 0 then s[0] else z[i - 1];
    forall i | 0 <= i < n + 1 ensures y[i] == s[i] {
      if i > 0 { assert z[..n][i - 1] == t[..n][i - 1]; }
    }
    if n == |t| { assert s == s[..1] + t; }
  }

  lemma {:induction false} ReplaceDiverges(q: Pattern, w: bool, s: string)
    ensures Diverges(q, w, s, Replace(q, w, s), Shared(q, w, s))
    decreases |s|
  {
    hide Scan, CutAt, IsWord;
    if s != [] {
      match Scan(q, w, s)
      case Some(m) =>
        MatchCut(q, w, s);
        var z := Replace(q, After(w, s, m.end), s[m.end..]);
        var y := s[..m.keep] + Inserted(q) + z;
        assert y[m.keep] == Inserted(q)[0];
        assert y[..m.keep] == s[..m.keep];
      case None =>
        ReplaceDiverges(q, IsWord(s[0]), s[1..]);
        hide Diverges, Inserted;
        DivergesCons(q, w, s, Replace(q, IsWord(s[0]), s[1..]), Shared(q, IsWord(s[0]), s[1..]));
    }
  }
}
