/** The properties of RedactSecrets, for every text. */
module RedactTheorems {
  import opened Options
  import opened Regex
  import opened RegexLaws
  import opened Redact
  import opened RedactScanner
  import opened RedactPasses
  import opened RedactKeeps
  import opened RedactJson

  // The guards.

  lemma {:induction false} UnmatchedIsUnchanged(p: Pattern, w: bool, s: string)
    requires !MatchesSomewhere(p, w, s)
    ensures ReplaceAll(p, w, s) == s
    decreases |s|
  {
    hide RegexMatch;
    if s != [] {
      UnmatchedIsUnchanged(p, IsWord(s[0]), s[1..]);
    }
  }

  /** Guarding a rewrite with MatchString changes nothing, and neither does the test for the empty text. */
  lemma GuardsAreRedundant(s: string)
    ensures forall p: Pattern, t: string :: Pass(p, t) == ReplaceAll(p, false, t)
    ensures RedactSecrets(s) == ReplaceAll(Uuid, false, ReplaceAll(JsonSecret, false,
                                ReplaceAll(Password, false, ReplaceAll(WireGuardKey, false, s))))
  {
    hide ReplaceAll, MatchesSomewhere;
    forall p: Pattern, t: string ensures Pass(p, t) == ReplaceAll(p, false, t) {
      if !MatchesSomewhere(p, false, t) { UnmatchedIsUnchanged(p, false, t); }
    }
    if s == "" {
      forall p: Pattern ensures ReplaceAll(p, false, "") == "" { EmptyStaysEmpty(p); }
    }
  }

  lemma EmptyStaysEmpty(p: Pattern)
    ensures ReplaceAll(p, false, "") == ""
  {}

  // What a pass leaves alone.

  /** A piece of the text: one that a pass keeps, or a secret that it replaces. */
  datatype Piece = Outside(text: string) | Inside(secret: string)

  function Pieces(p: Pattern, w: bool, s: string): seq<Piece>
    decreases |s|
  {
    if s == [] then [] else
    match Scan(p, w, s)
    case Some(m) =>
      [Outside(s[..m.keep]), Inside(s[m.keep..m.end])] + Pieces(p, After(w, s, m.end), s[m.end..])
    case None => [Outside(s[..1])] + Pieces(p, IsWord(s[0]), s[1..])
  }

  /** The text of the pieces in order, with cover in place of every secret, or with the secrets themselves. */
  function Joined(ps: seq<Piece>, cover: Option<string>): string {
    if ps == [] then "" else
    var front := match ps[0]
      case Outside(text) => text
      case Inside(secret) => (match cover case Some(c) => c case None => secret);
    front + Joined(ps[1..], cover)
  }

  /** A pass keeps all the text outside the secrets, exactly and in order, and puts the marker for each secret. */
  lemma PassRewritesOnlySecrets(p: Pattern, w: bool, s: string)
    ensures Joined(Pieces(p, w, s), None) == s
    ensures Joined(Pieces(p, w, s), Some(Inserted(p))) == ReplaceAll(p, w, s)
    ensures forall i | 0 <= i < |Pieces(p, w, s)| && Pieces(p, w, s)[i].Inside? :: Pieces(p, w, s)[i].secret != ""
  {
    hide ReplaceAll, Replace, Joined, Pieces;
    PiecesAreTheText(p, w, s);
    PiecesAreRewritten(p, w, s);
    ReplaceIsReplaceAll(p, w, s);
    SecretsAreNotEmpty(p, w, s);
  }

  lemma {:induction false} PiecesAreTheText(p: Pattern, w: bool, s: string)
    ensures Joined(Pieces(p, w, s), None) == s
    decreases |s|
  {
    hide Scan;
    if s != [] {
      match Scan(p, w, s)
      case Some(m) =>
        PiecesAreTheText(p, After(w, s, m.end), s[m.end..]);
        JoinTwo(s[..m.keep], s[m.keep..m.end], Pieces(p, After(w, s, m.end), s[m.end..]), None);
        hide Joined;
        Splice(s, m.keep, m.end);
      case None => PiecesAreTheText(p, IsWord(s[0]), s[1..]);
    }
  }

  lemma {:induction false} PiecesAreRewritten(p: Pattern, w: bool, s: string)
    ensures Joined(Pieces(p, w, s), Some(Inserted(p))) == Replace(p, w, s)
    decreases |s|
  {
    hide Scan, Inserted;
    if s != [] {
      match Scan(p, w, s)
      case Some(m) =>
        PiecesAreRewritten(p, After(w, s, m.end), s[m.end..]);
        JoinTwo(s[..m.keep], s[m.keep..m.end], Pieces(p, After(w, s, m.end), s[m.end..]), Some(Inserted(p)));
        hide Joined;
      case None => PiecesAreRewritten(p, IsWord(s[0]), s[1..]);
    }
  }

  lemma {:induction false} SecretsAreNotEmpty(p: Pattern, w: bool, s: string)
    ensures forall i | 0 <= i < |Pieces(p, w, s)| && Pieces(p, w, s)[i].Inside? :: Pieces(p, w, s)[i].secret != ""
    decreases |s|
  {
    hide Scan;
    if s != [] {
      match Scan(p, w, s)
      case Some(m) => SecretsAreNotEmpty(p, After(w, s, m.end), s[m.end..]);
      case None => SecretsAreNotEmpty(p, IsWord(s[0]), s[1..]);
    }
  }

  lemma JoinTwo(text: string, secret: string, later: seq<Piece>, cover: Option<string>)
    ensures Joined([Outside(text), Inside(secret)] + later, cover)
         == text + (match cover case Some(c) => c case None => secret) + Joined(later, cover)
  {
    var ps := [Outside(text), Inside(secret)] + later;
    assert ps[1..] == [Inside(secret)] + later;
    assert ps[1..][1..] == later;
  }

  // The whole pipeline.

  function Pipeline(s: string): string {
    Replace(Uuid, false, Replace(JsonSecret, false, Replace(Password, false, Replace(WireGuardKey, false, s))))
  }

  lemma RedactIsPipeline(s: string)
    ensures RedactSecrets(s) == Pipeline(s)
  {
    hide ReplaceAll, Replace, RedactSecrets;
    GuardsAreRedundant(s);
    ReplaceIsReplaceAll(WireGuardKey, false, s);
    var s1 := Replace(WireGuardKey, false, s);
    ReplaceIsReplaceAll(Password, false, s1);
    var s2 := Replace(Password, false, s1);
    ReplaceIsReplaceAll(JsonSecret, false, s2);
    ReplaceIsReplaceAll(Uuid, false, Replace(JsonSecret, false, s2));
  }

  /** No later pass re-creates work for an earlier one: the output is masked for all four patterns at once. */
  lemma OutputIsMasked(s: string)
    ensures Everywhere(WireGuardKey, false, RedactSecrets(s))
    ensures Everywhere(Password, false, RedactSecrets(s))
    ensures Settled(JsonSecret, false, RedactSecrets(s))
    ensures Everywhere(Uuid, false, RedactSecrets(s))
  {
    hide Replace, Everywhere, Settled, RedactSecrets;
    RedactIsPipeline(s);
    var s1 := Replace(WireGuardKey, false, s);
    var s2 := Replace(Password, false, s1);
    var s3 := Replace(JsonSecret, false, s2);
    PassKeeps(WireGuardKey, WireGuardKey, false, s);
    PassKeeps(WireGuardKey, Password, false, s1);
    PassKeeps(WireGuardKey, JsonSecret, false, s2);
    PassKeeps(WireGuardKey, Uuid, false, s3);
    PassKeeps(Password, Password, false, s1);
    PassKeeps(Password, JsonSecret, false, s2);
    PassKeeps(Password, Uuid, false, s3);
    JsonPassSettles(false, s2);
    UuidPassKeepsJson(false, s3);
    PassKeeps(Uuid, Uuid, false, s3);
  }

  /** Redacting a redacted text changes nothing. */
  lemma RedactSecretsIsIdempotent(s: string)
    ensures RedactSecrets(RedactSecrets(s)) == RedactSecrets(s)
  {
    hide Replace, Everywhere, Settled, RedactSecrets;
    var t := RedactSecrets(s);
    OutputIsMasked(s);
    EverywhereIsSettled(WireGuardKey, false, t);
    EverywhereIsSettled(Password, false, t);
    EverywhereIsSettled(Uuid, false, t);
    SettledIsFixed(WireGuardKey, false, t);
    SettledIsFixed(Password, false, t);
    SettledIsFixed(JsonSecret, false, t);
    SettledIsFixed(Uuid, false, t);
    RedactIsPipeline(t);
  }

  // The same, read off the output without the patterns.

  predicate BoundaryBefore(t: string, i: nat)
    requires i <= |t|
  {
    i == 0 || !IsWord(t[i - 1])
  }

  lemma NoUuidLeft(s: string, i: nat)
    requires i + 36 <= |RedactSecrets(s)|
    ensures var t := RedactSecrets(s);
      !(&& BoundaryBefore(t, i)
        && (forall k | 0 <= k < 36 :: if IsDashAt(k) then t[i + k] == '-' else In(Hex, t[i + k]))
        && (i + 36 == |t| || !IsWord(t[i + 36])))
  {
    hide RedactSecrets, In;
    var t := RedactSecrets(s);
    OutputIsMasked(s);
    EverywhereAt(Uuid, false, t, i);
    var u := t[i..];
    UuidNeverMarker(After(false, t, i), u);
    assert forall k | 0 <= k < 36 :: u[k] == t[i + k];
    assert |u| > 36 ==> u[36] == t[i + 36];
  }

  lemma UuidNeverMarker(w: bool, u: string)
    ensures !w && IsUuid(u) ==> !Masked(Uuid, w, u)
  {
    hide In;
    if !w && IsUuid(u) { assert |u[0..36]| == 36 != |MARKER|; }
  }

  /** Nothing that a word-bounded key assignment would hide follows it. */
  predicate NoKeyAfter(t: string, i: nat)
    requires i <= |t|
  {
    var kept := KeyKeptLen(t[i..]);
    BoundaryBefore(t, i) && kept.Some? ==> i + kept.value == |t| || !In(Key, t[i + kept.value])
  }

  /** A word-bounded key assignment is followed by no key character. */
  lemma NoKeyLeft(s: string, i: nat)
    ensures i <= |RedactSecrets(s)| ==> NoKeyAfter(RedactSecrets(s), i)
  {
    hide RedactSecrets, KeyKeptLen, Everywhere;
    var t := RedactSecrets(s);
    OutputIsMasked(s);
    if i <= |t| && BoundaryBefore(t, i) && KeyKeptLen(t[i..]).Some? {
      EverywhereAt(WireGuardKey, false, t, i);
      MaskedHere(WireGuardKey, After(false, t, i), t[i..]);
      var j := KeyKeptLen(t[i..]).value;
      NoKeyHere(t[i..]);
      assert j < |t[i..]| ==> t[i..][j] == t[i + j];
    }
  }

  lemma MaskedHere(p: Pattern, w: bool, s: string)
    requires Everywhere(p, w, s)
    ensures Masked(p, w, s)
  {
    hide Masked;
  }

  lemma NoKeyHere(u: string)
    requires Masked(WireGuardKey, false, u) && KeyKeptLen(u).Some?
    ensures var j := KeyKeptLen(u).value; j == |u| || !In(Key, u[j])
  {
    hide KeyKeptLen;
    var j := KeyKeptLen(u).value;
    if Scan(WireGuardKey, false, u).Some? {
      KeysAreNeverMarkers(false, u);
      assert false;
    }
    assert j < |u| ==> u[j..][0] == u[j];
  }

  /** A word-bounded `password=`, in any case, is followed by the marker alone, or by no value. */
  lemma PasswordsAreCovered(s: string, i: nat)
    requires i <= |RedactSecrets(s)| && BoundaryBefore(RedactSecrets(s), i)
    requires SpellsCaseless("password=", RedactSecrets(s)[i..])
    ensures var u := RedactSecrets(s)[i + 9..];
      || u == [] || !In(NotDelimiter, u[0])
      || (|u| >= 10 && u[..10] == MARKER && (|u| == 10 || !In(NotDelimiter, u[10])))
  {
    hide RedactSecrets, Everywhere, In;
    var t := RedactSecrets(s);
    OutputIsMasked(s);
    EverywhereAt(Password, false, t, i);
    MaskedHere(Password, After(false, t, i), t[i..]);
    var x := t[i..];
    assert x[9..] == t[i + 9..];
    var n := Run(NotDelimiter, x[9..]);
    if n > 0 {
      assert x[9..9 + n] == MARKER;
      assert x[9..][..n] == x[9..9 + n];
    }
  }

  // Fields of JSON objects.

  /** A field match at position i has the quoted marker as its value, unless its first quote is the closing one
      of a quoted marker, which belongs to no field. */
  predicate FieldIsCovered(t: string, i: nat)
    requires i <= |t|
  {
    match Scan(JsonSecret, false, t[i..])
    case None => true
    case Some(m) =>
      || t[i + m.keep..i + m.end] == QUOTED_MARKER
      || (i >= 11 && t[i - 11..i + 1] == QUOTED_MARKER)
  }

  lemma CoveredBehind(s: string, c: nat, i: nat)
    requires c <= i <= |s| && FieldIsCovered(s[c..], i - c)
    ensures FieldIsCovered(s, i)
  {
    hide Scan;
    var t := s[c..];
    assert t[i - c..] == s[i..];
    match Scan(JsonSecret, false, s[i..])
    case None =>
    case Some(m) =>
      assert t[i - c + m.keep..i - c + m.end] == s[i + m.keep..i + m.end];
      if i - c >= 11 { assert t[i - c - 11..i - c + 1] == s[i - 11..i + 1]; }
  }

  /** A field match begins with a quote and the first rune of a field name. */
  lemma FieldStart(s: string)
    ensures Scan(JsonSecret, false, s).Some? ==> |s| > 1 && s[0] == '"' && NameRune(s[1])
  {
    hide JsonNameLen, JsonValueLen, SpacedLen, NameRune;
    if Scan(JsonSecret, false, s).Some? { JsonNameRune(s[1..], 0); }
  }

  /** Of the runes between the first one and the value of a field only the quote behind its name is a quote, and
      that one is followed by the separator. */
  lemma QuotesOfKept(s: string, i: nat)
    requires JsonKeptLen(s).Some? && 0 < i < JsonKeptLen(s).value
    ensures s[i] == '"' ==> i + 1 < JsonKeptLen(s).value && !NameRune(s[i + 1])
  {
    hide JsonNameLen, SpacedLen;
    var l := JsonNameLen(s[1..]);
    if i <= l {
      JsonNameRune(s[1..], i - 1);
      assert s[i] == s[1..][i - 1];
    } else if i > l + 1 {
      SpacedRunes(':', s[l + 2..], i - l - 2);
      assert s[i] == s[l + 2..][i - l - 2];
    } else {
      SpacedRunes(':', s[l + 2..], 0);
      assert s[i + 1] == s[l + 2..][0];
    }
  }

  /** Within a masked match no other field match begins, but at its last quote. */
  lemma FieldsWithinMatch(s: string, m: Span, i: nat)
    requires Scan(JsonSecret, false, s) == Some(m) && s[m.keep..m.end] == QUOTED_MARKER && 0 < i < m.end
    ensures FieldIsCovered(s, i)
  {
    hide JsonKeptLen, JsonValueLen;
    FieldStart(s[i..]);
    MarkerHasTwoQuotes(1);
    assert s[m.keep + 1] == s[m.keep..m.end][1];
    BracketIsNoName();
    hide Scan, NameRune;
    if Scan(JsonSecret, false, s[i..]).Some? {
      assert s[i] == s[i..][0] && s[i + 1] == s[i..][1];
      assert i >= m.keep by { if i < m.keep { KeptIsScanned(s, m); QuotesOfKept(s, i); } }
      MarkerHasTwoQuotes(i - m.keep);
      assert s[i] == s[m.keep..m.end][i - m.keep];
      assert i == m.end - 1;
    }
  }

  lemma KeptIsScanned(s: string, m: Span)
    requires Scan(JsonSecret, false, s) == Some(m)
    ensures JsonKeptLen(s) == Some(m.keep)
  {}

  lemma MarkerHasTwoQuotes(i: nat)
    requires i < |QUOTED_MARKER|
    ensures QUOTED_MARKER[i] == '"' <==> i == 0 || i == 11
    ensures |QUOTED_MARKER| == 12 && QUOTED_MARKER[1] == '['
  {}

  lemma BracketIsNoName()
    ensures !NameRune('[')
  {}

  lemma {:induction false} SettledCovers(w: bool, s: string, i: nat)
    requires i <= |s| && Settled(JsonSecret, w, s)
    ensures FieldIsCovered(s, i)
    decreases |s|
  {
    hide Scan, FieldIsCovered, IsWord, After;
    JsonContext(w, false, s);
    match Scan(JsonSecret, w, s)
    case Some(m) =>
      if i == 0 {
        CoveredHere(s);
      } else if i < m.end {
        FieldsWithinMatch(s, m, i);
      } else {
        SettledCovers(After(w, s, m.end), s[m.end..], i - m.end);
        CoveredBehind(s, m.end, i);
      }
    case None =>
      if i == 0 {
        CoveredHere(s);
      } else {
        SettledCovers(IsWord(s[0]), s[1..], i - 1);
        CoveredBehind(s, 1, i);
      }
  }

  lemma CoveredHere(s: string)
    requires match Scan(JsonSecret, false, s) case Some(m) => s[m.keep..m.end] == QUOTED_MARKER case None => true
    ensures FieldIsCovered(s, 0)
  {
    hide Scan;
    assert s[0..] == s;
  }

  /** Every secret field in the output, wherever it begins, has the quoted marker as its value. */
  lemma FieldsAreCovered(s: string, i: nat)
    ensures i <= |RedactSecrets(s)| ==> FieldIsCovered(RedactSecrets(s), i)
  {
    hide RedactSecrets, Settled, FieldIsCovered;
    OutputIsMasked(s);
    if i <= |RedactSecrets(s)| { SettledCovers(false, RedactSecrets(s), i); }
  }

  // Texts that redaction leaves alone.

  /** None of the runes that every pattern needs one of. */
  predicate Harmless(s: string) { forall i | 0 <= i < |s| :: s[i] != '=' && s[i] != '"' && s[i] != '-' }

  lemma MatchesAreNotHarmless(p: Pattern, w: bool, s: string)
    ensures Scan(p, w, s).Some? ==> !Harmless(s)
  {
    if Scan(p, w, s).Some? {
      match p
      case WireGuardKey =>
        var n := KeyNameLen(s);
        var r := Run(Space, s[n..]);
        assert s[n + r] == s[n..][r] == '=';
      case Password => assert Folds('=', s[8]);
      case JsonSecret => assert s[0] == '"';
      case Uuid => assert IsDashAt(8);
    }
  }

  lemma {:induction false} HarmlessReplace(p: Pattern, w: bool, s: string)
    requires Harmless(s)
    ensures Replace(p, w, s) == s
    decreases |s|
  {
    hide Scan;
    MatchesAreNotHarmless(p, w, s);
    if s != [] {
      HarmlessReplace(p, IsWord(s[0]), s[1..]);
      assert s == s[..1] + s[1..];
    }
  }

  /** A text without equals sign, double quote and hyphen holds nothing to redact. */
  lemma NothingToHide(s: string)
    requires Harmless(s)
    ensures RedactSecrets(s) == s
  {
    hide Replace, RedactSecrets;
    RedactIsPipeline(s);
    HarmlessReplace(WireGuardKey, false, s);
    HarmlessReplace(Password, false, s);
    HarmlessReplace(JsonSecret, false, s);
    HarmlessReplace(Uuid, false, s);
  }
}
