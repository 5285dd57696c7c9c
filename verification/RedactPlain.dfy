/** What redaction does, in plain words: the alphabets and names written out, each pattern as a shape of text, and
    the output as a reader sees it, without regular expressions and scanners. */
module RedactPlain {
  import opened Options
  import opened Regex
  import opened RegexLaws
  import opened Redact
  import opened RedactScanner
  import opened RedactKeeps
  import opened RedactJson
  import opened RedactTheorems

  // Alphabets and names.

  lemma SpacesInFull(c: char)
    ensures In(Space, c) <==> c in " \t\n\U{0C}\r"
  {}

  lemma DigitsInFull(c: char)
    ensures IsDigit(c) <==> c in "0123456789"
  {}

  lemma CapitalsInFull(c: char)
    ensures 'A' <= c <= 'Z' <==> c in "ABCDEFGHIJKLMNOPQRSTUVWXYZ"
  {}

  lemma SmallLettersInFull(c: char)
    ensures 'a' <= c <= 'z' <==> c in "abcdefghijklmnopqrstuvwxyz"
  {}

  lemma WordsInFull(c: char)
    ensures IsWord(c) <==>
      || c in "0123456789" || c in "ABCDEFGHIJKLMNOPQRSTUVWXYZ" || c in "abcdefghijklmnopqrstuvwxyz" || c in "_"
  {
    DigitsInFull(c);
    CapitalsInFull(c);
    SmallLettersInFull(c);
    hide IsDigit;
  }

  lemma KeysInFull(c: char)
    ensures In(Key, c) <==>
      || c in "0123456789" || c in "ABCDEFGHIJKLMNOPQRSTUVWXYZ" || c in "abcdefghijklmnopqrstuvwxyz" || c in "+/=_-"
  {
    DigitsInFull(c);
    CapitalsInFull(c);
    SmallLettersInFull(c);
    hide IsDigit;
  }

  lemma HexInFull(c: char)
    ensures In(Hex, c) <==> c in "0123456789abcdefABCDEF"
  {}

  lemma ValuesInFull(c: char)
    ensures In(NotDelimiter, c) <==> c !in " \t\n\U{0C}\r,;&"
    ensures In(Bare, c) <==> c !in " \t\n\U{0C}\r,}]"
    ensures In(Plain, c) <==> c !in "\"\\"
    ensures In(NotNewline, c) <==> c != '\n'
  {}

  /** The runes that match a rune of a name under (?i). */
  lemma FoldsInFull(c: char)
    ensures Folds('a', c) <==> c in "aA"
    ensures Folds('c', c) <==> c in "cC"
    ensures Folds('d', c) <==> c in "dD"
    ensures Folds('e', c) <==> c in "eE"
    ensures Folds('h', c) <==> c in "hH"
    ensures Folds('i', c) <==> c in "iI"
    ensures Folds('k', c) <==> c in "kK\U{212A}"
    ensures Folds('o', c) <==> c in "oO"
    ensures Folds('p', c) <==> c in "pP"
    ensures Folds('r', c) <==> c in "rR"
    ensures Folds('s', c) <==> c in "sS\U{017F}"
    ensures Folds('t', c) <==> c in "tT"
    ensures Folds('u', c) <==> c in "uU"
    ensures Folds('v', c) <==> c in "vV"
    ensures Folds('w', c) <==> c in "wW"
    ensures Folds('y', c) <==> c in "yY"
    ensures Folds('_', c) <==> c in "_"
    ensures Folds('=', c) <==> c in "="
  {}

  // The shapes of text that the patterns match.

  predicate All(k: Class, s: string) { forall i | 0 <= i < |s| :: In(k, s[i]) }

  /** s[from..to] is not empty, all of one class, and not followed by more of it. */
  predicate WholeRun(k: Class, s: string, from: nat, to: nat) {
    from < to <= |s| && All(k, s[from..to]) && (to < |s| ==> !In(k, s[to]))
  }

  /** s[from..to] is sep between spaces. */
  predicate Separates(s: string, sep: char, from: nat, j: nat, to: nat) {
    from <= j < to <= |s| && All(Space, s[from..j]) && s[j] == sep && All(Space, s[j + 1..to])
  }

  predicate IsKeyAssignment(s: string, name: string, j: nat, keep: nat) {
    (name == "PrivateKey" || name == "PresharedKey") && name <= s && Separates(s, '=', |name|, j, keep)
  }

  /** s begins with a name, in any case. */
  predicate Named(name: string, s: string) {
    |name| <= |s| && forall i | 0 <= i < |name| :: Folds(name[i], s[i])
  }

  predicate IsFieldName(name: string) {
    name == "privatekey" || name == "preshared_key" || name == "secret" || name == "password" || name == "uuid"
  }

  /** s begins with a quoted field name and a colon. */
  predicate IsField(s: string, name: string, j: nat, keep: nat) {
    && IsFieldName(name) && |s| >= |name| + 2
    && s[0] == '"' && Named(name, s[1..]) && s[|name| + 1] == '"' && Separates(s, ':', |name| + 2, j, keep)
  }

  /** The first keep runes of s are the name and the colon of a field. */
  ghost predicate BeginsField(s: string, keep: nat) { exists name, j: nat :: IsField(s, name, j, keep) }

  /** The length of the rest of a JSON string, read rune by rune up to its closing quote. A backslash takes the
      next rune along, unless that is a newline. */
  function StringRest(v: string): Option<nat> {
    if v == [] then None
    else if v[0] == '"' then Some(1)
    else if v[0] == '\\' then
      if |v| < 2 || v[1] == '\n' then None else Longer(2, StringRest(v[2..]))
    else Longer(1, StringRest(v[1..]))
  }

  function Longer(n: nat, o: Option<nat>): Option<nat> { match o case Some(m) => Some(n + m) case None => None }

  /** A value is a complete string, or else everything up to a space, comma or closing bracket. */
  predicate IsValue(v: string, n: nat) {
    if v != [] && v[0] == '"' && StringRest(v[1..]).Some? then Some(n) == Longer(1, StringRest(v[1..]))
    else WholeRun(Bare, v, 0, n)
  }

  /** Groups of hexadecimal digits with dashes between them. */
  predicate IsUuidText(s: string) {
    && |s| == 36 && s[8] == '-' && s[13] == '-' && s[18] == '-' && s[23] == '-'
    && All(Hex, s[..8]) && All(Hex, s[9..13]) && All(Hex, s[14..18]) && All(Hex, s[19..23]) && All(Hex, s[24..])
  }

  // A match of a pattern is exactly such a shape.

  lemma {:induction false} RunIs(k: Class, s: string, n: nat)
    requires n <= |s| && All(k, s[..n]) && (n < |s| ==> !In(k, s[n]))
    ensures Run(k, s) == n
  {
    hide In;
    if n > 0 {
      assert s[..n][0] == s[0];
      assert s[1..][..n - 1] == s[..n][1..];
      RunIs(k, s[1..], n - 1);
    }
  }

  lemma RunIsWhole(k: Class, s: string, from: nat, to: nat)
    requires from <= to <= |s|
    ensures WholeRun(k, s, from, to) <==> from < to && Run(k, s[from..]) == to - from
  {
    hide In;
    var t := s[from..];
    var n := to - from;
    assert t[..n] == s[from..to] && (to < |s| ==> t[n] == s[to]);
    if WholeRun(k, s, from, to) { RunIs(k, t, n); }
    if Run(k, t) == n { RunIsAll(k, t); }
  }

  lemma RunIsAll(k: Class, s: string)
    ensures All(k, s[..Run(k, s)])
  {
    forall i | 0 <= i < Run(k, s) ensures In(k, s[..Run(k, s)][i]) { RunAll(k, s, i); }
  }

  /** Where a separator ends in front of something that is no space. */
  lemma SeparatorIs(s: string, sep: char, from: nat, j: nat, to: nat)
    requires Separates(s, sep, from, j, to) && !In(Space, sep) && (to < |s| ==> !In(Space, s[to]))
    ensures SpacedLen(sep, s[from..]) == Some(to - from)
  {
    hide In;
    var t := s[from..];
    var r := j - from;
    assert t[..r] == s[from..j] && t[r] == sep;
    RunIs(Space, t, r);
    assert t[r + 1..][..to - j - 1] == s[j + 1..to];
    assert to < |s| ==> t[r + 1..][to - j - 1] == s[to];
    RunIs(Space, t[r + 1..], to - j - 1);
  }

  lemma SeparatorFound(s: string, sep: char, from: nat) returns (j: nat)
    requires from <= |s| && SpacedLen(sep, s[from..]).Some?
    ensures Separates(s, sep, from, j, from + SpacedLen(sep, s[from..]).value)
  {
    hide In;
    var t := s[from..];
    var r := Run(Space, t);
    var q := Run(Space, t[r + 1..]);
    j := from + r;
    RunIsAll(Space, t);
    RunIsAll(Space, t[r + 1..]);
    assert s[from..j] == t[..r] && s[j + 1..j + 1 + q] == t[r + 1..][..q];
  }

  lemma SpellsIsPrefix(name: string, s: string)
    ensures Spells(name, s) <==> name <= s
  {
    if name <= s { assert forall i | 0 <= i < |name| :: s[..|name|][i] == s[i]; }
    if Spells(name, s) { assert s[..|name|] == name; }
  }

  lemma KeyNameIs(s: string)
    ensures "PrivateKey" <= s ==> KeyNameLen(s) == 10
    ensures "PresharedKey" <= s ==> KeyNameLen(s) == 12
    ensures KeyNameLen(s) == 10 ==> "PrivateKey" <= s
    ensures KeyNameLen(s) == 12 ==> "PresharedKey" <= s
    ensures KeyNameLen(s) == 0 || KeyNameLen(s) == 10 || KeyNameLen(s) == 12
  {
    SpellsIsPrefix("PrivateKey", s);
    SpellsIsPrefix("PresharedKey", s);
    assert Spells("PrivateKey", s) ==> s[2] == 'i';
    assert Spells("PresharedKey", s) ==> s[2] == 'e';
  }

  lemma KeyKeptIs(s: string, name: string, j: nat, keep: nat)
    requires IsKeyAssignment(s, name, j, keep) && (keep < |s| ==> !In(Space, s[keep]))
    ensures KeyKeptLen(s) == Some(keep)
  {
    hide In, SpacedLen, Separates, KeyNameLen;
    KeyNameIs(s);
    assert !In(Space, '=') by { SpacesInFull('='); }
    SeparatorIs(s, '=', |name|, j, keep);
  }

  lemma KeyKeptFound(s: string) returns (name: string, j: nat)
    requires KeyKeptLen(s).Some?
    ensures IsKeyAssignment(s, name, j, KeyKeptLen(s).value)
  {
    hide In, SpacedLen, Separates, KeyNameLen;
    KeyNameIs(s);
    name := if KeyNameLen(s) == 10 then "PrivateKey" else "PresharedKey";
    j := SeparatorFound(s, '=', |name|);
  }

  lemma KeyIsNoSpace(c: char)
    ensures In(Key, c) ==> !In(Space, c)
    ensures In(Bare, c) ==> !In(Space, c)
  {}

  /** The key pattern matches exactly a word-bounded key assignment and the whole run of key characters after it. */
  lemma KeyMatchIs(w: bool, s: string, keep: nat, end: nat)
    ensures RegexMatch(WireGuardKey, w, s) == Some(Span(keep, end))
       <==> !w && WholeRun(Key, s, keep, end) && exists name, j: nat :: IsKeyAssignment(s, name, j, keep)
  {
    hide RegexMatch, KeyKeptLen, IsKeyAssignment, WholeRun, In;
    ScanIsRegexMatch(WireGuardKey, w, s);
    if RegexMatch(WireGuardKey, w, s) == Some(Span(keep, end)) {
      var name, j := KeyKeptFound(s);
      RunIsWhole(Key, s, keep, end);
    }
    if !w && WholeRun(Key, s, keep, end) && exists name, j: nat :: IsKeyAssignment(s, name, j, keep) {
      var name, j: nat :| IsKeyAssignment(s, name, j, keep);
      RunStart(Key, s, keep, end);
      RunIsWhole(Key, s, keep, end);
      KeyIsNoSpace(s[keep]);
      KeyKeptIs(s, name, j, keep);
    }
  }

  lemma RunStart(k: Class, s: string, from: nat, to: nat)
    requires WholeRun(k, s, from, to)
    ensures from < to <= |s| && In(k, s[from])
  {
    assert s[from..to][0] == s[from];
  }

  /** The password pattern matches exactly a word-bounded `password=` in any case and the whole value after it. */
  lemma PasswordMatchIs(w: bool, s: string, keep: nat, end: nat)
    ensures RegexMatch(Password, w, s) == Some(Span(keep, end))
       <==> !w && keep == 9 && Named("password=", s) && WholeRun(NotDelimiter, s, 9, end)
  {
    hide RegexMatch, WholeRun, In, Folds;
    ScanIsRegexMatch(Password, w, s);
    assert SpellsCaseless("password=", s) == Named("password=", s);
    if |s| >= 9 && 9 <= end <= |s| { RunIsWhole(NotDelimiter, s, 9, end); }
    if WholeRun(NotDelimiter, s, 9, end) { RunStart(NotDelimiter, s, 9, end); }
  }

  lemma UuidTextIs(s: string)
    requires |s| >= 36
    ensures IsUuidText(s[..36]) <==> forall i | 0 <= i < 36 :: if IsDashAt(i) then s[i] == '-' else In(Hex, s[i])
  {
    hide In;
    var u := s[..36];
    assert forall i | 0 <= i < 36 :: u[i] == s[i];
    if IsUuidText(u) {
      forall i | 0 <= i < 36 && !IsDashAt(i) ensures In(Hex, u[i]) {
        if i < 8 { assert u[..8][i] == u[i]; }
        else if i < 13 { assert u[9..13][i - 9] == u[i]; }
        else if i < 18 { assert u[14..18][i - 14] == u[i]; }
        else if i < 23 { assert u[19..23][i - 19] == u[i]; }
        else { assert u[24..][i - 24] == u[i]; }
      }
      assert IsDashAt(8) && IsDashAt(13) && IsDashAt(18) && IsDashAt(23);
    }
    if forall i | 0 <= i < 36 :: if IsDashAt(i) then s[i] == '-' else In(Hex, s[i]) {
      assert IsDashAt(8) && IsDashAt(13) && IsDashAt(18) && IsDashAt(23);
      forall i | 0 <= i < 8 ensures In(Hex, u[..8][i]) { assert !IsDashAt(i); }
      forall i | 0 <= i < 4 ensures In(Hex, u[9..13][i]) { assert !IsDashAt(9 + i); }
      forall i | 0 <= i < 4 ensures In(Hex, u[14..18][i]) { assert !IsDashAt(14 + i); }
      forall i | 0 <= i < 4 ensures In(Hex, u[19..23][i]) { assert !IsDashAt(19 + i); }
      forall i | 0 <= i < 12 ensures In(Hex, u[24..][i]) { assert !IsDashAt(24 + i); }
    }
  }

  /** The UUID pattern matches exactly a UUID with no word character on either side. */
  lemma UuidMatchIs(w: bool, s: string, keep: nat, end: nat)
    ensures RegexMatch(Uuid, w, s) == Some(Span(keep, end))
       <==> !w && keep == 0 && end == 36 && |s| >= 36 && IsUuidText(s[..36]) && (|s| == 36 || !IsWord(s[36]))
  {
    hide RegexMatch, IsUuidText, In;
    ScanIsRegexMatch(Uuid, w, s);
    if |s| >= 36 { UuidTextIs(s); }
  }

  // Fields of JSON objects.

  /** The rest of a string as a run of plain runes and then escapes. */
  function RunThenEscapes(v: string): Option<nat> { Longer(Run(Plain, v), EscapesLen(v[Run(Plain, v)..])) }

  lemma RestAtPlain(v: string)
    requires v != [] && In(Plain, v[0])
    ensures RunThenEscapes(v) == Longer(1, RunThenEscapes(v[1..]))
  {
    hide EscapesLen, In;
    assert v[1..][Run(Plain, v[1..])..] == v[Run(Plain, v)..];
  }

  lemma RestAtEscape(v: string)
    requires |v| >= 2 && v[0] == '\\' && v[1] != '\n'
    ensures RunThenEscapes(v) == Longer(2, RunThenEscapes(v[2..]))
  {
    var r := v[2..];
    assert Run(Plain, v) == 0 && v[0..] == v;
    assert r[Run(Plain, r)..] == v[2 + Run(Plain, r)..];
    assert EscapesLen(v) == Longer(2 + Run(Plain, r), EscapesLen(v[2 + Run(Plain, r)..]));
  }

  lemma RestAtEnd(v: string)
    requires v == [] || v[0] == '"' || (v[0] == '\\' && (|v| < 2 || v[1] == '\n'))
    ensures RunThenEscapes(v) == if v != [] && v[0] == '"' then Some(1) else None
  {
    assert Run(Plain, v) == 0 && v[0..] == v;
  }

  lemma {:induction false} StringRestIs(v: string)
    ensures StringRest(v) == RunThenEscapes(v)
    decreases |v|
  {
    hide RunThenEscapes;
    if v == [] || v[0] == '"' || (v[0] == '\\' && (|v| < 2 || v[1] == '\n')) {
      RestAtEnd(v);
    } else if v[0] == '\\' {
      RestAtEscape(v);
      StringRestIs(v[2..]);
    } else {
      RestAtPlain(v);
      StringRestIs(v[1..]);
    }
  }

  lemma QuotedIs(v: string)
    ensures QuotedLen(v) == if v != [] && v[0] == '"' then Longer(1, StringRest(v[1..])) else None
  {
    hide In;
    if v != [] && v[0] == '"' {
      var r := v[1..];
      StringRestIs(r);
      assert r[Run(Plain, r)..] == v[1 + Run(Plain, r)..];
    }
  }

  lemma ValueIs(v: string, n: nat)
    requires n <= |v|
    ensures IsValue(v, n) <==> n > 0 && JsonValueLen(v) == n
  {
    hide In, StringRest, QuotedLen, WholeRun;
    QuotedIs(v);
    RunIsWhole(Bare, v, 0, n);
    assert v[0..] == v;
  }

  lemma NamedLen(name: string, s: string)
    requires IsFieldName(name) && Named(name, s)
    ensures JsonNameLen(s) == |name|
  {
    JsonNameUnique(s);
  }

  lemma FieldKeptIs(s: string, name: string, j: nat, keep: nat)
    requires IsField(s, name, j, keep) && (keep < |s| ==> !In(Space, s[keep]))
    ensures JsonKeptLen(s) == Some(keep)
  {
    hide Separates, SpacedLen, JsonNameLen, Named;
    NamedLen(name, s[1..]);
    SeparatorIs(s, ':', |name| + 2, j, keep);
    assert s[|name| + 1..][0] == s[|name| + 1];
  }

  lemma FieldKeptFound(s: string) returns (name: string, j: nat)
    requires JsonKeptLen(s).Some?
    ensures IsField(s, name, j, JsonKeptLen(s).value)
  {
    hide Separates, SpacedLen;
    name := NameFound(s[1..]);
    assert s[|name| + 1..][0] == s[|name| + 1];
    j := SeparatorFound(s, ':', |name| + 2);
  }

  lemma NameFound(s: string) returns (name: string)
    requires JsonNameLen(s) > 0
    ensures IsFieldName(name) && Named(name, s) && |name| == JsonNameLen(s)
  {
    name :=
      if SpellsCaseless("privatekey", s) then "privatekey"
      else if SpellsCaseless("preshared_key", s) then "preshared_key"
      else if SpellsCaseless("secret", s) then "secret"
      else if SpellsCaseless("password", s) then "password"
      else "uuid";
  }

  lemma FieldMatched(s: string, keep: nat, end: nat)
    requires Scan(JsonSecret, false, s) == Some(Span(keep, end))
    ensures keep <= end <= |s| && IsValue(s[keep..], end - keep) && BeginsField(s, keep)
  {
    hide JsonKeptLen, IsField, IsValue, JsonValueLen;
    var name, j := FieldKeptFound(s);
    ValueIs(s[keep..], end - keep);
  }

  lemma FieldMatches(s: string, keep: nat, end: nat)
    requires keep <= end <= |s| && IsValue(s[keep..], end - keep) && BeginsField(s, keep)
    ensures Scan(JsonSecret, false, s) == Some(Span(keep, end))
  {
    hide JsonKeptLen, IsField, IsValue, JsonValueLen, In;
    var name, j: nat :| IsField(s, name, j, keep);
    ValueIs(s[keep..], end - keep);
    ValueStart(s[keep..], end - keep);
    assert s[keep..][0] == s[keep];
    FieldKeptIs(s, name, j, keep);
  }

  /** The JSON pattern matches exactly a quoted field name, a colon and the whole value after it. */
  lemma FieldMatchIs(w: bool, s: string, keep: nat, end: nat)
    ensures RegexMatch(JsonSecret, w, s) == Some(Span(keep, end))
       <==> keep <= end <= |s| && IsValue(s[keep..], end - keep) && BeginsField(s, keep)
  {
    ScanIsRegexMatch(JsonSecret, w, s);
    JsonContext(w, false, s);
    hide RegexMatch, Scan, IsValue, BeginsField;
    if RegexMatch(JsonSecret, w, s) == Some(Span(keep, end)) { FieldMatched(s, keep, end); }
    if keep <= end <= |s| && IsValue(s[keep..], end - keep) && BeginsField(s, keep) { FieldMatches(s, keep, end); }
  }

  lemma ValueStart(v: string, n: nat)
    requires n <= |v| && n > 0 && JsonValueLen(v) == n
    ensures !In(Space, v[0])
  {
    hide QuotedLen;
    KeyIsNoSpace(v[0]);
  }

  // The rewriting of one pass.

  /** No match of p begins before position n. */
  predicate NoMatchBefore(p: Pattern, w: bool, s: string, n: nat)
    requires n <= |s|
  {
    forall i | 0 <= i < n :: RegexMatch(p, After(w, s, i), s[i..]).None?
  }

  lemma OneRuneKept(p: Pattern, w: bool, s: string)
    requires s != [] && RegexMatch(p, w, s).None?
    ensures ReplaceAll(p, w, s) == s[..1] + ReplaceAll(p, IsWord(s[0]), s[1..])
  {
    hide RegexMatch, IsWord;
  }

  lemma NoMatchLater(p: Pattern, w: bool, s: string, n: nat)
    requires 0 < n <= |s| && NoMatchBefore(p, w, s, n)
    ensures RegexMatch(p, w, s).None? && NoMatchBefore(p, IsWord(s[0]), s[1..], n - 1)
  {
    hide RegexMatch, IsWord;
    assert RegexMatch(p, After(w, s, 0), s[0..]).None? && s[0..] == s;
    var v, t := IsWord(s[0]), s[1..];
    forall i | 0 <= i < n - 1 ensures RegexMatch(p, After(v, t, i), t[i..]).None? {
      assert RegexMatch(p, After(w, s, i + 1), s[i + 1..]).None?;
      assert t[i..] == s[i + 1..];
    }
  }

  lemma {:induction false} FirstPartIsKept(p: Pattern, w: bool, s: string, n: nat)
    requires n <= |s| && NoMatchBefore(p, w, s, n)
    ensures ReplaceAll(p, w, s) == s[..n] + ReplaceAll(p, After(w, s, n), s[n..])
    decreases n
  {
    hide RegexMatch, ReplaceAll, IsWord, NoMatchBefore;
    if n == 0 {
      assert s[0..] == s;
    } else {
      var t := s[1..];
      NoMatchLater(p, w, s, n);
      OneRuneKept(p, w, s);
      FirstPartIsKept(p, IsWord(s[0]), t, n - 1);
      assert t[n - 1..] == s[n..];
      assert s[..1] + t[..n - 1] == s[..n];
    }
  }

  lemma MatchIsReplaced(p: Pattern, w: bool, s: string, keep: nat, end: nat)
    requires RegexMatch(p, w, s) == Some(Span(keep, end)) && 0 < end
    ensures keep <= end <= |s|
    ensures ReplaceAll(p, w, s)
         == s[..keep] + (if p.JsonSecret? then "\"[REDACTED]\"" else "[REDACTED]")
            + ReplaceAll(p, After(w, s, end), s[end..])
  {
    hide RegexMatch, IsWord;
  }

  /** A pass without a match changes nothing. Otherwise the first match decides: the text up to its secret is
      kept, the secret becomes the marker, and the pass goes on behind the match. */
  lemma FirstMatchIsRewritten(p: Pattern, w: bool, s: string, i: nat, keep: nat, end: nat)
    requires i <= |s| && NoMatchBefore(p, w, s, i)
    requires RegexMatch(p, After(w, s, i), s[i..]) == Some(Span(keep, end)) && 0 < end
    ensures i + keep <= i + end <= |s|
    ensures ReplaceAll(p, w, s)
         == s[..i + keep] + (if p.JsonSecret? then "\"[REDACTED]\"" else "[REDACTED]")
            + ReplaceAll(p, After(w, s, i + end), s[i + end..])
  {
    hide RegexMatch, ReplaceAll, IsWord, NoMatchBefore;
    FirstPartIsKept(p, w, s, i);
    var t := s[i..];
    MatchIsReplaced(p, After(w, s, i), t, keep, end);
    assert t[end..] == s[i + end..];
    assert s[..i] + t[..keep] == s[..i + keep];
  }

  lemma NoMatchNoChange(p: Pattern, w: bool, s: string)
    requires NoMatchBefore(p, w, s, |s|)
    ensures ReplaceAll(p, w, s) == s
  {
    FirstPartIsKept(p, w, s, |s|);
    assert s[|s|..] == [] && s[..|s|] == s;
  }

  // The output.

  /** At position i of t stands a word-bounded key assignment, and at position k a key character follows it. */
  predicate KeyAt(t: string, i: nat, name: string, j: nat, k: nat) {
    && (name == "PrivateKey" || name == "PresharedKey")
    && i + |name| <= j < k < |t| && t[i..i + |name|] == name && t[j] == '='
    && (forall x | i + |name| <= x < k && x != j :: t[x] in " \t\n\U{0C}\r")
    && (i == 0 || !IsWord(t[i - 1]))
    && (|| t[k] in "0123456789" || t[k] in "ABCDEFGHIJKLMNOPQRSTUVWXYZ"
        || t[k] in "abcdefghijklmnopqrstuvwxyz" || t[k] in "+/=_-")
  }

  lemma AssignmentAt(t: string, i: nat, name: string, j: nat, k: nat)
    requires KeyAt(t, i, name, j, k)
    ensures IsKeyAssignment(t[i..], name, j - i, k - i) && In(Key, t[k])
  {
    KeysInFull(t[k]);
    hide In;
    var u := t[i..];
    assert u[..|name|] == name;
    forall x | |name| <= x < k - i && x != j - i ensures In(Space, u[x]) {
      assert u[x] == t[i + x];
      SpacesInFull(u[x]);
    }
  }

  /** No output shows a key. */
  lemma NoKeyInOutput(s: string, i: nat, name: string, j: nat, k: nat)
    ensures !KeyAt(RedactSecrets(s), i, name, j, k)
  {
    hide RedactSecrets, IsWord, In;
    var t := RedactSecrets(s);
    if KeyAt(t, i, name, j, k) {
      AssignmentAt(t, i, name, j, k);
      KeyIsNoSpace(t[k]);
      hide KeyAt, IsKeyAssignment;
      assert t[i..][k - i] == t[k];
      KeyKeptIs(t[i..], name, j - i, k - i);
      NoKeyLeft(s, i);
      assert false;
    }
  }

  /** At position i of t stands a UUID with no word character on either side. */
  predicate UuidAt(t: string, i: nat) {
    && i + 36 <= |t| && (i == 0 || !IsWord(t[i - 1])) && (i + 36 == |t| || !IsWord(t[i + 36]))
    && t[i + 8] == '-' && t[i + 13] == '-' && t[i + 18] == '-' && t[i + 23] == '-'
    && forall x | i <= x < i + 36 && x != i + 8 && x != i + 13 && x != i + 18 && x != i + 23 ::
         t[x] in "0123456789abcdefABCDEF"
  }

  lemma NoUuidInOutput(s: string, i: nat)
    ensures !UuidAt(RedactSecrets(s), i)
  {
    hide RedactSecrets, IsWord, In;
    var t := RedactSecrets(s);
    if UuidAt(t, i) {
      forall k | 0 <= k < 36 ensures if IsDashAt(k) then t[i + k] == '-' else In(Hex, t[i + k]) {
        HexInFull(t[i + k]);
      }
      NoUuidLeft(s, i);
      assert false;
    }
  }

  /** At position i of t stands a word-bounded `password=`, in any case. */
  predicate PasswordAt(t: string, i: nat) {
    && i + 9 <= |t| && (i == 0 || !IsWord(t[i - 1]))
    && t[i] in "pP" && t[i + 1] in "aA" && t[i + 2] in "sS\U{017F}" && t[i + 3] in "sS\U{017F}" && t[i + 4] in "wW"
    && t[i + 5] in "oO" && t[i + 6] in "rR" && t[i + 7] in "dD" && t[i + 8] == '='
  }

  /** Position i is the end of t, or holds a delimiter. */
  predicate EndsAt(t: string, i: nat) { i == |t| || (i < |t| && t[i] in " \t\n\U{0C}\r,;&") }

  /** Every password in the output is empty or exactly the marker. */
  lemma PasswordsInOutput(s: string, i: nat)
    ensures var t := RedactSecrets(s);
      PasswordAt(t, i) ==>
        EndsAt(t, i + 9) || (i + 19 <= |t| && t[i + 9..i + 19] == "[REDACTED]" && EndsAt(t, i + 19))
  {
    hide RedactSecrets, IsWord, In, Folds;
    var t := RedactSecrets(s);
    if PasswordAt(t, i) {
      PasswordNamed(t, i);
      hide PasswordAt, SpellsCaseless;
      PasswordsAreCovered(s, i);
      var u := t[i + 9..];
      if u != [] {
        assert u[0] == t[i + 9];
        ValuesInFull(u[0]);
        if |u| >= 10 { assert u[..10] == t[i + 9..i + 19]; }
        if |u| > 10 {
          assert u[10] == t[i + 19];
          ValuesInFull(u[10]);
        }
      }
    }
  }

  lemma PasswordNamed(t: string, i: nat)
    requires PasswordAt(t, i)
    ensures SpellsCaseless("password=", t[i..]) && BoundaryBefore(t, i)
  {
    hide Folds, IsWord;
    forall x | 0 <= x < 9 ensures Folds("password="[x], t[i..][x]) { FoldsInFull(t[i + x]); }
  }

  /** Position i of t begins a secret JSON field whose value is t[keep..end]. */
  ghost predicate FieldAt(t: string, i: nat, keep: nat, end: nat) {
    i <= keep <= end <= |t| && IsValue(t[keep..], end - keep) && BeginsField(t[i..], keep - i)
  }

  /** Every secret field in the output, wherever it begins, has the quoted marker as its value, unless its first
      quote is the last one of a quoted marker. */
  lemma FieldsInOutput(s: string, i: nat, keep: nat, end: nat)
    ensures var t := RedactSecrets(s);
      FieldAt(t, i, keep, end) ==>
        t[keep..end] == "\"[REDACTED]\"" || (i >= 11 && t[i - 11..i + 1] == "\"[REDACTED]\"")
  {
    hide RedactSecrets, FieldAt, Scan;
    var t := RedactSecrets(s);
    if FieldAt(t, i, keep, end) {
      FieldMatchAt(t, i, keep, end);
      FieldsAreCovered(s, i);
    }
  }

  lemma FieldMatchAt(t: string, i: nat, keep: nat, end: nat)
    requires FieldAt(t, i, keep, end)
    ensures i <= keep <= end <= |t| && Scan(JsonSecret, false, t[i..]) == Some(Span(keep - i, end - i))
  {
    hide IsValue, BeginsField, RegexMatch, Scan;
    assert t[i..][keep - i..] == t[keep..];
    FieldMatchIs(false, t[i..], keep - i, end - i);
    ScanIsRegexMatch(JsonSecret, false, t[i..]);
  }
}
