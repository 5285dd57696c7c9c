/** The JSON pass: it reaches a fixed point, and the UUID pass after it does not leave that fixed point.
    JSON matches may overlap in their quotes, so masking is stated along the scan and not at every position. */
module RedactJson {
  import opened Options
  import opened Regex
  import opened RegexLaws
  import opened Redact
  import opened RedactScanner
  import opened RedactPasses
  import opened RedactKeeps

  /** Every match that the scan of p finds in s holds the marker already. */
  predicate Settled(p: Pattern, w: bool, s: string)
    decreases |s|
  {
    s == [] ||
    match Scan(p, w, s)
    case Some(m) => s[m.keep..m.end] == Inserted(p) && Settled(p, After(w, s, m.end), s[m.end..])
    case None => Settled(p, IsWord(s[0]), s[1..])
  }

  lemma Splice(s: string, a: nat, b: nat)
    requires a <= b <= |s|
    ensures s[..a] + s[a..b] + s[b..] == s
  {}

  lemma {:induction false} SettledIsFixed(p: Pattern, w: bool, s: string)
    requires Settled(p, w, s)
    ensures Replace(p, w, s) == s
    decreases |s|
  {
    hide Scan, Inserted, IsWord;
    if s != [] {
      match Scan(p, w, s)
      case Some(m) =>
        SettledIsFixed(p, After(w, s, m.end), s[m.end..]);
        Splice(s, m.keep, m.end);
      case None => SettledIsFixed(p, IsWord(s[0]), s[1..]);
    }
  }

  lemma {:induction false} EverywhereIsSettled(p: Pattern, w: bool, s: string)
    requires Everywhere(p, w, s)
    ensures Settled(p, w, s)
    decreases |s|
  {
    hide Scan;
    if s != [] {
      match Scan(p, w, s)
      case Some(m) =>
        EverywhereAt(p, w, s, m.end);
        EverywhereIsSettled(p, After(w, s, m.end), s[m.end..]);
      case None => EverywhereIsSettled(p, IsWord(s[0]), s[1..]);
    }
  }

  lemma JsonContext(w: bool, v: bool, s: string)
    ensures Scan(JsonSecret, w, s) == Scan(JsonSecret, v, s)
    ensures Settled(JsonSecret, w, s) == Settled(JsonSecret, v, s)
  {
    assert Scan(JsonSecret, w, s) == Scan(JsonSecret, v, s);
    hide Scan;
  }

  // Matches of the JSON pattern in a text and in its rewritten form.

  /** The runes of a field name. */
  predicate NameRune(c: char) { c != '"' && c != '[' && c != ':' && c != '-' && !IsSpace(c) }

  lemma JsonNameRune(s: string, i: nat)
    requires i < JsonNameLen(s)
    ensures NameRune(s[i])
  {
    if SpellsCaseless("privatekey", s) { FoldsToName("privatekey"[i], s[i]); }
    else if SpellsCaseless("preshared_key", s) { FoldsToName("preshared_key"[i], s[i]); }
    else if SpellsCaseless("secret", s) { FoldsToName("secret"[i], s[i]); }
    else if SpellsCaseless("password", s) { FoldsToName("password"[i], s[i]); }
    else if SpellsCaseless("uuid", s) { FoldsToName("uuid"[i], s[i]); }
  }

  lemma FoldsToName(lower: char, c: char)
    requires Folds(lower, c) && ('a' <= lower <= 'z' || lower == '_')
    ensures NameRune(c)
  {}

  lemma JsonNameShared(x: string, y: string, n: nat)
    requires n <= |x| && n <= |y| && x[..n] == y[..n] && 0 < JsonNameLen(y) <= n
    ensures JsonNameLen(x) == JsonNameLen(y)
  {
    forall name: string | SpellsCaseless(name, y) && |name| <= n ensures SpellsCaseless(name, x) {
      forall i | 0 <= i < |name| ensures Folds(name[i], x[i]) { assert x[..n][i] == y[..n][i]; }
    }
    hide SpellsCaseless;
    JsonNameEnds(false, x);
    JsonNameUnique(x);
  }

  /** No two field names stand at the front of the same text. */
  lemma JsonNameUnique(s: string)
    ensures SpellsCaseless("privatekey", s) ==> JsonNameLen(s) == 10
    ensures SpellsCaseless("preshared_key", s) ==> JsonNameLen(s) == 13
    ensures SpellsCaseless("secret", s) ==> JsonNameLen(s) == 6
    ensures SpellsCaseless("password", s) ==> JsonNameLen(s) == 8
    ensures SpellsCaseless("uuid", s) ==> JsonNameLen(s) == 4
  {
    assert SpellsCaseless("privatekey", s) ==> Folds('p', s[0]) && Folds('r', s[1]) && Folds('i', s[2]);
    assert SpellsCaseless("preshared_key", s) ==> Folds('p', s[0]) && Folds('r', s[1]) && Folds('e', s[2]);
    assert SpellsCaseless("secret", s) ==> Folds('s', s[0]);
    assert SpellsCaseless("password", s) ==> Folds('p', s[0]) && Folds('a', s[1]);
    assert SpellsCaseless("uuid", s) ==> Folds('u', s[0]);
  }

  /** y agrees with x up to n, where y has a marker and x the secret that the marker replaces. */
  predicate MarkedFrom(x: string, y: string, n: nat) {
    && n < |x| && n < |y| && x[..n] == y[..n] && In(Bare, x[n])
    && (y[n] == '[' || (y[n] == '"' && n > 0 && (x[n - 1] == ':' || IsSpace(x[n - 1]))))
  }

  lemma JsonNameWithin(x: string, y: string, n: nat)
    requires MarkedFrom(x, y, n) && JsonKeptLen(y).Some?
    ensures JsonNameLen(y[1..]) + 2 <= n && JsonNameLen(x[1..]) == JsonNameLen(y[1..])
    ensures StartsWithQuote(x) && StartsWithQuote(x[JsonNameLen(y[1..]) + 1..])
  {
    hide JsonNameLen, SpacedLen, In, IsSpace;
    var l := JsonNameLen(y[1..]);
    forall i | 1 <= i <= l ensures NameRune(y[i]) { JsonNameRune(y[1..], i - 1); assert y[i] == y[1..][i - 1]; }
    assert y[l + 1] == y[l + 1..][0] == '"';
    assert n > 0;
    assert !NameRune(y[n]);
    assert n > l;
    assert x[n - 1] == x[..n][n - 1] == y[..n][n - 1] == y[n - 1];
    assert n != l + 1;
    assert x[..n][0] == y[..n][0] && x[..n][l + 1] == y[..n][l + 1];
    DropShared(x, y, n, 1);
    JsonNameShared(x[1..], y[1..], n - 1);
  }

  lemma JsonKeptShared(x: string, y: string, n: nat)
    requires MarkedFrom(x, y, n) && JsonKeptLen(y).Some?
    ensures JsonKeptLen(x) == JsonKeptLen(y) && JsonKeptLen(y).value <= n
  {
    hide JsonNameLen, SpacedLen;
    JsonNameWithin(x, y, n);
    var l := JsonNameLen(y[1..]) + 2;
    assert y[l..][n - l] == y[n] && x[l..][n - l] == x[n];
    SpacedBound(':', y[l..], n - l);
    DropShared(x, y, n, l);
    SpacedShared(':', x[l..], y[l..], n - l);
  }

  /** A JSON match in the rewritten text was there before. */
  lemma JsonHead(q: Pattern, w: bool, x: string, y: string, n: nat)
    requires Diverges(q, w, x, y, n) && (q.JsonSecret? || q.Uuid?) && Scan(JsonSecret, w, y).Some?
    ensures Scan(JsonSecret, w, x).Some?
  {
    hide JsonKeptLen, SpacedLen;
    if n < |x| {
      HexIsBare(q, w, x, n);
      JsonKeptShared(x, y, n);
      var j := JsonKeptLen(y).value;
      assert j < n ==> x[..n][j] == y[..n][j];
      assert y[j..][0] == y[j] && x[j..][0] == x[j];
    }
  }

  lemma HexIsBare(q: Pattern, w: bool, x: string, n: nat)
    requires n < |x| && CutAt(q, w, x, n) && (q.JsonSecret? || q.Uuid?)
    ensures In(Bare, x[n])
  {
    assert q.Uuid? ==> In(Hex, x[n..][0]);
  }

  // A match whose value has become the marker.

  lemma SpacedForward(sep: char, x: string, y: string, n: nat)
    requires n < |x| && n < |y| && x[..n] == y[..n] && SpacedLen(sep, y) == Some(n)
    requires !IsSpace(y[n]) && !IsSpace(x[n])
    ensures SpacedLen(sep, x) == Some(n)
  {
    hide IsSpace;
    var r := Run(Space, y);
    RunShared(Space, x, y, n);
    assert x[..n][r] == y[..n][r];
    DropShared(x, y, n, r + 1);
    RunShared(Space, x[r + 1..], y[r + 1..], n - r - 1);
  }

  lemma JsonKeptForward(s: string, out: string, n: nat)
    requires JsonKeptLen(s) == Some(n) && n < |s| && n < |out| && out[..n] == s[..n]
    requires !IsSpace(s[n]) && !IsSpace(out[n])
    ensures JsonKeptLen(out) == Some(n)
  {
    hide JsonNameLen, SpacedLen, IsSpace;
    var l := JsonNameLen(s[1..]);
    DropShared(out, s, n, 1);
    JsonNameShared(out[1..], s[1..], n - 1);
    assert out[..n][0] == s[..n][0] && out[..n][l + 1] == s[..n][l + 1];
    assert s[l + 1..][0] == s[l + 1] && out[l + 1..][0] == out[l + 1];
    DropShared(out, s, n, l + 2);
    assert s[l + 2..][n - l - 2] == s[n] && out[l + 2..][n - l - 2] == out[n];
    SpacedForward(':', out[l + 2..], s[l + 2..], n - l - 2);
  }

  lemma QuotedMarkerLen(z: string)
    ensures JsonValueLen(QUOTED_MARKER + z) == 12
  {
    hide In, Run;
    var y := QUOTED_MARKER + z;
    assert y[1..] == MARKER + (['"'] + z);
    forall i | 0 <= i < 10 ensures In(Plain, y[1..][i]) { MarkerIsPlain(i); assert y[1..][i] == MARKER[i]; }
    QuoteIsNotPlain();
    RunExact(Plain, y[1..], 10);
    assert y[11..] == ['"'] + z;
  }

  lemma MarkerIsPlain(i: nat)
    requires i < 10
    ensures In(Plain, MARKER[i])
  {}

  lemma QuoteIsNotPlain()
    ensures !In(Plain, '"')
  {}

  /** A prefix that was matched, followed by the quoted marker, is matched again up to the end of the marker. */
  lemma JsonMarked(v: bool, w: bool, s: string, z: string, m: Span)
    requires Scan(JsonSecret, w, s) == Some(m)
    ensures Scan(JsonSecret, v, s[..m.keep] + QUOTED_MARKER + z) == Some(Span(m.keep, m.keep + 12))
  {
    hide JsonKeptLen;
    var n, out := m.keep, s[..m.keep] + QUOTED_MARKER + z;
    assert s[n..][0] == s[n];
    assert out[n..] == QUOTED_MARKER + z;
    assert In(Bare, s[n]);
    hide JsonValueLen;
    JsonKeptForward(s, out, n);
    QuotedMarkerLen(z);
  }

  lemma SettledMarked(v: bool, w: bool, s: string, z: string, m: Span)
    requires Scan(JsonSecret, w, s) == Some(m) && Settled(JsonSecret, false, z)
    ensures Settled(JsonSecret, v, s[..m.keep] + QUOTED_MARKER + z)
  {
    hide Scan;
    var n, out := m.keep, s[..m.keep] + QUOTED_MARKER + z;
    JsonMarked(v, w, s, z, m);
    assert out[n..n + 12] == QUOTED_MARKER;
    assert out[n + 12..] == z;
    JsonContext(After(v, out, n + 12), false, z);
  }

  /** The JSON pass masks every match that a scan of its output finds. */
  lemma {:induction false} JsonPassSettles(w: bool, s: string)
    ensures Settled(JsonSecret, w, Replace(JsonSecret, w, s))
    decreases |s|
  {
    hide Scan;
    if s != [] {
      match Scan(JsonSecret, w, s)
      case Some(m) =>
        var rest := s[m.end..];
        var z := Replace(JsonSecret, After(w, s, m.end), rest);
        JsonPassSettles(After(w, s, m.end), rest);
        JsonContext(After(w, s, m.end), false, z);
        SettledMarked(w, w, s, z, m);
      case None =>
        var z := Replace(JsonSecret, IsWord(s[0]), s[1..]);
        var out := s[..1] + z;
        JsonPassSettles(IsWord(s[0]), s[1..]);
        assert Scan(JsonSecret, w, out).None? by { NewJsonHead(JsonSecret, w, s, out); }
        assert out[1..] == z && out[0] == s[0];
    }
  }

  lemma NewJsonHead(q: Pattern, w: bool, s: string, out: string)
    requires (q.JsonSecret? || q.Uuid?) && Scan(JsonSecret, w, s).None? && out == Replace(q, w, s)
    ensures Scan(JsonSecret, w, out).None?
  {
    hide Scan, Diverges;
    if Scan(JsonSecret, w, out).Some? {
      ReplaceDiverges(q, w, s);
      JsonHead(q, w, s, out, Shared(q, w, s));
      assert false;
    }
  }

  // The UUID pass after it.

  lemma JsonKeptRunes(s: string, i: nat)
    requires JsonKeptLen(s).Some? && i < JsonKeptLen(s).value
    ensures s[i] != '-'
  {
    hide JsonNameLen, SpacedLen;
    var l := JsonNameLen(s[1..]);
    if 1 <= i <= l {
      JsonNameRune(s[1..], i - 1);
      assert s[i] == s[1..][i - 1];
    } else if i > l + 1 {
      SpacedRunes(':', s[l + 2..], i - l - 2);
      assert s[i] == s[l + 2..][i - l - 2];
    } else {
      assert s[l + 1] == s[l + 1..][0];
    }
  }

  lemma UuidRunesAt(s: string, k: nat)
    requires k <= |s|
    ensures IsUuid(s[k..]) ==> k + 36 <= |s| && s[k + 8] == '-' && forall i | k <= i < k + 36 :: UuidRune(s[i])
  {
    if IsUuid(s[k..]) {
      forall i | k <= i < k + 36 ensures UuidRune(s[i]) { assert s[k..][i - k] == s[i]; }
    }
  }

  /** No UUID starts within a masked JSON match: it would hold a dash there or run over the closing quote. */
  lemma NoUuidInMatch(w: bool, s: string, m: Span, k: nat)
    requires Scan(JsonSecret, w, s) == Some(m) && s[m.keep..m.end] == QUOTED_MARKER && k < m.end
    ensures !IsUuid(s[k..])
  {
    hide JsonKeptLen, JsonValueLen;
    forall i | 0 <= i < m.end ensures s[i] != '-' {
      if i < m.keep { JsonKeptRunes(s, i); } else { assert s[i] == s[m.keep..m.end][i - m.keep]; }
    }
    assert s[m.end - 1] == s[m.keep..m.end][11] == '"';
    UuidRunesAt(s, k);
    hide IsUuid;
    assert !UuidRune(s[m.end - 1]);
  }

  lemma {:induction false} UuidPassSkips(w: bool, s: string, n: nat)
    requires n <= |s| && forall k | 0 <= k < n :: !IsUuid(s[k..])
    ensures Replace(Uuid, w, s) == s[..n] + Replace(Uuid, After(w, s, n), s[n..])
    decreases n
  {
    hide IsUuid, Replace, IsWord;
    if n == 0 {
      assert s[0..] == s;
    } else {
      var t := s[1..];
      UuidPassStep(w, s);
      forall k | 0 <= k < n - 1 ensures !IsUuid(t[k..]) { assert t[k..] == s[k + 1..]; }
      UuidPassSkips(After(w, s, 1), t, n - 1);
      AfterAfter(1, n - 1, w, s);
      assert s[..n] == s[..1] + t[..n - 1];
    }
  }

  lemma UuidPassStep(w: bool, s: string)
    requires s != [] && !IsUuid(s[0..])
    ensures Replace(Uuid, w, s) == s[..1] + Replace(Uuid, After(w, s, 1), s[1..])
  {
    hide IsUuid;
    assert s[0..] == s;
  }

  lemma {:induction false} SettledAfter(w: bool, s: string, n: nat)
    requires Settled(JsonSecret, w, s) && n <= |s| && forall i | 0 <= i < n :: s[i] != '"'
    ensures Settled(JsonSecret, false, s[n..])
    decreases n
  {
    hide Scan;
    JsonContext(w, false, s);
    if n == 0 {
      assert s[0..] == s;
    } else {
      MatchStart(JsonSecret, w, s);
      SettledAfter(IsWord(s[0]), s[1..], n - 1);
      assert s[1..][n - 1..] == s[n..];
    }
  }

  lemma {:induction false} SettledBefore(w: bool, a: string, z: string)
    requires Settled(JsonSecret, false, z) && forall i | 0 <= i < |a| :: a[i] != '"'
    ensures Settled(JsonSecret, w, a + z)
    decreases |a|
  {
    hide Scan;
    if a == [] {
      assert a + z == z;
      JsonContext(w, false, z);
    } else {
      var y := a + z;
      MatchStart(JsonSecret, w, y);
      assert y[0] == a[0] && y[1..] == a[1..] + z;
      SettledBefore(IsWord(y[0]), a[1..], z);
    }
  }

  lemma {:induction false} UuidPassKeepsJson(w: bool, s: string)
    requires Settled(JsonSecret, w, s)
    ensures Settled(JsonSecret, w, Replace(Uuid, w, s))
    decreases |s|, 1
  {
    hide Scan;
    if s != [] {
      match Scan(JsonSecret, w, s)
      case Some(m) => UuidPassKeepsMatch(w, s, m);
      case None =>
        var out := Replace(Uuid, w, s);
        match Scan(Uuid, w, s)
        case Some(u) => UuidPassAtUuid(w, s, u);
        case None =>
          var z := Replace(Uuid, IsWord(s[0]), s[1..]);
          UuidPassKeepsJson(IsWord(s[0]), s[1..]);
          NewJsonHead(Uuid, w, s, out);
          assert out == s[..1] + z && out[1..] == z && out[0] == s[0];
    }
  }

  lemma {:induction false} UuidPassKeepsMatch(w: bool, s: string, m: Span)
    requires Settled(JsonSecret, w, s) && s != [] && Scan(JsonSecret, w, s) == Some(m)
    ensures Settled(JsonSecret, w, Replace(Uuid, w, s))
    decreases |s|, 0
  {
    hide Scan;
    forall k | 0 <= k < m.end ensures !IsUuid(s[k..]) { NoUuidInMatch(w, s, m, k); }
    UuidPassSkips(w, s, m.end);
    var v, rest := After(w, s, m.end), s[m.end..];
    UuidPassKeepsJson(v, rest);
    var z := Replace(Uuid, v, rest);
    JsonContext(v, false, z);
    SettledMarked(w, w, s, z, m);
    assert s[..m.end] == s[..m.keep] + QUOTED_MARKER;
  }

  lemma {:induction false} UuidPassAtUuid(w: bool, s: string, u: Span)
    requires Settled(JsonSecret, w, s) && s != [] && Scan(Uuid, w, s) == Some(u)
    ensures Settled(JsonSecret, w, Replace(Uuid, w, s))
    decreases |s|, 0
  {
    hide Scan, Settled, Replace;
    UuidNoQuotes(w, s);
    SettledAfter(w, s, 36);
    var v, rest := After(w, s, 36), s[36..];
    JsonContext(v, false, rest);
    UuidPassKeepsJson(v, rest);
    var z := Replace(Uuid, v, rest);
    JsonContext(v, false, z);
    UuidReplaced(w, s);
    SettledBefore(w, MARKER, z);
  }

  lemma UuidReplaced(w: bool, s: string)
    requires s != [] && Scan(Uuid, w, s) == Some(Span(0, 36)) && |s| >= 36
    ensures Replace(Uuid, w, s) == MARKER + Replace(Uuid, After(w, s, 36), s[36..])
  {
    hide Scan;
    assert s[..0] + MARKER == MARKER;
  }

  lemma UuidNoQuotes(w: bool, s: string)
    requires Scan(Uuid, w, s).Some?
    ensures Scan(Uuid, w, s) == Some(Span(0, 36)) && |s| >= 36 && forall i | 0 <= i < 36 :: s[i] != '"'
  {
    assert s[0..] == s;
    UuidRunesAt(s, 0);
    assert !UuidRune('"');
  }
}
