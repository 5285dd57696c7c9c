/** A pass does not undo what it and the passes before it achieved, position by position: this covers the
    patterns other than the JSON one. */
module RedactKeeps {
  import opened Options
  import opened Regex
  import opened RegexLaws
  import opened Redact
  import opened RedactScanner
  import opened RedactPasses

  /** Two texts that agree up to n, where the run has ended in both or before. */
  lemma {:induction false} RunShared(k: Class, x: string, y: string, n: nat)
    requires n < |x| && n < |y| && x[..n] == y[..n] && !In(k, y[n])
    requires Run(k, y) < n || !In(k, x[n])
    ensures Run(k, x) == Run(k, y) <= n
    decreases n
  {
    hide In;
    if n > 0 {
      assert x[0] == x[..n][0] == y[..n][0] == y[0];
      if In(k, x[0]) {
        assert x[1..][..n - 1] == x[..n][1..] == y[1..][..n - 1];
        RunShared(k, x[1..], y[1..], n - 1);
      }
    }
  }

  lemma RunStops(k: Class, y: string, n: nat)
    requires n < |y| && !In(k, y[n])
    ensures Run(k, y) <= n
  {
    if n < Run(k, y) { RunAll(k, y, n); }
  }

  lemma DropShared(x: string, y: string, n: nat, j: nat)
    requires n <= |x| && n <= |y| && x[..n] == y[..n] && j <= n
    ensures x[j..][..n - j] == y[j..][..n - j]
  {
    assert x[j..][..n - j] == x[..n][j..];
    assert y[j..][..n - j] == y[..n][j..];
  }

  lemma SpacedShared(sep: char, x: string, y: string, n: nat)
    requires n < |x| && n < |y| && x[..n] == y[..n] && SpacedLen(sep, y).Some?
    requires !IsSpace(y[n]) && y[n] != sep
    requires SpacedLen(sep, y).value < n || !IsSpace(x[n])
    ensures SpacedLen(sep, x) == SpacedLen(sep, y) && SpacedLen(sep, y).value <= n
  {
    hide IsSpace, Run;
    var r := Run(Space, y);
    RunStops(Space, y, n);
    RunShared(Space, x, y, n);
    assert x[r] == x[..n][r] == y[..n][r] == y[r];
    RunSharedFrom(x, y, n, r + 1);
  }

  /** The spaces from position j on are the same in both texts. */
  lemma RunSharedFrom(x: string, y: string, n: nat, j: nat)
    requires j <= n < |x| && n < |y| && x[..n] == y[..n] && !IsSpace(y[n])
    requires j + Run(Space, y[j..]) < n || !IsSpace(x[n])
    ensures Run(Space, x[j..]) == Run(Space, y[j..]) <= n - j
  {
    hide IsSpace, Run;
    DropShared(x, y, n, j);
    assert x[j..][n - j] == x[n] && y[j..][n - j] == y[n];
    RunStops(Space, y[j..], n - j);
    RunShared(Space, x[j..], y[j..], n - j);
  }

  lemma KeyNameShared(x: string, y: string, n: nat)
    requires n < |x| && n < |y| && x[..n] == y[..n] && KeyNameLen(y) > 0
    requires y[n] == '[' || y[n] == '"'
    ensures KeyNameLen(x) == KeyNameLen(y) < n + 1
  {
    forall i | 0 <= i < n ensures x[i] == y[i] { assert x[..n][i] == y[..n][i]; }
    assert Spells("PrivateKey", y) ==> n >= 10;
    assert Spells("PresharedKey", y) ==> n >= 12;
    assert KeyNameLen(y) == 12 ==> x[2] == 'e';
  }

  lemma SpacedBound(sep: char, y: string, n: nat)
    requires n < |y| && SpacedLen(sep, y).Some? && !IsSpace(y[n]) && y[n] != sep
    ensures SpacedLen(sep, y).value <= n
  {
    var r := Run(Space, y);
    RunStops(Space, y, n);
    assert y[r + 1..][n - r - 1] == y[n];
    RunStops(Space, y[r + 1..], n - r - 1);
  }

  lemma KeyKeptShared(x: string, y: string, n: nat)
    requires n < |x| && n < |y| && x[..n] == y[..n] && (y[n] == '[' || y[n] == '"')
    requires KeyKeptLen(y).Some? && KeyKeptLen(y).value < |y| && In(Key, y[KeyKeptLen(y).value])
    ensures KeyKeptLen(x) == KeyKeptLen(y) && KeyKeptLen(y).value < n
  {
    hide KeyNameLen, SpacedLen;
    KeyNameShared(x, y, n);
    var l, j := KeyNameLen(y), KeyKeptLen(y).value;
    assert y[l..][n - l] == y[n];
    SpacedBound('=', y[l..], n - l);
    DropShared(x, y, n, l);
    SpacedShared('=', x[l..], y[l..], n - l);
  }

  /** A key assignment in the rewritten text was there before. */
  lemma WireGuardKeyHead(q: Pattern, w: bool, x: string, y: string, n: nat)
    requires Diverges(q, w, x, y, n) && Scan(WireGuardKey, w, y).Some?
    ensures Scan(WireGuardKey, w, x).Some?
  {
    hide CutAt, KeyKeptLen;
    if n < |x| {
      var j := KeyKeptLen(y).value;
      assert y[j..][0] == y[j];
      KeyKeptShared(x, y, n);
      assert x[..n][j] == y[..n][j];
      assert x[j..][0] == x[j];
    }
  }

  predicate UuidRune(c: char) { In(Hex, c) || c == '-' }

  // Passwords.

  /** The name of a password assignment is never part of a marker. */
  lemma PasswordNameKept(q: Pattern, w: bool, x: string, y: string, n: nat)
    requires Diverges(q, w, x, y, n) && n < |x| && SpellsCaseless("password=", y)
    ensures n >= 9 && SpellsCaseless("password=", x)
  {
    hide CutAt;
    assert y[n] == '[' || y[n] == '"';
    forall i | 0 <= i < n ensures x[i] == y[i] { assert x[..n][i] == y[..n][i]; }
    assert n < 9 ==> Folds("password="[n], y[n]);
    assert n >= 9 ==> forall i | 0 <= i < 9 :: Folds("password="[i], x[i]);
  }

  /** Behind the name the value of a masked password is the marker, and the texts agree up to its end. */
  lemma PasswordValueKept(q: Pattern, w: bool, x: string, y: string, n: nat)
    requires Diverges(q, w, x, y, n) && !q.WireGuardKey? && 9 <= n < |x|
    requires if q.Password? then Scan(Password, w, x).None? else Masked(Password, w, x)
    requires !w && SpellsCaseless("password=", x) && |y| > 9 && In(NotDelimiter, y[9])
    ensures n >= 20 && x[9..19] == MARKER && !In(NotDelimiter, x[19])
  {
    PasswordCut(q, w, x, y, n);
    hide CutAt, SpellsCaseless;
    assert x[9..][0] == x[9];
    assert Scan(Password, w, x) == SpanOf(9, Run(NotDelimiter, x[9..]));
    MarkedPassword(q, w, x, n);
  }

  /** A password assignment in the rewritten text keeps the marker if it had the marker, or had none. */
  lemma PasswordHead(q: Pattern, w: bool, x: string, y: string, n: nat)
    requires Diverges(q, w, x, y, n) && !q.WireGuardKey?
    requires if q.Password? then Scan(Password, w, x).None? else Masked(Password, w, x)
    ensures Masked(Password, w, y)
  {
    hide CutAt, SpellsCaseless;
    if Scan(Password, w, y).Some? && n < |x| {
      PasswordNameKept(q, w, x, y, n);
      assert y[9..][0] == y[9];
      PasswordValueKept(q, w, x, y, n);
      assert x[..20] == x[..n][..20] == y[..n][..20] == y[..20];
      PasswordRun(x, y);
    }
  }

  lemma PasswordCut(q: Pattern, w: bool, x: string, y: string, n: nat)
    requires Diverges(q, w, x, y, n) && !q.WireGuardKey? && 9 <= n < |x|
    requires SpellsCaseless("password=", x) && In(NotDelimiter, y[9])
    ensures In(NotDelimiter, x[9])
  {
    assert Folds('=', x[8]);
    assert n > 9 ==> x[..n][9] == y[..n][9];
    assert q.Uuid? && n == 9 ==> In(Hex, x[9..][0]);
  }

  /** No secret starts within a masked password. */
  lemma MarkedPassword(q: Pattern, w: bool, x: string, n: nat)
    requires 9 <= n < |x| && (q.JsonSecret? || q.Uuid?) && CutAt(q, w, x, n)
    requires Scan(Password, w, x) == SpanOf(9, Run(NotDelimiter, x[9..])) && Scan(Password, w, x).Some?
    requires SpellsCaseless("password=", x) && Masked(Password, w, x)
    ensures Run(NotDelimiter, x[9..]) == 10 && x[9..19] == MARKER
    ensures n >= 20 && !In(NotDelimiter, x[19])
  {
    assert x[9..9 + Run(NotDelimiter, x[9..])] == MARKER;
    assert |MARKER| == 10;
    assert Folds('=', x[8]);
    forall i | 9 <= i < 19 ensures x[i] == MARKER[i - 9] { assert x[9..19][i - 9] == x[i]; }
    if q.Uuid? {
      forall j | n <= j < n + 36 ensures j < |x| && UuidRune(x[j]) { assert x[n..][j - n] == x[j]; }
      assert x[18] == MARKER[9] == ']';
    }
    assert x[9..][10] == x[19];
  }

  lemma PasswordRun(x: string, y: string)
    requires |x| >= 20 && |y| >= 20 && x[..20] == y[..20] && x[9..19] == MARKER && !In(NotDelimiter, x[19])
    requires SpellsCaseless("password=", y)
    ensures Masked(Password, false, y) && Masked(Password, true, y)
  {
    assert y[9..19] == y[..20][9..19] == x[..20][9..19] == MARKER;
    assert y[19] == y[..20][19] == x[19];
    forall i | 0 <= i < 10 ensures In(NotDelimiter, y[9..][i]) { assert y[9..][i] == y[9..19][i] == MARKER[i]; }
    assert y[9..][10] == y[19];
    RunExact(NotDelimiter, y[9..], 10);
  }

  lemma {:induction false} RunExact(k: Class, s: string, n: nat)
    requires n <= |s| && (forall i | 0 <= i < n :: In(k, s[i])) && (n == |s| || !In(k, s[n]))
    ensures Run(k, s) == n
    decreases n
  {
    hide In;
    if n > 0 {
      assert n == |s| || s[1..][n - 1] == s[n];
      RunExact(k, s[1..], n - 1);
    }
  }

  // UUIDs.

  lemma UuidHead(w: bool, x: string, y: string, n: nat)
    requires Diverges(Uuid, w, x, y, n) && Scan(Uuid, w, y).Some?
    ensures Scan(Uuid, w, x).Some?
  {
    if n < |x| {
      assert forall i | 0 <= i < 36 :: UuidRune(y[i]);
      assert !UuidRune(y[n]);
      assert n >= 36;
      forall i | 0 <= i < n ensures x[i] == y[i] { assert x[..n][i] == y[..n][i]; }
      assert In(Hex, x[35]);
      assert IsWord(x[35]);
    }
  }

  // Whole texts.

  /** Pass q preserves what pattern p is masked to: p is the pattern of q or of an earlier pass. */
  predicate Keeps(p: Pattern, q: Pattern) {
    match p
    case WireGuardKey => true
    case Password => !q.WireGuardKey?
    case JsonSecret => false
    case Uuid => q.Uuid?
  }

  lemma KeysAreNeverMarkers(w: bool, s: string)
    requires Scan(WireGuardKey, w, s).Some?
    ensures !Masked(WireGuardKey, w, s)
  {
    hide KeyKeptLen;
    var m := Scan(WireGuardKey, w, s).value;
    assert In(Key, s[m.keep..][0]);
    assert s[m.keep..m.end][0] == s[m.keep] != MARKER[0];
  }

  lemma KeyWasThere(own: bool, w: bool, x: string, y: string)
    requires Scan(WireGuardKey, w, x).Some?
    ensures !own && Masked(WireGuardKey, w, x) ==> Masked(WireGuardKey, w, y)
  {
    hide Scan, Masked;
    KeysAreNeverMarkers(w, x);
  }

  lemma HeadKept(p: Pattern, q: Pattern, w: bool, x: string, y: string, n: nat)
    requires Keeps(p, q) && Diverges(q, w, x, y, n)
    requires if p == q then Scan(p, w, x).None? else Masked(p, w, x)
    ensures Masked(p, w, y)
  {
    hide Diverges, Scan;
    match p
    case WireGuardKey =>
      if Scan(p, w, y).Some? { WireGuardKeyHead(q, w, x, y, n); KeyWasThere(p == q, w, x, y); }
    case Password => PasswordHead(q, w, x, y, n);
    case Uuid => if Scan(p, w, y).Some? { UuidHead(w, x, y, n); }
  }

  /** No match starts within a marker. */
  lemma {:induction false} EverywhereMarker(p: Pattern, q: Pattern, u: bool, z: string, i: nat)
    requires !p.JsonSecret? && i <= |Inserted(q)| && Everywhere(p, false, z)
    ensures i < |Inserted(q)| || !u ==> Everywhere(p, u, Inserted(q)[i..] + z)
    decreases |Inserted(q)| - i
  {
    hide Scan;
    var text := Inserted(q);
    var y := text[i..] + z;
    if i == |text| {
      assert y == z;
    } else {
      NoMatchInMarker(p, q, u, z, i);
      assert y[0] == text[i] && y[1..] == text[i + 1..] + z;
      assert i + 1 == |text| ==> !IsWord(text[i]);
      EverywhereMarker(p, q, IsWord(text[i]), z, i + 1);
    }
  }

  lemma NoMatchInMarker(p: Pattern, q: Pattern, u: bool, z: string, i: nat)
    requires !p.JsonSecret? && i < |Inserted(q)|
    ensures Scan(p, u, Inserted(q)[i..] + z).None?
  {
    hide Scan;
    var text := Inserted(q);
    var y := text[i..] + z;
    assert y[0] == text[i];
    if p.Uuid? {
      var j := |text| - 1 - i;
      assert y[j] == text[|text| - 1];
      assert !UuidRune(y[j]);
      NoUuidAcross(u, y, j);
    } else {
      MatchStart(p, u, y);
    }
  }

  lemma NoUuidAcross(u: bool, y: string, j: nat)
    requires j < |y| && j < 36 && !UuidRune(y[j])
    ensures Scan(Uuid, u, y).None?
  {
    hide In;
  }

  /** What follows a replaced password does not continue it. */
  predicate NoValueFirst(q: Pattern, z: string) { q.Password? ==> z == [] || !In(NotDelimiter, z[0]) }

  /** The kept prefix of a match of q holds no unmasked match of p. */
  lemma {:induction false} EverywhereKept(p: Pattern, q: Pattern, w: bool, s: string, z: string, m: Span, k: nat)
    requires Keeps(p, q) && Scan(q, w, s) == Some(m) && k <= m.keep
    requires p == q || Everywhere(p, w, s)
    requires Everywhere(p, false, z) && NoValueFirst(q, z)
    ensures Everywhere(p, After(w, s, k), (s[..m.keep] + Inserted(q) + z)[k..])
    decreases m.keep - k
  {
    hide Scan, Masked, Keeps, NoValueFirst, IsWord, Everywhere, Inserted;
    var out := s[..m.keep] + Inserted(q) + z;
    if k == m.keep {
      NotJson(p, q);
      assert out[k..] == Inserted(q)[0..] + z;
      EverywhereMarker(p, q, After(w, s, k), z, 0);
    } else {
      assert out[k] == s[k];
      EverywhereKept(p, q, w, s, z, m, k + 1);
      KeptMasked(p, q, w, s, z, m, k);
      EverywhereOneMore(p, After(w, s, k), out, k);
    }
  }

  lemma NotJson(p: Pattern, q: Pattern)
    requires Keeps(p, q)
    ensures !p.JsonSecret? && 0 < |Inserted(q)|
  {}

  lemma EverywhereOneMore(p: Pattern, w: bool, out: string, k: nat)
    requires k < |out| && Masked(p, w, out[k..]) && Everywhere(p, IsWord(out[k]), out[k + 1..])
    ensures Everywhere(p, w, out[k..])
  {
    hide Masked;
    assert out[k..][1..] == out[k + 1..];
  }

  lemma KeptMasked(p: Pattern, q: Pattern, w: bool, s: string, z: string, m: Span, k: nat)
    requires Keeps(p, q) && Scan(q, w, s) == Some(m) && k < m.keep
    requires p == q || Everywhere(p, w, s)
    requires NoValueFirst(q, z)
    ensures Masked(p, After(w, s, k), (s[..m.keep] + Inserted(q) + z)[k..])
  {
    hide Scan, Masked, Everywhere;
    if p == q {
      OwnPrefixMasked(p, w, s, z, m, k);
    } else {
      OtherPrefixMasked(p, q, w, s, s[..m.keep] + Inserted(q) + z, m, k);
    }
  }

  lemma OtherPrefixMasked(p: Pattern, q: Pattern, w: bool, s: string, out: string, m: Span, k: nat)
    requires Keeps(p, q) && Scan(q, w, s) == Some(m) && k < m.keep
    requires p != q && Everywhere(p, w, s)
    requires m.keep < |out| && out[..m.keep] == s[..m.keep] && out[m.keep] == Inserted(q)[0]
    ensures Masked(p, After(w, s, k), out[k..])
  {
    hide Scan, Masked, CutAt, Diverges;
    EverywhereAt(p, w, s, k);
    MatchCut(q, w, s);
    KeptDiverges(q, w, s, out, m.keep, k);
    HeadKept(p, q, After(w, s, k), s[k..], out[k..], m.keep - k);
  }

  lemma KeptDiverges(q: Pattern, w: bool, s: string, out: string, n: nat, k: nat)
    requires k < n < |s| && n < |out| && out[..n] == s[..n] && out[n] == Inserted(q)[0] && CutAt(q, w, s, n)
    ensures Diverges(q, After(w, s, k), s[k..], out[k..], n - k)
  {
    hide IsUuid, In;
    DropShared(s, out, n, k);
    AfterAfter(k, n - k, w, s);
  }

  /** The kept prefix of a match, now followed by the marker, is masked for its own pattern. */
  lemma OwnPrefixMasked(p: Pattern, w: bool, s: string, z: string, m: Span, k: nat)
    requires Scan(p, w, s) == Some(m) && k < m.keep && !p.JsonSecret?
    requires NoValueFirst(p, z)
    ensures Masked(p, After(w, s, k), (s[..m.keep] + MARKER + z)[k..])
  {
    if p.Password? {
      OwnPasswordPrefix(w, s, z, m, k);
    } else if p.WireGuardKey? {
      OwnKeyPrefix(w, s, z, m, k);
    }
  }

  lemma OwnPasswordPrefix(w: bool, s: string, z: string, m: Span, k: nat)
    requires Scan(Password, w, s) == Some(m) && k < m.keep
    requires z == [] || !In(NotDelimiter, z[0])
    ensures Masked(Password, After(w, s, k), (s[..m.keep] + MARKER + z)[k..])
  {
    var out := s[..m.keep] + MARKER + z;
    assert out[k..][0] == s[k];
    if k == 0 {
      assert out[0..] == out;
      MarkedIsMasked(w, s[..9], z);
    } else {
      assert Folds("password="[k], s[k]);
      MatchStart(Password, After(w, s, k), out[k..]);
    }
  }

  lemma MarkedIsMasked(w: bool, name: string, z: string)
    requires |name| == 9 && (z == [] || !In(NotDelimiter, z[0]))
    ensures Masked(Password, w, name + MARKER + z)
  {
    hide SpellsCaseless, In;
    var out := name + MARKER + z;
    assert out[9..] == MARKER + z && out[9..19] == MARKER;
    forall i | 0 <= i < 10 ensures In(NotDelimiter, out[9..][i]) {
      MarkerIsNoDelimiter(i);
      assert out[9..][i] == MARKER[i];
    }
    RunExact(NotDelimiter, out[9..], 10);
  }

  lemma MarkerIsNoDelimiter(i: nat)
    requires i < 10
    ensures In(NotDelimiter, MARKER[i])
  {}

  lemma SpacedRunes(sep: char, s: string, i: nat)
    requires SpacedLen(sep, s).Some? && i < SpacedLen(sep, s).value
    ensures s[i] == sep || IsSpace(s[i])
  {
    hide IsSpace;
    var r := Run(Space, s);
    if i < r {
      RunAll(Space, s, i);
    } else if i > r {
      RunAll(Space, s[r + 1..], i - r - 1);
      assert s[i] == s[r + 1..][i - r - 1];
    }
  }

  /** Past its first letter a key prefix holds no letter with which a key name starts. */
  lemma KeyPrefixRunes(s: string, k: nat)
    requires KeyKeptLen(s).Some? && 0 < k < KeyKeptLen(s).value
    ensures s[k] != 'P'
  {
    hide SpacedLen, Run;
    var n := KeyNameLen(s);
    if k >= n {
      SpacedRunes('=', s[n..], k - n);
      assert s[k] == s[n..][k - n];
    } else {
      KeyNameRunes(s, k);
    }
  }

  lemma KeyNameRunes(s: string, k: nat)
    requires 0 < k < KeyNameLen(s)
    ensures s[k] != 'P'
  {
    assert "PrivateKey"[0] == 'P';
  }

  lemma OwnKeyPrefix(w: bool, s: string, z: string, m: Span, k: nat)
    requires Scan(WireGuardKey, w, s) == Some(m) && k < m.keep
    ensures Scan(WireGuardKey, After(w, s, k), (s[..m.keep] + MARKER + z)[k..]).None?
  {
    hide KeyKeptLen, Run;
    var out := s[..m.keep] + MARKER + z;
    assert out[k..][0] == s[k];
    if k > 0 {
      KeyPrefixRunes(s, k);
      MatchStart(WireGuardKey, After(w, s, k), out[k..]);
    } else {
      assert out[0..] == out;
      OwnKeyFront(s, out, m.keep);
    }
  }

  lemma OwnKeyFront(s: string, out: string, n: nat)
    requires KeyKeptLen(s) == Some(n) && n < |s| && n < |out| && out[..n] == s[..n] && out[n] == '['
    ensures KeyKeptLen(out).Some? ==> Run(Key, out[KeyKeptLen(out).value..]) == 0
  {
    if KeyKeptLen(out).Some? {
      var j := KeyKeptLen(out).value;
      var r := Run(Key, out[j..]);
      KeyKeptOrNone(s, out, n);
      assert j < |out| ==> out[j..][0] == out[j];
    }
  }

  lemma KeyKeptOrNone(s: string, out: string, n: nat)
    requires KeyKeptLen(s) == Some(n) && n < |s| && n < |out| && out[..n] == s[..n] && out[n] == '['
    requires KeyKeptLen(out).Some?
    ensures var j := KeyKeptLen(out).value; j == |out| || !In(Key, out[j])
  {
    hide KeyKeptLen;
    var j := KeyKeptLen(out).value;
    if j < |out| && In(Key, out[j]) {
      KeyKeptShared(s, out, n);
      assert false;
    }
  }

  /** Everything pattern p was masked to stays masked under pass q, and pass q masks its own pattern. */
  lemma {:induction false} PassKeeps(p: Pattern, q: Pattern, w: bool, s: string)
    requires Keeps(p, q) && (p == q || Everywhere(p, w, s))
    ensures Everywhere(p, w, Replace(q, w, s))
    decreases |s|
  {
    hide Scan, Masked;
    if s == [] {
      EmptyMasked(p, w);
    } else {
      match Scan(q, w, s)
      case Some(m) =>
        var rest := s[m.end..];
        MatchRest(p, q, w, s, m);
        PassKeeps(p, q, false, rest);
        var z := Replace(q, false, rest);
        DelimiterStays(q, w, s, m);
        EverywhereKept(p, q, w, s, z, m, 0);
        assert (s[..m.keep] + Inserted(q) + z)[0..] == s[..m.keep] + Inserted(q) + z;
      case None =>
        var z := Replace(q, IsWord(s[0]), s[1..]);
        PassKeeps(p, q, IsWord(s[0]), s[1..]);
        ReplaceDiverges(q, w, s);
        HeadKept(p, q, w, s, s[..1] + z, Shared(q, w, s));
        assert (s[..1] + z)[1..] == z;
    }
  }

  lemma EmptyMasked(p: Pattern, w: bool)
    ensures Masked(p, w, [])
  {
    MatchStart(p, w, []);
    hide Scan;
  }

  lemma MatchRest(p: Pattern, q: Pattern, w: bool, s: string, m: Span)
    requires Scan(q, w, s) == Some(m)
    ensures Replace(q, After(w, s, m.end), s[m.end..]) == Replace(q, false, s[m.end..])
    ensures Everywhere(p, w, s) ==> Everywhere(p, false, s[m.end..])
  {
    hide Scan, Masked;
    MatchEndsAtBoundary(q, w, s);
    if Everywhere(p, w, s) { EverywhereAt(p, w, s, m.end); }
    if After(w, s, m.end) {
      ContextFree(q, true, false, s[m.end..]);
      ContextFree(p, true, false, s[m.end..]);
    }
  }

  lemma DelimiterStays(q: Pattern, w: bool, s: string, m: Span)
    requires Scan(q, w, s) == Some(m)
    ensures NoValueFirst(q, Replace(q, false, s[m.end..]))
  {
    var rest := s[m.end..];
    if q.Password? && rest != [] {
      assert rest[0] == s[9..][m.end - 9];
      MatchStart(q, false, rest);
    }
  }
}
