/** Deterministic scanners for the four patterns, proved to find the same match as the backtracking
    semantics of the expressions: the same kept prefix and the same end, on every text and in every context. */
module RedactScanner {
  import opened Options
  import opened Regex
  import opened RegexLaws
  import opened Redact

  /** The length of `\s*sep\s*` taken greedily. */
  function SpacedLen(sep: char, s: string): (r: Option<nat>)
    ensures r.Some? ==> 0 < r.value <= |s|
  {
    var r := Run(Space, s);
    if r < |s| && s[r] == sep then Some(r + 1 + Run(Space, s[r + 1..])) else None
  }

  /** The length of the key name at the front of s, or 0. */
  function KeyNameLen(s: string): (n: nat)
    ensures n <= |s|
  {
    if Spells("PrivateKey", s) then 10 else if Spells("PresharedKey", s) then 12 else 0
  }

  /** The length of the field name at the front of s, or 0. */
  function JsonNameLen(s: string): (n: nat)
    ensures n <= |s|
  {
    if SpellsCaseless("privatekey", s) then 10
    else if SpellsCaseless("preshared_key", s) then 13
    else if SpellsCaseless("secret", s) then 6
    else if SpellsCaseless("password", s) then 8
    else if SpellsCaseless("uuid", s) then 4
    else 0
  }

  predicate StartsWithQuote(s: string) { s != [] && s[0] == '"' }

  /** The length of a sequence of escapes, each followed by plain runes, up to and including a quote. */
  function EscapesLen(s: string): (r: Option<nat>)
    ensures r.Some? ==> 0 < r.value <= |s|
    decreases |s|
  {
    if StartsWithQuote(s) then Some(1)
    else if |s| >= 2 && s[0] == '\\' && s[1] != '\n' then
      var n := 2 + Run(Plain, s[2..]);
      match EscapesLen(s[n..])
      case Some(m) => Some(n + m)
      case None => None
    else None
  }

  /** The length of a quoted string, with its quotes. */
  function QuotedLen(s: string): (r: Option<nat>)
    ensures r.Some? ==> 1 < r.value <= |s|
  {
    if !StartsWithQuote(s) then None else
    var n := 1 + Run(Plain, s[1..]);
    match EscapesLen(s[n..])
    case Some(m) => Some(n + m)
    case None => None
  }

  /** The length of a JSON value: a quoted string if there is one, else a bare run; 0 if neither. */
  function JsonValueLen(s: string): (n: nat)
    ensures n <= |s|
    ensures n == 0 <==> s == [] || !In(Bare, s[0])
  {
    match QuotedLen(s)
    case Some(n) => n
    case None => Run(Bare, s)
  }

  /** The length of the prefix `"name"\s*:\s*`, or None. */
  function JsonKeptLen(s: string): (r: Option<nat>)
    ensures r.Some? ==> 0 < r.value <= |s|
  {
    if !StartsWithQuote(s) then None else
    var n := JsonNameLen(s[1..]);
    if n == 0 || !StartsWithQuote(s[n + 1..]) then None else
    match SpacedLen(':', s[n + 2..])
    case Some(m) => Some(n + 2 + m)
    case None => None
  }

  predicate IsDashAt(i: nat) { i == 8 || i == 13 || i == 18 || i == 23 }

  predicate IsUuid(s: string) {
    && |s| >= 36
    && (forall i | 0 <= i < 36 :: if IsDashAt(i) then s[i] == '-' else In(Hex, s[i]))
    && (|s| == 36 || !IsWord(s[36]))
  }

  /** The length of the prefix `(?:PrivateKey|PresharedKey)\s*=\s*`, or None. */
  function KeyKeptLen(s: string): (r: Option<nat>)
    ensures r.Some? ==> 0 < r.value <= |s|
  {
    var n := KeyNameLen(s);
    if n == 0 then None else
    match SpacedLen('=', s[n..])
    case Some(m) => Some(n + m)
    case None => None
  }

  function SpanOf(keep: nat, value: nat): Option<Span> {
    if value == 0 then None else Some(Span(keep, keep + value))
  }

  /** The match of p at the front of s. */
  function Scan(p: Pattern, w: bool, s: string): (r: Option<Span>)
    ensures r.Some? ==> r.value.keep < r.value.end <= |s|
  {
    match p
    case WireGuardKey =>
      if w then None else
      (match KeyKeptLen(s)
       case Some(j) => SpanOf(j, Run(Key, s[j..]))
       case None => None)
    case Password =>
      if w || !SpellsCaseless("password=", s) then None else SpanOf(9, Run(NotDelimiter, s[9..]))
    case JsonSecret =>
      (match JsonKeptLen(s)
       case Some(j) => SpanOf(j, JsonValueLen(s[j..]))
       case None => None)
    case Uuid =>
      if !w && IsUuid(s) then Some(Span(0, 36)) else None
  }

  // Agreement with the expressions.

  lemma FirstAfterNil(value: Re, w: bool, s: string)
    ensures FirstAfter(Nil, value, w, s) == None
  {}

  lemma NotAtSpace(n: nat, value: Re, w: bool, s: string)
    requires n < |s| && IsSpace(s[n]) && Rejects(value, Space)
    ensures FirstAt(n, value, w, s) == None
  {
    assert In(Space, s[n..][0]);
  }

  /** After r optional spaces the value starts past all of them, since it cannot start with a space. */
  lemma {:induction false} FirstAfterSpaces(q: nat, r: nat, value: Re, w: bool, s: string)
    requires q + r <= |s| && Rejects(value, Space)
    requires forall i | q <= i < q + r :: IsSpace(s[i])
    ensures Within(Shift(q, Down(r)), |s|)
    ensures FirstAfter(Shift(q, Down(r)), value, w, s) == FirstAt(q + r, value, w, s)
    decreases r
  {
    hide Ends, FirstAt, Rejects;
    if r > 0 {
      FirstAfterSpaces(q, r - 1, value, w, s);
      NotAtSpace(q + r - 1, value, w, s);
    }
  }

  lemma SeparatorEnds(sep: char, w: bool, s: string)
    ensures Ends(Then(One(Exactly(sep)), Star(One(Space))), w, s)
         == if s != [] && s[0] == sep then Shift(1, Down(Run(Space, s[1..]))) else Nil
  {
    OneChar(Exactly(sep), w, s);
    if s != [] && s[0] == sep {
      EndsAfterOne(1, Star(One(Space)), w, s);
      GreedyEnds(Space, After(w, s, 1), s[1..]);
    }
  }

  lemma SpacedEnds(sep: char, w: bool, s: string)
    requires !IsSpace(sep)
    ensures Ends(Spaced(sep), w, s)
         == var r := Run(Space, s);
            if SpacedLen(sep, s).None? then Nil else Shift(r + 1, Down(Run(Space, s[r + 1..])))
  {
    hide Ends, Run, Shift, Down, IsSpace;
    var b := Then(One(Exactly(sep)), Star(One(Space)));
    var r := Run(Space, s);
    SeparatorRejectsSpace(sep);
    GreedyRun(Space, b, w, s);
    SeparatorEnds(sep, After(w, s, r), s[r..]);
    if SpacedLen(sep, s).Some? {
      assert s[r..][1..] == s[r + 1..];
      ShiftShift(r, 1, Down(Run(Space, s[r + 1..])));
    } else {
      ShiftNil(r);
    }
  }

  lemma ShiftNil(n: nat)
    ensures Shift(n, Nil) == Nil
  {}

  lemma SeparatorRejectsSpace(sep: char)
    requires !IsSpace(sep)
    ensures Rejects(Then(One(Exactly(sep)), Star(One(Space))), Space)
  {
    hide Ends;
    var b := Then(One(Exactly(sep)), Star(One(Space)));
    forall v: bool, t: string | t != [] && In(Space, t[0]) ensures Ends(b, v, t) == Nil {
      SeparatorEnds(sep, v, t);
    }
  }

  /** The separator with the spaces around it, followed by a value that does not start with a space. */
  lemma FirstAfterSpaced(sep: char, n: nat, value: Re, w: bool, s: string)
    requires n <= |s| && Rejects(value, Space) && !IsSpace(sep)
    ensures Within(Shift(n, Ends(Spaced(sep), After(w, s, n), s[n..])), |s|)
    ensures FirstAfter(Shift(n, Ends(Spaced(sep), After(w, s, n), s[n..])), value, w, s)
         == match SpacedLen(sep, s[n..])
            case Some(m) => FirstAt(n + m, value, w, s)
            case None => None
  {
    hide Ends, FirstAt, FirstAfter, Rejects, Spaced, Down, Run, IsSpace, Shift, Within;
    var v, t := After(w, s, n), s[n..];
    SpacedEnds(sep, v, t);
    WithinShift(n, Ends(Spaced(sep), v, t), |t|);
    FirstAfterNil(value, w, s);
    if SpacedLen(sep, t).Some? {
      var r := Run(Space, t) + 1;
      assert t[r..] == s[n + r..];
      ShiftShift(n, r, Down(Run(Space, s[n + r..])));
      FirstAfterRun(n + r, value, w, s);
    } else {
      ShiftNil(n);
    }
  }

  lemma FirstAfterRun(q: nat, value: Re, w: bool, s: string)
    requires q <= |s| && Rejects(value, Space)
    ensures Within(Shift(q, Down(Run(Space, s[q..]))), |s|)
    ensures FirstAfter(Shift(q, Down(Run(Space, s[q..]))), value, w, s)
         == FirstAt(q + Run(Space, s[q..]), value, w, s)
  {
    hide Ends, FirstAt, FirstAfter, Rejects, Down, IsSpace, Shift, Within;
    var r := Run(Space, s[q..]);
    forall i | q <= i < q + r ensures IsSpace(s[i]) { RunAll(Space, s[q..], i - q); }
    FirstAfterSpaces(q, r, value, w, s);
  }

  lemma BoundaryThen(b: Re, w: bool, s: string)
    ensures Ends(Then(Boundary, b), w, s) == if AtBoundary(w, s) then Ends(b, w, s) else Nil
  {
    EndsAfterZero(b, w, s);
  }

  lemma ThenOne(n: nat, a: Re, b: Re, w: bool, s: string)
    requires n <= |s| && Ends(a, w, s) == Cons(n, Nil)
    ensures Ends(Then(a, b), w, s) == Shift(n, Ends(b, After(w, s, n), s[n..]))
  {
    EndsAfterOne(n, b, w, s);
  }

  lemma ThenNone(a: Re, b: Re, w: bool, s: string)
    requires Ends(a, w, s) == Nil
    ensures Ends(Then(a, b), w, s) == Nil
  {}

  lemma PlusAt(n: nat, k: Class, w: bool, s: string)
    requires n <= |s|
    ensures FirstAt(n, Plus(k), w, s) == SpanOf(n, Run(k, s[n..]))
  {
    hide Ends;
    PlusEnds(k, After(w, s, n), s[n..]);
  }

  lemma PlusRejectsSpace(k: Class)
    requires forall c: char | IsSpace(c) :: !In(k, c)
    ensures Rejects(Plus(k), Space)
  {
    hide Ends;
    forall v: bool, t: string | t != [] && In(Space, t[0]) ensures Ends(Plus(k), v, t) == Nil {
      PlusEnds(k, v, t);
    }
  }

  lemma KeyNameEnds(w: bool, s: string)
    ensures Ends(Or(Text("PrivateKey"), Text("PresharedKey")), w, s)
         == if KeyNameLen(s) == 0 then Nil else Cons(KeyNameLen(s), Nil)
    ensures KeyNameLen(s) > 0 ==> s[0] == 'P'
  {
    assert Spells("PrivateKey", s) ==> s[2] == 'i';
    assert Spells("PresharedKey", s) ==> s[2] == 'e';
    assert Ends(Text("PrivateKey"), w, s) == if Spells("PrivateKey", s) then Cons(10, Nil) else Nil;
    assert Ends(Text("PresharedKey"), w, s) == if Spells("PresharedKey", s) then Cons(12, Nil) else Nil;
  }

  lemma CaselessEnds(name: string, w: bool, s: string)
    ensures Ends(Caseless(name), w, s) == if SpellsCaseless(name, s) then Cons(|name|, Nil) else Nil
  {}

  /** At most one of the field names stands at the front of a text: they differ in their first letters. */
  lemma JsonNameEnds(w: bool, s: string)
    ensures Ends(JsonNames(), w, s) == if JsonNameLen(s) == 0 then Nil else Cons(JsonNameLen(s), Nil)
  {
    hide Ends;
    CaselessEnds("privatekey", w, s);
    CaselessEnds("preshared_key", w, s);
    CaselessEnds("secret", w, s);
    CaselessEnds("password", w, s);
    CaselessEnds("uuid", w, s);
    assert SpellsCaseless("privatekey", s) ==> Folds('p', s[0]) && Folds('r', s[1]) && Folds('i', s[2]);
    assert SpellsCaseless("preshared_key", s) ==> Folds('p', s[0]) && Folds('r', s[1]) && Folds('e', s[2]);
    assert SpellsCaseless("secret", s) ==> Folds('s', s[0]);
    assert SpellsCaseless("password", s) ==> Folds('p', s[0]) && Folds('a', s[1]);
    assert SpellsCaseless("uuid", s) ==> Folds('u', s[0]);
    var c3 := Or(Caseless("password"), Caseless("uuid"));
    var c2 := Or(Caseless("secret"), c3);
    var c1 := Or(Caseless("preshared_key"), c2);
    OrEnds(Caseless("password"), Caseless("uuid"), w, s);
    OrEnds(Caseless("secret"), c3, w, s);
    OrEnds(Caseless("preshared_key"), c2, w, s);
    OrEnds(Caseless("privatekey"), c1, w, s);
  }

  lemma OrEnds(a: Re, b: Re, w: bool, s: string)
    ensures Ends(a, w, s) == Nil ==> Ends(Or(a, b), w, s) == Ends(b, w, s)
    ensures Ends(b, w, s) == Nil ==> Ends(Or(a, b), w, s) == Ends(a, w, s)
    ensures Ends(a, w, s).Cons? ==> Ends(Or(a, b), w, s).Cons? && Ends(Or(a, b), w, s).head == Ends(a, w, s).head
  {
    AppendNil(Ends(a, w, s));
  }

  lemma WireGuardKeyAgrees(w: bool, s: string)
    ensures RegexMatch(WireGuardKey, w, s) == Scan(WireGuardKey, w, s)
  {
    hide Ends, KeyNameLen, Rejects, FirstAt, FirstAfter, SpacedLen, Run;
    var names, n := Or(Text("PrivateKey"), Text("PresharedKey")), KeyNameLen(s);
    KeyNameEnds(w, s);
    BoundaryThen(Then(names, Spaced('=')), w, s);
    FirstAfterNil(Plus(Key), w, s);
    if n == 0 {
      ThenNone(names, Spaced('='), w, s);
    } else {
      ThenOne(n, names, Spaced('='), w, s);
      PlusRejectsSpace(Key);
      FirstAfterSpaced('=', n, Plus(Key), w, s);
      match SpacedLen('=', s[n..])
      case Some(m) => PlusAt(n + m, Key, w, s);
      case None =>
    }
  }

  lemma FirstAfterOne(n: nat, value: Re, w: bool, s: string)
    requires n <= |s|
    ensures FirstAfter(Cons(n, Nil), value, w, s) == FirstAt(n, value, w, s)
  {
    hide FirstAt;
  }

  lemma PasswordAgrees(w: bool, s: string)
    ensures RegexMatch(Password, w, s) == Scan(Password, w, s)
  {
    var name := Caseless("password=");
    BoundaryThen(name, w, s);
    if SpellsCaseless("password=", s) {
      assert Folds('p', s[0]);
      assert Ends(name, w, s) == Cons(9, Nil);
      FirstAfterOne(9, Plus(NotDelimiter), w, s);
      PlusAt(9, NotDelimiter, w, s);
    }
  }

  lemma QuoteEnds(w: bool, s: string)
    ensures Ends(Quote(), w, s) == if StartsWithQuote(s) then Cons(1, Nil) else Nil
  {
    OneChar(Exactly('"'), w, s);
  }

  /** The prefix of a JSON match up to and including the closing quote of the name. */
  lemma JsonKeptEnds(w: bool, s: string)
    ensures Ends(Kept(JsonSecret), w, s)
         == if StartsWithQuote(s) && JsonNameLen(s[1..]) > 0 && StartsWithQuote(s[JsonNameLen(s[1..]) + 1..]) then
              var n := JsonNameLen(s[1..]) + 2;
              Shift(n, Ends(Spaced(':'), After(w, s, n), s[n..]))
            else Nil
  {
    hide Ends, JsonNameLen, JsonNames, Spaced;
    var spaced := Spaced(':');
    var tail := Then(Quote(), spaced);
    var body := Then(JsonNames(), tail);
    QuoteEnds(w, s);
    if !StartsWithQuote(s) {
      ThenNone(Quote(), body, w, s);
    } else {
      var v1, t1 := After(w, s, 1), s[1..];
      ThenOne(1, Quote(), body, w, s);
      JsonNameEnds(v1, t1);
      var n := JsonNameLen(t1);
      if n == 0 {
        ThenNone(JsonNames(), tail, v1, t1);
      } else {
        AfterAfter(1, n, w, s);
        ThenOne(n, JsonNames(), tail, v1, t1);
        var v2, t2 := After(w, s, 1 + n), s[1 + n..];
        QuoteEnds(v2, t2);
        if !StartsWithQuote(t2) {
          ThenNone(Quote(), spaced, v2, t2);
        } else {
          AfterAfter(1 + n, 1, w, s);
          ThenOne(1, Quote(), spaced, v2, t2);
          var here := Ends(spaced, After(w, s, n + 2), s[n + 2..]);
          ShiftShift(n, 1, here);
          ShiftShift(1, n + 1, here);
        }
      }
    }
  }

  function Escapes(): Re { Then(Star(Escaped()), Quote()) }

  /** One escape consumes a backslash, a rune that is not a newline, and preferably all plain runes after it. */
  lemma EscapedEnds(w: bool, s: string)
    ensures Ends(Escaped(), w, s)
         == if |s| >= 2 && s[0] == '\\' && s[1] != '\n' then Shift(2, Down(Run(Plain, s[2..]))) else Nil
  {
    hide Ends, Down;
    var tail := Then(One(NotNewline), Star(One(Plain)));
    OneChar(Exactly('\\'), w, s);
    if s == [] || s[0] != '\\' {
      ThenNone(One(Exactly('\\')), tail, w, s);
    } else {
      var v, t := After(w, s, 1), s[1..];
      ThenOne(1, One(Exactly('\\')), tail, w, s);
      OneChar(NotNewline, v, t);
      if t == [] || t[0] == '\n' {
        ThenNone(One(NotNewline), Star(One(Plain)), v, t);
      } else {
        ThenOne(1, One(NotNewline), Star(One(Plain)), v, t);
        AfterAfter(1, 1, w, s);
        GreedyEnds(Plain, After(w, s, 2), s[2..]);
        ShiftShift(1, 1, Down(Run(Plain, s[2..])));
      }
    }
  }

  lemma EscapesRejectPlain()
    ensures Rejects(Escapes(), Plain)
  {
    hide Ends;
    forall v: bool, t: string | t != [] && In(Plain, t[0]) ensures Ends(Escapes(), v, t) == Nil {
      EscapedEnds(v, t);
      StarNone(Escaped(), Quote(), v, t);
      QuoteEnds(v, t);
    }
  }

  lemma {:induction false} EscapesEnds(w: bool, s: string)
    ensures Ends(Escapes(), w, s)
         == match EscapesLen(s) case Some(n) => Cons(n, Nil) case None => Nil
    decreases |s|
  {
    hide Ends;
    EscapedEnds(w, s);
    QuoteEnds(w, s);
    if !StartsWithQuote(s) && |s| >= 2 && s[0] == '\\' && s[1] != '\n' {
      EscapesStep(w, s);
      var n := 2 + Run(Plain, s[2..]);
      EscapesEnds(After(w, s, n), s[n..]);
    } else {
      StarNone(Escaped(), Quote(), w, s);
    }
  }

  lemma EscapesStep(w: bool, s: string)
    requires |s| >= 2 && s[0] == '\\' && s[1] != '\n'
    ensures Ends(Escapes(), w, s)
         == var n := 2 + Run(Plain, s[2..]); Shift(n, Ends(Escapes(), After(w, s, n), s[n..]))
  {
    hide Ends, Down, In, EndsAfter;
    var r := Run(Plain, s[2..]);
    EscapedEnds(w, s);
    QuoteEnds(w, s);
    ShiftedDownPositive(2, r);
    StarUnfold(Escaped(), Quote(), w, s);
    EscapesRejectPlain();
    forall i | 2 <= i < 2 + r ensures In(Plain, s[i]) { RunAll(Plain, s[2..], i - 2); }
    EndsAfterRun(2, r, Plain, Escapes(), w, s);
    AppendNil(EndsAfter(Shift(2, Down(r)), Escapes(), w, s));
  }

  lemma ShiftedDownPositive(q: nat, r: nat)
    requires q > 0
    ensures Positive(Shift(q, Down(r)))
  {
    if r > 0 { ShiftedDownPositive(q, r - 1); }
  }

  lemma QuotedEnds(w: bool, s: string)
    ensures Ends(Quoted(), w, s) == match QuotedLen(s) case Some(n) => Cons(n, Nil) case None => Nil
  {
    hide Ends;
    var body := Then(Star(One(Plain)), Escapes());
    QuoteEnds(w, s);
    if StartsWithQuote(s) {
      var v, t := After(w, s, 1), s[1..];
      var r := Run(Plain, t);
      ThenOne(1, Quote(), body, w, s);
      EscapesRejectPlain();
      GreedyRun(Plain, Escapes(), v, t);
      AfterAfter(1, r, w, s);
      EscapesEnds(After(v, t, r), t[r..]);
    } else {
      ThenNone(Quote(), body, w, s);
    }
  }

  lemma JsonValueEnds(w: bool, s: string)
    ensures Ends(Secret(JsonSecret), w, s).Nil? <==> JsonValueLen(s) == 0
    ensures JsonValueLen(s) > 0 ==> Ends(Secret(JsonSecret), w, s).head == JsonValueLen(s)
  {
    hide Ends, QuotedLen, Quoted;
    QuotedEnds(w, s);
    PlusEnds(Bare, w, s);
    OrEnds(Quoted(), Plus(Bare), w, s);
  }

  lemma JsonSecretAgrees(w: bool, s: string)
    ensures RegexMatch(JsonSecret, w, s) == Scan(JsonSecret, w, s)
  {
    hide Ends, Kept, Secret, JsonNameLen, FirstAfter, Rejects, JsonValueLen, SpacedLen;
    var value := Secret(JsonSecret);
    JsonKeptEnds(w, s);
    FirstAfterNil(value, w, s);
    if StartsWithQuote(s) && JsonNameLen(s[1..]) > 0 && StartsWithQuote(s[JsonNameLen(s[1..]) + 1..]) {
      var n := JsonNameLen(s[1..]) + 2;
      JsonRejectsSpace();
      FirstAfterSpaced(':', n, value, w, s);
      match SpacedLen(':', s[n..])
      case Some(m) => JsonValueEnds(After(w, s, n + m), s[n + m..]);
      case None =>
    }
  }

  lemma JsonRejectsSpace()
    ensures Rejects(Secret(JsonSecret), Space)
  {
    hide Ends, Secret;
    forall v: bool, t: string | t != [] && In(Space, t[0]) ensures Ends(Secret(JsonSecret), v, t) == Nil {
      JsonValueEnds(v, t);
    }
  }

  /** n runes of class k from position j of s. */
  predicate Block(k: Class, j: nat, n: nat, s: string) {
    j + n <= |s| && forall i | j <= i < j + n :: In(k, s[i])
  }

  /** Exactly n runes of class k, and then b, from position j of s. */
  lemma TimesAt(j: nat, k: Class, n: nat, b: Re, w: bool, s: string)
    requires j <= |s|
    ensures Ends(Then(Times(k, n), b), After(w, s, j), s[j..])
         == if Block(k, j, n, s) then Shift(n, Ends(b, After(w, s, j + n), s[j + n..])) else Nil
  {
    hide In;
    var v, t := After(w, s, j), s[j..];
    if Block(k, j, n, s) {
      AfterAfter(j, n, w, s);
      ThenOne(n, Times(k, n), b, v, t);
    } else {
      ThenNone(Times(k, n), b, v, t);
      if j + n <= |s| {
        var i :| j <= i < j + n && !In(k, s[i]);
        assert !In(k, t[i - j]);
      }
    }
  }

  predicate FrontBlocks(s: string) {
    && Block(Hex, 0, 8, s) && Block(Exactly('-'), 8, 1, s) && Block(Hex, 9, 4, s) && Block(Exactly('-'), 13, 1, s)
  }

  predicate BackBlocks(s: string) {
    && Block(Hex, 14, 4, s) && Block(Exactly('-'), 18, 1, s)
    && Block(Hex, 19, 4, s) && Block(Exactly('-'), 23, 1, s)
    && Block(Hex, 24, 12, s)
  }

  lemma UuidBlocks(s: string)
    ensures IsUuid(s) <==> FrontBlocks(s) && BackBlocks(s) && (|s| == 36 || !IsWord(s[36]))
  {
    hide In;
    forall c: char ensures In(Exactly('-'), c) <==> c == '-' { InExactly('-', c); }
  }

  function UuidBack(): Re {
    Then(Times(Hex, 4), Then(Dash(), Then(Times(Hex, 4), Then(Dash(), Then(Times(Hex, 12), Boundary)))))
  }

  lemma UuidBackEnds(w: bool, s: string)
    requires |s| >= 14
    ensures Ends(UuidBack(), After(w, s, 14), s[14..])
         == if BackBlocks(s) && (|s| == 36 || !IsWord(s[36])) then Cons(22, Nil) else Nil
  {
    hide Ends, In, IsWord;
    var r9 := Then(Times(Hex, 12), Boundary);
    var r8 := Then(Dash(), r9);
    var r7 := Then(Times(Hex, 4), r8);
    var r6 := Then(Dash(), r7);
    TimesAt(14, Hex, 4, r6, w, s);
    if Block(Hex, 14, 4, s) { TimesAt(18, Exactly('-'), 1, r7, w, s); }
    if Block(Exactly('-'), 18, 1, s) { TimesAt(19, Hex, 4, r8, w, s); }
    if Block(Hex, 19, 4, s) { TimesAt(23, Exactly('-'), 1, r9, w, s); }
    if Block(Exactly('-'), 23, 1, s) { TimesAt(24, Hex, 12, Boundary, w, s); }
    if Block(Hex, 24, 12, s) { UuidBoundary(w, s); }
  }

  lemma UuidEnds(w: bool, s: string)
    ensures Ends(UuidText(), w, s) == if IsUuid(s) then Cons(36, Nil) else Nil
  {
    hide Ends, In, IsWord, IsUuid, BackBlocks;
    var r4 := Then(Dash(), UuidBack());
    var r3 := Then(Times(Hex, 4), r4);
    var r2 := Then(Dash(), r3);
    UuidBlocks(s);
    assert s[0..] == s;
    TimesAt(0, Hex, 8, r2, w, s);
    if Block(Hex, 0, 8, s) { TimesAt(8, Exactly('-'), 1, r3, w, s); }
    if Block(Exactly('-'), 8, 1, s) { TimesAt(9, Hex, 4, r4, w, s); }
    if Block(Hex, 9, 4, s) { TimesAt(13, Exactly('-'), 1, UuidBack(), w, s); }
    if Block(Exactly('-'), 13, 1, s) { UuidBackEnds(w, s); }
  }

  lemma InExactly(x: char, c: char)
    ensures In(Exactly(x), c) <==> c == x
  {}

  lemma UuidBoundary(w: bool, s: string)
    requires Block(Hex, 24, 12, s)
    ensures Ends(Boundary, After(w, s, 36), s[36..]) == if |s| == 36 || !IsWord(s[36]) then Cons(0, Nil) else Nil
  {
    assert In(Hex, s[35]);
  }

  lemma UuidAgrees(w: bool, s: string)
    ensures RegexMatch(Uuid, w, s) == Scan(Uuid, w, s)
  {
    UuidEnds(w, s);
    hide UuidText;
    BoundaryThen(UuidText(), w, s);
    FirstAfterOne(0, Secret(Uuid), w, s);
    assert s[0..] == s;
    assert Ends(Kept(Uuid), w, s) == Cons(0, Nil);
    assert IsUuid(s) ==> In(Hex, s[0]);
  }

  /** The scanner and the expression find the same match everywhere. */
  lemma ScanIsRegexMatch(p: Pattern, w: bool, s: string)
    ensures RegexMatch(p, w, s) == Scan(p, w, s)
  {
    match p
    case WireGuardKey => WireGuardKeyAgrees(w, s);
    case Password => PasswordAgrees(w, s);
    case JsonSecret => JsonSecretAgrees(w, s);
    case Uuid => UuidAgrees(w, s);
  }
}
