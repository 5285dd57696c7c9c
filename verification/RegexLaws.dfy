/** Laws of the backtracking semantics: how a greedy run of one class of runes behaves when what follows
    it cannot begin with a rune of that class, so that giving runes back never helps. */
module RegexLaws {
  import opened Regex

  /** How many runes at the front of s are of class k. */
  function Run(k: Class, s: string): (n: nat)
    ensures n <= |s|
    ensures n < |s| ==> !In(k, s[n])
  {
    if s != [] && In(k, s[0]) then 1 + Run(k, s[1..]) else 0
  }

  lemma RunAll(k: Class, s: string, i: nat)
    requires i < Run(k, s)
    ensures In(k, s[i])
  {
    if i > 0 { RunAll(k, s[1..], i - 1); }
  }

  /** b cannot match at a rune of class k. */
  ghost predicate Rejects(b: Re, k: Class) {
    forall v: bool, t: string | t != [] && In(k, t[0]) :: Ends(b, v, t) == Nil
  }

  lemma ShiftZero(ns: Lengths)
    ensures Shift(0, ns) == ns
  {}

  lemma ShiftShift(m: nat, n: nat, ns: Lengths)
    ensures Shift(m, Shift(n, ns)) == Shift(m + n, ns)
  {}

  lemma ShiftAppend(n: nat, xs: Lengths, ys: Lengths)
    ensures Shift(n, Append(xs, ys)) == Append(Shift(n, xs), Shift(n, ys))
  {}

  lemma AppendNil(xs: Lengths)
    ensures Append(xs, Nil) == xs
  {}

  lemma AppendAssociates(xs: Lengths, ys: Lengths, zs: Lengths)
    ensures Append(Append(xs, ys), zs) == Append(xs, Append(ys, zs))
  {}

  lemma {:induction false} EndsAfterAppend(xs: Lengths, ys: Lengths, b: Re, w: bool, s: string)
    requires Within(xs, |s|) && Within(ys, |s|) && Within(Append(xs, ys), |s|)
    ensures EndsAfter(Append(xs, ys), b, w, s) == Append(EndsAfter(xs, b, w, s), EndsAfter(ys, b, w, s))
    decreases xs
  {
    if xs.Cons? {
      EndsAfterAppend(xs.tail, ys, b, w, s);
      AppendAssociates(Shift(xs.head, Ends(b, After(w, s, xs.head), s[xs.head..])),
                       EndsAfter(xs.tail, b, w, s), EndsAfter(ys, b, w, s));
    }
  }

  /** Dropping n runes and then x more is dropping n + x runes. */
  lemma AfterAfter(n: nat, x: nat, w: bool, s: string)
    requires n + x <= |s|
    ensures After(After(w, s, n), s[n..], x) == After(w, s, n + x)
    ensures s[n..][x..] == s[n + x..]
  {}

  lemma {:induction false} EndsAfterShift(n: nat, xs: Lengths, b: Re, w: bool, s: string)
    requires n <= |s| && Within(xs, |s| - n) && Within(Shift(n, xs), |s|)
    ensures EndsAfter(Shift(n, xs), b, w, s) == Shift(n, EndsAfter(xs, b, After(w, s, n), s[n..]))
    decreases xs
  {
    if xs.Cons? {
      var x, v, t := xs.head, After(w, s, n), s[n..];
      var here := Ends(b, After(w, s, n + x), s[n + x..]);
      AfterAfter(n, x, w, s);
      EndsAfterShift(n, xs.tail, b, w, s);
      ShiftShift(n, x, here);
      ShiftAppend(n, Shift(x, here), EndsAfter(xs.tail, b, v, t));
    }
  }

  lemma EndsAfterOne(n: nat, b: Re, w: bool, s: string)
    requires n <= |s|
    ensures EndsAfter(Cons(n, Nil), b, w, s) == Shift(n, Ends(b, After(w, s, n), s[n..]))
  {
    AppendNil(Shift(n, Ends(b, After(w, s, n), s[n..])));
  }

  lemma EndsAfterZero(b: Re, w: bool, s: string)
    ensures EndsAfter(Cons(0, Nil), b, w, s) == Ends(b, w, s)
  {
    EndsAfterOne(0, b, w, s);
    assert s[0..] == s;
    ShiftZero(Ends(b, w, s));
  }

  predicate Positive(ns: Lengths) { ns.Cons? ==> ns.head > 0 && Positive(ns.tail) }

  lemma RepeatsOne(n: nat, a: Re, w: bool, s: string)
    requires 0 < n <= |s|
    ensures Repeats(Cons(n, Nil), a, w, s) == Shift(n, Ends(Star(a), After(w, s, n), s[n..]))
  {
    AppendNil(Shift(n, Ends(Star(a), After(w, s, n), s[n..])));
  }

  /** Rounds of a star followed by b are a first round followed by (more rounds and b). */
  lemma {:induction false} RepeatsThen(ns: Lengths, a: Re, b: Re, w: bool, s: string)
    requires Within(ns, |s|) && Positive(ns)
    ensures EndsAfter(Repeats(ns, a, w, s), b, w, s) == EndsAfter(ns, Then(Star(a), b), w, s)
    decreases ns
  {
    if ns.Cons? {
      var n := ns.head;
      var v, t := After(w, s, n), s[n..];
      var here := Ends(Star(a), v, t);
      WithinShift(n, here, |t|);
      assert Repeats(ns, a, w, s) == Append(Shift(n, here), Repeats(ns.tail, a, w, s));
      EndsAfterAppend(Shift(n, here), Repeats(ns.tail, a, w, s), b, w, s);
      EndsAfterShift(n, here, b, w, s);
      RepeatsThen(ns.tail, a, b, w, s);
    }
  }

  /** A star whose body always consumes something, unfolded once. */
  lemma StarUnfold(a: Re, b: Re, w: bool, s: string)
    requires Positive(Ends(a, w, s))
    ensures Ends(Then(Star(a), b), w, s)
         == Append(EndsAfter(Ends(a, w, s), Then(Star(a), b), w, s), Ends(b, w, s))
  {
    var rounds := Repeats(Ends(a, w, s), a, w, s);
    WithinAppend(rounds, Cons(0, Nil), |s|);
    EndsAfterAppend(rounds, Cons(0, Nil), b, w, s);
    RepeatsThen(Ends(a, w, s), a, b, w, s);
    EndsAfterZero(b, w, s);
  }

  /** One round of the body of a star, when the body can consume exactly one, nonzero, length. */
  lemma StarRound(a: Re, b: Re, w: bool, s: string, n: nat)
    requires 0 < n <= |s| && Ends(a, w, s) == Cons(n, Nil)
    ensures Ends(Then(Star(a), b), w, s)
         == Append(Shift(n, Ends(Then(Star(a), b), After(w, s, n), s[n..])), Ends(b, w, s))
  {
    hide Ends;
    StarUnfold(a, b, w, s);
    EndsAfterOne(n, Then(Star(a), b), w, s);
  }

  /** No round of the body is possible. */
  lemma StarNone(a: Re, b: Re, w: bool, s: string)
    requires Ends(a, w, s) == Nil
    ensures Ends(Then(Star(a), b), w, s) == Ends(b, w, s)
  {
    EndsAfterZero(b, w, s);
    assert Ends(Star(a), w, s) == Cons(0, Nil);
  }

  lemma OneChar(k: Class, w: bool, s: string)
    ensures Ends(One(k), w, s) == if s != [] && In(k, s[0]) then Cons(1, Nil) else Nil
  {}

  lemma GreedyStep(k: Class, b: Re, w: bool, s: string)
    requires Rejects(b, k) && s != [] && In(k, s[0])
    ensures Ends(Then(Star(One(k)), b), w, s) == Shift(1, Ends(Then(Star(One(k)), b), After(w, s, 1), s[1..]))
  {
    hide Ends, Append, Shift, In;
    OneChar(k, w, s);
    StarRound(One(k), b, w, s, 1);
    AppendNil(Shift(1, Ends(Then(Star(One(k)), b), After(w, s, 1), s[1..])));
  }

  /** A greedy run of a class is consumed whole when what follows rejects that class. */
  lemma {:induction false} GreedyRun(k: Class, b: Re, w: bool, s: string)
    requires Rejects(b, k)
    ensures Ends(Then(Star(One(k)), b), w, s)
         == Shift(Run(k, s), Ends(b, After(w, s, Run(k, s)), s[Run(k, s)..]))
    decreases |s|
  {
    hide Ends, Append, Shift, In, Rejects;
    if s != [] && In(k, s[0]) {
      var r := Run(k, s[1..]);
      GreedyStep(k, b, w, s);
      GreedyRun(k, b, After(w, s, 1), s[1..]);
      AfterAfter(1, r, w, s);
      ShiftShift(1, r, Ends(b, After(w, s, 1 + r), s[1 + r..]));
    } else {
      OneChar(k, w, s);
      StarNone(One(k), b, w, s);
      assert s[0..] == s;
      ShiftZero(Ends(b, w, s));
    }
  }

  /** r, r - 1, ..., 0 */
  function Down(r: nat): Lengths {
    if r == 0 then Cons(0, Nil) else Cons(r, Down(r - 1))
  }

  lemma DownShift(r: nat)
    ensures Append(Shift(1, Down(r)), Cons(0, Nil)) == Down(r + 1)
  {
    if r > 0 { DownShift(r - 1); }
  }

  /** A greedy run of a class prefers the whole run and then gives back one rune at a time. */
  lemma {:induction false} GreedyEnds(k: Class, w: bool, s: string)
    ensures Ends(Star(One(k)), w, s) == Down(Run(k, s))
    decreases |s|
  {
    OneChar(k, w, s);
    if s != [] && In(k, s[0]) {
      GreedyEnds(k, After(w, s, 1), s[1..]);
      RepeatsOne(1, One(k), w, s);
      DownShift(Run(k, s[1..]));
    }
  }

  /** A nonempty greedy run prefers the whole run, and fails exactly where no rune of the class stands. */
  lemma PlusEnds(k: Class, w: bool, s: string)
    ensures Ends(Plus(k), w, s) == Nil <==> Run(k, s) == 0
    ensures Run(k, s) > 0 ==> Ends(Plus(k), w, s).head == Run(k, s)
  {
    OneChar(k, w, s);
    if s != [] && In(k, s[0]) {
      GreedyEnds(k, After(w, s, 1), s[1..]);
      EndsAfterOne(1, Star(One(k)), w, s);
    }
  }

  lemma RejectedAt(n: nat, k: Class, b: Re, w: bool, s: string)
    requires n < |s| && In(k, s[n]) && Rejects(b, k)
    ensures Ends(b, After(w, s, n), s[n..]) == Nil
  {
    hide Ends, In;
    assert s[n..][0] == s[n];
  }

  /** Giving back runes of a run is useless when what follows rejects them. */
  lemma {:induction false} EndsAfterRun(q: nat, r: nat, k: Class, b: Re, w: bool, s: string)
    requires q + r <= |s| && Rejects(b, k)
    requires forall i | q <= i < q + r :: In(k, s[i])
    ensures Within(Shift(q, Down(r)), |s|)
    ensures EndsAfter(Shift(q, Down(r)), b, w, s) == Shift(q + r, Ends(b, After(w, s, q + r), s[q + r..]))
    decreases r
  {
    hide Ends, In, Rejects;
    AppendNil(Shift(q + r, Ends(b, After(w, s, q + r), s[q + r..])));
    if r > 0 {
      EndsAfterRun(q, r - 1, k, b, w, s);
      RejectedAt(q + r - 1, k, b, w, s);
    }
  }
}
