/** What `predicate_truth` answers on printed predicates: the strong Kleene
    value. It is definite exactly when the predicate is constant even with the
    plain and the negated occurrences of an atom set independently, hence sound
    for every configuration, and exact when no atom occurs in both ways. */
module CfgTheorems {
  import opened Text
  import opened Attributes
  import opened CfgPredicate

  // ----- the evaluator computes the Kleene value -----

  lemma {:induction false} LStripSubset(s: string, c: char)
    requires c in LStrip(s)
    ensures c in s
  {
    if s != "" && IsSpace(s[0]) { LStripSubset(s[1..], c); }
  }

  lemma AtomIsNoCall(text: string, kind: Kind)
    requires AtomOk(text)
    ensures CallBody(text, kind) == None
  {
    if Starts(text, Name(kind)) {
      var rest := LStrip(text[3..]);
      if rest != "" {
        LStripSubset(text[3..], rest[0]);
        assert rest[0] in text;
        assert Nesting(rest[0]) == 0;
      }
    }
  }

  lemma CallBodyOfCall(kind: Kind, gap: string, inner: string, other: Kind)
    requires Blank(gap)
    ensures CallBody(Name(kind) + gap + "(" + inner + ")", other) == if other == kind then Some(inner) else None
  {
    var text := Name(kind) + gap + "(" + inner + ")";
    var rest := "(" + inner + ")";
    assert text[3..] == gap + rest && text[..3] == Name(kind);
    assert text[0] == Name(kind)[0] && text[1] == Name(kind)[1];
    LStripBlank(gap, rest);
    assert rest[1..|rest| - 1] == inner;
  }

  /** The Kleene values of the arguments, gaps skipped. */
  function KleeneList(args: Args): (r: seq<Truth>)
    ensures |r| == Count(args)
  {
    match args
    case Last(slot) => if slot.Arg? then [Kleene(slot.pred)] else []
    case More(slot, rest) => (if slot.Arg? then [Kleene(slot.pred)] else []) + KleeneList(rest)
  }

  /** The answers of the evaluator for the arguments, gaps skipped. */
  function TruthList(args: Args): seq<Truth>
  {
    match args
    case Last(slot) => if slot.Arg? then [PredicateTruth(ShowSlot(slot))] else []
    case More(slot, rest) => (if slot.Arg? then [PredicateTruth(ShowSlot(slot))] else []) + TruthList(rest)
  }

  lemma SlotIsBlankOrNot(slot: Slot)
    requires SlotOk(slot)
    ensures Strip(ShowSlot(slot)) == "" <==> slot.Gap?
  {
    match slot
    case Gap(blank) =>
      assert blank == blank + "" + "";
      StripSurrounded(blank, "", "");
    case Arg(before, pred, after) =>
      ShowIsClosed(pred);
      StripSurrounded(before, Show(pred), after);
  }

  lemma {:induction false} NonBlankSlots(args: Args, bound: nat)
    requires ArgsOk(args)
    requires forall p :: p in NonBlank(SlotTexts(args)) ==> |p| <= bound
    ensures PartTruths(NonBlank(SlotTexts(args)), bound) == TruthList(args)
    decreases args
  {
    SlotIsBlankOrNot(args.slot);
    var texts := SlotTexts(args);
    match args
    case Last(slot) =>
      assert texts[1..] == [] && NonBlank([]) == [];
      if slot.Arg? {
        assert NonBlank(texts) == [ShowSlot(slot)];
        assert NonBlank(texts)[1..] == [];
      }
    case More(slot, rest) =>
      assert texts[1..] == SlotTexts(rest);
      var parts := NonBlank(SlotTexts(rest));
      if slot.Arg? {
        assert NonBlank(texts) == [ShowSlot(slot)] + parts;
        assert NonBlank(texts)[1..] == parts;
      }
      NonBlankSlots(rest, bound);
  }

  lemma {:induction false} CombineIsKleene(args: Args)
    ensures Combine(All, KleeneList(args)) == KleeneAll(args)
    ensures Combine(Any, KleeneList(args)) == KleeneAny(args)
    decreases args
  {
    match args
    case Last(slot) =>
      if slot.Arg? {
        CombineCons(Kleene(slot.pred), []);
        assert [Kleene(slot.pred)] + [] == [Kleene(slot.pred)];
      }
    case More(slot, rest) =>
      CombineIsKleene(rest);
      var vs := KleeneList(rest);
      if slot.Arg? {
        CombineCons(Kleene(slot.pred), vs);
      } else {
        assert [] + vs == vs;
      }
  }

  lemma CombineCons(v: Truth, vs: seq<Truth>)
    ensures Combine(All, [v] + vs) == Min(v, Combine(All, vs))
    ensures Combine(Any, [v] + vs) == Max(v, Combine(Any, vs))
  {
    var all := [v] + vs;
    assert all[0] == v;
    assert forall i :: 0 <= i < |vs| ==> vs[i] == all[i + 1];
    assert forall x :: x in all <==> x == v || x in vs;
  }

  lemma {:induction false} NoArgument(args: Args)
    requires Count(args) == 0
    ensures KleeneAny(args) == No
    decreases args
  {
    if args.More? { NoArgument(args.rest); }
  }

  lemma {:induction false} SingleArgument(args: Args)
    requires Count(args) == 1
    ensures KleeneList(args) == [KleeneAny(args)]
    decreases args
  {
    if args.More? {
      if args.slot.Arg? {
        NoArgument(args.rest);
        assert KleeneList(args.rest) == [];
      } else {
        SingleArgument(args.rest);
      }
    }
  }

  /** The answer on a printed predicate, whatever its layout, is its strong
      Kleene value with all atoms unknown. */
  lemma {:induction false} TruthIsKleene(before: string, p: Pred, after: string)
    requires Blank(before) && Blank(after) && Ok(p)
    ensures PredicateTruth(before + Show(p) + after) == Kleene(p)
    decreases p
  {
    ShowIsClosed(p);
    StripSurrounded(before, Show(p), after);
    match p
    case Const(b) =>
    case Atom(text) =>
      AtomIsNoCall(text, All);
      AtomIsNoCall(text, Any);
      AtomIsNoCall(text, Not);
    case Call(kind, gap, args) =>
      CallTruthIsKleene(kind, gap, args);
      var inner := Join(SlotTexts(args));
      CallBodyOfCall(kind, gap, inner, All);
      CallBodyOfCall(kind, gap, inner, Any);
      CallBodyOfCall(kind, gap, inner, Not);
      assert Show(p)[|Show(p)| - 1] == ')';
  }

  lemma CallTruthIsCombined(kind: Kind, args: Args)
    requires ArgsOk(args)
    ensures CallTruth(kind, Join(SlotTexts(args))) == Combine(kind, TruthList(args))
  {
    var texts := SlotTexts(args);
    SlotsAreClosed(args);
    ClosedIsSeparable(texts);
    SplitJoin(texts);
    SplitPartsFit(Join(texts), 0);
    NonBlankSlots(args, |Join(texts)|);
  }

  lemma {:induction false} CallTruthIsKleene(kind: Kind, gap: string, args: Args)
    requires ArgsOk(args) && (kind == Not ==> Count(args) == 1)
    ensures CallTruth(kind, Join(SlotTexts(args))) == Kleene(Call(kind, gap, args))
    decreases args, 1
  {
    CallTruthIsCombined(kind, args);
    ListsAgree(args);
    CombineIsKleene(args);
    if kind == Not { SingleArgument(args); }
  }

  lemma {:induction false} ListsAgree(args: Args)
    requires ArgsOk(args)
    ensures TruthList(args) == KleeneList(args)
    decreases args, 0
  {
    if args.slot.Arg? { TruthIsKleene(args.slot.before, args.slot.pred, args.slot.after); }
    if args.More? { ListsAgree(args.rest); }
  }

  // ----- the answer, exactly -----

  /** Value with the atoms under an even number of negations read from `plain`,
      those under an odd number from `negated`. */
  predicate EvalApart(p: Pred, plain: set<string>, negated: set<string>)
  {
    match p
    case Const(b) => b
    case Atom(text) => text in plain
    case Call(All, _, args) => ApartAll(args, plain, negated)
    case Call(Any, _, args) => ApartAny(args, plain, negated)
    case Call(Not, _, args) => !ApartAny(args, negated, plain)
  }

  predicate ApartAll(args: Args, plain: set<string>, negated: set<string>)
  {
    && (args.slot.Arg? ==> EvalApart(args.slot.pred, plain, negated))
    && (args.More? ==> ApartAll(args.rest, plain, negated))
  }

  predicate ApartAny(args: Args, plain: set<string>, negated: set<string>)
  {
    || (args.slot.Arg? && EvalApart(args.slot.pred, plain, negated))
    || (args.More? && ApartAny(args.rest, plain, negated))
  }

  /** One configuration for all occurrences is the ordinary value. */
  lemma {:induction false} TogetherIsEval(p: Pred, on: set<string>)
    ensures EvalApart(p, on, on) == Eval(p, on)
    decreases p
  {
    if p.Call? { TogetherArgs(p.args, on); }
  }

  lemma {:induction false} TogetherArgs(args: Args, on: set<string>)
    ensures ApartAll(args, on, on) == EvalAll(args, on) && ApartAny(args, on, on) == EvalAny(args, on)
    decreases args
  {
    if args.slot.Arg? { TogetherIsEval(args.slot.pred, on); }
    if args.More? { TogetherArgs(args.rest, on); }
  }

  /** A definite Kleene value is the value under every two configurations. */
  lemma {:induction false} KleeneIsSoundApart(p: Pred, plain: set<string>, negated: set<string>)
    ensures Kleene(p) == Yes ==> EvalApart(p, plain, negated)
    ensures Kleene(p) == No ==> !EvalApart(p, plain, negated)
    decreases p
  {
    if p.Call? {
      KleeneArgsSound(p.args, plain, negated);
      KleeneArgsSound(p.args, negated, plain);
    }
  }

  lemma {:induction false} KleeneArgsSound(args: Args, plain: set<string>, negated: set<string>)
    ensures KleeneAll(args) == Yes ==> ApartAll(args, plain, negated)
    ensures KleeneAll(args) == No ==> !ApartAll(args, plain, negated)
    ensures KleeneAny(args) == Yes ==> ApartAny(args, plain, negated)
    ensures KleeneAny(args) == No ==> !ApartAny(args, plain, negated)
    decreases args
  {
    if args.slot.Arg? { KleeneIsSoundApart(args.slot.pred, plain, negated); }
    if args.More? { KleeneArgsSound(args.rest, plain, negated); }
  }

  lemma KleeneIsSound(p: Pred, on: set<string>)
    ensures Kleene(p) == Yes ==> Eval(p, on)
    ensures Kleene(p) == No ==> !Eval(p, on)
  {
    KleeneIsSoundApart(p, on, on);
    TogetherIsEval(p, on);
  }

  /** An answer other than "unknown" is the value under every configuration. */
  lemma TruthIsSound(before: string, p: Pred, after: string, on: set<string>)
    requires Blank(before) && Blank(after) && Ok(p)
    ensures PredicateTruth(before + Show(p) + after) == Yes ==> Eval(p, on)
    ensures PredicateTruth(before + Show(p) + after) == No ==> !Eval(p, on)
  {
    TruthIsKleene(before, p, after);
    KleeneIsSound(p, on);
  }

  /** The atoms under an even (`plain`) or odd number of negations. */
  function Occurs(p: Pred, plain: bool): set<string>
  {
    match p
    case Const(_) => {}
    case Atom(text) => if plain then {text} else {}
    case Call(kind, _, args) => OccursIn(args, plain == (kind != Not))
  }

  function OccursIn(args: Args, plain: bool): set<string>
  {
    (if args.slot.Arg? then Occurs(args.slot.pred, plain) else {})
    + (if args.More? then OccursIn(args.rest, plain) else {})
  }

  /** Everything plain on and everything negated off gives the greatest value,
      the opposite gives the least. */
  lemma {:induction false} Extremes(p: Pred, plain: set<string>, negated: set<string>)
    ensures Occurs(p, true) <= plain && Occurs(p, false) !! negated ==>
              (EvalApart(p, plain, negated) <==> Kleene(p) != No)
    ensures Occurs(p, true) !! plain && Occurs(p, false) <= negated ==>
              (EvalApart(p, plain, negated) <==> Kleene(p) == Yes)
    decreases p
  {
    match p
    case Const(_) =>
    case Atom(text) => assert text in Occurs(p, true);
    case Call(kind, _, args) =>
      if kind == Not { ExtremeArgs(args, negated, plain); } else { ExtremeArgs(args, plain, negated); }
  }

  lemma {:induction false} ExtremeArgs(args: Args, plain: set<string>, negated: set<string>)
    ensures OccursIn(args, true) <= plain && OccursIn(args, false) !! negated ==>
              && (ApartAll(args, plain, negated) <==> KleeneAll(args) != No)
              && (ApartAny(args, plain, negated) <==> KleeneAny(args) != No)
    ensures OccursIn(args, true) !! plain && OccursIn(args, false) <= negated ==>
              && (ApartAll(args, plain, negated) <==> KleeneAll(args) == Yes)
              && (ApartAny(args, plain, negated) <==> KleeneAny(args) == Yes)
    decreases args
  {
    if args.slot.Arg? { Extremes(args.slot.pred, plain, negated); }
    if args.More? { ExtremeArgs(args.rest, plain, negated); }
  }

  /** For every predicate: the answer is true (false) exactly when the predicate
      is true (false) whatever its plain and its negated atoms are set to. */
  lemma TruthIsExactly(before: string, p: Pred, after: string)
    requires Blank(before) && Blank(after) && Ok(p)
    ensures PredicateTruth(before + Show(p) + after) == Yes <==> forall plain, negated :: EvalApart(p, plain, negated)
    ensures PredicateTruth(before + Show(p) + after) == No <==> forall plain, negated :: !EvalApart(p, plain, negated)
  {
    TruthIsKleene(before, p, after);
    forall plain: set<string>, negated: set<string>
      ensures Kleene(p) == Yes ==> EvalApart(p, plain, negated)
      ensures Kleene(p) == No ==> !EvalApart(p, plain, negated)
    {
      KleeneIsSoundApart(p, plain, negated);
    }
    Extremes(p, Occurs(p, true), {});
    Extremes(p, {}, Occurs(p, false));
  }

  /** No atom occurs both plain and negated. */
  predicate OnePolarity(p: Pred)
  {
    Occurs(p, true) !! Occurs(p, false)
  }

  /** The configuration that enables the plain atoms is the most favourable one. */
  lemma Favourable(p: Pred, on: set<string>)
    requires Occurs(p, true) <= on && Occurs(p, false) !! on
    ensures Eval(p, on) <==> Kleene(p) != No
  {
    Extremes(p, on, on);
    TogetherIsEval(p, on);
  }

  /** When no atom occurs in both ways the answer is exact: true (false) exactly
      when every configuration makes it so. */
  lemma TruthIsExactWhenUnmixed(before: string, p: Pred, after: string)
    requires Blank(before) && Blank(after) && Ok(p) && OnePolarity(p)
    ensures PredicateTruth(before + Show(p) + after) == Yes <==> forall on :: Eval(p, on)
    ensures PredicateTruth(before + Show(p) + after) == No <==> forall on :: !Eval(p, on)
  {
    TruthIsKleene(before, p, after);
    forall on: set<string> ensures Kleene(p) == Yes ==> Eval(p, on) { KleeneIsSound(p, on); }
    forall on: set<string> ensures Kleene(p) == No ==> !Eval(p, on) { KleeneIsSound(p, on); }
    var most, least := Occurs(p, true), Occurs(p, false);
    Favourable(p, most);
    Extremes(p, least, least);
    TogetherIsEval(p, least);
  }

  function Negation(p: Pred): Pred
  {
    Call(Not, "", Last(Arg("", p, "")))
  }

  function Either(p: Pred, q: Pred): Pred
  {
    Call(Any, "", More(Arg("", p, ""), Last(Arg("", q, ""))))
  }

  lemma EitherHolds(p: Pred, on: set<string>)
    ensures Eval(Either(p, Negation(p)), on)
  {
    var n, args := Negation(p), Either(p, Negation(p)).args;
    assert Eval(n, on) == !Eval(p, on);
    assert EvalAny(args.rest, on) == Eval(n, on);
  }

  lemma NegationText(p: Pred)
    ensures Show(Negation(p)) == "not(" + Show(p) + ")"
  {
    assert SlotTexts(Negation(p).args) == ["" + Show(p) + ""];
  }

  lemma EitherText(p: Pred, q: Pred)
    ensures Show(Either(p, q)) == "any(" + Show(p) + "," + Show(q) + ")"
  {
    var first, last := Arg("", p, ""), Last(Arg("", q, ""));
    assert ShowSlot(first) == Show(p) && ShowSlot(last.slot) == Show(q);
    assert SlotTexts(last) == [Show(q)];
    assert SlotTexts(More(first, last)) == [Show(p)] + [Show(q)];
    JoinTwo(Show(p), Show(q));
    AnySpelled(Show(p), Show(q));
  }

  lemma AnySpelled(a: string, b: string)
    ensures "any" + "" + "(" + (a + "," + b) + ")" == "any(" + a + "," + b + ")"
  {
    assert "any" + "" + "(" == "any(";
  }

  lemma JoinTwo(a: string, b: string)
    ensures Join([a] + [b]) == a + "," + b
  {
    assert ([a] + [b])[1..] == [b];
  }

  lemma EitherIsMixed(a: string)
    ensures var p := Either(Atom(a), Negation(Atom(a))); Ok(p) == AtomOk(a) && !OnePolarity(p) && Kleene(p) == Unknown
  {
    var inner := Last(Arg("", Atom(a), ""));
    assert Occurs(Atom(a), true) == {a} && OccursIn(inner, true) == {a} && KleeneAny(inner) == Unknown;
    assert Ok(Atom(a)) == AtomOk(a) && SlotOk(inner.slot) == AtomOk(a) && ArgsOk(inner) == AtomOk(a) && Count(inner) == 1;
    var n := Negation(Atom(a));
    assert Occurs(n, false) == {a} && Kleene(n) == Unknown && Ok(n) == AtomOk(a);
    var last := Last(Arg("", n, ""));
    assert SlotOk(last.slot) == AtomOk(a);
    assert OccursIn(last, false) == {a} && KleeneAny(last) == Unknown && ArgsOk(last) == AtomOk(a);
    var args := More(Arg("", Atom(a), ""), last);
    assert SlotOk(args.slot) == AtomOk(a) && ArgsOk(args) == AtomOk(a);
    assert a in OccursIn(args, true) && a in OccursIn(args, false) && KleeneAny(args) == Unknown;
  }

  /** `any(a,not(a))` holds in every configuration, and the answer is "unknown". */
  lemma MixedAtomStaysUnknown()
    returns (p: Pred)
    ensures Show(p) == "any(a,not(a))" && Ok(p) && !OnePolarity(p)
    ensures PredicateTruth(Show(p)) == Unknown && forall on :: Eval(p, on)
  {
    p := Either(Atom("a"), Negation(Atom("a")));
    MixedText();
    EitherIsMixed("a");
    UnknownIsAnswered(p);
    forall on: set<string> ensures Eval(p, on) { EitherHolds(Atom("a"), on); }
  }

  lemma MixedText()
    ensures Show(Either(Atom("a"), Negation(Atom("a")))) == "any(a,not(a))"
  {
    NegationText(Atom("a"));
    EitherText(Atom("a"), Negation(Atom("a")));
    assert Show(Atom("a")) == "a";
  }

  lemma UnknownIsAnswered(p: Pred)
    requires Ok(p) && Kleene(p) == Unknown
    ensures PredicateTruth(Show(p)) == Unknown
  {
    TruthIsKleene("", p, "");
    assert "" + Show(p) + "" == Show(p);
  }

  // ----- masking loses the names of atoms, not the answer -----

  /** Equal but for the atoms and the layout, as a predicate and its masked form
      are: masking blanks the string in `feature = "..."`. */
  predicate SameShape(p: Pred, q: Pred)
  {
    match p
    case Const(_) => q == p
    case Atom(_) => q.Atom?
    case Call(kind, _, args) => q.Call? && q.kind == kind && SameArgs(args, q.args)
  }

  predicate SameArgs(a: Args, b: Args)
  {
    && a.slot.Arg? == b.slot.Arg? && (a.slot.Arg? ==> SameShape(a.slot.pred, b.slot.pred))
    && a.More? == b.More? && (a.More? ==> SameArgs(a.rest, b.rest))
  }

  lemma {:induction false} KleeneOfShape(p: Pred, q: Pred)
    requires SameShape(p, q)
    ensures Kleene(p) == Kleene(q)
    decreases p
  {
    if p.Call? { KleeneOfArgs(p.args, q.args); }
  }

  lemma {:induction false} KleeneOfArgs(a: Args, b: Args)
    requires SameArgs(a, b)
    ensures KleeneAll(a) == KleeneAll(b) && KleeneAny(a) == KleeneAny(b)
    decreases a
  {
    if a.slot.Arg? { KleeneOfShape(a.slot.pred, b.slot.pred); }
    if a.More? { KleeneOfArgs(a.rest, b.rest); }
  }
}
