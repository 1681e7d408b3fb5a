/** `predicate_truth` of scripts/live_inventory.py: a three-valued evaluator of
    `cfg(...)` predicates that works directly on text. */
module CfgPredicate {
  import opened Text
  import opened Attributes

  datatype Truth = No | Unknown | Yes
  datatype Kind = All | Any | Not

  // ----- the evaluator -----

  function Name(kind: Kind): string
  {
    match kind case All => "all" case Any => "any" case Not => "not"
  }

  /** The text between the parentheses when `text` reads `name (...`. */
  function CallBody(text: string, kind: Kind): (r: Option<string>)
    ensures r.Some? ==> |r.value| < |text|
  {
    if !Starts(text, Name(kind)) then None else
    var rest := LStrip(text[3..]);
    LStripShorter(text[3..]);
    if rest == "" || rest[0] != '(' then None
    else if rest[|rest| - 1] == ')' then Some(rest[1..|rest| - 1])
    else Some(rest[1..])
  }

  function NonBlank(parts: seq<string>): (r: seq<string>)
    ensures forall p :: p in r ==> p in parts
  {
    if parts == [] then []
    else if Strip(parts[0]) == "" then NonBlank(parts[1..])
    else [parts[0]] + NonBlank(parts[1..])
  }

  lemma {:induction false} SplitPartsFit(t: string, depth: int)
    ensures forall p :: p in Split(t, depth) ==> |p| <= |t|
    decreases |t|
  {
    if t != "" {
      var d := depth + Nesting(t[0]);
      SplitPartsFit(t[1..], if t[0] == ',' && depth == 0 then 0 else d);
    }
  }

  predicate Every(values: seq<Truth>, v: Truth)
  {
    forall i :: 0 <= i < |values| ==> values[i] == v
  }

  function Combine(kind: Kind, values: seq<Truth>): Truth
  {
    match kind
    case Not => if |values| != 1 || values[0] == Unknown then Unknown else if values[0] == Yes then No else Yes
    case All => if No in values then No else if Every(values, Yes) then Yes else Unknown
    case Any => if Yes in values then Yes else if Every(values, No) then No else Unknown
  }

  function PredicateTruth(source: string): Truth
    decreases |source|, 0
  {
    var text := Strip(source);
    if text == "true" then Yes
    else if text == "false" then No
    else if CallBody(text, All).Some? then CallTruth(All, CallBody(text, All).value)
    else if CallBody(text, Any).Some? then CallTruth(Any, CallBody(text, Any).value)
    else if CallBody(text, Not).Some? then CallTruth(Not, CallBody(text, Not).value)
    else Unknown
  }

  function CallTruth(kind: Kind, inner: string): Truth
    decreases |inner|, 2
  {
    var parts := NonBlank(Split(inner, 0));
    SplitPartsFit(inner, 0);
    Combine(kind, PartTruths(parts, |inner|))
  }

  function PartTruths(parts: seq<string>, bound: nat): (values: seq<Truth>)
    requires forall p :: p in parts ==> |p| <= bound
    ensures |values| == |parts|
    decreases bound, 1, |parts|
  {
    if parts == [] then [] else [PredicateTruth(parts[0])] + PartTruths(parts[1..], bound)
  }

  // ----- predicates as syntax, with any layout -----

  datatype Pred = Const(value: bool) | Atom(text: string) | Call(kind: Kind, gap: string, args: Args)
  datatype Args = Last(slot: Slot) | More(slot: Slot, rest: Args)
  /** What stands between two commas: an argument, or nothing but space. */
  datatype Slot = Gap(blank: string) | Arg(before: string, pred: Pred, after: string)

  function Show(p: Pred): string
  {
    match p
    case Const(b) => if b then "true" else "false"
    case Atom(text) => text
    case Call(kind, gap, args) => Name(kind) + gap + "(" + Join(SlotTexts(args)) + ")"
  }

  function SlotTexts(args: Args): (r: seq<string>)
    ensures r != []
  {
    match args
    case Last(slot) => [ShowSlot(slot)]
    case More(slot, rest) => [ShowSlot(slot)] + SlotTexts(rest)
  }

  function ShowSlot(slot: Slot): string
  {
    match slot
    case Gap(blank) => blank
    case Arg(before, pred, after) => before + Show(pred) + after
  }

  predicate AtomOk(text: string)
  {
    && text != "" && Trimmed(text) && text != "true" && text != "false"
    && forall i :: 0 <= i < |text| ==> Nesting(text[i]) == 0 && text[i] != ','
  }

  predicate Ok(p: Pred)
  {
    match p
    case Const(b) => true
    case Atom(text) => AtomOk(text)
    case Call(kind, gap, args) => Blank(gap) && ArgsOk(args) && (kind == Not ==> Count(args) == 1)
  }

  predicate ArgsOk(args: Args)
  {
    match args
    case Last(slot) => SlotOk(slot)
    case More(slot, rest) => SlotOk(slot) && ArgsOk(rest)
  }

  predicate SlotOk(slot: Slot)
  {
    match slot
    case Gap(blank) => Blank(blank)
    case Arg(before, pred, after) => Blank(before) && Blank(after) && Ok(pred)
  }

  function Count(args: Args): nat
  {
    match args
    case Last(slot) => if slot.Arg? then 1 else 0
    case More(slot, rest) => (if slot.Arg? then 1 else 0) + Count(rest)
  }

  // ----- meanings -----

  /** Boolean value under the configuration that enables exactly the atoms in `on`. */
  predicate Eval(p: Pred, on: set<string>)
  {
    match p
    case Const(b) => b
    case Atom(text) => text in on
    case Call(All, _, args) => EvalAll(args, on)
    case Call(Any, _, args) => EvalAny(args, on)
    case Call(Not, _, args) => !EvalAny(args, on)
  }

  predicate EvalAll(args: Args, on: set<string>)
  {
    match args
    case Last(slot) => slot.Arg? ==> Eval(slot.pred, on)
    case More(slot, rest) => (slot.Arg? ==> Eval(slot.pred, on)) && EvalAll(rest, on)
  }

  predicate EvalAny(args: Args, on: set<string>)
  {
    match args
    case Last(slot) => slot.Arg? && Eval(slot.pred, on)
    case More(slot, rest) => (slot.Arg? && Eval(slot.pred, on)) || EvalAny(rest, on)
  }

  function Min(a: Truth, b: Truth): Truth
  {
    if a == No || b == No then No else if a == Yes then b else a
  }

  function Max(a: Truth, b: Truth): Truth
  {
    if a == Yes || b == Yes then Yes else if a == No then b else a
  }

  function Negate(a: Truth): Truth
  {
    match a case No => Yes case Yes => No case Unknown => Unknown
  }

  /** Strong Kleene evaluation with every atom unknown: conjunction is minimum,
      disjunction is maximum. */
  function Kleene(p: Pred): Truth
  {
    match p
    case Const(b) => if b then Yes else No
    case Atom(_) => Unknown
    case Call(All, _, args) => KleeneAll(args)
    case Call(Any, _, args) => KleeneAny(args)
    case Call(Not, _, args) => Negate(KleeneAny(args))
  }

  function KleeneAll(args: Args): Truth
  {
    match args
    case Last(slot) => if slot.Arg? then Kleene(slot.pred) else Yes
    case More(slot, rest) => Min(if slot.Arg? then Kleene(slot.pred) else Yes, KleeneAll(rest))
  }

  function KleeneAny(args: Args): Truth
  {
    match args
    case Last(slot) => if slot.Arg? then Kleene(slot.pred) else No
    case More(slot, rest) => Max(if slot.Arg? then Kleene(slot.pred) else No, KleeneAny(rest))
  }

  // ----- layout lemmas -----

  lemma {:induction false} NetConcat(u: string, v: string)
    ensures Net(u + v) == Net(u) + Net(v)
    decreases |u|
  {
    if u == "" {
      assert u + v == v;
    } else {
      assert (u + v)[1..] == u[1..] + v;
      NetConcat(u[1..], v);
    }
  }

  lemma {:induction false} NoTopCommaConcat(u: string, v: string, depth: int)
    ensures NoTopComma(u + v, depth) <==> NoTopComma(u, depth) && NoTopComma(v, depth + Net(u))
    decreases |u|
  {
    if u == "" {
      assert u + v == v;
    } else {
      assert (u + v)[1..] == u[1..] + v;
      NoTopCommaConcat(u[1..], v, depth + Nesting(u[0]));
    }
  }

  /** Text that may stand inside an argument list at any depth from `least` up. */
  ghost predicate Closed(t: string, least: int)
  {
    Net(t) == 0 && forall d :: d >= least ==> NoTopComma(t, d)
  }

  lemma ClosedConcat(u: string, v: string, least: int)
    requires Closed(u, least) && Closed(v, least)
    ensures Closed(u + v, least)
  {
    NetConcat(u, v);
    forall d | d >= least ensures NoTopComma(u + v, d) { NoTopCommaConcat(u, v, d); }
  }

  lemma {:induction false} FlatIsClosed(t: string)
    requires forall i :: 0 <= i < |t| ==> Nesting(t[i]) == 0 && t[i] != ','
    ensures Closed(t, 0)
  {
    if t != "" {
      FlatIsClosed(t[1..]);
      assert forall d :: d >= 0 ==> NoTopComma(t, d);
    }
  }

  lemma BlankIsClosed(t: string)
    requires Blank(t)
    ensures Closed(t, 0)
  {
    FlatIsClosed(t);
  }

  lemma {:induction false} JoinIsClosed(parts: seq<string>)
    requires parts != [] && forall p :: p in parts ==> Closed(p, 0)
    ensures Closed(Join(parts), 1)
    decreases |parts|
  {
    assert Closed(parts[0], 0);
    assert Closed(parts[0], 1);
    if |parts| > 1 {
      JoinIsClosed(parts[1..]);
      CommaIsClosed();
      ClosedConcat(parts[0], ",", 1);
      ClosedConcat(parts[0] + ",", Join(parts[1..]), 1);
    }
  }

  lemma CommaIsClosed()
    ensures Closed(",", 1)
  {
    assert ","[1..] == "";
    assert forall d :: d >= 1 ==> NoTopComma(",", d);
  }

  lemma ParenthesizedIsClosed(t: string)
    requires Closed(t, 1)
    ensures Closed("(" + t + ")", 0)
  {
    var u := "(" + t + ")";
    assert u[1..] == t + ")";
    NetConcat(t, ")");
    assert ")"[1..] == "";
    forall d | d >= 0 ensures NoTopComma(u, d) {
      NoTopCommaConcat(t, ")", d + 1);
    }
  }

  /** A printed predicate is bracket-closed, has no level-zero comma and needs no trimming. */
  lemma {:induction false} ShowIsClosed(p: Pred)
    requires Ok(p)
    ensures Closed(Show(p), 0)
    ensures Show(p) != "" && Trimmed(Show(p))
    decreases p
  {
    match p
    case Const(b) => FlatIsClosed(Show(p));
    case Atom(text) => FlatIsClosed(text);
    case Call(kind, gap, args) =>
      SlotsAreClosed(args);
      JoinIsClosed(SlotTexts(args));
      var inner := Join(SlotTexts(args));
      ParenthesizedIsClosed(inner);
      FlatIsClosed(Name(kind));
      BlankIsClosed(gap);
      ClosedConcat(Name(kind), gap, 0);
      ClosedConcat(Name(kind) + gap, "(" + inner + ")", 0);
      assert Show(p) == Name(kind) + gap + ("(" + inner + ")");
  }

  lemma {:induction false} SlotsAreClosed(args: Args)
    requires ArgsOk(args)
    ensures forall t :: t in SlotTexts(args) ==> Closed(t, 0)
    decreases args
  {
    SlotIsClosed(args.slot);
    if args.More? { SlotsAreClosed(args.rest); }
  }

  lemma {:induction false} SlotIsClosed(slot: Slot)
    requires SlotOk(slot)
    ensures Closed(ShowSlot(slot), 0)
    decreases slot
  {
    match slot
    case Gap(blank) => BlankIsClosed(blank);
    case Arg(before, pred, after) =>
      BlankIsClosed(before);
      BlankIsClosed(after);
      ShowIsClosed(pred);
      ClosedConcat(before, Show(pred), 0);
      ClosedConcat(before + Show(pred), after, 0);
  }

  lemma {:induction false} ClosedIsSeparable(parts: seq<string>)
    requires parts != [] && forall p :: p in parts ==> Closed(p, 0)
    ensures Separable(parts)
    decreases |parts|
  {
    assert Closed(parts[0], 0);
    if |parts| > 1 { ClosedIsSeparable(parts[1..]); }
  }
}
