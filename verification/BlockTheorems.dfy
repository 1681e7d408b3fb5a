/** Which tests the inventory of `declares_a_test` loses or invents, exactly. */
module BlockTheorems {
  import opened CfgPredicate
  import opened CfgTheorems
  import opened DeclaresTest
  import opened AttributeBlocks
  import opened BlockScan

  // ----- what the scan cannot see -----

  /** A test attribute the recognisers do not accept: its path starts with `::`,
      or its arguments stand in braces or brackets. */
  predicate OddTest(m: Meta)
  {
    NamesTest(m) && !PlainTest(m)
  }

  /** A test emitted, under `on`, in a way the scan does not follow: an odd test
      attribute, or a `cfg_attr` inside a `cfg_attr`. */
  predicate HiddenEmission(e: Emitted, on: set<string>)
  {
    e.Attribute? && if e.meta.Named? then OddTest(e.meta) else Emits(e.meta, on)
  }

  predicate Hidden(m: Meta, on: set<string>)
  {
    match m
    case Named(_, _, _) => OddTest(m)
    case Guard(_, _, _, _, _, _) => false
    case Conditional(_, _, _, _, source, emitted) =>
      Eval(source, on) && exists i :: 0 <= i < |emitted| && HiddenEmission(emitted[i], on)
  }

  predicate HiddenTest(b: Block, on: set<string>)
  {
    Compiled(b, on) && exists i :: 0 <= i < |b.items| && Hidden(b.items[i].meta, on)
  }

  lemma HiddenIsEmitted(m: Meta, on: set<string>)
    requires Hidden(m, on)
    ensures Emits(m, on)
  {
    if m.Conditional? {
      var i :| 0 <= i < |m.emitted| && HiddenEmission(m.emitted[i], on);
      assert m.emitted[i].Attribute? && Emits(m.emitted[i].meta, on);
    }
  }

  /** Whatever is emitted is seen or hidden. */
  lemma EmittedIsSeenOrHidden(m: Meta, on: set<string>)
    requires Emits(m, on)
    ensures PlainTest(m) || SeenConditional(m) || Hidden(m, on)
  {
    if m.Conditional? {
      KleeneIsSound(m.source, on);
      var i :| 0 <= i < |m.emitted| && m.emitted[i].Attribute? && Emits(m.emitted[i].meta, on);
      assert PlainEmission(m.emitted[i]) || HiddenEmission(m.emitted[i], on);
    }
  }

  /** For every block: no configuration makes it a compiled test that the
      inventory lacks, if and only if it has a test the scan sees, or no
      configuration makes it one in a way hidden from the scan. */
  lemma NoTestIsLostExactly(b: Block)
    requires BlockOk(b)
    ensures (forall on :: IsTest(b, on) ==> DeclaresATest(BlockText(b)))
       <==> Seen(b) || forall on :: !HiddenTest(b, on)
  {
    DeclaresBlock(b);
    forall on: set<string> | HiddenTest(b, on) ensures IsTest(b, on) {
      var i :| 0 <= i < |b.items| && Hidden(b.items[i].meta, on);
      HiddenIsEmitted(b.items[i].meta, on);
    }
    forall on: set<string> | IsTest(b, on) ensures Seen(b) || HiddenTest(b, on) {
      var i :| 0 <= i < |b.items| && Emits(b.items[i].meta, on);
      EmittedIsSeenOrHidden(b.items[i].meta, on);
    }
  }

  // ----- the same, decided on the syntax -----

  /** Some configuration could make it a test, for all that the predicates on the way tell. */
  predicate Possible(m: Meta)
    decreases m
  {
    match m
    case Named(_, _, _) => NamesTest(m)
    case Guard(_, _, _, _, _, _) => false
    case Conditional(_, _, _, _, source, emitted) =>
      Kleene(source) != No && exists i :: 0 <= i < |emitted| && emitted[i].Attribute? && Possible(emitted[i].meta)
  }

  predicate HiddenPossible(m: Meta)
  {
    match m
    case Named(_, _, _) => OddTest(m)
    case Guard(_, _, _, _, _, _) => false
    case Conditional(_, _, _, _, source, emitted) =>
      && Kleene(source) != No
      && exists i :: 0 <= i < |emitted| && emitted[i].Attribute?
           && if emitted[i].meta.Named? then OddTest(emitted[i].meta) else Possible(emitted[i].meta)
  }

  predicate MayHide(b: Block)
  {
    exists i :: 0 <= i < |b.items| && HiddenPossible(b.items[i].meta)
  }

  /** An attribute that is, or may expand to, a `cfg`. */
  predicate Guards(m: Meta)
    decreases m
  {
    m.Guard? || (m.Conditional? && exists i :: 0 <= i < |m.emitted| && m.emitted[i].Attribute? && Guards(m.emitted[i].meta))
  }

  /** Some configuration could let the item be compiled, for all that the predicates tell. */
  predicate Permittable(m: Meta)
    decreases m
  {
    match m
    case Named(_, _, _) => true
    case Guard(_, _, _, _, source, _) => Kleene(source) != No
    case Conditional(_, _, _, _, source, emitted) =>
      Kleene(source) != Yes || forall i :: 0 <= i < |emitted| && emitted[i].Attribute? ==> Permittable(emitted[i].meta)
  }

  predicate Compilable(b: Block)
  {
    forall i :: 0 <= i < |b.items| ==> Permittable(b.items[i].meta)
  }

  /** The atoms, by polarity, that decide what an attribute emits. */
  function Mentions(m: Meta, plain: bool): set<string>
    decreases m
  {
    if m.Conditional? then Occurs(m.source, plain) + MentionsIn(m.emitted, plain) else {}
  }

  function MentionsIn(es: seq<Emitted>, plain: bool): set<string>
    decreases es
  {
    if es == [] then {}
    else (if es[0].Attribute? then Mentions(es[0].meta, plain) else {}) + MentionsIn(es[1..], plain)
  }

  /** The atoms, by polarity, that decide whether its `cfg`s hold: a predicate
      that brings a `cfg` in counts as negated. */
  function GuardMentions(m: Meta, plain: bool): set<string>
    decreases m
  {
    if m.Guard? then Occurs(m.source, plain)
    else if m.Conditional? && Guards(m) then Occurs(m.source, !plain) + GuardMentionsIn(m.emitted, plain)
    else {}
  }

  function GuardMentionsIn(es: seq<Emitted>, plain: bool): set<string>
    decreases es
  {
    if es == [] then {}
    else (if es[0].Attribute? then GuardMentions(es[0].meta, plain) else {}) + GuardMentionsIn(es[1..], plain)
  }

  function BlockGuards(items: seq<Item>, plain: bool): set<string>
  {
    if items == [] then {} else GuardMentions(items[0].meta, plain) + BlockGuards(items[1..], plain)
  }

  /** No atom occurs both plain and negated in what decides about one attribute
      and about the `cfg`s of the block. */
  predicate Unmixed(b: Block)
  {
    forall i :: 0 <= i < |b.items| ==>
      Mentions(b.items[i].meta, true) + BlockGuards(b.items, true) !! Mentions(b.items[i].meta, false) + BlockGuards(b.items, false)
  }

  lemma {:induction false} MentionsOf(es: seq<Emitted>, i: nat, plain: bool)
    requires i < |es| && es[i].Attribute?
    ensures Mentions(es[i].meta, plain) <= MentionsIn(es, plain)
    ensures GuardMentions(es[i].meta, plain) <= GuardMentionsIn(es, plain)
    decreases |es|
  {
    if i > 0 { MentionsOf(es[1..], i - 1, plain); }
  }

  lemma {:induction false} BlockGuardsOf(items: seq<Item>, i: nat, plain: bool)
    requires i < |items|
    ensures GuardMentions(items[i].meta, plain) <= BlockGuards(items, plain)
    decreases |items|
  {
    if i > 0 { BlockGuardsOf(items[1..], i - 1, plain); }
  }

  /** The most favourable configuration emits everything that is possible. */
  lemma {:induction false} FavourableEmits(m: Meta, on: set<string>)
    requires Mentions(m, true) <= on && Mentions(m, false) !! on
    ensures Emits(m, on) <==> Possible(m)
    decreases m
  {
    if m.Conditional? {
      Favourable(m.source, on);
      forall i | 0 <= i < |m.emitted| && m.emitted[i].Attribute?
        ensures Emits(m.emitted[i].meta, on) <==> Possible(m.emitted[i].meta)
      {
        MentionsOf(m.emitted, i, true);
        MentionsOf(m.emitted, i, false);
        FavourableEmits(m.emitted[i].meta, on);
      }
    }
  }

  /** Without a `cfg` inside nothing is forbidden. */
  lemma {:induction false} UnguardedPermits(m: Meta, on: set<string>)
    requires !Guards(m)
    ensures Permits(m, on) && Permittable(m)
    decreases m
  {
    if m.Conditional? {
      forall i | 0 <= i < |m.emitted| && m.emitted[i].Attribute?
        ensures Permits(m.emitted[i].meta, on) && Permittable(m.emitted[i].meta)
      {
        UnguardedPermits(m.emitted[i].meta, on);
      }
    }
  }

  /** The least favourable configuration for a predicate. */
  lemma Unfavourable(p: Pred, on: set<string>)
    requires Occurs(p, true) !! on && Occurs(p, false) <= on
    ensures Eval(p, on) <==> Kleene(p) == Yes
  {
    Extremes(p, on, on);
    TogetherIsEval(p, on);
  }

  /** The most favourable configuration permits everything that can be permitted. */
  lemma {:induction false} FavourablePermits(m: Meta, on: set<string>)
    requires GuardMentions(m, true) <= on && GuardMentions(m, false) !! on
    ensures Permits(m, on) <==> Permittable(m)
    decreases m
  {
    if m.Guard? {
      Favourable(m.source, on);
    } else if m.Conditional? {
      if Guards(m) {
        Unfavourable(m.source, on);
        forall i | 0 <= i < |m.emitted| && m.emitted[i].Attribute?
          ensures Permits(m.emitted[i].meta, on) <==> Permittable(m.emitted[i].meta)
        {
          MentionsOf(m.emitted, i, true);
          MentionsOf(m.emitted, i, false);
          FavourablePermits(m.emitted[i].meta, on);
        }
      } else {
        UnguardedPermits(m, on);
      }
    }
  }

  lemma {:induction false} EmitsIsPossible(m: Meta, on: set<string>)
    requires Emits(m, on)
    ensures Possible(m)
    decreases m
  {
    if m.Conditional? {
      KleeneIsSound(m.source, on);
      var i :| 0 <= i < |m.emitted| && m.emitted[i].Attribute? && Emits(m.emitted[i].meta, on);
      EmitsIsPossible(m.emitted[i].meta, on);
    }
  }

  lemma {:induction false} PermitsIsPermittable(m: Meta, on: set<string>)
    requires Permits(m, on)
    ensures Permittable(m)
    decreases m
  {
    if m.Guard? { KleeneIsSound(m.source, on); }
    if m.Conditional? && Kleene(m.source) == Yes {
      KleeneIsSound(m.source, on);
      forall i | 0 <= i < |m.emitted| && m.emitted[i].Attribute? ensures Permittable(m.emitted[i].meta) {
        PermitsIsPermittable(m.emitted[i].meta, on);
      }
    }
  }

  lemma PossibleIsSeenOrHidden(m: Meta)
    ensures Possible(m) <==> PlainTest(m) || SeenConditional(m) || HiddenPossible(m)
  {
    if m.Conditional? {
      if i :| 0 <= i < |m.emitted| && m.emitted[i].Attribute? && Possible(m.emitted[i].meta) {
        assert PlainEmission(m.emitted[i]) || !m.emitted[i].meta.Named? || OddTest(m.emitted[i].meta);
      }
      if i :| 0 <= i < |m.emitted| && PlainEmission(m.emitted[i]) {
        assert Possible(m.emitted[i].meta);
      }
    }
  }

  /** The block is a compiled test under the configuration of its plain atoms. */
  lemma PossibleIsTest(b: Block, i: nat) returns (on: set<string>)
    requires Unmixed(b) && Compilable(b) && i < |b.items| && Possible(b.items[i].meta)
    ensures IsTest(b, on)
  {
    on := Mentions(b.items[i].meta, true) + BlockGuards(b.items, true);
    FavourableEmits(b.items[i].meta, on);
    forall k | 0 <= k < |b.items| ensures Permits(b.items[k].meta, on) {
      BlockGuardsOf(b.items, k, true);
      BlockGuardsOf(b.items, k, false);
      FavourablePermits(b.items[k].meta, on);
    }
  }

  /** Some configuration makes the block a compiled test exactly when it has an
      attribute that is seen, or one that may hide a test, and its `cfg`s can hold. */
  lemma TestableExactly(b: Block)
    requires Unmixed(b)
    ensures (exists on :: IsTest(b, on)) <==> (Seen(b) || MayHide(b)) && Compilable(b)
  {
    if on :| IsTest(b, on) {
      var i :| 0 <= i < |b.items| && Emits(b.items[i].meta, on);
      EmitsIsPossible(b.items[i].meta, on);
      PossibleIsSeenOrHidden(b.items[i].meta);
      forall k | 0 <= k < |b.items| ensures Permittable(b.items[k].meta) { PermitsIsPermittable(b.items[k].meta, on); }
    }
    if (Seen(b) || MayHide(b)) && Compilable(b) {
      var i :| 0 <= i < |b.items| && (PlainTest(b.items[i].meta) || SeenConditional(b.items[i].meta) || HiddenPossible(b.items[i].meta));
      PossibleIsSeenOrHidden(b.items[i].meta);
      var on := PossibleIsTest(b, i);
    }
  }

  /** When no atom occurs in both ways, the inventory is exact, a block listed if
      and only if some configuration makes it a compiled test, exactly when: if
      the scan sees a test, its `cfg`s can hold; otherwise none is hidden, or its
      `cfg`s cannot hold. */
  lemma InventoryIsExact(b: Block)
    requires BlockOk(b) && Unmixed(b)
    ensures (DeclaresATest(BlockText(b)) <==> exists on :: IsTest(b, on))
       <==> if Seen(b) then Compilable(b) else !MayHide(b) || !Compilable(b)
  {
    DeclaresBlock(b);
    TestableExactly(b);
  }

  // ----- ordinary blocks -----

  /** No rooted path, no arguments in braces or brackets, no nesting. */
  predicate Ordinary(m: Meta)
  {
    match m
    case Named(_, _, _) => !OddTest(m)
    case Guard(_, _, _, _, _, _) => true
    case Conditional(_, _, _, _, _, emitted) =>
      forall i :: 0 <= i < |emitted| && emitted[i].Attribute? ==> !emitted[i].meta.Conditional? && !OddTest(emitted[i].meta)
  }

  /** Without them no test is ever lost, whatever the predicates. */
  lemma NoOrdinaryTestIsLost(b: Block, on: set<string>)
    requires BlockOk(b) && (forall i :: 0 <= i < |b.items| ==> Ordinary(b.items[i].meta)) && IsTest(b, on)
    ensures DeclaresATest(BlockText(b))
  {
    NoTestIsLostExactly(b);
    forall other: set<string> ensures !HiddenTest(b, other) {}
  }
}
