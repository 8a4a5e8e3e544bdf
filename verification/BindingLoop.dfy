/**
 The binding resolver: a loop over an unordered set of declarators that runs until a pass changes nothing.

 `FixedPointExactly`: every visiting order ends in a fixed point, and then all in the same one, the least, if and only
 if no key can be derived to two bindings; `OutcomeIsDerived`: it then binds exactly what can be derived.
 `BindingOrder.dfy` shows what happens otherwise.
 */
module BindingLoop {
  import opened Prelude
  import opened Bindings
  import opened BindingRules

  // ---------------------------------------------------------------- the loop

  datatype Loop = Loop(table: Table, unresolved: set<Declarator>, changed: bool)

  /** One visit: drop, bind, or leave for the next pass. A later visit overwrites an earlier binding. */
  function Visit(src: Source, s: Loop, d: Declarator): Loop {
    if d.name.None? || d.value.None? || d.scopes == [] then s.(unresolved := s.unresolved - {d})
    else
      match Resolve(src, s.table, d)
      case None => s
      case Some(x) => Loop(s.table[src.KeyOf(d) := x], s.unresolved - {d}, true)
  }

  function Pass(src: Source, s: Loop, order: seq<Declarator>): Loop
    decreases |order|
  {
    if order == [] then s else Visit(src, Pass(src, s, order[..|order| - 1]), order[|order| - 1])
  }

  /** `order` visits each member of `all` once. */
  ghost predicate Permutes(order: seq<Declarator>, all: set<Declarator>) {
    && (forall d :: d in order <==> d in all)
    && forall i, j :: 0 <= i < j < |order| ==> order[i] != order[j]
  }

  /** The loop from `s` on, with one visiting order per pass, ends in `final`. */
  ghost predicate Ends(src: Source, s: Loop, passes: seq<seq<Declarator>>, final: Table)
    decreases |passes|
  {
    && passes != [] && Permutes(passes[0], s.unresolved)
    && var after := Pass(src, s.(changed := false), passes[0]);
       if after.changed then Ends(src, after, passes[1..], final) else |passes| == 1 && final == after.table
  }

  function Begin(src: Source): Loop { Loop(src.Base(), src.declarators, true) }

  /** Some choice of visiting orders ends in `final`. */
  ghost predicate Outcome(src: Source, final: Table) { exists passes :: Ends(src, Begin(src), passes, final) }

  lemma PassStep(src: Source, s: Loop, order: seq<Declarator>, i: nat)
    requires i < |order|
    ensures Pass(src, s, order[..i + 1]) == Visit(src, Pass(src, s, order[..i]), order[i])
  {
    hide Visit;
    assert order[..i + 1][..i] == order[..i];
  }

  /**
   The loop. Each pass visits a snapshot of the unresolved set in an order nobody chooses, and sees bindings made
   earlier in the same pass. It ends after at most one more pass than there are declarators.
   */
  method ResolveBindings(src: Source) returns (bindings: Table, ghost orders: seq<seq<Declarator>>)
    requires src.WellFormed()
    ensures Ends(src, Begin(src), orders, bindings) && |orders| <= |src.declarators| + 1
    ensures if Consistent(src) then Least(src, bindings) else !Closed(src, bindings)
    ensures forall k :: k in bindings ==> Derivable(src, k, bindings[k])
    ensures Unambiguous(src) ==> forall k, x :: Derivable(src, k, x) ==> k in bindings && bindings[k] == x
  {
    bindings := src.Base();
    var unresolved, changed := src.declarators, true;
    orders := [];
    hide Visit, Ends;
    ghost var s := Begin(src);
    ResumeStart(src);
    while changed
      invariant s == Loop(bindings, unresolved, changed) && unresolved <= src.declarators
      invariant |orders| + |unresolved| <= |src.declarators| + (if changed then 0 else 1)
      invariant if changed then Resumes(src, orders, s) else Ends(src, Begin(src), orders, bindings)
      decreases |unresolved|, changed
    {
      ghost var before := s;
      ghost var order: seq<Declarator> := [];
      changed := false;
      var snapshot := unresolved;
      while snapshot != {}
        invariant snapshot <= unresolved <= before.unresolved
        invariant Permutes(order, before.unresolved - snapshot)
        invariant Pass(src, before.(changed := false), order) == Loop(bindings, unresolved, changed)
        invariant changed ==> unresolved < before.unresolved
        decreases snapshot
      {
        var d :| d in snapshot;
        snapshot := snapshot - {d};
        VisitNext(src, before.(changed := false), order, d, before.unresolved - snapshot);
        ghost var was := Loop(bindings, unresolved, changed);
        if d.name.None? || d.value.None? {
          unresolved := unresolved - {d};
        } else {
          var found := Resolve(src, bindings, d);
          if found.Some? {
            bindings := bindings[src.KeyOf(d) := found.value];
            unresolved := unresolved - {d};
            changed := true;
          }
        }
        assert Visit(src, was, d) == Loop(bindings, unresolved, changed) by { VisitIs(src, was, d); }
        order := order + [d];
      }
      Shrinks(unresolved, before.unresolved);
      assert before.unresolved - {} == before.unresolved;
      s := Loop(bindings, unresolved, changed);
      ResumePass(src, orders, before, order, s);
      orders := orders + [order];
    }
    FixedPointExactly(src, bindings);
    OutcomeIsDerivable(src, bindings);
    ConsistentExactly(src);
    if Consistent(src) {
      BoundExactly(src, bindings);
    }
  }

  lemma VisitIs(src: Source, s: Loop, d: Declarator)
    ensures Visit(src, s, d) ==
      if d.name.None? || d.value.None? || d.scopes == [] then s.(unresolved := s.unresolved - {d})
      else if Resolve(src, s.table, d).None? then s
      else Loop(s.table[src.KeyOf(d) := Resolve(src, s.table, d).value], s.unresolved - {d}, true)
  {
    hide Resolve;
  }

  lemma VisitNext(src: Source, s: Loop, order: seq<Declarator>, d: Declarator, all: set<Declarator>)
    requires d in all && Permutes(order, all - {d})
    ensures Permutes(order + [d], all) && Pass(src, s, order + [d]) == Visit(src, Pass(src, s, order), d)
  {
    hide Visit;
    var more := order + [d];
    PassStep(src, s, more, |order|);
    assert more[..|order| + 1] == more && more[..|order|] == order;
    assert forall i :: 0 <= i < |order| ==> more[i] == order[i] && order[i] in order;
  }

  /** After these passes the loop is at `s`, whatever follows. */
  ghost predicate Resumes(src: Source, passes: seq<seq<Declarator>>, s: Loop) {
    forall more, final :: Ends(src, s, more, final) ==> Ends(src, Begin(src), passes + more, final)
  }

  lemma ResumeStart(src: Source)
    ensures Resumes(src, [], Begin(src))
  {
    hide Ends;
    forall more, final | Ends(src, Begin(src), more, final)
      ensures Ends(src, Begin(src), [] + more, final)
    {
      assert [] + more == more;
    }
  }

  lemma ResumePass(src: Source, passes: seq<seq<Declarator>>, s: Loop, order: seq<Declarator>, after: Loop)
    requires Resumes(src, passes, s) && Permutes(order, s.unresolved) && after == Pass(src, s.(changed := false), order)
    ensures if after.changed then Resumes(src, passes + [order], after)
      else Ends(src, Begin(src), passes + [order], after.table)
  {
    hide Pass, Permutes;
    if after.changed {
      forall more, final | Ends(src, after, more, final)
        ensures Ends(src, Begin(src), passes + [order] + more, final)
      {
        assert ([order] + more)[1..] == more && Ends(src, s, [order] + more, final);
        assert passes + [order] + more == passes + ([order] + more);
      }
    } else {
      assert Ends(src, s, [order], after.table);
    }
  }

  lemma Shrinks(a: set<Declarator>, b: set<Declarator>)
    requires a <= b
    ensures |a| <= |b| && (a < b ==> |a| < |b|)
  {
    assert b == a + (b - a) && |b| == |a| + |b - a|;
    if a < b {
      assert b - a != {};
    }
  }

  // ---------------------------------------------------------------- every order

  lemma VisitProgress(src: Source, s: Loop, d: Declarator)
    requires src.WellFormed() && Consistent(src) && Progress(src, s.table, s.unresolved) && d in s.unresolved
    ensures Progress(src, Visit(src, s, d).table, Visit(src, s, d).unresolved)
  {
    assert d in src.declarators;
    hide Progress, Resolve;
    if d.name.None? || d.value.None? {
      ProgressDrop(src, s.table, s.unresolved, d);
    } else if Resolve(src, s.table, d).Some? {
      ProgressStep(src, s.table, s.unresolved, d);
    }
  }

  /**
   During a pass: what is still to be visited is still unresolved, and a pass that changes nothing resolves nothing.
   */
  lemma {:induction false} PassProgress(src: Source, s: Loop, order: seq<Declarator>, n: nat)
    requires src.WellFormed() && Consistent(src) && Progress(src, s.table, s.unresolved)
    requires !s.changed && Permutes(order, s.unresolved) && n <= |order|
    ensures var now := Pass(src, s, order[..n]);
            && Progress(src, now.table, now.unresolved) && now.unresolved <= s.unresolved
            && (forall i :: n <= i < |order| ==> order[i] in now.unresolved)
            && (!now.changed ==> now.table == s.table)
            && (!now.changed ==> forall i :: 0 <= i < n ==>
                 order[i] !in now.unresolved || Resolve(src, s.table, order[i]).None?)
  {
    hide Progress, Resolve, Consistent;
    if n == 0 {
      assert order[..0] == [];
    } else {
      PassProgress(src, s, order, n - 1);
      PassStep(src, s, order, n - 1);
      VisitProgress(src, Pass(src, s, order[..n - 1]), order[n - 1]);
    }
  }

  lemma {:induction false} EndsLeast(src: Source, s: Loop, passes: seq<seq<Declarator>>, final: Table)
    requires src.WellFormed() && Consistent(src) && Progress(src, s.table, s.unresolved) && Ends(src, s, passes, final)
    ensures Least(src, final)
    decreases |passes|
  {
    hide Progress, Resolve, Consistent, Pass, Least;
    var order, quiet := passes[0], s.(changed := false);
    PassProgress(src, quiet, order, |order|);
    assert order[..|order|] == order;
    var after := Pass(src, quiet, order);
    if after.changed {
      EndsLeast(src, after, passes[1..], final);
    } else {
      forall d | d in after.unresolved
        ensures Resolve(src, after.table, d).None?
      {
        assert d in order;
        var i :| 0 <= i < |order| && order[i] == d;
      }
      QuietPassIsLeast(src, after.table, after.unresolved);
    }
  }

  /** In a consistent source every visiting order ends in the least fixed point. */
  lemma OutcomeIsLeast(src: Source, final: Table)
    requires src.WellFormed() && Consistent(src) && Outcome(src, final)
    ensures Least(src, final)
  {
    hide Progress, Consistent, Ends, Least;
    var passes :| Ends(src, Begin(src), passes, final);
    ProgressStart(src);
    EndsLeast(src, Begin(src), passes, final);
  }

  // ---------------------------------------------------------------- every outcome, by rules

  ghost predicate Grounded(src: Source, b: Table) { OnlyDeclared(src, b) && AllDerivable(src, b) }

  lemma VisitGrounded(src: Source, s: Loop, d: Declarator)
    requires d in src.declarators && Grounded(src, s.table) && s.unresolved <= src.declarators
    ensures var now := Visit(src, s, d); Grounded(src, now.table) && now.unresolved <= src.declarators
  {
    hide Resolve, Derivable;
    if src.Named(d) && Resolve(src, s.table, d).Some? {
      assert src.Declared(src.KeyOf(d));
      ResolveDerives(src, s.table, d);
    }
  }

  lemma {:induction false} PassGrounded(src: Source, s: Loop, order: seq<Declarator>)
    requires Grounded(src, s.table) && s.unresolved <= src.declarators
             && forall d :: d in order ==> d in src.declarators
    ensures var now := Pass(src, s, order); Grounded(src, now.table) && now.unresolved <= src.declarators
    decreases |order|
  {
    hide Visit, Grounded;
    if order != [] {
      PassGrounded(src, s, order[..|order| - 1]);
      VisitGrounded(src, Pass(src, s, order[..|order| - 1]), order[|order| - 1]);
    }
  }

  lemma {:induction false} EndsGrounded(src: Source, s: Loop, passes: seq<seq<Declarator>>, final: Table)
    requires Grounded(src, s.table) && s.unresolved <= src.declarators && Ends(src, s, passes, final)
    ensures Grounded(src, final)
    decreases |passes|
  {
    hide Pass, Grounded;
    PassGrounded(src, s.(changed := false), passes[0]);
    var after := Pass(src, s.(changed := false), passes[0]);
    if after.changed {
      EndsGrounded(src, after, passes[1..], final);
    }
  }

  /** Whatever the source and the visiting order, nothing is bound that cannot be derived. */
  lemma OutcomeIsDerivable(src: Source, final: Table)
    requires src.WellFormed() && Outcome(src, final)
    ensures forall k :: k in final ==> Derivable(src, k, final[k])
  {
    hide Ends, Derivable;
    var passes :| Ends(src, Begin(src), passes, final);
    BaseDerivable(src);
    assert OnlyDeclared(src, src.Base());
    EndsGrounded(src, Begin(src), passes, final);
  }

  /** In an unambiguous source every visiting order binds exactly what can be derived. */
  lemma OutcomeIsDerived(src: Source, final: Table)
    requires src.WellFormed() && Unambiguous(src) && Outcome(src, final)
    ensures forall k, x :: (k in final && final[k] == x) <==> Derivable(src, k, x)
  {
    hide Outcome, Derivable, Unambiguous;
    ConsistentExactly(src);
    OutcomeIsLeast(src, final);
    BoundExactly(src, final);
  }

  /**
   Exactly when the loop meets its purpose: every visiting order ends in a fixed point if and only if no key can be
   derived to two bindings, and one order is enough to tell; then all orders end in the same table, the least fixed
   point.
   */
  lemma FixedPointExactly(src: Source, final: Table)
    requires src.WellFormed() && Outcome(src, final)
    ensures Closed(src, final) <==> Consistent(src)
    ensures Closed(src, final) <==> Unambiguous(src)
    ensures Closed(src, final) ==> Least(src, final) && forall other :: Outcome(src, other) ==> other == final
  {
    hide Outcome, Closed, Supported, Unambiguous;
    ConsistentExactly(src);
    if Consistent(src) {
      OutcomeIsLeast(src, final);
      forall other | Outcome(src, other)
        ensures other == final
      {
        OutcomeIsLeast(src, other);
        Confluent(src, other, final);
      }
    }
  }
}
