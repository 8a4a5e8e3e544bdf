/**
 What the binding loop does with names that are declared more than once and do not agree.

 `OrderShows`: wherever the loop has got to, if the open declarators of a name all resolve and two of them differ, then
 two visiting orders end in different tables. `RebindingShows`: redeclaring a name that `require` bound can take the
 constructor away from another declarator. `RedeclarationIsOrderDependent` and `RequiredNameIsOrderDependent` are the
 simplest such sources.
 The converse of consistency is not true in general: in `ConflictCanHide` a name has conflicting declarators and yet
 every visiting order ends in the same table, because a third declarator repairs the difference.
 */
module BindingOrder {
  import opened Prelude
  import opened Bindings
  import opened BindingLoop

  // ---------------------------------------------------------------- reached states and complete runs

  /** The loop gets from `from` to `s` by these passes. */
  ghost predicate Reaches(src: Source, from: Loop, passes: seq<seq<Declarator>>, s: Loop)
    decreases |passes|
  {
    if passes == [] then s == from
    else
      && Permutes(passes[0], from.unresolved)
      && var after := Pass(src, from.(changed := false), passes[0]);
         after.changed && Reaches(src, after, passes[1..], s)
  }

  lemma {:induction false} ReachesEnds(src: Source, from: Loop, passes: seq<seq<Declarator>>, s: Loop,
      more: seq<seq<Declarator>>, final: Table)
    requires Reaches(src, from, passes, s) && Ends(src, s, more, final)
    ensures Ends(src, from, passes + more, final)
    decreases |passes|
  {
    hide Pass, Permutes;
    if passes == [] {
      assert passes + more == more;
    } else {
      var after := Pass(src, from.(changed := false), passes[0]);
      ReachesEnds(src, after, passes[1..], s, more, final);
      assert (passes + more)[1..] == passes[1..] + more;
    }
  }

  lemma {:induction false} PassConcat(src: Source, s: Loop, a: seq<Declarator>, b: seq<Declarator>)
    ensures Pass(src, s, a + b) == Pass(src, Pass(src, s, a), b)
  {
    hide Visit;
    if b == [] {
      assert a + b == a;
    } else {
      assert (a + b)[..|a + b| - 1] == a + b[..|b| - 1];
      PassConcat(src, s, a, b[..|b| - 1]);
    }
  }

  /** Only the visited declarators leave the set, and a pass that changes something makes it smaller. */
  lemma {:induction false} PassShrinks(src: Source, s: Loop, order: seq<Declarator>)
    requires forall d :: d in order ==> d in s.unresolved
    ensures var after := Pass(src, s, order);
            && after.unresolved <= s.unresolved && (s.changed ==> after.changed)
            && (after.changed && !s.changed ==> after.unresolved < s.unresolved)
            && (OnlyDeclared(src, s.table) && s.unresolved <= src.declarators ==> OnlyDeclared(src, after.table))
  {
    hide Resolve;
    if order != [] {
      var d := order[|order| - 1];
      PassShrinks(src, s, order[..|order| - 1]);
      assert d in order && (src.Named(d) ==> src.Declared(src.KeyOf(d)));
    }
  }

  /** A visit of `d` may bind `k`. */
  predicate Binds(src: Source, d: Declarator, k: Key) {
    d.name.Some? && d.scopes != [] && d.value.Some? && d.value != Some(OtherValue) && src.KeyOf(d) == k
  }

  /** Visits of other names leave the binding of `k` alone. */
  lemma {:induction false} PassKeepsKey(src: Source, s: Loop, order: seq<Declarator>, k: Key)
    requires k in s.table && forall d :: d in order ==> !Binds(src, d, k)
    ensures k in Pass(src, s, order).table && Pass(src, s, order).table[k] == s.table[k]
  {
    if order != [] {
      var d := order[|order| - 1];
      PassKeepsKey(src, s, order[..|order| - 1], k);
      VisitKeepsKey(src, Pass(src, s, order[..|order| - 1]), d, k);
    }
  }

  lemma VisitKeepsKey(src: Source, s: Loop, d: Declarator, k: Key)
    requires !Binds(src, d, k)
    ensures k in Visit(src, s, d).table <==> k in s.table
    ensures k in s.table ==> Visit(src, s, d).table[k] == s.table[k]
  {
    if d.value == Some(OtherValue) {
      assert Resolve(src, s.table, d) == None;
    }
    hide Resolve;
  }

  lemma {:induction false} ListOf(all: set<Declarator>) returns (order: seq<Declarator>)
    ensures Permutes(order, all)
  {
    if all == {} {
      order := [];
    } else {
      var d :| d in all;
      var rest := ListOf(all - {d});
      order := rest + [d];
      assert forall i :: 0 <= i < |rest| ==> order[i] == rest[i] && rest[i] in rest;
    }
  }

  /** No open declarator names `k`. */
  ghost predicate Done(src: Source, unresolved: set<Declarator>, k: Key) {
    forall d :: d in unresolved ==> !Binds(src, d, k)
  }

  /** From every state the loop can be run to its end; a name with no open declarator keeps its binding. */
  lemma {:induction false} Complete(src: Source, s: Loop, k: Key) returns (passes: seq<seq<Declarator>>, final: Table)
    requires k in s.table && Done(src, s.unresolved, k)
    ensures Ends(src, s, passes, final) && k in final && final[k] == s.table[k]
    decreases s.unresolved
  {
    hide Visit;
    var order := ListOf(s.unresolved);
    var quiet := s.(changed := false);
    var after := Pass(src, quiet, order);
    PassShrinks(src, quiet, order);
    PassKeepsKey(src, quiet, order, k);
    if after.changed {
      var more;
      more, final := Complete(src, after, k);
      passes := [order] + more;
      assert passes[1..] == more;
    } else {
      passes, final := [order], after.table;
    }
  }

  lemma {:induction false} ReachedDeclared(src: Source, from: Loop, passes: seq<seq<Declarator>>, s: Loop)
    requires Reaches(src, from, passes, s) && OnlyDeclared(src, from.table) && from.unresolved <= src.declarators
    ensures OnlyDeclared(src, s.table) && s.unresolved <= src.declarators
    decreases |passes|
  {
    hide Pass, OnlyDeclared;
    if passes != [] {
      PassShrinks(src, from.(changed := false), passes[0]);
      ReachedDeclared(src, Pass(src, from.(changed := false), passes[0]), passes[1..], s);
    }
  }

  // ---------------------------------------------------------------- the last visit wins

  /** The open declarators of `k`. */
  function Open(src: Source, s: Loop, k: Key): set<Declarator> { set d | d in s.unresolved && Binds(src, d, k) }

  /** All open declarators of the name resolve, whatever the name itself is bound to. */
  ghost predicate Ready(src: Source, s: Loop, k: Key) {
    && OnlyDeclared(src, s.table) && src.Declared(k)
    && forall d :: d in Open(src, s, k) ==> Resolve(src, s.table, d).Some? && Steady(src, s.table, k, d)
  }

  function Rebound(b: Table, k: Key, x: Binding): Table { b[k := x] }

  /** What `d` resolves to does not depend on what `k` is bound to. */
  ghost predicate Steady(src: Source, b: Table, k: Key, d: Declarator) {
    forall x :: Resolve(src, Rebound(b, k, x), d) == Resolve(src, b, d)
  }

  /** A name that is not bound yet cannot have been read. */
  lemma UnboundIsSteady(src: Source, b: Table, k: Key, d: Declarator)
    requires k !in b && OnlyDeclared(src, b) && src.Declared(k) && Resolve(src, b, d).Some?
    ensures Steady(src, b, k, d)
  {
    forall x | true
      ensures Resolve(src, Rebound(b, k, x), d) == Resolve(src, b, d)
    {
      ResolveMonotone(src, b, Rebound(b, k, x), d);
    }
  }

  function Members(order: seq<Declarator>): set<Declarator> { set d | d in order }

  lemma MembersSnoc(front: seq<Declarator>, d: Declarator)
    ensures Members(front + [d]) == Members(front) + {d}
  {
  }

  /** The name bound as the last of `order` says, the rest of the table as it was. */
  ghost predicate Bound(src: Source, s: Loop, k: Key, order: seq<Declarator>, after: Loop) {
    && after.unresolved == s.unresolved - Members(order)
    && (if order == [] then after.table == s.table
        else
          && after.changed && Resolve(src, s.table, order[|order| - 1]).Some?
          && after.table == s.table[k := Resolve(src, s.table, order[|order| - 1]).value])
  }

  lemma BoundNone(src: Source, s: Loop, k: Key)
    ensures Bound(src, s, k, [], Pass(src, s, []))
  {
    hide Resolve;
    assert s.unresolved - Members([]) == s.unresolved;
  }

  lemma ResolvedHasValue(src: Source, b: Table, d: Declarator)
    requires Resolve(src, b, d).Some?
    ensures d.value.Some?
  {
  }

  lemma BoundMore(src: Source, s: Loop, k: Key, front: seq<Declarator>, mid: Loop, d: Declarator)
    requires Ready(src, s, k) && d in Open(src, s, k) && Bound(src, s, k, front, mid)
    ensures Bound(src, s, k, front + [d], Visit(src, mid, d))
  {
    hide Resolve, Visit, Members;
    assert Steady(src, s.table, k, d);
    if front != [] {
      var x := Resolve(src, s.table, front[|front| - 1]).value;
      assert mid.table == Rebound(s.table, k, x);
    }
    assert Resolve(src, mid.table, d) == Resolve(src, s.table, d);
    VisitIs(src, mid, d);
    MembersSnoc(front, d);
    assert mid.table[k := Resolve(src, s.table, d).value] == s.table[k := Resolve(src, s.table, d).value];
  }

  /** Visiting some of them binds the name and changes nothing else. */
  lemma {:induction false} GroupVisit(src: Source, s: Loop, k: Key, order: seq<Declarator>)
    requires Ready(src, s, k) && Members(order) <= Open(src, s, k)
    ensures Bound(src, s, k, order, Pass(src, s, order))
  {
    if order == [] {
      BoundNone(src, s, k);
    } else {
      var n := |order| - 1;
      var front, d := order[..n], order[n];
      assert order == front + [d] && order[..n + 1] == order;
      MembersSnoc(front, d);
      hide Resolve, Visit, Open, Pass, Ready, Bound, Members;
      PassStep(src, s, order, n);
      GroupVisit(src, s, k, front);
      BoundMore(src, s, k, front, Pass(src, s, front), d);
    }
  }

  /** A pass that starts with the open declarators of `k`, `d` last among them. */
  lemma LastOrder(src: Source, s: Loop, k: Key, d: Declarator) returns (group: seq<Declarator>, rest: seq<Declarator>)
    requires d in Open(src, s, k)
    ensures group != [] && group[|group| - 1] == d && Permutes(group, Open(src, s, k))
            && Permutes(rest, s.unresolved - Open(src, s, k))
    ensures Permutes(group + rest, s.unresolved)
  {
    var open := Open(src, s, k);
    var others := ListOf(open - {d});
    group := others + [d];
    assert forall i :: 0 <= i < |others| ==> group[i] == others[i] && others[i] in others;
    rest := ListOf(s.unresolved - open);
    var order := group + rest;
    assert forall i :: 0 <= i < |group| ==> order[i] == group[i] && group[i] in group;
    assert forall i :: |group| <= i < |order| ==> order[i] == rest[i - |group|] && rest[i - |group|] in rest;
    assert forall f :: f in order <==> f in group || f in rest;
  }

  lemma RunWithLast(src: Source, s: Loop, k: Key, d: Declarator) returns (passes: seq<seq<Declarator>>, final: Table)
    requires Ready(src, s, k) && d in Open(src, s, k)
    ensures Ends(src, s, passes, final) && k in final && Some(final[k]) == Resolve(src, s.table, d)
  {
    hide Visit, Resolve, Ready, Ends;
    var group, rest := LastOrder(src, s, k, d);
    var quiet := s.(changed := false);
    assert Ready(src, quiet, k) by { ReadyQuiet(src, s, k); }
    assert Members(group) == Open(src, s, k);
    GroupVisit(src, quiet, k, group);
    var mid := Pass(src, quiet, group);
    PassConcat(src, quiet, group, rest);
    var after := Pass(src, mid, rest);
    assert forall f :: f in rest ==> f in mid.unresolved && f !in Open(src, s, k);
    PassKeepsKey(src, mid, rest, k);
    PassShrinks(src, mid, rest);
    var more;
    more, final := Complete(src, after, k);
    passes := [group + rest] + more;
    OnePassMore(src, s, group + rest, after, more, final);
  }

  lemma ReadyQuiet(src: Source, s: Loop, k: Key)
    requires Ready(src, s, k)
    ensures Ready(src, s.(changed := false), k) && Open(src, s.(changed := false), k) == Open(src, s, k)
  {
    hide Resolve;
  }

  lemma OnePassMore(src: Source, s: Loop, order: seq<Declarator>, after: Loop, more: seq<seq<Declarator>>, final: Table)
    requires Permutes(order, s.unresolved) && after == Pass(src, s.(changed := false), order) && after.changed
    requires Ends(src, after, more, final)
    ensures Ends(src, s, [order] + more, final)
  {
    hide Pass, Permutes;
    assert ([order] + more)[1..] == more;
  }

  /**
   Conflicts show. Wherever the loop has got to, if the open declarators of a name all resolve, without reading that
   name if it is bound already, and two of them to different bindings, then two visiting orders end in different tables.
   */
  lemma OrderShows(src: Source, passes: seq<seq<Declarator>>, s: Loop, d: Declarator, e: Declarator)
    returns (t: Table, u: Table)
    requires src.WellFormed() && Reaches(src, Begin(src), passes, s)
    requires d in s.unresolved && e in s.unresolved && src.Named(d) && src.Named(e) && src.KeyOf(d) == src.KeyOf(e)
    requires Resolve(src, s.table, d) != Resolve(src, s.table, e)
    requires forall f :: f in s.unresolved && Binds(src, f, src.KeyOf(d)) ==>
      && Resolve(src, s.table, f).Some?
      && (src.KeyOf(d) in s.table ==> Steady(src, s.table, src.KeyOf(d), f))
    requires Binds(src, d, src.KeyOf(d)) && Binds(src, e, src.KeyOf(d))
    ensures Outcome(src, t) && Outcome(src, u) && t != u
  {
    hide Ends, Reaches, Resolve, Steady;
    var k := src.KeyOf(d);
    ReachedDeclared(src, Begin(src), passes, s);
    assert src.Declared(k);
    forall f | f in Open(src, s, k)
      ensures Resolve(src, s.table, f).Some? && Steady(src, s.table, k, f)
    {
      if k !in s.table {
        UnboundIsSteady(src, s.table, k, f);
      }
    }
    var first, second;
    first, t := RunWithLast(src, s, k, d);
    second, u := RunWithLast(src, s, k, e);
    ReachesEnds(src, Begin(src), passes, s, first, t);
    ReachesEnds(src, Begin(src), passes, s, second, u);
  }

  // ---------------------------------------------------------------- the simplest conflict

  const Plain := Declarator(0, [0], Some("c"), Some(NewExpression(Some(["OpenAI"]), false)))
  const Retrying := Declarator(1, [0], Some("c"), Some(NewExpression(Some(["OpenAI"]), true)))
  const Redeclared := Source({Plain, Retrying}, {"OpenAI"}, {}, {})

  /** `OpenAI` is declared nowhere in these sources. */
  lemma OnlyC(src: Source, b: Table)
    requires src.constructors == {"OpenAI"}
    requires forall d :: src.Named(d) ==> |d.name.value| == 1
    requires forall k :: k in b ==> |k.name| == 1
    ensures Lookup(src, b, [0], "OpenAI") == Some(ConstructorBinding)
  {
    var k := Key(0, "OpenAI");
    assert |k.name| == 6;
    assert [0][1..] == [];
  }

  /** `var c = new OpenAI(); var c = new OpenAI({maxRetries: 2})`: two visiting orders of the loop, two results. */
  lemma RedeclarationIsOrderDependent() returns (t: Table, u: Table)
    ensures Redeclared.WellFormed() && Outcome(Redeclared, t) && Outcome(Redeclared, u) && t != u
  {
    var s := Begin(Redeclared);
    assert s.table == map[];
    OnlyC(Redeclared, s.table);
    assert Redeclared.Named(Plain) && Redeclared.Named(Retrying);
    assert Redeclared.KeyOf(Plain) == Redeclared.KeyOf(Retrying) == Key(0, "c");
    assert "retries_configured" in {"retries_configured"} && {} != {"retries_configured"};
    hide Lookup;
    assert Resolve(Redeclared, s.table, Plain) == Some(Binding(ClientKind, {}));
    assert Resolve(Redeclared, s.table, Retrying) == Some(Binding(ClientKind, {"retries_configured"}));
    t, u := OrderShows(Redeclared, [], s, Plain, Retrying);
  }

  // ---------------------------------------------------------------- rebinding a constructor

  /** Looking `name` up along `scopes` gets as far as `k`. */
  predicate Hits(src: Source, scopes: seq<nat>, name: string, k: Key) {
    && scopes != [] && k.name == name
    && (k.scope == scopes[0] || (!src.Declared(Key(scopes[0], name)) && Hits(src, scopes[1..], name, k)))
  }

  lemma {:induction false} LookupHits(src: Source, b: Table, scopes: seq<nat>, name: string, k: Key)
    requires Hits(src, scopes, name, k) && OnlyDeclared(src, b) && k in b
    ensures Lookup(src, b, scopes, name) == Some(b[k])
  {
    if k.scope != scopes[0] {
      LookupHits(src, b, scopes[1..], name, k);
    }
  }

  /** `c` is `new name()` where `name` is `k`. */
  predicate Constructs(src: Source, c: Declarator, k: Key) {
    && c.name.Some? && c.scopes != [] && c.value.Some? && c.value.value.NewExpression?
    && c.value.value.chain == Some([k.name]) && Hits(src, c.scopes, k.name, k)
  }

  /** The loop only ever binds clients and resources. */
  predicate Product(x: Binding) { x.kind == ClientKind || x.kind == ResourceKind }

  lemma ResolvesToProduct(src: Source, b: Table, d: Declarator)
    ensures Resolve(src, b, d).Some? ==> Product(Resolve(src, b, d).value)
  {
    hide Lookup;
  }

  lemma ConstructsResolves(src: Source, b: Table, c: Declarator, k: Key)
    requires Constructs(src, c, k) && OnlyDeclared(src, b) && k in b
    ensures b[k] == ConstructorBinding ==> Resolve(src, b, c).Some?
    ensures Product(b[k]) ==> Resolve(src, b, c).None?
  {
    LookupHits(src, b, c.scopes, k.name, k);
    hide Lookup;
  }

  /** `k` is no constructor any more, so `c` stays open and its name unbound. */
  ghost predicate Stuck(src: Source, s: Loop, k: Key, c: Declarator, j: Key) {
    && OnlyDeclared(src, s.table) && s.unresolved <= src.declarators && c in s.unresolved
    && k in s.table && Product(s.table[k]) && j !in s.table
    && forall d :: d in s.unresolved && Binds(src, d, j) ==> d == c
  }

  lemma VisitStuck(src: Source, s: Loop, k: Key, c: Declarator, j: Key, d: Declarator)
    requires src.WellFormed() && Stuck(src, s, k, c, j) && Constructs(src, c, k) && j != k && d in s.unresolved
    requires Binds(src, c, j)
    ensures Stuck(src, Visit(src, s, d), k, c, j)
  {
    ConstructsResolves(src, s.table, c, k);
    ResolvesToProduct(src, s.table, d);
    hide Resolve, Visit, Constructs;
    VisitIs(src, s, d);
    var after := Visit(src, s, d);
    if d != c {
      assert !Binds(src, d, j);
      VisitKeepsKey(src, s, d, j);
    }
    forall x | x in after.table
      ensures src.Declared(x)
    {
      if x !in s.table {
        assert src.Named(d) && src.KeyOf(d) == x;
      }
    }
  }

  lemma {:induction false} PassStuck(src: Source, s: Loop, k: Key, c: Declarator, j: Key, order: seq<Declarator>,
      n: nat)
    requires src.WellFormed() && Stuck(src, s, k, c, j) && Constructs(src, c, k) && j != k && Binds(src, c, j)
    requires Permutes(order, s.unresolved) && n <= |order|
    ensures var now := Pass(src, s, order[..n]);
            Stuck(src, now, k, c, j) && forall i :: n <= i < |order| ==> order[i] in now.unresolved
  {
    hide Stuck, Constructs, Resolve;
    if n == 0 {
      assert order[..0] == [];
    } else {
      PassStuck(src, s, k, c, j, order, n - 1);
      PassStep(src, s, order, n - 1);
      VisitStuck(src, Pass(src, s, order[..n - 1]), k, c, j, order[n - 1]);
    }
  }

  lemma {:induction false} CompleteStuck(src: Source, s: Loop, k: Key, c: Declarator, j: Key)
    returns (passes: seq<seq<Declarator>>, final: Table)
    requires src.WellFormed() && Stuck(src, s, k, c, j) && Constructs(src, c, k) && j != k && Binds(src, c, j)
    ensures Ends(src, s, passes, final) && j !in final
    decreases s.unresolved
  {
    hide Visit, Constructs;
    var order := ListOf(s.unresolved);
    var quiet := s.(changed := false);
    assert Stuck(src, quiet, k, c, j);
    PassStuck(src, quiet, k, c, j, order, |order|);
    assert order[..|order|] == order;
    var after := Pass(src, quiet, order);
    PassShrinks(src, quiet, order);
    if after.changed {
      var more;
      more, final := CompleteStuck(src, after, k, c, j);
      passes := [order] + more;
      assert passes[1..] == more;
    } else {
      passes, final := [order], after.table;
    }
  }

  /** A run whose first visit of the next pass is `d`. */
  lemma FirstOrder(s: Loop, d: Declarator) returns (rest: seq<Declarator>)
    requires d in s.unresolved
    ensures Permutes([d] + rest, s.unresolved) && Permutes(rest, s.unresolved - {d})
  {
    rest := ListOf(s.unresolved - {d});
    var order := [d] + rest;
    assert forall i :: 1 <= i < |order| ==> order[i] == rest[i - 1] && rest[i - 1] in rest;
  }

  /** Visited first, `c` is bound for good. */
  lemma RunWithFirst(src: Source, s: Loop, c: Declarator, j: Key) returns (passes: seq<seq<Declarator>>, final: Table)
    requires c in s.unresolved && Binds(src, c, j) && Resolve(src, s.table, c).Some?
    requires forall d :: d in s.unresolved && Binds(src, d, j) ==> d == c
    ensures Ends(src, s, passes, final) && j in final
  {
    hide Resolve, Visit, Ends;
    var rest := FirstOrder(s, c);
    var quiet := s.(changed := false);
    PassConcat(src, quiet, [c], rest);
    PassOne(src, quiet, c);
    VisitIs(src, quiet, c);
    var mid := Visit(src, quiet, c);
    PassKeepsKey(src, mid, rest, j);
    PassShrinks(src, mid, rest);
    var after := Pass(src, mid, rest);
    var more;
    more, final := Complete(src, after, j);
    passes := [[c] + rest] + more;
    OnePassMore(src, s, [c] + rest, after, more, final);
  }

  lemma PassOne(src: Source, s: Loop, d: Declarator)
    ensures Pass(src, s, [d]) == Visit(src, s, d)
  {
    hide Visit;
    assert [d][..0] == [];
  }

  /** With `d` visited first, `c` finds no constructor any more and is never bound. */
  lemma RunRebound(src: Source, s: Loop, k: Key, d: Declarator, c: Declarator, j: Key)
    returns (passes: seq<seq<Declarator>>, final: Table)
    requires src.WellFormed() && OnlyDeclared(src, s.table) && s.unresolved <= src.declarators && j != k
             && j !in s.table
    requires d in s.unresolved && Binds(src, d, k) && Resolve(src, s.table, d).Some?
    requires c in s.unresolved && Binds(src, c, j) && Constructs(src, c, k)
    requires forall e :: e in s.unresolved && Binds(src, e, j) ==> e == c
    ensures Ends(src, s, passes, final) && j !in final
  {
    hide Resolve, Visit, Ends, Constructs;
    var rest := FirstOrder(s, d);
    var quiet := s.(changed := false);
    PassConcat(src, quiet, [d], rest);
    PassOne(src, quiet, d);
    VisitIs(src, quiet, d);
    ResolvesToProduct(src, s.table, d);
    var mid := Visit(src, quiet, d);
    assert Stuck(src, mid, k, c, j) by { assert src.Declared(k); }
    PassStuck(src, mid, k, c, j, rest, |rest|);
    assert rest[..|rest|] == rest;
    PassShrinks(src, mid, rest);
    var after := Pass(src, mid, rest);
    var more;
    more, final := CompleteStuck(src, after, k, c, j);
    passes := [[d] + rest] + more;
    OnePassMore(src, s, [d] + rest, after, more, final);
  }

  /**
   Rebinding a constructor shows. Wherever the loop has got to, if a name is still the constructor that `require` gave
   it, an open declarator redeclares it and resolves, and another open declarator constructs with it, being the only
   open one of its own, unbound name, then that name is bound in one visiting order and not in another.
   */
  lemma RebindingShows(src: Source, passes: seq<seq<Declarator>>, s: Loop, k: Key, d: Declarator, c: Declarator, j: Key)
    returns (t: Table, u: Table)
    requires src.WellFormed() && Reaches(src, Begin(src), passes, s)
    requires k in s.table && s.table[k] == ConstructorBinding && j !in s.table
    requires d in s.unresolved && Binds(src, d, k) && Resolve(src, s.table, d).Some?
    requires c in s.unresolved && Binds(src, c, j) && Constructs(src, c, k)
    requires forall e :: e in s.unresolved && Binds(src, e, j) ==> e == c
    ensures Outcome(src, t) && Outcome(src, u) && j in t && j !in u
  {
    hide Ends, Reaches, Resolve, Constructs;
    ReachedDeclared(src, Begin(src), passes, s);
    ConstructsResolves(src, s.table, c, k);
    var first, second;
    first, t := RunWithFirst(src, s, c, j);
    second, u := RunRebound(src, s, k, d, c, j);
    ReachesEnds(src, Begin(src), passes, s, first, t);
    ReachesEnds(src, Begin(src), passes, s, second, u);
  }

  const Require := Declarator(0, [0], Some("o"), Some(OtherValue))
  const Using := Declarator(1, [0], Some("c"), Some(NewExpression(Some(["o"]), false)))
  const Shadowing := Declarator(2, [0], Some("o"), Some(NewExpression(Some(["o"]), false)))
  const Required := Source({Require, Using, Shadowing}, {}, {}, {Key(0, "o")})

  /** `var o = require("openai"); var c = new o(); var o = new o();`: one visiting order binds `c`, another does not. */
  lemma RequiredNameIsOrderDependent() returns (t: Table, u: Table)
    ensures Required.WellFormed() && Outcome(Required, t) && Outcome(Required, u)
    ensures Key(0, "c") in t && Key(0, "c") !in u
  {
    var s, o, c := Begin(Required), Key(0, "o"), Key(0, "c");
    assert "o"[0] != "c"[0] && o != c;
    assert Required.Named(Require) && Required.KeyOf(Require) == o;
    assert s.table == map[o := ConstructorBinding];
    assert Constructs(Required, Using, o) && Constructs(Required, Shadowing, o);
    assert OnlyDeclared(Required, s.table) by { assert Required.Declared(o); }
    ConstructsResolves(Required, s.table, Shadowing, o);
    hide Resolve, Constructs;
    t, u := RebindingShows(Required, [], s, o, Shadowing, Using, c);
  }

  // ---------------------------------------------------------------- a conflict that does not show

  const Client := Declarator(0, [0], Some("o"), Some(NewExpression(Some(["OpenAI"]), false)))
  const Borrowed := Declarator(1, [0], Some("c"), Some(MemberExpression(Some(["o", "responses"]))))
  const Own := Declarator(2, [0], Some("c"), Some(NewExpression(Some(["OpenAI"]), false)))
  const Narrowed := Declarator(3, [0], Some("c"), Some(MemberExpression(Some(["c", "responses"]))))
  const Repaired := Source({Client, Borrowed, Own, Narrowed}, {"OpenAI"}, {}, {})

  const AClient := Binding(ClientKind, {})
  const AResource := Binding(ResourceKind, {"resource_alias"})
  const O := Key(0, "o")
  const C := Key(0, "c")

  /** Only `Own` makes `c` a client, and only while `Narrowed` is open can it be one. */
  ghost predicate Tracked(s: Loop) {
    && s.unresolved <= Repaired.declarators
    && (forall k :: k in s.table ==> k == O || k == C)
    && (O in s.table ==> s.table[O] == AClient) && (Client !in s.unresolved ==> O in s.table)
    && (C in s.table ==>
         s.table[C] == AResource || (s.table[C] == AClient && Own !in s.unresolved && Narrowed in s.unresolved))
    && (Own !in s.unresolved ==> C in s.table)
    && (Narrowed !in s.unresolved ==> C in s.table && Own !in s.unresolved)
    && (Borrowed !in s.unresolved ==> C in s.table)
  }

  lemma Names()
    ensures O != C && Repaired.WellFormed() && Repaired.Named(Client) && Repaired.Named(Borrowed) && Repaired.Named(Own)
            && Repaired.Named(Narrowed)
    ensures Repaired.KeyOf(Client) == O
            && Repaired.KeyOf(Borrowed) == Repaired.KeyOf(Own) == Repaired.KeyOf(Narrowed) == C
    ensures Repaired.Declared(O) && Repaired.Declared(C)
  {
    assert "o"[0] != "c"[0];
    assert Repaired.Named(Client) && Repaired.Named(Borrowed);
  }

  lemma Lookups(b: Table)
    requires forall k :: k in b ==> k == O || k == C
    ensures Lookup(Repaired, b, [0], "OpenAI") == Some(ConstructorBinding)
    ensures Lookup(Repaired, b, [0], "o") == (if O in b then Some(b[O]) else None)
    ensures Lookup(Repaired, b, [0], "c") == (if C in b then Some(b[C]) else None)
  {
    Names();
    OnlyC(Repaired, b);
  }

  lemma Resolutions(b: Table)
    requires forall k :: k in b ==> k == O || k == C
    requires O in b ==> b[O] == AClient
    requires C in b ==> b[C] == AResource || b[C] == AClient
    ensures Resolve(Repaired, b, Client) == Resolve(Repaired, b, Own) == Some(AClient)
    ensures Resolve(Repaired, b, Borrowed) == (if O in b then Some(AResource) else None)
    ensures Resolve(Repaired, b, Narrowed) == (if C in b && b[C] == AClient then Some(AResource) else None)
  {
    Lookups(b);
    hide Lookup;
    assert {} + {"resource_alias"} == {"resource_alias"};
  }

  lemma VisitTracked(s: Loop, d: Declarator)
    requires Tracked(s) && d in s.unresolved
    ensures Tracked(Visit(Repaired, s, d))
  {
    Names();
    Resolutions(s.table);
    hide Resolve;
    VisitIs(Repaired, s, d);
    hide Visit;
  }

  lemma {:induction false} PassTracked(s: Loop, order: seq<Declarator>, n: nat)
    requires Tracked(s) && !s.changed && Permutes(order, s.unresolved) && n <= |order|
    ensures var now := Pass(Repaired, s, order[..n]);
            && Tracked(now) && now.unresolved <= s.unresolved
            && (forall i :: n <= i < |order| ==> order[i] in now.unresolved)
            && (!now.changed ==> now.table == s.table)
            && (!now.changed ==> forall i :: 0 <= i < n ==>
                 order[i] !in now.unresolved || Resolve(Repaired, s.table, order[i]).None?)
  {
    hide Tracked, Resolve;
    if n == 0 {
      assert order[..0] == [];
    } else {
      PassTracked(s, order, n - 1);
      PassStep(Repaired, s, order, n - 1);
      VisitTracked(Pass(Repaired, s, order[..n - 1]), order[n - 1]);
    }
  }

  lemma QuietIsRepaired(s: Loop)
    requires Tracked(s) && forall d :: d in s.unresolved ==> Resolve(Repaired, s.table, d).None?
    ensures s.table == map[O := AClient, C := AResource]
  {
    Names();
    Resolutions(s.table);
    hide Resolve;
  }

  lemma {:induction false} EndsRepaired(s: Loop, passes: seq<seq<Declarator>>, final: Table)
    requires Tracked(s) && Ends(Repaired, s, passes, final)
    ensures final == map[O := AClient, C := AResource]
    decreases |passes|
  {
    hide Tracked, Resolve, Pass;
    var order, quiet := passes[0], s.(changed := false);
    assert Tracked(quiet) by { TrackedQuiet(s); }
    PassTracked(quiet, order, |order|);
    assert order[..|order|] == order;
    var after := Pass(Repaired, quiet, order);
    if after.changed {
      EndsRepaired(after, passes[1..], final);
    } else {
      forall d | d in after.unresolved
        ensures Resolve(Repaired, after.table, d).None?
      {
        assert d in order;
        var i :| 0 <= i < |order| && order[i] == d;
      }
      QuietIsRepaired(after);
    }
  }

  lemma TrackedQuiet(s: Loop)
    requires Tracked(s)
    ensures Tracked(s.(changed := false))
  {
  }

  /**
   `var o = new OpenAI(); var c = o.responses; var c = new OpenAI(); var c = c.responses`: no table is closed under
   resolution, and yet every visiting order ends in the same one.
   */
  lemma ConflictCanHide(final: Table)
    ensures Repaired.WellFormed() && !Consistent(Repaired)
    ensures Outcome(Repaired, final) ==> final == map[O := AClient, C := AResource]
  {
    Names();
    NoClosedTable();
    hide Ends, Consistent;
    if Outcome(Repaired, final) {
      var passes :| Ends(Repaired, Begin(Repaired), passes, final);
      assert Repaired.Base() == map[];
      EndsRepaired(Begin(Repaired), passes, final);
    }
  }

  lemma NoClosedTable()
    ensures !Consistent(Repaired)
  {
    Names();
    if b: Table :| Closed(Repaired, b) {
      DeclaredShort(b);
      OnlyC(Repaired, b);
      hide Lookup;
      assert Resolve(Repaired, b, Own) == Some(AClient) && Resolve(Repaired, b, Client) == Some(AClient);
      assert b[C] == AClient && b[O] == AClient;
      BorrowedResolves(b);
    }
  }

  lemma BorrowedResolves(b: Table)
    requires O in b && b[O] == AClient
    ensures Resolve(Repaired, b, Borrowed) == Some(AResource)
  {
    assert Lookup(Repaired, b, [0], "o") == Some(b[O]);
    assert {} + {"resource_alias"} == {"resource_alias"};
  }

  lemma DeclaredShort(b: Table)
    requires OnlyDeclared(Repaired, b)
    ensures forall k :: k in b ==> |k.name| == 1
  {
  }
}
