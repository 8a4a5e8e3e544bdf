/**
 What the binding resolver for JavaScript sources looks up and finds out, and the fixed points of that. The syntax tree
 is given: each declarator comes with its chain of enclosing scopes. `AgreeingIsConsistent` gives a condition on the
 source text under which a fixed point exists.
 */
module Bindings {
  import opened Prelude

  datatype Kind = ConstructorKind | ModuleKind | ClientKind | ResourceKind
  datatype Binding = Binding(kind: Kind, features: set<string>)

  const ConstructorBinding := Binding(ConstructorKind, {})
  const ModuleBinding := Binding(ModuleKind, {})

  /** The right-hand sides the resolver looks at. `chain` is None for computed or optional member access. */
  datatype Value =
    | NewExpression(chain: Option<seq<string>>, maxRetries: bool)
    | Identifier(name: string)
    | MemberExpression(chain: Option<seq<string>>)
    | OtherValue

  /** `scopes` runs from the declarator's own scope outwards; `name` is None for destructuring patterns. */
  datatype Declarator = Declarator(node: nat, scopes: seq<nat>, name: Option<string>, value: Option<Value>)

  datatype Key = Key(scope: nat, name: string)

  type Table = map<Key, Binding>

  /** What the passes over the tree collected before the loop starts. */
  datatype Source = Source(declarators: set<Declarator>, constructors: set<string>, modules: set<string>,
    required: set<Key>) {

    predicate Named(d: Declarator) { d in declarators && d.name.Some? && d.scopes != [] }

    function KeyOf(d: Declarator): Key
      requires d.name.Some? && d.scopes != []
    {
      Key(d.scopes[0], d.name.value)
    }

    predicate Declared(k: Key) {
      exists d :: d in declarators && Named(d) && KeyOf(d) == k
    }

    /** const OpenAI = require("openai") */
    function Base(): Table { map k | k in required :: ConstructorBinding }

    /** Every declarator has a scope, and a `require` binding has a declarator that is that call. */
    ghost predicate WellFormed() {
      && (forall d :: d in declarators ==> d.scopes != [])
      && (forall k :: k in required ==> exists d :: Named(d) && KeyOf(d) == k && d.value == Some(OtherValue))
    }

    /** Declarators of the same name in the same scope say the same; in particular, if there is at most one of each. */
    ghost predicate Agreeing() {
      forall d, e :: Named(d) && Named(e) && KeyOf(d) == KeyOf(e) ==> d.scopes == e.scopes && d.value == e.value
    }
  }

  function Lookup(src: Source, b: Table, scopes: seq<nat>, name: string): Option<Binding> {
    if scopes == [] then
      if name in src.constructors then Some(ConstructorBinding)
      else if name in src.modules then Some(ModuleBinding)
      else None
    else
      var k := Key(scopes[0], name);
      if k in b then Some(b[k])
      else if src.Declared(k) then None
      else Lookup(src, b, scopes[1..], name)
  }

  /** What one visit finds out about a declarator. */
  function Resolve(src: Source, b: Table, d: Declarator): Option<Binding> {
    if d.name.None? || d.value.None? then None
    else
      match d.value.value
      case NewExpression(Some(chain), maxRetries) =>
        if (|chain| == 1 && Lookup(src, b, d.scopes, chain[0]) == Some(ConstructorBinding))
           || (|chain| == 2 && Lookup(src, b, d.scopes, chain[0]) == Some(ModuleBinding) && chain[1] == "OpenAI") then
          Some(Binding(ClientKind, if maxRetries then {"retries_configured"} else {}))
        else None
      case Identifier(name) =>
        var previous := Lookup(src, b, d.scopes, name);
        if previous.Some? && (previous.value.kind == ClientKind || previous.value.kind == ResourceKind) then
          Some(Binding(previous.value.kind, previous.value.features + {"client_alias"}))
        else None
      case MemberExpression(Some(chain)) =>
        if |chain| != 2 then None
        else
          var previous := Lookup(src, b, d.scopes, chain[0]);
          if previous.Some? && previous.value.kind == ClientKind && chain[1] == "responses" then
            Some(Binding(ResourceKind, previous.value.features + {"resource_alias"}))
          else None
      case _ => None
  }

  ghost predicate Sub(b: Table, c: Table) { forall k :: k in b ==> k in c && c[k] == b[k] }

  ghost predicate OnlyDeclared(src: Source, b: Table) { forall k :: k in b ==> src.Declared(k) }

  /** A declared name blocks the outer scopes before it is bound, so a lookup that succeeds never changes its answer. */
  lemma {:induction false} LookupMonotone(src: Source, b: Table, c: Table, scopes: seq<nat>, name: string)
    requires Sub(b, c) && OnlyDeclared(src, c) && Lookup(src, b, scopes, name).Some?
    ensures Lookup(src, c, scopes, name) == Lookup(src, b, scopes, name)
  {
    if scopes != [] {
      var k := Key(scopes[0], name);
      if k !in b {
        LookupMonotone(src, b, c, scopes[1..], name);
      }
    }
  }

  lemma ResolveMonotone(src: Source, b: Table, c: Table, d: Declarator)
    requires Sub(b, c) && OnlyDeclared(src, c) && Resolve(src, b, d).Some?
    ensures Resolve(src, c, d) == Resolve(src, b, d)
  {
    hide Lookup;
    match d.value.value
    case NewExpression(chain, _) => LookupMonotone(src, b, c, d.scopes, chain.value[0]);
    case Identifier(name) => LookupMonotone(src, b, c, d.scopes, name);
    case MemberExpression(chain) => LookupMonotone(src, b, c, d.scopes, chain.value[0]);
    case OtherValue =>
  }

  // ---------------------------------------------------------------- the independent specification

  /** Contains the base, binds declared names only, and holds everything it lets a visit find out. */
  ghost predicate Closed(src: Source, b: Table) {
    && Sub(src.Base(), b) && OnlyDeclared(src, b)
    && forall d :: src.Named(d) && Resolve(src, b, d).Some? ==>
         src.KeyOf(d) in b && b[src.KeyOf(d)] == Resolve(src, b, d).value
  }

  /** Nothing is bound without a reason. */
  ghost predicate Supported(src: Source, b: Table) {
    forall k :: k in b ==> k in src.required || exists d ::
      src.Named(d) && src.KeyOf(d) == k && Resolve(src, b, d) == Some(b[k])
  }

  /** The least fixed point. */
  ghost predicate Least(src: Source, b: Table) {
    Closed(src, b) && Supported(src, b) && forall c :: Closed(src, c) ==> Sub(b, c)
  }

  /** Some table holds everything it lets a visit find out. */
  ghost predicate Consistent(src: Source) { exists c :: Closed(src, c) }

  /** There is only one: whatever order the declarators are visited in, the bindings are the same. */
  lemma Confluent(src: Source, b: Table, c: Table)
    requires Least(src, b) && Least(src, c)
    ensures b == c
  {
    assert Sub(b, c) && Sub(c, b);
  }

  // ---------------------------------------------------------------- what visits keep

  /** A declarator the loop is finished with: never resolvable, or bound to what it still resolves to. */
  ghost predicate Settled(src: Source, b: Table, d: Declarator)
    requires src.Named(d)
  {
    d.value.None? || (src.KeyOf(d) in b && Resolve(src, b, d) == Some(b[src.KeyOf(d)]))
  }

  ghost predicate Progress(src: Source, b: Table, unresolved: set<Declarator>) {
    && unresolved <= src.declarators && Sub(src.Base(), b) && OnlyDeclared(src, b) && Supported(src, b)
    && (forall c :: Closed(src, c) ==> Sub(b, c))
    && (forall d :: src.Named(d) && d !in unresolved ==> Settled(src, b, d))
  }

  lemma ProgressStart(src: Source)
    requires src.WellFormed()
    ensures Progress(src, src.Base(), src.declarators)
  {
  }

  lemma StillSupported(src: Source, b: Table, c: Table, d: Declarator)
    requires Supported(src, b) && Sub(b, c) && OnlyDeclared(src, c) && src.Named(d) && Resolve(src, b, d).Some?
    requires c == b[src.KeyOf(d) := Resolve(src, b, d).value]
    ensures Supported(src, c)
  {
    forall k | k in c && k !in src.required
      ensures exists e :: src.Named(e) && src.KeyOf(e) == k && Resolve(src, c, e) == Some(c[k])
    {
      if k == src.KeyOf(d) {
        ResolveMonotone(src, b, c, d);
      } else {
        var e :| src.Named(e) && src.KeyOf(e) == k && Resolve(src, b, e) == Some(b[k]);
        ResolveMonotone(src, b, c, e);
      }
    }
  }

  /** Every closed table already contains what the visit found. */
  lemma SoundStep(src: Source, b: Table, d: Declarator)
    requires src.Named(d) && Resolve(src, b, d).Some? && forall c :: Closed(src, c) ==> Sub(b, c)
    ensures forall c :: Closed(src, c) ==> Sub(b[src.KeyOf(d) := Resolve(src, b, d).value], c)
  {
    forall c | Closed(src, c)
      ensures Sub(b[src.KeyOf(d) := Resolve(src, b, d).value], c)
    {
      ResolveMonotone(src, b, c, d);
    }
  }

  /** A visit that does not contradict the table. */
  lemma ProgressAdds(src: Source, b: Table, unresolved: set<Declarator>, d: Declarator)
    requires Progress(src, b, unresolved) && d in unresolved && src.Named(d) && Resolve(src, b, d).Some?
    requires src.KeyOf(d) in b ==> b[src.KeyOf(d)] == Resolve(src, b, d).value
    ensures Progress(src, b[src.KeyOf(d) := Resolve(src, b, d).value], unresolved - {d})
  {
    var k, x := src.KeyOf(d), Resolve(src, b, d).value;
    var b' := b[k := x];
    assert OnlyDeclared(src, b') by { assert src.Declared(k); }
    assert Sub(b, b');
    StillSupported(src, b, b', d);
    SoundStep(src, b, d);
    forall e | src.Named(e) && e !in unresolved - {d}
      ensures Settled(src, b', e)
    {
      if e == d {
        ResolveMonotone(src, b, b', d);
      } else if e.value.Some? {
        assert Settled(src, b, e);
        ResolveMonotone(src, b, b', e);
      }
    }
  }

  /** In a consistent source no visit contradicts the table. */
  lemma ProgressStep(src: Source, b: Table, unresolved: set<Declarator>, d: Declarator)
    requires Consistent(src) && Progress(src, b, unresolved) && d in unresolved && src.Named(d)
             && Resolve(src, b, d).Some?
    ensures Progress(src, b[src.KeyOf(d) := Resolve(src, b, d).value], unresolved - {d})
  {
    hide Resolve;
    var c :| Closed(src, c);
    assert Sub(b, c);
    ResolveMonotone(src, b, c, d);
    ProgressAdds(src, b, unresolved, d);
  }

  /** A visit that only drops a declarator without a value or an identifier. */
  lemma ProgressDrop(src: Source, b: Table, unresolved: set<Declarator>, d: Declarator)
    requires Progress(src, b, unresolved) && d in unresolved && (d.name.None? || d.value.None?)
    ensures Progress(src, b, unresolved - {d})
  {
  }

  /** A pass that found nothing new ends at the least fixed point. */
  lemma QuietPassIsLeast(src: Source, b: Table, unresolved: set<Declarator>)
    requires Progress(src, b, unresolved) && forall d :: d in unresolved ==> Resolve(src, b, d).None?
    ensures Least(src, b)
  {
    forall d | src.Named(d) && Resolve(src, b, d).Some?
      ensures src.KeyOf(d) in b && b[src.KeyOf(d)] == Resolve(src, b, d).value
    {
      assert d !in unresolved && Settled(src, b, d);
    }
  }

  /** Declarators that say the same cannot contradict each other. */
  lemma AgreeingStep(src: Source, b: Table, unresolved: set<Declarator>, d: Declarator)
    requires src.WellFormed() && src.Agreeing() && Progress(src, b, unresolved) && d in unresolved && src.Named(d)
    requires Resolve(src, b, d).Some?
    ensures Progress(src, b[src.KeyOf(d) := Resolve(src, b, d).value], unresolved - {d})
  {
    var k := src.KeyOf(d);
    if k in b {
      assert k !in src.required;
      var e :| src.Named(e) && src.KeyOf(e) == k && Resolve(src, b, e) == Some(b[k]);
      SameWords(src, b, d, e);
    }
    hide Resolve;
    ProgressAdds(src, b, unresolved, d);
  }

  lemma SameWords(src: Source, b: Table, d: Declarator, e: Declarator)
    requires src.Agreeing() && src.Named(d) && src.Named(e) && src.KeyOf(d) == src.KeyOf(e)
    ensures Resolve(src, b, d) == Resolve(src, b, e)
  {
    hide Lookup;
  }

  lemma {:induction false} AgreeingCloses(src: Source, b: Table, unresolved: set<Declarator>) returns (c: Table)
    requires src.WellFormed() && src.Agreeing() && Progress(src, b, unresolved)
    ensures Closed(src, c)
    decreases unresolved
  {
    hide Progress, Resolve;
    if d :| d in unresolved && Resolve(src, b, d).Some? {
      assert src.Named(d) by { ResolvedIsNamed(src, b, unresolved, d); }
      AgreeingStep(src, b, unresolved, d);
      c := AgreeingCloses(src, b[src.KeyOf(d) := Resolve(src, b, d).value], unresolved - {d});
    } else {
      QuietPassIsLeast(src, b, unresolved);
      c := b;
    }
  }

  lemma ResolvedIsNamed(src: Source, b: Table, unresolved: set<Declarator>, d: Declarator)
    requires src.WellFormed() && Progress(src, b, unresolved) && d in unresolved && Resolve(src, b, d).Some?
    ensures src.Named(d)
  {
  }

  /** If declarators of the same name in the same scope say the same, the source is consistent. */
  lemma AgreeingIsConsistent(src: Source)
    requires src.WellFormed() && src.Agreeing()
    ensures Consistent(src)
  {
    ProgressStart(src);
    var c := AgreeingCloses(src, src.Base(), src.declarators);
  }
}
