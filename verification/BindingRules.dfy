/**
 What a source binds, as rules: no table and no order of visits. `Derives` has one rule for each form of declarator, and
 a name is seen where the innermost scope that declares it is, else among the imports.

 `BoundExactly`: a fixed point binds exactly what can be derived. `ConsistentExactly`: there is one if and only if no
 key can be derived to two bindings.
 */
module BindingRules {
  import opened Prelude
  import opened Bindings

  // ---------------------------------------------------------------- what a name means

  ghost predicate DeclaredIn(src: Source, scope: nat, name: string) {
    exists d :: d in src.declarators && d.scopes != [] && d.scopes[0] == scope && d.name == Some(name)
  }

  /** Scope `i` of the chain is the innermost one that declares the name. */
  ghost predicate Innermost(src: Source, scopes: seq<nat>, name: string, i: nat) {
    i < |scopes| && DeclaredIn(src, scopes[i], name) && forall j :: 0 <= j < i ==> !DeclaredIn(src, scopes[j], name)
  }

  /** No scope declares the name, and an import does; a constructor hides a module of the same name. */
  ghost predicate Imported(src: Source, scopes: seq<nat>, name: string, x: Binding) {
    && (forall j :: 0 <= j < |scopes| ==> !DeclaredIn(src, scopes[j], name))
    && ((name in src.constructors && x == Binding(ConstructorKind, {}))
        || (name !in src.constructors && name in src.modules && x == Binding(ModuleKind, {})))
  }

  /** The name means `x` at the end of the chain, by a derivation of at most `n` steps. */
  ghost predicate Sees(src: Source, scopes: seq<nat>, name: string, x: Binding, n: nat)
    decreases n, 1
  {
    || Imported(src, scopes, name, x)
    || exists i: nat :: Innermost(src, scopes, name, i) && Derives(src, Key(scopes[i], name), x, n)
  }

  // ---------------------------------------------------------------- the rules

  ghost predicate Declares(src: Source, d: Declarator, k: Key) {
    d in src.declarators && d.scopes != [] && d.scopes[0] == k.scope && d.name == Some(k.name)
  }

  /** new OpenAI(..), where the name is a constructor; new openai.OpenAI(..), where it is a module. */
  ghost predicate NewClient(src: Source, d: Declarator, x: Binding, n: nat)
    decreases n, 2
  {
    && d.value.Some? && d.value.value.NewExpression? && d.value.value.chain.Some?
    && x == Binding(ClientKind, if d.value.value.maxRetries then {"retries_configured"} else {})
    && var chain := d.value.value.chain.value;
       || (|chain| == 1 && Sees(src, d.scopes, chain[0], Binding(ConstructorKind, {}), n))
       || (|chain| == 2 && Sees(src, d.scopes, chain[0], Binding(ModuleKind, {}), n) && chain[1] == "OpenAI")
  }

  /** Another name for a client or a resource. */
  ghost predicate Alias(src: Source, d: Declarator, x: Binding, n: nat)
    decreases n, 2
  {
    && d.value.Some? && d.value.value.Identifier?
    && exists y: Binding :: (y.kind == ClientKind || y.kind == ResourceKind)
         && Sees(src, d.scopes, d.value.value.name, y, n) && x == Binding(y.kind, y.features + {"client_alias"})
  }

  /** client.responses */
  ghost predicate Responses(src: Source, d: Declarator, x: Binding, n: nat)
    decreases n, 2
  {
    && d.value.Some? && d.value.value.MemberExpression? && d.value.value.chain.Some?
    && var chain := d.value.value.chain.value;
       && |chain| == 2 && chain[1] == "responses"
       && exists y: Binding :: y.kind == ClientKind
            && Sees(src, d.scopes, chain[0], y, n) && x == Binding(ResourceKind, y.features + {"resource_alias"})
  }

  ghost predicate Yields(src: Source, d: Declarator, x: Binding, n: nat)
    decreases n, 3
  {
    NewClient(src, d, x, n) || Alias(src, d, x, n) || Responses(src, d, x, n)
  }

  /** The binding is that of a `require`, or follows by one of the rules from what the names mean. */
  ghost predicate Derives(src: Source, k: Key, x: Binding, n: nat)
    decreases n, 0
  {
    || (k in src.required && x == Binding(ConstructorKind, {}))
    || (n > 0 && exists d :: Declares(src, d, k) && Yields(src, d, x, n - 1))
  }

  ghost predicate Derivable(src: Source, k: Key, x: Binding) { exists n: nat :: Derives(src, k, x, n) }

  /** No key can be derived to two bindings. */
  ghost predicate Unambiguous(src: Source) {
    forall k, x, y :: Derivable(src, k, x) && Derivable(src, k, y) ==> x == y
  }

  // ---------------------------------------------------------------- lookups

  lemma SameDeclared(src: Source, scope: nat, name: string)
    ensures DeclaredIn(src, scope, name) <==> src.Declared(Key(scope, name))
  {
    if d :| d in src.declarators && d.scopes != [] && d.scopes[0] == scope && d.name == Some(name) {
      assert src.Named(d) && src.KeyOf(d) == Key(scope, name);
    }
  }

  /** What a lookup finds: the entry of the innermost declaring scope, or an import. */
  lemma {:induction false} LookupExactly(src: Source, b: Table, scopes: seq<nat>, name: string, x: Binding)
    requires OnlyDeclared(src, b)
    ensures Lookup(src, b, scopes, name) == Some(x)
       <==> || Imported(src, scopes, name, x)
            || exists i: nat ::
              Innermost(src, scopes, name, i) && Key(scopes[i], name) in b && b[Key(scopes[i], name)] == x
  {
    hide DeclaredIn;
    if scopes != [] {
      var k, rest := Key(scopes[0], name), scopes[1..];
      SameDeclared(src, scopes[0], name);
      if src.Declared(k) {
        assert Innermost(src, scopes, name, 0);
      } else {
        LookupExactly(src, b, rest, name, x);
        InnermostRest(src, scopes, name);
        if i: nat :| Innermost(src, rest, name, i) && Key(rest[i], name) in b && b[Key(rest[i], name)] == x {
          assert Innermost(src, scopes, name, i + 1);
        }
        if i: nat :| Innermost(src, scopes, name, i) && Key(scopes[i], name) in b && b[Key(scopes[i], name)] == x {
          assert Innermost(src, rest, name, i - 1);
        }
      }
    }
  }

  lemma InnermostRest(src: Source, scopes: seq<nat>, name: string)
    requires scopes != [] && !DeclaredIn(src, scopes[0], name)
    ensures forall x :: Imported(src, scopes, name, x) <==> Imported(src, scopes[1..], name, x)
    ensures forall i: nat :: Innermost(src, scopes, name, i) ==> i > 0 && Innermost(src, scopes[1..], name, i - 1)
    ensures forall i: nat :: Innermost(src, scopes[1..], name, i) ==> Innermost(src, scopes, name, i + 1)
  {
    hide DeclaredIn;
    var rest := scopes[1..];
    assert forall j :: 0 < j < |scopes| ==> scopes[j] == rest[j - 1];
    assert forall j :: 0 <= j < |rest| ==> rest[j] == scopes[j + 1];
  }

  // ---------------------------------------------------------------- tables of derivable bindings

  ghost predicate AllDerivable(src: Source, b: Table) { forall k :: k in b ==> Derivable(src, k, b[k]) }

  lemma LookupSees(src: Source, b: Table, scopes: seq<nat>, name: string, x: Binding) returns (n: nat)
    requires OnlyDeclared(src, b) && AllDerivable(src, b) && Lookup(src, b, scopes, name) == Some(x)
    ensures Sees(src, scopes, name, x, n)
  {
    hide Lookup, Imported, Derives;
    LookupExactly(src, b, scopes, name, x);
    if Imported(src, scopes, name, x) {
      n := 0;
    } else {
      var i: nat :| Innermost(src, scopes, name, i) && Key(scopes[i], name) in b && b[Key(scopes[i], name)] == x;
      n :| Derives(src, Key(scopes[i], name), x, n);
    }
  }

  /** What a visit finds out in a table of derivable bindings is derivable. */
  lemma ResolveDerives(src: Source, b: Table, d: Declarator)
    requires OnlyDeclared(src, b) && AllDerivable(src, b) && src.Named(d) && Resolve(src, b, d).Some?
    ensures Derivable(src, src.KeyOf(d), Resolve(src, b, d).value)
  {
    hide Lookup, Sees;
    var k, x := src.KeyOf(d), Resolve(src, b, d).value;
    assert Declares(src, d, k);
    var n: nat;
    match d.value.value {
    case NewExpression(chain, _) =>
      n := LookupSees(src, b, d.scopes, chain.value[0], Lookup(src, b, d.scopes, chain.value[0]).value);
      assert NewClient(src, d, x, n);
    case Identifier(name) =>
      n := LookupSees(src, b, d.scopes, name, Lookup(src, b, d.scopes, name).value);
      assert Alias(src, d, x, n);
    case MemberExpression(chain) =>
      n := LookupSees(src, b, d.scopes, chain.value[0], Lookup(src, b, d.scopes, chain.value[0]).value);
      assert Responses(src, d, x, n);
    case OtherValue =>
    }
    assert Yields(src, d, x, n);
    assert Derives(src, k, x, n + 1);
  }

  lemma {:induction false} SeesIsLookup(src: Source, b: Table, scopes: seq<nat>, name: string, x: Binding, n: nat)
    requires Closed(src, b) && Sees(src, scopes, name, x, n)
    ensures Lookup(src, b, scopes, name) == Some(x)
    decreases n, 1
  {
    hide Lookup, Derives, Imported;
    if !Imported(src, scopes, name, x) {
      var i: nat :| Innermost(src, scopes, name, i) && Derives(src, Key(scopes[i], name), x, n);
      DerivedIsBound(src, b, Key(scopes[i], name), x, n);
    }
    LookupExactly(src, b, scopes, name, x);
  }

  /** A closed table holds whatever can be derived. */
  lemma {:induction false} DerivedIsBound(src: Source, b: Table, k: Key, x: Binding, n: nat)
    requires Closed(src, b) && Derives(src, k, x, n)
    ensures k in b && b[k] == x
    decreases n, 0
  {
    hide Lookup, Sees;
    if k in src.required && x == Binding(ConstructorKind, {}) {
      assert src.Base()[k] == x;
    } else {
      var d :| Declares(src, d, k) && Yields(src, d, x, n - 1);
      assert src.Named(d) && src.KeyOf(d) == k;
      if NewClient(src, d, x, n - 1) {
        var chain := d.value.value.chain.value;
        if |chain| == 1 {
          SeesIsLookup(src, b, d.scopes, chain[0], Binding(ConstructorKind, {}), n - 1);
        } else {
          SeesIsLookup(src, b, d.scopes, chain[0], Binding(ModuleKind, {}), n - 1);
        }
      } else if Alias(src, d, x, n - 1) {
        var y: Binding :| (y.kind == ClientKind || y.kind == ResourceKind)
          && Sees(src, d.scopes, d.value.value.name, y, n - 1) && x == Binding(y.kind, y.features + {"client_alias"});
        SeesIsLookup(src, b, d.scopes, d.value.value.name, y, n - 1);
      } else {
        assert Responses(src, d, x, n - 1);
        var y: Binding :| y.kind == ClientKind && Sees(src, d.scopes, d.value.value.chain.value[0], y, n - 1)
          && x == Binding(ResourceKind, y.features + {"resource_alias"});
        SeesIsLookup(src, b, d.scopes, d.value.value.chain.value[0], y, n - 1);
      }
      assert Resolve(src, b, d) == Some(x);
    }
  }

  // ---------------------------------------------------------------- fixed points

  lemma BaseDerivable(src: Source)
    ensures AllDerivable(src, src.Base())
  {
    forall k | k in src.Base()
      ensures Derivable(src, k, src.Base()[k])
    {
      assert Derives(src, k, src.Base()[k], 0);
    }
  }

  /** The derivable part of a closed table. */
  ghost function Core(src: Source, b: Table): (c: Table)
    ensures Sub(c, b) && AllDerivable(src, c)
    ensures forall k :: k in b && Derivable(src, k, b[k]) ==> k in c
  {
    map k | k in b && Derivable(src, k, b[k]) :: b[k]
  }

  lemma CoreIsClosed(src: Source, b: Table)
    requires Closed(src, b)
    ensures Closed(src, Core(src, b))
  {
    hide Resolve, Derivable;
    var c := Core(src, b);
    BaseDerivable(src);
    forall d | src.Named(d) && Resolve(src, c, d).Some?
      ensures src.KeyOf(d) in c && c[src.KeyOf(d)] == Resolve(src, c, d).value
    {
      ResolveMonotone(src, c, b, d);
      ResolveDerives(src, c, d);
    }
  }

  /** The least fixed point binds a key to a binding exactly if that can be derived. */
  lemma BoundExactly(src: Source, b: Table)
    requires Least(src, b)
    ensures forall k, x :: (k in b && b[k] == x) <==> Derivable(src, k, x)
  {
    CoreIsClosed(src, b);
    assert Sub(b, Core(src, b));
    forall k, x | Derivable(src, k, x)
      ensures k in b && b[k] == x
    {
      var n: nat :| Derives(src, k, x, n);
      DerivedIsBound(src, b, k, x, n);
    }
  }

  ghost function Keys(src: Source): (keys: set<Key>)
    ensures forall k :: k in keys <==> src.Declared(k)
  {
    set d | d in src.declarators && src.Named(d) :: src.KeyOf(d)
  }

  /** What can be derived, as a table; where more than one binding can, any of them. */
  ghost function Derived(src: Source): (c: Table)
    ensures OnlyDeclared(src, c) && AllDerivable(src, c)
    ensures forall k, x :: src.Declared(k) && Derivable(src, k, x) ==> k in c
  {
    map k | k in Keys(src) && exists x :: Derivable(src, k, x) :: (var x :| Derivable(src, k, x); x)
  }

  lemma DerivedIsClosed(src: Source)
    requires src.WellFormed() && Unambiguous(src)
    ensures Closed(src, Derived(src))
  {
    hide Resolve, Derivable;
    var c := Derived(src);
    BaseDerivable(src);
    forall k | k in src.Base()
      ensures k in c && c[k] == src.Base()[k]
    {
      assert src.Declared(k);
    }
    forall d | src.Named(d) && Resolve(src, c, d).Some?
      ensures src.KeyOf(d) in c && c[src.KeyOf(d)] == Resolve(src, c, d).value
    {
      ResolveDerives(src, c, d);
      assert src.Declared(src.KeyOf(d));
    }
  }

  /** A table closed under resolution exists if and only if no key can be derived to two bindings. */
  lemma ConsistentExactly(src: Source)
    requires src.WellFormed()
    ensures Consistent(src) <==> Unambiguous(src)
  {
    hide Closed;
    if Consistent(src) {
      var c :| Closed(src, c);
      forall k, x, y | Derivable(src, k, x) && Derivable(src, k, y)
        ensures x == y
      {
        var m: nat :| Derives(src, k, x, m);
        var n: nat :| Derives(src, k, y, n);
        DerivedIsBound(src, c, k, x, m);
        DerivedIsBound(src, c, k, y, n);
      }
    }
    if Unambiguous(src) {
      DerivedIsClosed(src);
    }
  }
}
