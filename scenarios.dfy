/**
 * The repository's own scenario, stated as a method whose contract is what
 * the scenario checks.
 */
module Scenarios {
  import opened Wrappers
  import opened Resolving
  import opened Symbols
  import opened Building

  /** Interning "Hello" then "World" gives symbols 1 and 2; interning "Hello"
      again gives 1 back; the built resolver holds ["", "Hello", "World"]. */
  method CanBuildInterner() returns (int1: Result<nat, InternError>, int2: Result<nat, InternError>, again: Result<nat, InternError>, resolver: Resolver)
    ensures int1 == Success(1) && int2 == Success(2) && again == Success(1)
    ensures resolver.Valid() && resolver.Contents() == ["", "Hello", "World"]
    ensures resolver.Len() == 3
    ensures resolver.Get("World") == Some(2) && resolver.Get("") == None
    ensures resolver.ResolveUnchecked(1) == "Hello" && resolver.ResolveUnchecked(0) == ""
  {
    var builder := new InternerBuilder();
    int1 := builder.GetOrIntern("Hello");
    int2 := builder.GetOrIntern("World");
    again := builder.GetOrIntern("Hello");
    resolver := builder.Build();
    assert resolver.strsMap == map["Hello" := 1, "World" := 2];
  }

  /** Interning a string and then building gives a resolver on which the
      string's symbol resolves back to it, as does every other interned
      string's symbol. */
  method InternThenResolve(builder: InternerBuilder, s: string) returns (sym: Result<nat, InternError>, resolver: Resolver)
    requires builder.Valid() && (s in builder.mapStrs || builder.count < U32_MAX)
    modifies builder
    ensures builder.Valid() && sym.Success?
    ensures s in builder.mapStrs && builder.mapStrs[s] == sym.value
    ensures s in old(builder.mapStrs) ==>
      sym.value == old(builder.mapStrs)[s] && builder.mapStrs == old(builder.mapStrs)
    ensures s !in old(builder.mapStrs) ==> builder.mapStrs == old(builder.mapStrs)[s := sym.value]
    ensures resolver.Valid() && sym.value < resolver.Len()
    ensures resolver.ResolveUnchecked(sym.value) == s
    ensures forall t :: t in builder.mapStrs ==>
      builder.mapStrs[t] < resolver.Len() && resolver.ResolveUnchecked(builder.mapStrs[t]) == t
  {
    sym := builder.GetOrIntern(s);
    resolver := builder.Build();
    forall t | t in builder.mapStrs
      ensures builder.mapStrs[t] < resolver.Len() && resolver.ResolveUnchecked(builder.mapStrs[t]) == t
    {
      assert resolver.Get(t) == Some(builder.mapStrs[t]);
      ResolveInvertsGet(resolver, t);
    }
  }
}
