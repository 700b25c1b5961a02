/**
 * The `Serialize`/`Deserialize` implementations of `Resolver`, reduced to the
 * sequence of strings they exchange with the serializer.
 */
module Serde {
  import opened Wrappers
  import opened Symbols
  import opened Resolving
  import opened Building

  /** Why decoding produced no resolver. */
  datatype DecodeError =
    | DuplicateValue   // a string after the sentinel occurs twice
    | SymbolOverflow   // more strings than symbols below u32::MAX

  /** `serialize`: every slot in symbol order, the sentinel included. Each
      string after the sentinel is found again under its own position. */
  function Encode(r: Resolver): (out: seq<string>)
    requires r.Valid()
    ensures |out| == r.Len()
    ensures out[0] == ""
    ensures forall k :: 1 <= k < |out| ==> r.Get(out[k]) == Some(k)
  {
    r.Contents()
  }

  /** `deserialize`: skips the first element, numbers the rest 1, 2, ... in
      order into a fresh builder, refusing a repeated string, then builds.
      It succeeds exactly when the rest has no repetitions (and fits below
      u32::MAX), and the resolver then holds the sentinel and the rest. */
  method Decode(values: seq<string>) returns (res: Result<Resolver, DecodeError>)
    ensures res.Success? <==> Distinct(Tail(values)) && |Tail(values)| < U32_MAX
    ensures res.Success? ==> res.value.Valid() && res.value.Contents() == [""] + Tail(values)
    ensures res == Failure(DuplicateValue) ==> !Distinct(Tail(values))
    ensures res == Failure(SymbolOverflow) ==> |Tail(values)| >= U32_MAX
  {
    var builder := new InternerBuilder();
    var rest := Tail(values);
    for j := 0 to |rest|
      invariant builder.Valid()
      invariant builder.Interned == rest[..j]
    {
      var val := rest[j];
      if val in builder.mapStrs {
        assert val in rest[..j];
        return Failure(DuplicateValue);
      }
      if builder.count == U32_MAX {
        return Failure(SymbolOverflow);
      }
      builder.mapStrs := builder.mapStrs[val := builder.count];
      builder.Interned := builder.Interned + [val];
      builder.count := builder.count + 1;
      assert rest[..j + 1] == rest[..j] + [val];
    }
    assert rest[..|rest|] == rest;
    NumberedIsBijection(builder.mapStrs, builder.Interned);
    var r := builder.Build();
    return Success(r);
  }

  /** The encoding of any resolver decodes: its first element is the
      sentinel and the strings after it are distinct and few enough. */
  lemma EncodingIsDecodable(r: Resolver)
    requires r.Valid()
    ensures [""] + Tail(Encode(r)) == Encode(r)
    ensures Distinct(Tail(Encode(r))) && |Tail(Encode(r))| < U32_MAX
  {
    var out := Encode(r);
    var rest := Tail(out);
    forall i, j | 0 <= i < j < |rest|
      ensures rest[i] != rest[j]
    {
      assert r.Get(out[i + 1]) == Some(i + 1);
      assert r.Get(out[j + 1]) == Some(j + 1);
    }
  }

  /** Decoding the encoding of a resolver gives back a resolver with the same
      strings under the same symbols. */
  method EncodeDecodeRoundTrip(r: Resolver) returns (decoded: Result<Resolver, DecodeError>)
    requires r.Valid()
    ensures decoded.Success?
    ensures decoded.value.Valid() && decoded.value.Contents() == r.Contents()
    ensures decoded.value.strsMap == r.strsMap
  {
    EncodingIsDecodable(r);
    decoded := Decode(Encode(r));
    ResolverIsNumbered(r);
    ResolverMapIsNumbering(decoded.value, r.strsMap, r.Contents()[1..]);
  }
}
