/** build_args_packs of server/__init__.py: the code generator groups adjacent scalar arguments so
    that the server reads each group at once. */
module ArgPacks {
  import opened Bytes
  import opened Wire

  datatype Pack = ScalarPack(ts: seq<ScalarType>) | ContainerPack(t: ArgType)

  function ScalarTypes(ts: seq<ScalarType>): (r: seq<ArgType>)
    ensures |r| == |ts|
  {
    seq(|ts|, i requires 0 <= i < |ts| => ScalarT(ts[i]))
  }

  function PackTypes(p: Pack): seq<ArgType> {
    if p.ScalarPack? then ScalarTypes(p.ts) else [p.t]
  }

  /** The argument types that the packs cover, in order. */
  function AllTypes(packs: seq<Pack>): seq<ArgType> {
    if packs == [] then [] else AllTypes(packs[..|packs| - 1]) + PackTypes(packs[|packs| - 1])
  }

  /** Groups are non-empty and as long as possible. */
  ghost predicate Grouped(packs: seq<Pack>) {
    && (forall i :: 0 <= i < |packs| ==> if packs[i].ScalarPack? then packs[i].ts != [] else !packs[i].t.ScalarT?)
    && (forall i :: 0 <= i < |packs| - 1 ==> !(packs[i].ScalarPack? && packs[i + 1].ScalarPack?))
  }

  predicate IsDynamic(t: ArgType) {
    t.VectorT? || t.StringT?
  }

  ghost predicate SomeDynamic(ts: seq<ArgType>) {
    exists t :: t in ts && IsDynamic(t)
  }

  lemma OneMoreType(ts: seq<ArgType>, t: ArgType)
    ensures SomeDynamic(ts + [t]) <==> SomeDynamic(ts) || IsDynamic(t)
  {
    assert t in ts + [t];
    assert forall u :: u in ts ==> u in ts + [t];
  }

  /** build_args_packs */
  method BuildArgsPacks(ts: seq<ArgType>) returns (packs: seq<Pack>, hasVector: bool)
    ensures AllTypes(packs) == ts && Grouped(packs)
    ensures hasVector <==> SomeDynamic(ts)
  {
    hide SomeDynamic, AllTypes, ScalarTypes, Grouped, IsDynamic;
    packs := [];
    var argsList: seq<ScalarType> := [];
    hasVector := false;
    Nothing();
    for i := 0 to |ts|
      invariant AllTypes(packs) + ScalarTypes(argsList) == ts[..i]
      invariant Grouped(packs) && (packs != [] ==> packs[|packs| - 1].ContainerPack?)
      invariant hasVector <==> SomeDynamic(ts[..i])
    {
      var t := ts[i];
      assert ts[..i + 1] == ts[..i] + [t];
      OneMoreType(ts[..i], t);
      if t.ScalarT? {
        ScalarIsNotDynamic(t);
        OneMoreScalar(argsList, t.t);
        argsList := argsList + [t.t];
      } else {
        if IsDynamic(t) {
          hasVector := true;
        }
        if |argsList| > 0 {
          GroupedPush(packs, ScalarPack(argsList));
          packs := Push(packs, ScalarPack(argsList));
          argsList := [];
          Nothing();
        }
        GroupedPush(packs, ContainerPack(t));
        packs := Push(packs, ContainerPack(t));
      }
    }
    assert ts[..|ts|] == ts;
    if |argsList| > 0 {
      GroupedPush(packs, ScalarPack(argsList));
      packs := Push(packs, ScalarPack(argsList));
    }
  }

  lemma Nothing()
    ensures ScalarTypes([]) == [] && AllTypes([]) == [] && Grouped([]) && !SomeDynamic([])
  {
  }

  lemma ScalarIsNotDynamic(t: ArgType)
    requires t.ScalarT?
    ensures !IsDynamic(t)
  {
  }

  lemma OneMoreScalar(ts: seq<ScalarType>, t: ScalarType)
    ensures ScalarTypes(ts + [t]) == ScalarTypes(ts) + [ScalarT(t)]
  {
  }

  lemma GroupedPush(packs: seq<Pack>, p: Pack)
    requires Grouped(packs)
    requires if p.ScalarPack? then p.ts != [] && (packs != [] ==> packs[|packs| - 1].ContainerPack?)
             else !p.t.ScalarT?
    ensures Grouped(Push(packs, p))
  {
    hide AllTypes;
  }

  /** packs.append */
  function Push(packs: seq<Pack>, p: Pack): (r: seq<Pack>)
    ensures AllTypes(r) == AllTypes(packs) + PackTypes(p)
    ensures r == packs + [p]
  {
    assert (packs + [p])[..|packs|] == packs;
    packs + [p]
  }
}
