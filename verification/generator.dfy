/** A generator run up to the emitted blocks: the registry read into tables,
    the features of the `gl` api accumulated for the requested version. */
module Generator {
  import opened Base
  import opened Ordered
  import opened Tree
  import opened Registry
  import opened Types
  import opened Accumulate
  import opened Emit

  /** What glapi's parser holds once built: the feature index and the kept blocks. */
  datatype Spec = Spec(index: FeatureIndex, blocks: seq<Block>)

  /** What a successful glapi parse holds: the `gl` feature index and, for
      each feature key up to and including `version`, its resolved block. */
  ghost predicate Loaded(root: Element, version: string, spec: Spec)
  {
    && ParseCommands(root).Success?
    && ParseFeatures(root, "gl").Success?
    && spec.index == ParseFeatures(root, "gl").value
    && |spec.blocks| == |Included(spec.index.keys, version)|
    && forall i :: 0 <= i < |spec.blocks| ==>
         Included(spec.index.keys, version)[i] in spec.index.vals &&
         spec.blocks[i] == ResolveBlock(spec.index, ParseEnums(root), ParseCommands(root).value,
                                        Included(spec.index.keys, version)[i])
  }

  /** glapi's parser: constants, then commands, then the `gl` features, then
      the accumulation. Reading the constants never raises; the first fault
      of the later steps ends the run. */
  method LoadSpec(root: Element, version: string) returns (r: Result<Spec>)
    ensures r.Success? <==> ParseCommands(root).Success? && ParseFeatures(root, "gl").Success?
    ensures ParseCommands(root).Failure? ==> r == Failure(ParseCommands(root).fault)
    ensures ParseCommands(root).Success? && ParseFeatures(root, "gl").Failure? ==>
      r == Failure(ParseFeatures(root, "gl").fault)
    ensures r.Success? ==> Loaded(root, version, r.value)
  {
    var enums := ParseEnums(root);
    var funcs := ParseCommands(root);
    if funcs.Failure? {
      return Failure(funcs.fault);
    }
    var feats := ParseFeatures(root, "gl");
    if feats.Failure? {
      return Failure(feats.fault);
    }
    var blocks := FilterFeatures(feats.value, enums, funcs.value, version);
    WalkBlocks(feats.value, enums, funcs.value, Included(feats.value.keys, version));
    return Success(Spec(feats.value, blocks));
  }

  /** gengl's parser: the type strings first, then as glapi's, with the whole
      type list kept next to the accumulated blocks. */
  method LoadSurface(root: Element, version: string) returns (r: Result<Surface>)
    ensures r.Success? <==>
      ParseTypes(TypeElements(root)).Success? && ParseCommands(root).Success? && ParseFeatures(root, "gl").Success?
    ensures ParseTypes(TypeElements(root)).Failure? ==> r == Failure(ParseTypes(TypeElements(root)).fault)
    ensures ParseTypes(TypeElements(root)).Success? && ParseCommands(root).Failure? ==>
      r == Failure(ParseCommands(root).fault)
    ensures ParseTypes(TypeElements(root)).Success? && ParseCommands(root).Success? && ParseFeatures(root, "gl").Failure? ==>
      r == Failure(ParseFeatures(root, "gl").fault)
    ensures r.Success? ==>
      && r.value.types == ParseTypes(TypeElements(root)).value
      && Loaded(root, version, Spec(ParseFeatures(root, "gl").value, r.value.blocks))
  {
    var types := ParseTypes(TypeElements(root));
    if types.Failure? {
      return Failure(types.fault);
    }
    var enums := ParseEnums(root);
    var funcs := ParseCommands(root);
    if funcs.Failure? {
      return Failure(funcs.fault);
    }
    var feats := ParseFeatures(root, "gl");
    if feats.Failure? {
      return Failure(feats.fault);
    }
    var surface := FilterFeaturesWithTypes(types.value, feats.value, enums, funcs.value, version);
    WalkBlocks(feats.value, enums, funcs.value, Included(feats.value.keys, version));
    return Success(surface);
  }

  /** Every block of a loaded spec is a feature of its index, so the name
      lookup of every emitter succeeds on it, and each section is titled with
      the feature's name when its number is a known version and "None" otherwise. */
  lemma {:induction false} EmittersTotal(root: Element, version: string, spec: Spec)
    requires Loaded(root, version, spec)
    ensures Sections(spec.index, spec.blocks).Success?
    ensures forall i :: 0 <= i < |spec.blocks| ==>
      Sections(spec.index, spec.blocks).value[i].title ==
        if spec.blocks[i].number in KnownVersions then spec.index.vals[spec.blocks[i].number].name else "None"
  {
    BlocksNumbered(spec.index, ParseEnums(root), ParseCommands(root).value,
                   Included(spec.index.keys, version), spec.blocks);
    SectionsOfIndex(spec.index, spec.blocks);
  }

  /** A block resolved for a key carries that key as its number. */
  lemma BlocksNumbered(index: FeatureIndex, enums: EnumTable, funcs: CommandTable, keys: seq<string>, blocks: seq<Block>)
    requires |blocks| == |keys|
    requires forall i :: 0 <= i < |blocks| ==>
      keys[i] in index.vals && blocks[i] == ResolveBlock(index, enums, funcs, keys[i])
    ensures forall i :: 0 <= i < |blocks| ==> blocks[i].number in index.vals
  {
  }
}
