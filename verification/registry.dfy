/** Registry extraction: the constant table, the command table and the
    per-version feature index, read from the root of the registry document. */
module Registry {
  import opened Base
  import opened Text
  import opened Tree
  import opened Ordered

  /** One `<param>`: its type and name, each Python's `None` when absent. */
  datatype Param = Param(ptype: Option<string>, name: Option<string>)

  /** A command's return type and its parameters in declared order. */
  datatype Signature = Signature(ret: string, params: seq<Param>)

  /** One `<feature>`: its macro name and the constant and command names its
      `<require>` lists introduce, in document order. */
  datatype Feature = Feature(name: string, enumRefs: seq<string>, commandRefs: seq<string>)

  type EnumTable = map<string, string>
  type CommandTable = map<string, Signature>

  /** Feature number (the version, such as "4.6") to feature, in document order. */
  type FeatureIndex = ODict<Feature>

  // ---------------------------------------------------------------------------
  // Tables filled by assigning one key per element, in document order

  /** The table left by storing `v` under `k` for each element that `def`
      maps to `Some((k, v))`, in order; elements mapped to `None` are skipped. */
  function Tabulate<V>(es: seq<Element>, def: Element -> Option<(string, V)>): map<string, V>
    decreases |es|
  {
    if es == [] then map[]
    else
      var t := Tabulate(es[..|es| - 1], def);
      match def(es[|es| - 1])
      case None => t
      case Some(kv) => t[kv.0 := kv.1]
  }

  ghost predicate Defines<V>(es: seq<Element>, def: Element -> Option<(string, V)>, i: int, k: string)
  {
    0 <= i < |es| && def(es[i]).Some? && def(es[i]).value.0 == k
  }

  /** Element `i` is the last one that defines `k`. */
  ghost predicate LastDefines<V>(es: seq<Element>, def: Element -> Option<(string, V)>, i: int, k: string)
  {
    Defines(es, def, i, k) && forall j :: i < j < |es| ==> !Defines(es, def, j, k)
  }

  /** A key is in the table exactly when some element defines it. */
  lemma {:induction false} TabulateKeys<V>(es: seq<Element>, def: Element -> Option<(string, V)>, k: string)
    ensures k in Tabulate(es, def) <==> exists i :: Defines(es, def, i, k)
    decreases |es|
  {
    if es != [] {
      var p := es[..|es| - 1];
      var n := |es| - 1;
      TabulateKeys(p, def, k);
      forall i | 0 <= i < |p| ensures Defines(p, def, i, k) == Defines(es, def, i, k) {
        assert p[i] == es[i];
      }
      if k in Tabulate(es, def) {
        if k in Tabulate(p, def) {
          var i :| Defines(p, def, i, k);
          assert Defines(es, def, i, k);
        } else {
          assert Defines(es, def, n, k);
        }
      }
      if exists i :: Defines(es, def, i, k) {
        var i :| Defines(es, def, i, k);
        if i < n {
          assert Defines(p, def, i, k);
        }
      }
    }
  }

  /** The key maps to the value of its last definition: later duplicates
      overwrite earlier ones. */
  lemma {:induction false} TabulateLastWins<V>(es: seq<Element>, def: Element -> Option<(string, V)>, i: int, k: string)
    requires LastDefines(es, def, i, k)
    ensures k in Tabulate(es, def) && Tabulate(es, def)[k] == def(es[i]).value.1
    decreases |es|
  {
    var p := es[..|es| - 1];
    if i < |p| {
      assert !Defines(es, def, |es| - 1, k);
      forall j | i < j < |p| ensures !Defines(p, def, j, k) {
        assert p[j] == es[j];
        assert !Defines(es, def, j, k);
      }
      assert p[i] == es[i];
      TabulateLastWins(p, def, i, k);
    }
  }

  // ---------------------------------------------------------------------------
  // Constants: every child of every top-level `<enums>` group

  /** The children of every top-level `<enums>` group, whatever their tag. */
  function EnumElements(root: Element): seq<Element>
  {
    AllChildren(FindAll(root.children, "enums"))
  }

  /** An element's `value` attribute stored under its `name` attribute; an
      element lacking either attribute is skipped rather than failing the run. */
  function EnumDef(e: Element): Option<(string, string)>
  {
    if "name" in e.attrs && "value" in e.attrs then Some((e.attrs["name"], e.attrs["value"])) else None
  }

  function ParseEnums(root: Element): EnumTable
  {
    Tabulate(EnumElements(root), EnumDef)
  }

  /** Element `e` carries both attributes and its `name` is `n`. */
  predicate EnumNamed(e: Element, n: string)
  {
    "name" in e.attrs && "value" in e.attrs && e.attrs["name"] == n
  }

  /** A constant is in the table exactly when some scanned element carries both
      a `name` equal to it and a `value` (elements lacking either attribute are
      skipped), and its entry is the `value` of the last such element. */
  lemma ParseEnumsSpec(root: Element, n: string)
    ensures n in ParseEnums(root) <==>
      exists i :: 0 <= i < |EnumElements(root)| && EnumNamed(EnumElements(root)[i], n)
    ensures forall i :: 0 <= i < |EnumElements(root)| && EnumNamed(EnumElements(root)[i], n)
                        && (forall j :: i < j < |EnumElements(root)| ==> !EnumNamed(EnumElements(root)[j], n)) ==>
      n in ParseEnums(root) && ParseEnums(root)[n] == EnumElements(root)[i].attrs["value"]
  {
    var es := EnumElements(root);
    TabulateKeys(es, EnumDef, n);
    assert forall i :: Defines(es, EnumDef, i, n) <==> 0 <= i < |es| && EnumNamed(es[i], n);
    forall i | 0 <= i < |es| && EnumNamed(es[i], n) && (forall j :: i < j < |es| ==> !EnumNamed(es[j], n))
      ensures n in ParseEnums(root) && ParseEnums(root)[n] == es[i].attrs["value"]
    {
      assert LastDefines(es, EnumDef, i, n);
      TabulateLastWins(es, EnumDef, i, n);
    }
  }

  // ---------------------------------------------------------------------------
  // Commands: every child of every top-level `<commands>` group

  /** The loop over the children of `<proto>`: a `name` or `ptype` child sets
      its variable to its stripped text, a later one overriding an earlier one;
      a child of either kind without text raises. */
  function ScanProto(cs: seq<Element>, name0: Option<string>, type0: Option<string>): Result<(Option<string>, Option<string>)>
    decreases |cs|
  {
    if cs == [] then Success((name0, type0))
    else
      var c := cs[0];
      if c.tag == "name" then
        if c.text.None? then Failure(MissingText("name")) else ScanProto(cs[1..], Some(Strip(c.text.value)), type0)
      else if c.tag == "ptype" then
        if c.text.None? then Failure(MissingText("ptype")) else ScanProto(cs[1..], name0, Some(Strip(c.text.value)))
      else ScanProto(cs[1..], name0, type0)
  }

  /** The stripped text of the last child tagged `tag`, or `dflt` when there is none. */
  function LastStrippedText(cs: seq<Element>, tag: string, dflt: Option<string>): Option<string>
  {
    match LastTagged(cs, tag)
    case None => dflt
    case Some(e) => if e.text.Some? then Some(Strip(e.text.value)) else None
  }

  predicate TextBearing(c: Element)
  {
    (c.tag == "name" || c.tag == "ptype") ==> c.text.Some?
  }

  lemma {:induction false} LastTaggedCons(c: Element, cs: seq<Element>, tag: string)
    ensures LastTagged([c] + cs, tag) ==
      if LastTagged(cs, tag).Some? then LastTagged(cs, tag) else if c.tag == tag then Some(c) else None
    decreases |cs|
  {
    var s := [c] + cs;
    if cs != [] {
      assert s[..|s| - 1] == [c] + cs[..|cs| - 1];
      LastTaggedCons(c, cs[..|cs| - 1], tag);
    }
  }

  /** The scan fails exactly when a `name` or `ptype` child has no text. */
  lemma {:induction false} ScanProtoFails(cs: seq<Element>, name0: Option<string>, type0: Option<string>)
    ensures ScanProto(cs, name0, type0).Success? <==> forall j :: 0 <= j < |cs| ==> TextBearing(cs[j])
    decreases |cs|
  {
    if cs != [] {
      var c, rest := cs[0], cs[1..];
      assert forall j :: 0 <= j < |rest| ==> rest[j] == cs[j + 1];
      if c.tag == "name" {
        if c.text.Some? {
          ScanProtoFails(rest, Some(Strip(c.text.value)), type0);
        }
      } else if c.tag == "ptype" {
        if c.text.Some? {
          ScanProtoFails(rest, name0, Some(Strip(c.text.value)));
        }
      } else {
        ScanProtoFails(rest, name0, type0);
      }
    }
  }

  lemma LastStrippedTextCons(c: Element, rest: seq<Element>, tag: string, dflt: Option<string>)
    requires c.tag == tag ==> c.text.Some?
    ensures LastStrippedText([c] + rest, tag, dflt) ==
      LastStrippedText(rest, tag, if c.tag == tag && c.text.Some? then Some(Strip(c.text.value)) else dflt)
  {
    LastTaggedCons(c, rest, tag);
  }

  /** A successful scan finds the stripped text of the last child of each kind. */
  lemma {:induction false} ScanProtoFindsLast(cs: seq<Element>, name0: Option<string>, type0: Option<string>)
    requires ScanProto(cs, name0, type0).Success?
    ensures ScanProto(cs, name0, type0).value == (LastStrippedText(cs, "name", name0), LastStrippedText(cs, "ptype", type0))
    decreases |cs|
  {
    if cs != [] {
      var c, rest := cs[0], cs[1..];
      assert cs == [c] + rest;
      LastStrippedTextCons(c, rest, "name", name0);
      LastStrippedTextCons(c, rest, "ptype", type0);
      if c.tag == "name" {
        ScanProtoFindsLast(rest, Some(Strip(c.text.value)), type0);
      } else if c.tag == "ptype" {
        ScanProtoFindsLast(rest, name0, Some(Strip(c.text.value)));
      } else {
        ScanProtoFindsLast(rest, name0, type0);
      }
    }
  }

  /** The loop over the children of `<param>`: `ptype` sets the type and `name`
      the name to the child's raw (unstripped) text, a later child overriding. */
  function ScanParam(cs: seq<Element>, type1: Option<string>, name1: Option<string>): (Option<string>, Option<string>)
    decreases |cs|
  {
    if cs == [] then (type1, name1)
    else if cs[0].tag == "ptype" then ScanParam(cs[1..], cs[0].text, name1)
    else if cs[0].tag == "name" then ScanParam(cs[1..], type1, cs[0].text)
    else ScanParam(cs[1..], type1, name1)
  }

  /** The raw text of the last child tagged `tag`, or `dflt` when there is none. */
  function LastRawText(cs: seq<Element>, tag: string, dflt: Option<string>): Option<string>
  {
    match LastTagged(cs, tag)
    case None => dflt
    case Some(e) => e.text
  }

  /** `type1` starts as the parameter's own text and `name1` as `None`. */
  function ParseParam(par: Element): Param
  {
    var scanned := ScanParam(par.children, par.text, None);
    Param(scanned.0, scanned.1)
  }

  lemma {:induction false} ScanParamFindsLast(cs: seq<Element>, type1: Option<string>, name1: Option<string>)
    ensures ScanParam(cs, type1, name1) == (LastRawText(cs, "ptype", type1), LastRawText(cs, "name", name1))
    decreases |cs|
  {
    if cs != [] {
      var c := cs[0];
      assert cs == [c] + cs[1..];
      LastTaggedCons(c, cs[1..], "name");
      LastTaggedCons(c, cs[1..], "ptype");
      if c.tag == "ptype" {
        ScanParamFindsLast(cs[1..], c.text, name1);
      } else if c.tag == "name" {
        ScanParamFindsLast(cs[1..], type1, c.text);
      } else {
        ScanParamFindsLast(cs[1..], type1, name1);
      }
    }
  }

  /** A parameter's type is the text of its last `ptype` child, or the
      parameter's own leading text when it has none; its name is the text of
      its last `name` child, or `None`. Neither is stripped. */
  lemma ParseParamSpec(par: Element)
    ensures ParseParam(par).ptype ==
      if LastTagged(par.children, "ptype").Some? then LastTagged(par.children, "ptype").value.text else par.text
    ensures ParseParam(par).name ==
      if LastTagged(par.children, "name").Some? then LastTagged(par.children, "name").value.text else None
  {
    ScanParamFindsLast(par.children, par.text, None);
  }

  function ParseParams(ps: seq<Element>): (r: seq<Param>)
    ensures |r| == |ps|
    ensures forall i :: 0 <= i < |ps| ==> r[i] == ParseParam(ps[i])
    decreases |ps|
  {
    if ps == [] then [] else ParseParams(ps[..|ps| - 1]) + [ParseParam(ps[|ps| - 1])]
  }

  /** One `<command>`: its name (`None` when the prototype has no `name` child)
      and its signature. */
  function ParseCommand(cmd: Element): Result<(Option<string>, Signature)>
  {
    match Find(cmd.children, "proto")
    case None => Failure(MissingChild(cmd.tag, "proto"))
    case Some(proto) =>
      match ScanProto(proto.children, None, None)
      case Failure(f) => Failure(f)
      case Success(found) =>
        if found.1.None? && proto.text.None? then Failure(MissingText("proto"))
        else
          var ret := if found.1.Some? then found.1.value else Strip(proto.text.value);
          Success((found.0, Signature(ret, ParseParams(FindAll(cmd.children, "param")))))
  }

  /** The return type is the stripped text of the prototype's last `ptype`
      child, or the stripped leading text of the prototype when it has none;
      the name is the stripped text of its last `name` child; the parameters
      are the `<param>` children, in document order. */
  lemma ParseCommandSpec(cmd: Element, proto: Element)
    requires Find(cmd.children, "proto") == Some(proto)
    requires ParseCommand(cmd).Success?
    ensures var lt := LastTagged(proto.children, "ptype");
      lt.Some? ==> lt.value.text.Some? && ParseCommand(cmd).value.1.ret == Strip(lt.value.text.value)
    ensures LastTagged(proto.children, "ptype").None? ==>
      proto.text.Some? && ParseCommand(cmd).value.1.ret == Strip(proto.text.value)
    ensures ParseCommand(cmd).value.0 == LastStrippedText(proto.children, "name", None)
    ensures var ps := FindAll(cmd.children, "param");
      |ParseCommand(cmd).value.1.params| == |ps| &&
      forall i :: 0 <= i < |ps| ==> ParseCommand(cmd).value.1.params[i] == ParseParam(ps[i])
  {
    ScanProtoFails(proto.children, None, None);
    ScanProtoFindsLast(proto.children, None, None);
    var lt := LastTagged(proto.children, "ptype");
    if lt.Some? {
      var j :| 0 <= j < |proto.children| && proto.children[j] == lt.value;
      assert TextBearing(proto.children[j]);
    }
  }

  /** A prototype the command loop can read: every `name` and `ptype` child
      has text, and there is a `ptype` child or else the prototype's own text
      to take the return type from. */
  predicate ProtoReadable(proto: Element)
  {
    && (forall j :: 0 <= j < |proto.children| ==> TextBearing(proto.children[j]))
    && (LastTagged(proto.children, "ptype").Some? || proto.text.Some?)
  }

  /** A command can be read exactly when it has a `<proto>` child and that
      prototype is readable; a command without one fails on the missing child. */
  lemma ParseCommandSucceeds(cmd: Element)
    ensures ParseCommand(cmd).Success? <==>
      Find(cmd.children, "proto").Some? && ProtoReadable(Find(cmd.children, "proto").value)
    ensures Find(cmd.children, "proto").None? ==> ParseCommand(cmd) == Failure(MissingChild(cmd.tag, "proto"))
  {
    if Find(cmd.children, "proto").Some? {
      var proto := Find(cmd.children, "proto").value;
      ScanProtoFails(proto.children, None, None);
      if ScanProto(proto.children, None, None).Success? {
        ScanProtoFindsLast(proto.children, None, None);
        LastTypeText(proto);
      }
    }
  }

  /** With every `ptype` child bearing text, the scanned return type is present
      exactly when some `ptype` child is. */
  lemma LastTypeText(proto: Element)
    requires forall j :: 0 <= j < |proto.children| ==> TextBearing(proto.children[j])
    ensures LastStrippedText(proto.children, "ptype", None).Some? <==> LastTagged(proto.children, "ptype").Some?
  {
    var lt := LastTagged(proto.children, "ptype");
    if lt.Some? {
      var j :| 0 <= j < |proto.children| && proto.children[j] == lt.value;
      assert TextBearing(proto.children[j]);
    }
  }

  // ---------------------------------------------------------------------------
  // Dicts filled by a loop that may raise

  /** An insertion-ordered table filled element by element, where `entry` reads
      one element: a `Failure` ends the loop with its fault and `Success(None)`
      skips the element. */
  function Scan<V>(es: seq<Element>, entry: Element -> Result<Option<(string, V)>>): (r: Result<ODict<V>>)
    ensures r.Success? ==> Valid(r.value)
    decreases |es|
  {
    if es == [] then Success(Empty())
    else
      match Scan(es[..|es| - 1], entry)
      case Failure(f) => Failure(f)
      case Success(d) =>
        match entry(es[|es| - 1])
        case Failure(f) => Failure(f)
        case Success(o) => if o.Some? then Success(Put(d, o.value.0, o.value.1)) else Success(d)
  }

  /** The entry each element contributes to a scan that succeeds. */
  function Entries<V>(entry: Element -> Result<Option<(string, V)>>): Element -> Option<(string, V)>
  {
    (e: Element) => if entry(e).Success? then entry(e).value else None
  }

  /** The keys the elements assign, in document order, duplicates included. */
  function AssignedKeys<V>(es: seq<Element>, entry: Element -> Result<Option<(string, V)>>): seq<string>
    decreases |es|
  {
    if es == [] then []
    else
      var o := Entries(entry)(es[|es| - 1]);
      AssignedKeys(es[..|es| - 1], entry) + (if o.Some? then [o.value.0] else [])
  }

  /** The scan succeeds exactly when every element can be read. */
  lemma {:induction false} ScanSucceeds<V>(es: seq<Element>, entry: Element -> Result<Option<(string, V)>>)
    ensures Scan(es, entry).Success? <==> forall i :: 0 <= i < |es| ==> entry(es[i]).Success?
    decreases |es|
  {
    if es != [] {
      var p := es[..|es| - 1];
      ScanSucceeds(p, entry);
      assert forall i :: 0 <= i < |p| ==> p[i] == es[i];
    }
  }

  /** A successful scan leaves a dict that iterates the assigned keys in the
      order they were first assigned. */
  lemma {:induction false} ScanKeys<V>(es: seq<Element>, entry: Element -> Result<Option<(string, V)>>)
    requires Scan(es, entry).Success?
    ensures Scan(es, entry).value.keys == FirstOccurrences(AssignedKeys(es, entry))
    decreases |es|
  {
    if es != [] {
      var p := es[..|es| - 1];
      ScanKeys(p, entry);
      var d := Scan(p, entry).value;
      var ks := AssignedKeys(p, entry);
      var o := Entries(entry)(es[|es| - 1]);
      if o.Some? {
        var k := o.value.0;
        var s := ks + [k];
        assert AssignedKeys(es, entry) == s;
        assert s[..|s| - 1] == ks;
        FirstOccurrencesMembers(ks);
        assert (k in d.vals) == (k in ks);
        assert Scan(es, entry).value == Put(d, k, o.value.1);
      } else {
        assert AssignedKeys(es, entry) == ks;
        assert Scan(es, entry).value == d;
      }
    }
  }

  /** A successful scan maps each key to the value assigned to it last. */
  lemma {:induction false} ScanValues<V>(es: seq<Element>, entry: Element -> Result<Option<(string, V)>>)
    requires Scan(es, entry).Success?
    ensures Scan(es, entry).value.vals == Tabulate(es, Entries(entry))
    decreases |es|
  {
    if es != [] {
      var p := es[..|es| - 1];
      ScanValues(p, entry);
      var d := Scan(p, entry).value;
      var o := Entries(entry)(es[|es| - 1]);
      if o.Some? {
        assert Scan(es, entry).value == Put(d, o.value.0, o.value.1);
        assert Put(d, o.value.0, o.value.1).vals == d.vals[o.value.0 := o.value.1];
      } else {
        assert Scan(es, entry).value == d;
      }
    }
  }

  // ---------------------------------------------------------------------------
  // Commands, continued

  /** The table entry a command contributes. A command without a name is
      stored by the generator under Python's `None`, a key that no reference
      (always a string) can name, so here it contributes nothing. */
  function CommandEntry(cmd: Element): Result<Option<(string, Signature)>>
  {
    match ParseCommand(cmd)
    case Failure(f) => Failure(f)
    case Success(entry) => Success(if entry.0.Some? then Some((entry.0.value, entry.1)) else None)
  }

  function CommandElements(root: Element): seq<Element>
  {
    AllChildren(FindAll(root.children, "commands"))
  }

  /** Each command's signature stored under its name, in turn; the first command
      that cannot be read aborts the run. */
  function ParseCommands(root: Element): Result<CommandTable>
  {
    match Scan(CommandElements(root), CommandEntry)
    case Failure(f) => Failure(f)
    case Success(d) => Success(d.vals)
  }

  /** The command table can be built exactly when every command can be read,
      that is, has a readable prototype; a name is then in it exactly when some command's prototype carries it,
      and it maps to the signature of the last such command. */
  lemma ParseCommandsSpec(root: Element, n: string)
    ensures ParseCommands(root).Success? <==>
      forall i :: 0 <= i < |CommandElements(root)| ==> ParseCommand(CommandElements(root)[i]).Success?
    ensures ParseCommands(root).Success? <==>
      forall i :: 0 <= i < |CommandElements(root)| ==>
        Find(CommandElements(root)[i].children, "proto").Some? &&
        ProtoReadable(Find(CommandElements(root)[i].children, "proto").value)
    ensures ParseCommands(root).Success? ==>
      (n in ParseCommands(root).value <==> exists i :: Defines(CommandElements(root), Entries(CommandEntry), i, n))
    ensures ParseCommands(root).Success? ==>
      forall i :: LastDefines(CommandElements(root), Entries(CommandEntry), i, n) ==>
        n in ParseCommands(root).value && ParseCommands(root).value[n] == ParseCommand(CommandElements(root)[i]).value.1
  {
    CommandsSucceed(root);
    CommandsReadable(root);
    if ParseCommands(root).Success? {
      CommandsKeys(root, n);
      CommandsLastWins(root, n);
    }
  }

  lemma CommandsSucceed(root: Element)
    ensures ParseCommands(root).Success? <==>
      forall i :: 0 <= i < |CommandElements(root)| ==> ParseCommand(CommandElements(root)[i]).Success?
  {
    var cs := CommandElements(root);
    ScanSucceeds(cs, CommandEntry);
    assert forall i :: 0 <= i < |cs| ==> (CommandEntry(cs[i]).Success? <==> ParseCommand(cs[i]).Success?);
  }

  /** The command table can be built exactly when every command has a readable prototype. */
  lemma CommandsReadable(root: Element)
    ensures ParseCommands(root).Success? <==>
      forall i :: 0 <= i < |CommandElements(root)| ==>
        Find(CommandElements(root)[i].children, "proto").Some? &&
        ProtoReadable(Find(CommandElements(root)[i].children, "proto").value)
  {
    var cs := CommandElements(root);
    CommandsSucceed(root);
    forall i | 0 <= i < |cs|
      ensures ParseCommand(cs[i]).Success? <==>
        Find(cs[i].children, "proto").Some? && ProtoReadable(Find(cs[i].children, "proto").value)
    {
      ParseCommandSucceeds(cs[i]);
    }
  }

  lemma CommandsKeys(root: Element, n: string)
    requires ParseCommands(root).Success?
    ensures n in ParseCommands(root).value <==> exists i :: Defines(CommandElements(root), Entries(CommandEntry), i, n)
  {
    ScanValues(CommandElements(root), CommandEntry);
    TabulateKeys(CommandElements(root), Entries(CommandEntry), n);
  }

  lemma CommandsLastWins(root: Element, n: string)
    requires ParseCommands(root).Success?
    ensures forall i :: LastDefines(CommandElements(root), Entries(CommandEntry), i, n) ==>
      n in ParseCommands(root).value && ParseCommands(root).value[n] == ParseCommand(CommandElements(root)[i]).value.1
  {
    var cs := CommandElements(root);
    ScanValues(cs, CommandEntry);
    forall i | LastDefines(cs, Entries(CommandEntry), i, n)
      ensures n in ParseCommands(root).value && ParseCommands(root).value[n] == ParseCommand(cs[i]).value.1
    {
      TabulateLastWins(cs, Entries(CommandEntry), i, n);
    }
  }

  // ---------------------------------------------------------------------------
  // Features: every top-level `<feature>` element

  /** The `name` attribute of each element, in order; an element without one fails the run. */
  function RefNames(es: seq<Element>): (r: Result<seq<string>>)
    ensures r.Success? <==> forall i :: 0 <= i < |es| ==> "name" in es[i].attrs
    ensures r.Success? ==> |r.value| == |es| && forall i :: 0 <= i < |es| ==> r.value[i] == es[i].attrs["name"]
    decreases |es|
  {
    if es == [] then Success([])
    else
      var e := es[|es| - 1];
      match RefNames(es[..|es| - 1])
      case Failure(f) => Failure(f)
      case Success(names) =>
        if "name" in e.attrs then Success(names + [e.attrs["name"]])
        else Failure(MissingAttribute(e.tag, "name"))
  }

  /** One `<feature>` of the requested api: its number and block. */
  function ParseFeature(feat: Element): Result<(string, Feature)>
  {
    if "number" !in feat.attrs then Failure(MissingAttribute(feat.tag, "number"))
    else if "name" !in feat.attrs then Failure(MissingAttribute(feat.tag, "name"))
    else
      match RefNames(FindPath(feat, "require", "enum"))
      case Failure(f) => Failure(f)
      case Success(enums) =>
        match RefNames(FindPath(feat, "require", "command"))
        case Failure(f) => Failure(f)
        case Success(cmds) => Success((feat.attrs["number"], Feature(feat.attrs["name"], enums, cmds)))
  }

  predicate InApi(feat: Element, api: string)
  {
    "api" in feat.attrs && feat.attrs["api"] == api
  }

  /** The entry a feature contributes to the index of `api`: one without an
      `api` attribute raises, one of another api is skipped. */
  function FeatureEntry(api: string): Element -> Result<Option<(string, Feature)>>
  {
    (feat: Element) =>
      if "api" !in feat.attrs then Failure(MissingAttribute(feat.tag, "api"))
      else if feat.attrs["api"] != api then Success(None)
      else
        match ParseFeature(feat)
        case Failure(f) => Failure(f)
        case Success(entry) => Success(Some(entry))
  }

  function FeatureElements(root: Element): seq<Element>
  {
    FindAll(root.children, "feature")
  }

  /** Each feature of `api` stored under its version number, in turn. */
  function ParseFeatures(root: Element, api: string): Result<FeatureIndex>
  {
    Scan(FeatureElements(root), FeatureEntry(api))
  }

  /** The numbers of the features of `api`, in document order, duplicates included. */
  function ApiNumbers(fs: seq<Element>, api: string): seq<string>
    decreases |fs|
  {
    if fs == [] then []
    else
      var feat := fs[|fs| - 1];
      ApiNumbers(fs[..|fs| - 1], api)
        + (if InApi(feat, api) && "number" in feat.attrs then [feat.attrs["number"]] else [])
  }

  lemma {:induction false} ApiNumbersAssigned(fs: seq<Element>, api: string)
    requires forall i :: 0 <= i < |fs| ==> FeatureEntry(api)(fs[i]).Success?
    ensures AssignedKeys(fs, FeatureEntry(api)) == ApiNumbers(fs, api)
    decreases |fs|
  {
    if fs != [] {
      var p := fs[..|fs| - 1];
      assert forall i :: 0 <= i < |p| ==> p[i] == fs[i];
      ApiNumbersAssigned(p, api);
    }
  }

  /** The index can be built exactly when every feature has an `api` and every
      feature of `api` can be read. It then holds the features of `api` and
      no other, iterates their numbers in order of first appearance, and a
      repeated number keeps its first place but takes its last block. */
  lemma ParseFeaturesSpec(root: Element, api: string)
    ensures ParseFeatures(root, api).Success? <==>
      forall i :: 0 <= i < |FeatureElements(root)| ==> FeatureEntry(api)(FeatureElements(root)[i]).Success?
    ensures ParseFeatures(root, api).Success? ==>
      && ParseFeatures(root, api).value.keys == FirstOccurrences(ApiNumbers(FeatureElements(root), api))
      && ParseFeatures(root, api).value.vals == Tabulate(FeatureElements(root), Entries(FeatureEntry(api)))
  {
    var fs := FeatureElements(root);
    ScanSucceeds(fs, FeatureEntry(api));
    if ParseFeatures(root, api).Success? {
      ScanKeys(fs, FeatureEntry(api));
      ScanValues(fs, FeatureEntry(api));
      ApiNumbersAssigned(fs, api);
    }
  }

  /** Each feature's reference lists are the `name` attributes of its
      `require/enum` and `require/command` elements, in document order. */
  lemma ParseFeatureRefs(feat: Element)
    requires ParseFeature(feat).Success?
    ensures var block := ParseFeature(feat).value.1;
      var es := FindPath(feat, "require", "enum");
      var cs := FindPath(feat, "require", "command");
      && block.name == feat.attrs["name"]
      && |block.enumRefs| == |es| && (forall i :: 0 <= i < |es| ==> block.enumRefs[i] == es[i].attrs["name"])
      && |block.commandRefs| == |cs| && (forall i :: 0 <= i < |cs| ==> block.commandRefs[i] == cs[i].attrs["name"])
  {
  }
}
