/** The C `typedef` lines of the registry's `<types>` groups, each brought to
    one normal form: single spaces, no whitespace edges, one closing `;`. */
module Types {
  import opened Base
  import opened Text
  import opened Tree

  /** The children of every top-level `<types>` group, in document order. */
  function TypeElements(root: Element): seq<Element>
  {
    AllChildren(FindAll(root.children, "types"))
  }

  /** A `<type>` element is a typedef when its leading text is present,
      non-empty and mentions `typedef`. */
  predicate IsTypedef(e: Element)
  {
    e.text.Some? && e.text.value != [] && Contains(e.text.value, "typedef")
  }

  /** What a child's tail appends: nothing when it is `None` or empty, its stripped text otherwise. */
  function TailText(c: Element): string
  {
    if c.tail.Some? && c.tail.value != [] then Strip(c.tail.value) else ""
  }

  /** What one child of a `<type>` appends: a `name` its text (a `name` without
      text raises), an `apientry` the literal `APIENTRY `, any other tag
      nothing; then its tail. */
  function Contribution(c: Element): Result<string>
  {
    if c.tag == "name" then
      if c.text.Some? then Success(c.text.value + TailText(c)) else Failure(MissingText("name"))
    else if c.tag == "apientry" then Success("APIENTRY " + TailText(c))
    else Success(TailText(c))
  }

  /** The pieces of `cs` concatenated in document order, or the first fault. */
  function Concat(cs: seq<Element>, piece: Element -> Result<string>): (r: Result<string>)
    ensures r.Success? <==> forall i :: 0 <= i < |cs| ==> piece(cs[i]).Success?
    decreases |cs|
  {
    if cs == [] then Success("")
    else
      var p := cs[..|cs| - 1];
      assert forall i :: 0 <= i < |p| ==> p[i] == cs[i];
      match Concat(p, piece)
      case Failure(f) => Failure(f)
      case Success(a) =>
        match piece(cs[|cs| - 1])
        case Failure(f) => Failure(f)
        case Success(b) => Success(a + b)
  }

  lemma ConcatStep(cs: seq<Element>, i: nat, piece: Element -> Result<string>)
    requires i < |cs| && Concat(cs[..i], piece).Success?
    ensures Concat(cs[..i + 1], piece) ==
      if piece(cs[i]).Success? then Success(Concat(cs[..i], piece).value + piece(cs[i]).value)
      else Failure(piece(cs[i]).fault)
  {
    assert cs[..i + 1][..i] == cs[..i];
  }

  /** Everything the children of a `<type>` append, in document order. */
  function Contributions(cs: seq<Element>): Result<string>
  {
    Concat(cs, Contribution)
  }

  /** The raw text with each whitespace run turned into one space and the
      edges stripped, then closed with a `;` unless one already ends it. */
  function Normalize(raw: string): (r: string)
    ensures EndsWith(r, ";")
    ensures NoEdgeSpace(r)
    ensures SingleSpaced(r)
  {
    var t := Strip(Collapse(raw));
    StripSingleSpaced(Collapse(raw));
    if EndsWith(t, ";") then t
    else
      CloseWithSemicolon(t);
      t + ";"
  }

  lemma CloseWithSemicolon(t: string)
    requires NoEdgeSpace(t) && SingleSpaced(t)
    ensures NoEdgeSpace(t + ";") && SingleSpaced(t + ";") && EndsWith(t + ";", ";")
  {
    var r := t + ";";
    assert forall i :: 0 <= i < |t| ==> r[i] == t[i];
    assert r[|t|] == ';';
    assert !IsSpace(';');
  }

  /** Normalising keeps every visible character of the raw text in order and
      adds a `;` exactly when the last of them is not already one. */
  lemma NormalizeContent(raw: string)
    ensures NonSpaces(Normalize(raw)) ==
      NonSpaces(raw) + (if EndsWith(NonSpaces(raw), ";") then "" else ";")
  {
    var c := Collapse(raw);
    var t := Strip(c);
    CollapseKeepsContent(raw);
    StripKeepsContent(c);
    SemicolonContent(t);
  }

  lemma SemicolonContent(t: string)
    requires NoEdgeSpace(t)
    ensures NonSpaces(if EndsWith(t, ";") then t else t + ";") ==
      NonSpaces(t) + (if EndsWith(NonSpaces(t), ";") then "" else ";")
  {
    SemicolonEnd(t);
    if !EndsWith(t, ";") {
      NonSpacesAppend(t, ";");
      assert NonSpaces(";") == ";";
    }
  }

  /** A string without whitespace edges ends in `;` exactly when its visible characters do. */
  lemma SemicolonEnd(t: string)
    requires NoEdgeSpace(t)
    ensures EndsWith(t, ";") == EndsWith(NonSpaces(t), ";")
  {
    EndsWithChar(t, ';');
    EndsWithChar(NonSpaces(t), ';');
    if t != [] {
      NonSpacesLast(t);
    } else {
      assert NonSpaces(t) == [];
    }
  }

  /** Normalising keeps the words of the raw text, as `split()` finds them, and
      glues a `;` to the last one (or makes `;` the only word) unless the last
      visible character already is one. */
  lemma NormalizeWords(raw: string)
    ensures Words(Normalize(raw)) ==
      if EndsWith(NonSpaces(raw), ";") then Words(raw) else GlueLast(Words(raw), ';')
  {
    var c := Collapse(raw);
    var t := Strip(c);
    CollapseWords(raw);
    StripWords(c);
    CollapseKeepsContent(raw);
    StripKeepsContent(c);
    SemicolonEnd(t);
    if !EndsWith(t, ";") {
      if t == [] {
        WordsOneChar(';');
      } else {
        WordsSnoc(t, ';');
      }
    }
  }

  lemma WordsOneChar(c: char)
    requires !IsSpace(c)
    ensures Words([c]) == [[c]]
  {
    WordLengthOne(c);
    OneWord([c]);
  }

  /** A normalised type string is its own normal form: no second `;` is ever added. */
  lemma NormalizeIdempotent(raw: string)
    ensures Normalize(Normalize(raw)) == Normalize(raw)
  {
    var r := Normalize(raw);
    CollapseFixesSingleSpaced(r);
    StripNoEdge(r);
  }

  /** The raw text of a typedef element whose children can all be read. */
  function RawType(e: Element): string
    requires IsTypedef(e) && Contributions(e.children).Success?
  {
    e.text.value + Contributions(e.children).value
  }

  /** The type string of one element already known to be a typedef. */
  function TypedefString(e: Element): Result<string>
  {
    match Contributions(e.children)
    case Failure(f) => Failure(f)
    case Success(s) => Success(Normalize((if e.text.Some? then e.text.value else "") + s))
  }

  /** The type string of a typedef element can be built exactly when every
      `name` child has text, and is then the normal form of the element's
      text followed by what its children append. */
  lemma TypedefStringSpec(e: Element)
    requires IsTypedef(e)
    ensures TypedefString(e).Success? <==>
      forall i :: 0 <= i < |e.children| && e.children[i].tag == "name" ==> e.children[i].text.Some?
    ensures TypedefString(e).Success? ==>
      Contributions(e.children).Success? && TypedefString(e).value == Normalize(RawType(e))
    ensures TypedefString(e).Success? ==>
      var v := NonSpaces(e.text.value) + VisibleOf(e.children);
      NonSpaces(TypedefString(e).value) == v + (if EndsWith(v, ";") then "" else ";")
  {
    var cs := e.children;
    assert Contributions(cs).Success? <==> forall i :: 0 <= i < |cs| ==> Contribution(cs[i]).Success?;
    if TypedefString(e).Success? {
      TypedefStringVisible(e);
    }
  }

  /** The visible characters a child of a `<type>` brings in, read off the
      element itself: those of a `name` child's text, the word `APIENTRY` for
      an `apientry` child, nothing for any other tag; then those of its tail. */
  function Piece(c: Element): string
  {
    var head := if c.tag == "name" && c.text.Some? then NonSpaces(c.text.value)
      else if c.tag == "apientry" then "APIENTRY" else "";
    head + (if c.tail.Some? then NonSpaces(c.tail.value) else "")
  }

  /** The pieces of `cs`, in document order. */
  function VisibleOf(cs: seq<Element>): string
    decreases |cs|
  {
    if cs == [] then "" else VisibleOf(cs[..|cs| - 1]) + Piece(cs[|cs| - 1])
  }

  /** What a child appends holds exactly the visible characters of its piece:
      `name` text goes in unchanged and only the tail is stripped. */
  lemma ContributionVisible(c: Element)
    requires Contribution(c).Success?
    ensures NonSpaces(Contribution(c).value) == Piece(c)
  {
    var t := TailText(c);
    TailVisible(c);
    if c.tag == "name" {
      NonSpacesAppend(c.text.value, t);
    } else if c.tag == "apientry" {
      NonSpacesAppend("APIENTRY ", t);
      ApientryVisible();
    }
  }

  /** Stripping the tail keeps its visible characters. */
  lemma TailVisible(c: Element)
    ensures NonSpaces(TailText(c)) == if c.tail.Some? then NonSpaces(c.tail.value) else ""
  {
    if c.tail.Some? && c.tail.value != [] {
      StripKeepsContent(c.tail.value);
    }
  }

  lemma ApientryVisible()
    ensures NonSpaces("APIENTRY ") == "APIENTRY"
  {
    ApientryLetters();
    VisibleThenSpace("APIENTRY");
    assert "APIENTRY " == "APIENTRY" + " ";
  }

  lemma ApientryLetters()
    ensures forall i :: 0 <= i < |"APIENTRY"| ==> !IsSpace("APIENTRY"[i])
  {
  }

  lemma {:induction false} ContributionsVisible(cs: seq<Element>)
    requires Contributions(cs).Success?
    ensures NonSpaces(Contributions(cs).value) == VisibleOf(cs)
    decreases |cs|
  {
    if cs != [] {
      var p, c := cs[..|cs| - 1], cs[|cs| - 1];
      ContributionsVisible(p);
      ContributionVisible(c);
      NonSpacesAppend(Contributions(p).value, Contribution(c).value);
    }
  }

  /** The visible characters of a type string are those of the element's own
      text and of its children's pieces in document order, closed by `;`
      unless they already end in one. */
  lemma TypedefStringVisible(e: Element)
    requires TypedefString(e).Success?
    ensures var v := NonSpaces(if e.text.Some? then e.text.value else "") + VisibleOf(e.children);
      NonSpaces(TypedefString(e).value) == v + (if EndsWith(v, ";") then "" else ";")
  {
    var head := if e.text.Some? then e.text.value else "";
    var s := Contributions(e.children).value;
    ContributionsVisible(e.children);
    NonSpacesAppend(head, s);
    NormalizeContent(head + s);
  }

  /** The elements of `es` that `keep` selects, in document order. */
  function Filter(es: seq<Element>, keep: Element -> bool): (r: seq<Element>)
    ensures forall e :: e in r <==> e in es && keep(e)
    decreases |es|
  {
    if es == [] then []
    else
      var e := es[|es| - 1];
      assert es == es[..|es| - 1] + [e];
      Filter(es[..|es| - 1], keep) + (if keep(e) then [e] else [])
  }

  /** `f` applied to each element `keep` selects, in order, where the first fault aborts. */
  function Gather<T>(es: seq<Element>, keep: Element -> bool, f: Element -> Result<T>): Result<seq<T>>
    decreases |es|
  {
    if es == [] then Success([])
    else
      var e := es[|es| - 1];
      match Gather(es[..|es| - 1], keep, f)
      case Failure(fault) => Failure(fault)
      case Success(ts) =>
        if !keep(e) then Success(ts)
        else
          match f(e)
          case Failure(fault) => Failure(fault)
          case Success(t) => Success(ts + [t])
  }

  /** Gathering succeeds exactly when `f` succeeds on every selected element,
      and then holds its results for them in document order. */
  lemma {:induction false} GatherSpec<T>(es: seq<Element>, keep: Element -> bool, f: Element -> Result<T>)
    ensures Gather(es, keep, f).Success? <==>
      forall i :: 0 <= i < |Filter(es, keep)| ==> f(Filter(es, keep)[i]).Success?
    ensures Gather(es, keep, f).Success? ==>
      && |Gather(es, keep, f).value| == |Filter(es, keep)|
      && forall i :: 0 <= i < |Filter(es, keep)| ==> Gather(es, keep, f).value[i] == f(Filter(es, keep)[i]).value
    decreases |es|
  {
    if es != [] {
      var p := es[..|es| - 1];
      var e := es[|es| - 1];
      GatherSpec(p, keep, f);
      var fp := Filter(p, keep);
      if keep(e) {
        assert Filter(es, keep) == fp + [e];
        assert forall i :: 0 <= i < |fp| ==> Filter(es, keep)[i] == fp[i];
      } else {
        assert Filter(es, keep) == fp;
      }
    }
  }

  /** The typedef elements of `es`, in document order. */
  function Typedefs(es: seq<Element>): seq<Element>
  {
    Filter(es, IsTypedef)
  }

  /** `__parseTypes` over the scanned elements: the type string of every
      typedef element, or the first fault. */
  function ParseTypes(es: seq<Element>): Result<seq<string>>
  {
    Gather(es, IsTypedef, TypedefString)
  }

  /** The list can be built exactly when every typedef element's children can
      be read; it then holds one normalised string per typedef element, in
      document order, and nothing for the other elements. */
  lemma ParseTypesSpec(es: seq<Element>)
    ensures ParseTypes(es).Success? <==>
      forall i :: 0 <= i < |Typedefs(es)| ==> Contributions(Typedefs(es)[i].children).Success?
    ensures ParseTypes(es).Success? ==>
      && |ParseTypes(es).value| == |Typedefs(es)|
      && forall i :: 0 <= i < |Typedefs(es)| ==>
           && IsTypedef(Typedefs(es)[i])
           && Contributions(Typedefs(es)[i].children).Success?
           && ParseTypes(es).value[i] == Normalize(RawType(Typedefs(es)[i]))
  {
    var ts := Typedefs(es);
    GatherSpec(es, IsTypedef, TypedefString);
    forall i | 0 <= i < |ts| ensures IsTypedef(ts[i]) && (TypedefString(ts[i]).Success? <==> Contributions(ts[i].children).Success?) {
      assert ts[i] in ts;
    }
  }
}
