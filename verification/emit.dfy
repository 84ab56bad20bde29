/** Binding emission: the text blocks spliced into the generated header, built
    from the feature index and the kept blocks. */
module Emit {
  import opened Base
  import opened Text
  import opened Ordered
  import opened Registry
  import opened Accumulate

  /** The versions the generator accepts, oldest first. */
  const KnownVersions: seq<string> := [
    "1.0", "1.1", "1.2", "1.3", "1.4", "1.5",
    "2.0", "2.1",
    "3.0", "3.1", "3.2", "3.3",
    "4.0", "4.1", "4.2", "4.3", "4.4", "4.5", "4.6"]

  /** `getVersionName(number)`: `None` for a version outside the known list,
      otherwise the name of that feature, looked up with `KeyError` on a miss. */
  function VersionName(index: FeatureIndex, number: string): (r: Result<Option<string>>)
    ensures r.Failure? <==> number in KnownVersions && number !in index.vals
    ensures r == Success(None) <==> number !in KnownVersions
    ensures r.Success? && r.value.Some? ==> number in index.vals && r.value.value == index.vals[number].name
  {
    if number !in KnownVersions then Success(None)
    else if number in index.vals then Success(Some(index.vals[number].name))
    else Failure(MissingKey(number))
  }

  /** How an f-string renders a value that may be `None`. */
  function Shown(o: Option<string>): string
  {
    if o.Some? then o.value else "None"
  }

  // ---------------------------------------------------------------------------
  // Lines

  function OpenLine(title: string): string { "# if defined (" + title + ")" }
  function CloseLine(title: string): string { "# endif /* " + title + " */" }
  function VersionLine(name: string): string { "# define " + name }
  function DefineLine(name: string, value: string): string { "#  define " + name + " " + value }

  /** The function-pointer type of command `f`: `PFN` + `f.upper()` + `PROC`. */
  function ProcName(f: string): string { "PFN" + Upper(f) + "PROC" }

  /** A parameter as its type and its name, joined by one space. */
  function ParamText(p: Param): string { Shown(p.ptype) + " " + Shown(p.name) }

  function ParamTexts(ps: seq<Param>): (r: seq<string>)
    ensures |r| == |ps| && forall i :: 0 <= i < |ps| ==> r[i] == ParamText(ps[i])
  {
    seq(|ps|, i requires 0 <= i < |ps| => ParamText(ps[i]))
  }

  /** A parameter list as C writes it: `void` for none, otherwise the
      parameters joined by `, ` in declared order. */
  function ParamsText(ps: seq<Param>): string
  {
    if ps == [] then "void" else Join(", ", ParamTexts(ps))
  }

  function TypedefLine(f: string, sig: Signature): string
  {
    "typedef " + sig.ret + " (APIENTRYP " + ProcName(f) + ")(" + ParamsText(sig.params) + ");"
  }

  function ExternLine(f: string): string { "extern " + ProcName(f) + " glapi_" + f + ";" }
  function RedirectLine(f: string): string { "#  define " + f + " glapi_" + f }
  function StorageLine(f: string): string { ProcName(f) + " glapi_" + f + ";" }
  function LoadLine(f: string): string { "\tglapi_" + f + " = (" + ProcName(f) + ") load(\"" + f + "\");" }

  /** The loop that builds `f_param`: each parameter followed by `, `, then
      the last two characters trimmed, or `void` when nothing was written. */
  method RenderParams(ps: seq<Param>) returns (r: string)
    ensures r == ParamsText(ps)
  {
    var texts := ParamTexts(ps);
    var acc := "";
    for k := 0 to |ps|
      invariant acc == if k == 0 then "" else Join(", ", texts[..k]) + ", "
    {
      var chunk := ParamText(ps[k]) + ", ";
      if k > 0 {
        JoinStep(texts, k);
        AppendAssoc3(Join(", ", texts[..k]), ", ", texts[k], ", ");
      } else {
        assert Join(", ", texts[..1]) == texts[0];
      }
      acc := acc + chunk;
    }
    if |acc| != 0 {
      assert acc == Join(", ", texts[..|ps|]) + ", ";
      acc := acc[..|acc| - 2];
      assert texts[..|ps|] == texts;
    } else {
      acc := "void";
    }
    r := acc;
  }

  lemma JoinStep(parts: seq<string>, k: nat)
    requires 0 < k < |parts|
    ensures Join(", ", parts[..k + 1]) == Join(", ", parts[..k]) + ", " + parts[k]
  {
    assert parts[..k + 1][..k] == parts[..k];
  }

  lemma AppendAssoc3(a: string, b: string, c: string, d: string)
    ensures a + b + (c + d) == (a + b + c) + d
  {
  }

  /** Only an empty parameter list renders as `void`: every rendered
      parameter holds a space, and `void` holds none. */
  lemma {:induction false} ParamsVoid(ps: seq<Param>)
    ensures ParamsText(ps) == "void" <==> ps == []
  {
    if ps != [] {
      var texts := ParamTexts(ps);
      JoinHasSpace(texts);
      assert ' ' !in "void";
    }
  }

  /** A non-empty join of parameter texts holds a space. */
  lemma {:induction false} JoinHasSpace(texts: seq<string>)
    requires |texts| > 0
    requires forall i :: 0 <= i < |texts| ==> ' ' in texts[i]
    ensures ' ' in Join(", ", texts)
    decreases |texts|
  {
    if |texts| > 1 {
      var j := Join(", ", texts[..|texts| - 1]);
      assert Join(", ", texts) == j + ", " + texts[|texts| - 1];
      assert (j + ", ")[|j| + 1] == ' ';
    }
  }

  // ---------------------------------------------------------------------------
  // Sections and their line layout

  /** A kept block ready to render: its guard title and its resolved entries. */
  datatype Section = Section(title: string, enums: seq<(string, string)>, funcs: seq<(string, Signature)>)

  /** The blocks, each titled by the display name of its version number;
      the first lookup that raises aborts. */
  function Sections(index: FeatureIndex, blocks: seq<Block>): (r: Result<seq<Section>>)
    ensures r.Success? <==> forall i :: 0 <= i < |blocks| ==> VersionName(index, blocks[i].number).Success?
    ensures r.Success? ==> |r.value| == |blocks| && forall i :: 0 <= i < |blocks| ==>
      r.value[i] == Section(Shown(VersionName(index, blocks[i].number).value), blocks[i].enums, blocks[i].funcs)
    decreases |blocks|
  {
    if blocks == [] then Success([])
    else
      var p := blocks[..|blocks| - 1];
      var b := blocks[|blocks| - 1];
      assert forall i :: 0 <= i < |p| ==> p[i] == blocks[i];
      match Sections(index, p)
      case Failure(f) => Failure(f)
      case Success(secs) =>
        match VersionName(index, b.number)
        case Failure(f) => Failure(f)
        case Success(name) => Success(secs + [Section(Shown(name), b.enums, b.funcs)])
  }

  /** The lines of every section, one group after another. */
  function Render(secs: seq<Section>, group: Section -> seq<string>): seq<string>
    decreases |secs|
  {
    if secs == [] then [] else Render(secs[..|secs| - 1], group) + group(secs[|secs| - 1])
  }

  lemma RenderStep(secs: seq<Section>, i: nat, group: Section -> seq<string>)
    requires i < |secs|
    ensures Render(secs[..i + 1], group) == Render(secs[..i], group) + group(secs[i])
  {
    assert secs[..i + 1][..i] == secs[..i];
  }

  /** A guard line: the opening or the closing line of a section. */
  predicate IsGuard(l: string)
  {
    StartsWith(l, "# if defined (") || StartsWith(l, "# endif /* ")
  }

  /** The guard lines of `ls`, in order. */
  function Guards(ls: seq<string>): seq<string>
    decreases |ls|
  {
    if ls == [] then [] else Guards(ls[..|ls| - 1]) + (if IsGuard(ls[|ls| - 1]) then [ls[|ls| - 1]] else [])
  }

  /** The lines of `ls` that are neither guards nor blank, in order. */
  function Bodies(ls: seq<string>): seq<string>
    decreases |ls|
  {
    if ls == [] then []
    else
      var l := ls[|ls| - 1];
      Bodies(ls[..|ls| - 1]) + (if l != "" && !IsGuard(l) then [l] else [])
  }

  lemma {:induction false} GuardsAppend(a: seq<string>, b: seq<string>)
    ensures Guards(a + b) == Guards(a) + Guards(b)
    ensures Bodies(a + b) == Bodies(a) + Bodies(b)
    decreases |b|
  {
    if b == [] {
      assert a + b == a;
    } else {
      var bp := b[..|b| - 1];
      assert (a + b)[..|a + b| - 1] == a + bp;
      GuardsAppend(a, bp);
    }
  }

  /** Lines that are neither guards nor blank pass through `Bodies` untouched. */
  lemma {:induction false} PlainLines(ls: seq<string>)
    requires forall i :: 0 <= i < |ls| ==> ls[i] != "" && !IsGuard(ls[i])
    ensures Guards(ls) == [] && Bodies(ls) == ls
    decreases |ls|
  {
    if ls != [] {
      PlainLines(ls[..|ls| - 1]);
    }
  }

  lemma OpenIsGuard(t: string, rest: string)
    ensures IsGuard(OpenLine(t) + rest) && OpenLine(t) + rest != ""
  {
    assert (OpenLine(t) + rest)[..14] == "# if defined (";
  }

  lemma CloseIsGuard(t: string)
    ensures IsGuard(CloseLine(t)) && CloseLine(t) != ""
  {
    assert CloseLine(t)[..11] == "# endif /* ";
  }

  /** A line is no guard when it does not open with `#`, or its third
      character is a space (as in `#  define`). */
  lemma NotGuard(l: string)
    requires |l| > 2 && (l[0] != '#' || l[2] == ' ')
    ensures l != "" && !IsGuard(l)
  {
  }

  /** The two guard lines of a section. */
  function PairOf(s: Section): seq<string>
  {
    [OpenLine(s.title), CloseLine(s.title)]
  }

  lemma GuardOnly(l: string)
    requires IsGuard(l)
    ensures Guards([l]) == [l] && Bodies([l]) == []
  {
    assert [l][..0] == [];
  }

  /** A body of plain lines between an opening and a closing guard. */
  lemma Framed(t: string, body: seq<string>)
    requires forall i :: 0 <= i < |body| ==> body[i] != "" && !IsGuard(body[i])
    ensures Guards([OpenLine(t)] + body + [CloseLine(t)]) == [OpenLine(t), CloseLine(t)]
    ensures Bodies([OpenLine(t)] + body + [CloseLine(t)]) == body
  {
    OpenIsGuard(t, "");
    assert OpenLine(t) + "" == OpenLine(t);
    CloseIsGuard(t);
    PlainLines(body);
    Between(OpenLine(t), body, CloseLine(t));
  }

  lemma Between(o: string, body: seq<string>, c: string)
    requires IsGuard(o) && IsGuard(c) && Guards(body) == []
    ensures Guards([o] + body + [c]) == [o, c]
    ensures Bodies([o] + body + [c]) == Bodies(body)
  {
    GuardOnly(o);
    GuardOnly(c);
    GuardsAppend([o] + body, [c]);
    GuardsAppend([o], body);
  }

  /** Guards and bodies of rendered sections are those of each group in turn. */
  lemma {:induction false} RenderLayout(secs: seq<Section>, group: Section -> seq<string>,
                                        guards: Section -> seq<string>, inner: Section -> seq<string>)
    requires forall i :: 0 <= i < |secs| ==> Guards(group(secs[i])) == guards(secs[i])
    requires forall i :: 0 <= i < |secs| ==> Bodies(group(secs[i])) == inner(secs[i])
    ensures Guards(Render(secs, group)) == Render(secs, guards)
    ensures Bodies(Render(secs, group)) == Render(secs, inner)
    decreases |secs|
  {
    if secs != [] {
      var p := secs[..|secs| - 1];
      assert forall i :: 0 <= i < |p| ==> p[i] == secs[i];
      RenderLayout(p, group, guards, inner);
      GuardsAppend(Render(p, group), group(secs[|secs| - 1]));
    }
  }

  // ---------------------------------------------------------------------------
  // The groups each pass writes for one section

  function DefineLines(es: seq<(string, string)>): (r: seq<string>)
    ensures |r| == |es| && forall i :: 0 <= i < |es| ==> r[i] == DefineLine(es[i].0, es[i].1)
  {
    seq(|es|, i requires 0 <= i < |es| => DefineLine(es[i].0, es[i].1))
  }

  function LoadLines(fs: seq<(string, Signature)>): (r: seq<string>)
    ensures |r| == |fs| && forall i :: 0 <= i < |fs| ==> r[i] == LoadLine(fs[i].0)
  {
    seq(|fs|, i requires 0 <= i < |fs| => LoadLine(fs[i].0))
  }

  function StorageLines(fs: seq<(string, Signature)>): (r: seq<string>)
    ensures |r| == |fs| && forall i :: 0 <= i < |fs| ==> r[i] == StorageLine(fs[i].0)
  {
    seq(|fs|, i requires 0 <= i < |fs| => StorageLine(fs[i].0))
  }

  /** The three lines the declaring pass writes for one command. */
  function DeclGroup(f: (string, Signature)): seq<string>
  {
    [TypedefLine(f.0, f.1), ExternLine(f.0), RedirectLine(f.0)]
  }

  /** The declaration groups of `fs`, one after another. */
  function DeclLines(fs: seq<(string, Signature)>): seq<string>
    decreases |fs|
  {
    if fs == [] then [] else DeclLines(fs[..|fs| - 1]) + DeclGroup(fs[|fs| - 1])
  }

  /** The declaration groups of `fs` with one blank line between neighbours. */
  function Spaced(fs: seq<(string, Signature)>): seq<string>
    decreases |fs|
  {
    if |fs| == 0 then []
    else if |fs| == 1 then DeclGroup(fs[0])
    else Spaced(fs[..|fs| - 1]) + [""] + DeclGroup(fs[|fs| - 1])
  }

  /** The declaration groups of `fs`, each followed by a blank line: what the
      loop has written before the final character is cut. */
  function Trailed(fs: seq<(string, Signature)>): seq<string>
    decreases |fs|
  {
    if fs == [] then [] else Trailed(fs[..|fs| - 1]) + DeclGroup(fs[|fs| - 1]) + [""]
  }

  lemma {:induction false} TrailedSpaced(fs: seq<(string, Signature)>)
    requires fs != []
    ensures Trailed(fs) == Spaced(fs) + [""]
    decreases |fs|
  {
    if |fs| == 1 {
      assert fs[..0] == [];
    } else {
      TrailedSpaced(fs[..|fs| - 1]);
    }
  }

  function EnumGroup(s: Section): seq<string>
  {
    [OpenLine(s.title)] + DefineLines(s.enums) + [CloseLine(s.title)]
  }

  function ImplGroup(s: Section): seq<string>
  {
    [OpenLine(s.title)] + LoadLines(s.funcs) + [CloseLine(s.title)]
  }

  function StorageGroup(s: Section): seq<string>
  {
    [OpenLine(s.title)] + StorageLines(s.funcs) + [CloseLine(s.title)]
  }

  /** The declaring pass: a section without commands collapses into one line
      holding both guards, since the cut that should remove the blank line
      after the last command removes the newline after the opening guard. */
  function ExternGroup(s: Section): seq<string>
  {
    if s.funcs == [] then [OpenLine(s.title) + CloseLine(s.title)]
    else [OpenLine(s.title)] + Spaced(s.funcs) + [CloseLine(s.title)]
  }

  // ---------------------------------------------------------------------------
  // Writing one section

  /** A guard opening on the section's title, one `#  define` line per
      constant, then the guard's closing line naming the title again. */
  method EmitEnumSection(result: string, s: Section) returns (out: string)
    ensures out == result + Unlines(EnumGroup(s))
  {
    var t := s.title;
    UnlinesFirst(result, OpenLine(t));
    out := result + OpenLine(t) + "\n";
    for j := 0 to |s.enums|
      invariant out == result + Unlines([OpenLine(t)] + DefineLines(s.enums[..j]))
    {
      var e := s.enums[j];
      DefineLinesSnoc(s.enums, j);
      LinesStep(result, OpenLine(t), DefineLines(s.enums[..j]), DefineLines(s.enums[..j + 1]), DefineLine(e.0, e.1));
      out := out + DefineLine(e.0, e.1) + "\n";
    }
    assert s.enums[..|s.enums|] == s.enums;
    UnlinesSnoc(result, [OpenLine(t)] + DefineLines(s.enums), CloseLine(t));
    out := out + CloseLine(t) + "\n";
  }

  /** The opening guard, one `load` line per command, the closing guard. */
  method EmitImplSection(result: string, s: Section) returns (out: string)
    ensures out == result + Unlines(ImplGroup(s))
  {
    var t := s.title;
    UnlinesFirst(result, OpenLine(t));
    out := result + OpenLine(t) + "\n";
    for j := 0 to |s.funcs|
      invariant out == result + Unlines([OpenLine(t)] + LoadLines(s.funcs[..j]))
    {
      var f := s.funcs[j].0;
      LoadLinesSnoc(s.funcs, j);
      LinesStep(result, OpenLine(t), LoadLines(s.funcs[..j]), LoadLines(s.funcs[..j + 1]), LoadLine(f));
      out := out + LoadLine(f) + "\n";
    }
    assert s.funcs[..|s.funcs|] == s.funcs;
    UnlinesSnoc(result, [OpenLine(t)] + LoadLines(s.funcs), CloseLine(t));
    out := out + CloseLine(t) + "\n";
  }

  /** The storage pass: the opening guard, one `PFN...PROC glapi_f;` line per
      command, the closing guard. */
  method EmitStorageSection(result: string, s: Section) returns (out: string)
    ensures out == result + Unlines(StorageGroup(s))
  {
    var t := s.title;
    UnlinesFirst(result, OpenLine(t));
    out := result + OpenLine(t) + "\n";
    for j := 0 to |s.funcs|
      invariant out == result + Unlines([OpenLine(t)] + StorageLines(s.funcs[..j]))
    {
      var f := s.funcs[j].0;
      StorageLinesSnoc(s.funcs, j);
      LinesStep(result, OpenLine(t), StorageLines(s.funcs[..j]), StorageLines(s.funcs[..j + 1]), StorageLine(f));
      out := out + StorageLine(f) + "\n";
    }
    assert s.funcs[..|s.funcs|] == s.funcs;
    UnlinesSnoc(result, [OpenLine(t)] + StorageLines(s.funcs), CloseLine(t));
    out := out + CloseLine(t) + "\n";
  }

  /** The declaring pass: the opening guard; for each command its typedef,
      `extern` and `#  define` lines followed by a blank line; then
      `result[:-1]` cuts the last character of the whole text before the
      closing guard is written. */
  method EmitExternSection(result: string, s: Section) returns (out: string)
    ensures out == result + Unlines(ExternGroup(s))
  {
    out := EmitDecls(result, s.title, s.funcs);
    CutBeforeClose(result, s);
    out := out[..|out| - 1];
    out := out + CloseLine(s.title) + "\n";
  }

  /** Writing one more line between the opening guard and the rest. */
  lemma LinesStep(result: string, o: string, xs: seq<string>, ys: seq<string>, l: string)
    requires ys == xs + [l]
    ensures result + Unlines([o] + xs) + l + "\n" == result + Unlines([o] + ys)
  {
    UnlinesSnoc(result, [o] + xs, l);
    SnocRegroup(o, xs, l);
  }

  lemma DefineLinesSnoc(es: seq<(string, string)>, j: nat)
    requires j < |es|
    ensures DefineLines(es[..j + 1]) == DefineLines(es[..j]) + [DefineLine(es[j].0, es[j].1)]
  {
  }

  lemma LoadLinesSnoc(fs: seq<(string, Signature)>, j: nat)
    requires j < |fs|
    ensures LoadLines(fs[..j + 1]) == LoadLines(fs[..j]) + [LoadLine(fs[j].0)]
  {
  }

  lemma StorageLinesSnoc(fs: seq<(string, Signature)>, j: nat)
    requires j < |fs|
    ensures StorageLines(fs[..j + 1]) == StorageLines(fs[..j]) + [StorageLine(fs[j].0)]
  {
  }

  /** The opening guard and the loop over the commands of the declaring pass. */
  method EmitDecls(result: string, t: string, fs: seq<(string, Signature)>) returns (out: string)
    ensures out == result + Unlines([OpenLine(t)] + Trailed(fs))
  {
    UnlinesFirst(result, OpenLine(t));
    out := result + OpenLine(t) + "\n";
    for j := 0 to |fs|
      invariant out == result + Unlines([OpenLine(t)] + Trailed(fs[..j]))
    {
      DeclStep(result, t, fs, j);
      out := EmitDecl(out, fs[j]);
    }
    assert fs[..|fs|] == fs;
  }

  /** The three lines written for one command, and the blank line after them. */
  method EmitDecl(result: string, f: (string, Signature)) returns (out: string)
    ensures out == result + TypedefLine(f.0, f.1) + "\n" + ExternLine(f.0) + "\n" + RedirectLine(f.0) + "\n\n"
  {
    var params := RenderParams(f.1.params);
    var typedef := "typedef " + f.1.ret + " (APIENTRYP " + ProcName(f.0) + ")(" + params + ");";
    out := result + typedef + "\n";
    out := out + ExternLine(f.0) + "\n";
    out := out + RedirectLine(f.0) + "\n\n";
  }

  /** What dropping the last character and writing the closing guard leave after the loop. */
  lemma CutBeforeClose(result: string, s: Section)
    ensures var out := result + Unlines([OpenLine(s.title)] + Trailed(s.funcs));
      |out| > 0 && out[..|out| - 1] + CloseLine(s.title) + "\n" == result + Unlines(ExternGroup(s))
  {
    if s.funcs == [] {
      CutMerges(result, s.title);
    } else {
      CutBlank(result, s.title, s.funcs);
    }
  }

  /** With no command, the cut takes the newline after the opening guard. */
  lemma CutMerges(result: string, t: string)
    ensures var out := result + Unlines([OpenLine(t)]);
      |out| > 0 && out[..|out| - 1] + CloseLine(t) + "\n" == result + Unlines([OpenLine(t) + CloseLine(t)])
  {
    UnlinesFirst(result, OpenLine(t));
    DropNewline(result + OpenLine(t));
    UnlinesFirst(result, OpenLine(t) + CloseLine(t));
  }

  /** With commands, the cut takes the blank line after the last of them. */
  lemma CutBlank(result: string, t: string, fs: seq<(string, Signature)>)
    requires fs != []
    ensures var out := result + Unlines([OpenLine(t)] + Trailed(fs));
      |out| > 0 && out[..|out| - 1] + CloseLine(t) + "\n" == result + Unlines([OpenLine(t)] + Spaced(fs) + [CloseLine(t)])
  {
    TrailedSpaced(fs);
    SnocRegroup(OpenLine(t), Spaced(fs), "");
    CutTrailingBlank(result, [OpenLine(t)] + Spaced(fs), CloseLine(t));
  }

  lemma SnocRegroup(o: string, ls: seq<string>, l: string)
    ensures [o] + (ls + [l]) == [o] + ls + [l]
  {
  }

  /** One command's turn of the declaring loop. */
  lemma DeclStep(result: string, t: string, fs: seq<(string, Signature)>, j: nat)
    requires j < |fs|
    ensures var ls := [OpenLine(t)] + Trailed(fs[..j]);
      result + Unlines(ls) + TypedefLine(fs[j].0, fs[j].1) + "\n" + ExternLine(fs[j].0) + "\n" + RedirectLine(fs[j].0) + "\n\n"
      == result + Unlines([OpenLine(t)] + Trailed(fs[..j + 1]))
  {
    var f := fs[j];
    var ls := [OpenLine(t)] + Trailed(fs[..j]);
    var a, b, c := TypedefLine(f.0, f.1), ExternLine(f.0), RedirectLine(f.0);
    UnlinesSnoc(result, ls, a);
    UnlinesSnoc(result, ls + [a], b);
    UnlinesSnocBlank(result, ls + [a] + [b], c);
    TrailedStep(fs, j);
    assert DeclGroup(f) == [a, b, c];
    LinesRegroup(OpenLine(t), Trailed(fs[..j]), a, b, c);
  }

  lemma TrailedStep(fs: seq<(string, Signature)>, j: nat)
    requires j < |fs|
    ensures Trailed(fs[..j + 1]) == Trailed(fs[..j]) + DeclGroup(fs[j]) + [""]
  {
    assert fs[..j + 1][..j] == fs[..j];
  }

  lemma LinesRegroup(o: string, tr: seq<string>, a: string, b: string, c: string)
    ensures [o] + tr + [a] + [b] + [c, ""] == [o] + (tr + [a, b, c] + [""])
  {
  }

  // ---------------------------------------------------------------------------
  // The blocks

  /** `getEnumString`: one guarded group of `#  define NAME VALUE` lines per
      kept feature, in feature order. */
  method EnumString(index: FeatureIndex, blocks: seq<Block>) returns (r: Result<string>)
    ensures r.Success? <==> Sections(index, blocks).Success?
    ensures r.Success? ==> r.value == Unlines(Render(Sections(index, blocks).value, EnumGroup))
  {
    var found := Sections(index, blocks);
    if found.Failure? {
      return Failure(found.fault);
    }
    var secs := found.value;
    var result := "";
    for i := 0 to |secs|
      invariant result == Unlines(Render(secs[..i], EnumGroup))
    {
      RenderStep(secs, i, EnumGroup);
      UnlinesAppend(Render(secs[..i], EnumGroup), EnumGroup(secs[i]));
      result := EmitEnumSection(result, secs[i]);
    }
    assert secs[..|secs|] == secs;
    return Success(result);
  }

  /** `getImplementationBlock`: one guarded group of `load` lines per kept feature. */
  method ImplementationBlock(index: FeatureIndex, blocks: seq<Block>) returns (r: Result<string>)
    ensures r.Success? <==> Sections(index, blocks).Success?
    ensures r.Success? ==> r.value == Unlines(Render(Sections(index, blocks).value, ImplGroup))
  {
    var found := Sections(index, blocks);
    if found.Failure? {
      return Failure(found.fault);
    }
    var secs := found.value;
    var result := "";
    for i := 0 to |secs|
      invariant result == Unlines(Render(secs[..i], ImplGroup))
    {
      RenderStep(secs, i, ImplGroup);
      UnlinesAppend(Render(secs[..i], ImplGroup), ImplGroup(secs[i]));
      result := EmitImplSection(result, secs[i]);
    }
    assert secs[..|secs|] == secs;
    return Success(result);
  }

  /** `getFunctionString(extern)`: the declaring pass when `extern` holds;
      otherwise the storage pass, whose whole text then has every `#`
      rewritten to `# `. */
  method FunctionString(index: FeatureIndex, blocks: seq<Block>, extern: bool) returns (r: Result<string>)
    ensures r.Success? <==> Sections(index, blocks).Success?
    ensures r.Success? && extern ==> r.value == Unlines(Render(Sections(index, blocks).value, ExternGroup))
    ensures r.Success? && !extern ==> r.value == ReplaceHash(Unlines(Render(Sections(index, blocks).value, StorageGroup)))
  {
    var found := Sections(index, blocks);
    if found.Failure? {
      return Failure(found.fault);
    }
    var secs := found.value;
    var result := "";
    for i := 0 to |secs|
      invariant extern ==> result == Unlines(Render(secs[..i], ExternGroup))
      invariant !extern ==> result == Unlines(Render(secs[..i], StorageGroup))
    {
      if extern {
        RenderStep(secs, i, ExternGroup);
        UnlinesAppend(Render(secs[..i], ExternGroup), ExternGroup(secs[i]));
        result := EmitExternSection(result, secs[i]);
      } else {
        RenderStep(secs, i, StorageGroup);
        UnlinesAppend(Render(secs[..i], StorageGroup), StorageGroup(secs[i]));
        result := EmitStorageSection(result, secs[i]);
      }
    }
    assert secs[..|secs|] == secs;
    if !extern {
      result := ReplaceHash(result);
    }
    return Success(result);
  }

  /** `getDeclarationBlock`: the constants, a newline, then the declaring pass. */
  method DeclarationBlock(index: FeatureIndex, blocks: seq<Block>) returns (r: Result<string>)
    ensures r.Success? <==> Sections(index, blocks).Success?
    ensures r.Success? ==>
      r.value == Unlines(Render(Sections(index, blocks).value, EnumGroup) + [""] + Render(Sections(index, blocks).value, ExternGroup))
  {
    var e := EnumString(index, blocks);
    if e.Failure? {
      return Failure(e.fault);
    }
    var f := FunctionString(index, blocks, true);
    var secs := Sections(index, blocks).value;
    BlankLineBetween(Render(secs, EnumGroup), Render(secs, ExternGroup));
    return Success(e.value + "\n" + f.value);
  }

  /** Two texts joined by a newline are the lines of both with a blank line between. */
  lemma BlankLineBetween(a: seq<string>, b: seq<string>)
    ensures Unlines(a) + "\n" + Unlines(b) == Unlines(a + [""] + b)
  {
    UnlinesAppend(a + [""], b);
    UnlinesBlankEnd(a);
  }

  /** The `# define NAME` line of each feature in `keys`. */
  function VersionLines(index: FeatureIndex, keys: seq<string>): (r: seq<string>)
    requires forall i :: 0 <= i < |keys| ==> keys[i] in index.vals
    ensures |r| == |keys| && forall i :: 0 <= i < |keys| ==> r[i] == VersionLine(index.vals[keys[i]].name)
  {
    seq(|keys|, i requires 0 <= i < |keys| && keys[i] in index.vals => VersionLine(index.vals[keys[i]].name))
  }

  /** `getVersionBlock`: a `# define NAME` line for every kept feature, in
      feature order, with trailing whitespace cut from the whole text. */
  method VersionBlock(index: FeatureIndex, version: string) returns (r: string)
    requires Keyed(index)
    ensures forall i :: 0 <= i < |Included(index.keys, version)| ==> Included(index.keys, version)[i] in index.vals
    ensures r == RStrip(Unlines(VersionLines(index, Included(index.keys, version))))
  {
    var keys := index.keys;
    IncludedKeyed(index, version);
    var result := "";
    for i := 0 to |keys|
      invariant forall j :: 0 <= j < i ==> keys[j] != version
      invariant result == Unlines(VersionLines(index, keys[..i]))
    {
      var name := index.vals[keys[i]].name;
      VersionLinesStep(index, keys, i);
      result := result + VersionLine(name) + "\n";
      if keys[i] == version {
        IncludedAt(keys, version, i);
        return RStrip(result);
      }
    }
    IncludedNone(keys, version);
    assert keys[..|keys|] == keys;
    r := RStrip(result);
  }

  /** One more feature adds its `# define` line to the text. */
  lemma VersionLinesStep(index: FeatureIndex, keys: seq<string>, i: nat)
    requires i < |keys| && forall j :: 0 <= j < |keys| ==> keys[j] in index.vals
    ensures Unlines(VersionLines(index, keys[..i])) + VersionLine(index.vals[keys[i]].name) + "\n"
      == Unlines(VersionLines(index, keys[..i + 1]))
  {
    var name := index.vals[keys[i]].name;
    assert VersionLines(index, keys[..i + 1]) == VersionLines(index, keys[..i]) + [VersionLine(name)];
    UnlinesAppend(VersionLines(index, keys[..i]), [VersionLine(name)]);
    UnlinesOne(VersionLine(name));
  }

  // ---------------------------------------------------------------------------
  // Layout of the emitted lines

  function DefinesOf(s: Section): seq<string> { DefineLines(s.enums) }
  function LoadsOf(s: Section): seq<string> { LoadLines(s.funcs) }
  function StoragesOf(s: Section): seq<string> { StorageLines(s.funcs) }
  function DeclsOf(s: Section): seq<string> { DeclLines(s.funcs) }

  /** The guard lines the declaring pass writes for a section: the merged
      line when it has no commands, the two guards otherwise. */
  function ExternGuardsOf(s: Section): seq<string>
  {
    if s.funcs == [] then [OpenLine(s.title) + CloseLine(s.title)] else PairOf(s)
  }

  lemma DefineLinesPlain(es: seq<(string, string)>)
    ensures forall i :: 0 <= i < |es| ==> DefineLines(es)[i] != "" && !IsGuard(DefineLines(es)[i])
  {
    forall i | 0 <= i < |es| ensures DefineLines(es)[i] != "" && !IsGuard(DefineLines(es)[i]) {
      var l := DefineLine(es[i].0, es[i].1);
      assert l[2] == ' ';
      NotGuard(l);
    }
  }

  lemma LoadLinesPlain(fs: seq<(string, Signature)>)
    ensures forall i :: 0 <= i < |fs| ==> LoadLines(fs)[i] != "" && !IsGuard(LoadLines(fs)[i])
  {
    forall i | 0 <= i < |fs| ensures LoadLines(fs)[i] != "" && !IsGuard(LoadLines(fs)[i]) {
      var l := LoadLine(fs[i].0);
      assert l[0] == '\t' && |l| > 2;
      NotGuard(l);
    }
  }

  lemma StorageLinesPlain(fs: seq<(string, Signature)>)
    ensures forall i :: 0 <= i < |fs| ==> StorageLines(fs)[i] != "" && !IsGuard(StorageLines(fs)[i])
  {
    forall i | 0 <= i < |fs| ensures StorageLines(fs)[i] != "" && !IsGuard(StorageLines(fs)[i]) {
      var l := StorageLine(fs[i].0);
      assert l[0] == 'P' && |l| > 2;
      NotGuard(l);
    }
  }

  /** The three lines of a command's declaration are plain lines. */
  lemma DeclGroupPlain(f: (string, Signature))
    ensures Guards(DeclGroup(f)) == [] && Bodies(DeclGroup(f)) == DeclGroup(f)
  {
    var a, b, c := TypedefLine(f.0, f.1), ExternLine(f.0), RedirectLine(f.0);
    assert a[0] == 't' && |a| > 2;
    assert b[0] == 'e' && |b| > 2;
    assert c[2] == ' ';
    NotGuard(a);
    NotGuard(b);
    NotGuard(c);
    PlainLines(DeclGroup(f));
  }

  /** Between the guards of a section the declaring pass writes no guard, and
      apart from blank lines exactly the declarations of its commands, in order. */
  lemma {:induction false} SpacedLayout(fs: seq<(string, Signature)>)
    ensures Guards(Spaced(fs)) == [] && Bodies(Spaced(fs)) == DeclLines(fs)
    decreases |fs|
  {
    if |fs| == 1 {
      DeclGroupPlain(fs[0]);
      assert fs[..0] == [];
      assert DeclLines(fs) == DeclLines([]) + DeclGroup(fs[0]);
    } else if |fs| > 1 {
      var p := fs[..|fs| - 1];
      SpacedLayout(p);
      DeclGroupPlain(fs[|fs| - 1]);
      BlankBetween(Spaced(p), DeclGroup(fs[|fs| - 1]));
    }
  }

  /** `getEnumString` writes exactly one opening and one closing guard per
      kept feature, both naming it, even when it has no constants; between
      them it writes the feature's `#  define` lines and nothing else. */
  lemma EnumLayout(secs: seq<Section>)
    ensures Guards(Render(secs, EnumGroup)) == Render(secs, PairOf)
    ensures Bodies(Render(secs, EnumGroup)) == Render(secs, DefinesOf)
  {
    forall i | 0 <= i < |secs|
      ensures Guards(EnumGroup(secs[i])) == PairOf(secs[i]) && Bodies(EnumGroup(secs[i])) == DefinesOf(secs[i])
    {
      DefineLinesPlain(secs[i].enums);
      Framed(secs[i].title, DefineLines(secs[i].enums));
    }
    RenderLayout(secs, EnumGroup, PairOf, DefinesOf);
  }

  /** `getImplementationBlock` writes one guard pair per kept feature and,
      between them, one `load` line per resolved command, in order. */
  lemma ImplLayout(secs: seq<Section>)
    ensures Guards(Render(secs, ImplGroup)) == Render(secs, PairOf)
    ensures Bodies(Render(secs, ImplGroup)) == Render(secs, LoadsOf)
  {
    forall i | 0 <= i < |secs|
      ensures Guards(ImplGroup(secs[i])) == PairOf(secs[i]) && Bodies(ImplGroup(secs[i])) == LoadsOf(secs[i])
    {
      LoadLinesPlain(secs[i].funcs);
      Framed(secs[i].title, LoadLines(secs[i].funcs));
    }
    RenderLayout(secs, ImplGroup, PairOf, LoadsOf);
  }

  /** The storage pass, before `#` is rewritten, writes one guard pair per
      kept feature and only `PFN...PROC glapi_f;` lines between them. */
  lemma StorageLayout(secs: seq<Section>)
    ensures Guards(Render(secs, StorageGroup)) == Render(secs, PairOf)
    ensures Bodies(Render(secs, StorageGroup)) == Render(secs, StoragesOf)
  {
    forall i | 0 <= i < |secs|
      ensures Guards(StorageGroup(secs[i])) == PairOf(secs[i]) && Bodies(StorageGroup(secs[i])) == StoragesOf(secs[i])
    {
      StorageLinesPlain(secs[i].funcs);
      Framed(secs[i].title, StorageLines(secs[i].funcs));
    }
    RenderLayout(secs, StorageGroup, PairOf, StoragesOf);
  }

  /** The declaring pass writes, per kept feature, its typedef / `extern` /
      `#  define` triples in command order between a guard pair; a feature
      without commands gets its two guards on one merged line. */
  lemma ExternLayout(secs: seq<Section>)
    ensures Guards(Render(secs, ExternGroup)) == Render(secs, ExternGuardsOf)
    ensures Bodies(Render(secs, ExternGroup)) == Render(secs, DeclsOf)
  {
    forall i | 0 <= i < |secs|
      ensures Guards(ExternGroup(secs[i])) == ExternGuardsOf(secs[i]) && Bodies(ExternGroup(secs[i])) == DeclsOf(secs[i])
    {
      var s := secs[i];
      if s.funcs == [] {
        OpenIsGuard(s.title, CloseLine(s.title));
        GuardOnly(OpenLine(s.title) + CloseLine(s.title));
      } else {
        SpacedLayout(s.funcs);
        OpenIsGuard(s.title, "");
        assert OpenLine(s.title) + "" == OpenLine(s.title);
        CloseIsGuard(s.title);
        Between(OpenLine(s.title), Spaced(s.funcs), CloseLine(s.title));
      }
    }
    RenderLayout(secs, ExternGroup, ExternGuardsOf, DeclsOf);
  }

  /** Read back line by line, the version block is one `# define NAME` line per
      kept feature, in feature order, provided no name holds a newline and
      the last one ends in a visible character. */
  lemma VersionBlockLines(index: FeatureIndex, keys: seq<string>)
    requires forall i :: 0 <= i < |keys| ==> keys[i] in index.vals && NoNewline(index.vals[keys[i]].name)
    requires keys != [] ==>
      var n := index.vals[keys[|keys| - 1]].name; n != [] && !IsSpace(n[|n| - 1])
    ensures Lines(RStrip(Unlines(VersionLines(index, keys)))) == VersionLines(index, keys)
  {
    var ls := VersionLines(index, keys);
    if keys != [] {
      forall i | 0 <= i < |ls| ensures NoNewline(ls[i]) {
        var n := index.vals[keys[i]].name;
        assert forall j :: 0 <= j < |n| ==> ls[i][9 + j] == n[j];
      }
      var n := index.vals[keys[|keys| - 1]].name;
      assert ls[|ls| - 1][|ls[|ls| - 1]| - 1] == n[|n| - 1];
      RStripUnlines(ls);
    }
  }

  /** The declaration block reads as the constants' lines, one blank line,
      then the declaring pass's lines. */
  lemma DeclarationLayout(secs: seq<Section>)
    ensures Guards(Render(secs, EnumGroup) + [""] + Render(secs, ExternGroup)) ==
      Render(secs, PairOf) + Render(secs, ExternGuardsOf)
    ensures Bodies(Render(secs, EnumGroup) + [""] + Render(secs, ExternGroup)) ==
      Render(secs, DefinesOf) + Render(secs, DeclsOf)
  {
    EnumLayout(secs);
    ExternLayout(secs);
    BlankBetween(Render(secs, EnumGroup), Render(secs, ExternGroup));
  }

  /** A blank line between two texts adds no guard and no body line. */
  lemma BlankBetween(a: seq<string>, b: seq<string>)
    ensures Guards(a + [""] + b) == Guards(a) + Guards(b)
    ensures Bodies(a + [""] + b) == Bodies(a) + Bodies(b)
  {
    GuardsAppend(a + [""], b);
    GuardsBlankEnd(a);
  }

  lemma GuardsBlankEnd(a: seq<string>)
    ensures Guards(a + [""]) == Guards(a) && Bodies(a + [""]) == Bodies(a)
  {
    assert (a + [""])[..|a|] == a;
    assert !IsGuard("");
  }

  /** On blocks drawn from the index no name lookup raises, and each
      section's title is its feature's name for a known version and `None`
      for any other. */
  lemma SectionsOfIndex(index: FeatureIndex, blocks: seq<Block>)
    requires forall i :: 0 <= i < |blocks| ==> blocks[i].number in index.vals
    ensures Sections(index, blocks).Success?
    ensures forall i :: 0 <= i < |blocks| ==>
      Sections(index, blocks).value[i].title ==
        if blocks[i].number in KnownVersions then index.vals[blocks[i].number].name else "None"
  {
    forall i | 0 <= i < |blocks| ensures VersionName(index, blocks[i].number).Success? {
    }
  }
}
