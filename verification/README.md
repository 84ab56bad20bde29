# OpenGL loader generator: the registry-to-header core

`glapi.py` and `gengl.py` read the Khronos OpenGL XML registry and write a C
header, `glapi.h`, that declares and loads every OpenGL entry point up to a
chosen version. The core of both scripts is the `GLSpec` class. It works in
three stages:

1. **Extraction.**
   - `__parseEnum` builds the constant table: name to value.
   - `__parseFunc` builds the command table: name to return type and parameter list.
   - `__parseFeatures` builds the feature index: version number to macro name plus the
     constants and commands that version requires.
   - `__parseTypes` (`gengl.py` only) builds the list of normalised `typedef` strings.
2. **Accumulation.**
   - `__filterFeatures` walks the feature index in insertion order. For each version it
     keeps the referenced names that the tables define (`__filterList`).
   - It stops after the requested version. If that version never occurs, it keeps every
     feature.
3. **Emission** (`glapi.py` only). These methods produce the text blocks spliced into
   the header:
   - `getVersionName`
   - `getVersionBlock`
   - `getEnumString`
   - `getFunctionString`, in its declaring and storage passes
   - `getImplementationBlock`
   - `getDeclarationBlock`

## How the model is organised

- `base.dfy` (`Base`) holds `Option`, `Result` and `Fault`, the exception that ends a run.
- `text.dfy` (`Text`) models the Python string operations the core uses:
  - `strip`, `rstrip` and `upper`;
  - `replace('#', '# ')`;
  - `re.sub(r'\s+', ' ', s)`;
  - `join`;
  - `split()` with no argument, used to state what the whitespace substitution keeps;
  - splitting a text into lines and back.
- `tree.dfy` (`Tree`) is the already-parsed document as ElementTree elements, with
  `findall`, `find` and the `./a/b` path.
- `ordered.dfy` (`Ordered`) is an insertion-ordered Python dict. Re-assigning a key keeps
  its first position.
- `registry.dfy` (`Registry`) covers constants, commands and features.
  - It has a generic "loop that assigns into a dict and may raise" (`Scan`) and proves it
    once: success, key order, last write wins.
- `types.dfy` (`Types`) covers the type strings of `gengl.py`.
- `accumulate.dfy` (`Accumulate`) covers `__filterList` and `__filterFeatures`.
- `emit.dfy` (`Emit`) covers the text emitters.
  - Each emitter is a loop that appends to a string, as in the source.
  - Each is proved equal to the text of a list of lines. The lines come from a per-version
    group: the guard pair `# if defined (NAME)` / `# endif /* NAME */` around the version's
    body lines.
  - The layout lemmas state which lines of each block are guards and which are bodies.
- `generator.dfy` (`Generator`) covers the constructor of each script: extraction then
  accumulation. It also shows that no emitter's name lookup can fail on what the
  constructor built.

Python exceptions are modelled as a `Failure(fault)` result that ends the run:
- a `KeyError` on `attrib`;
- `None.strip()`;
- appending a `name` child's missing text to a type string;
- iterating a `None` returned by `find`;
- a failed dict lookup.

The one `try/except KeyError` in the core, around the constant assignment, is modelled
as skipping that element.

## Model

| member | source | states |
|---|---|---|
| Registry.ParseEnumsSpec | glapi.py:302-314 | a name is in the constant table iff some `<enums>` child has both `name` and `value`; the value is the one from the last such child; children missing either attribute are skipped |
| Registry.TabulateLastWins | gengl.py:216-221 | in a dict filled in document order, the value for a key is the one from its last defining element |
| Registry.ScanProtoFails | glapi.py:338-342 | the prototype loop raises iff some `name` or `ptype` child of the prototype has no text |
| Registry.ScanProtoFindsLast | glapi.py:338-342 | when it does not raise, the prototype loop yields the stripped text of the last `name` child and of the last `ptype` child |
| Registry.ParseParamSpec | glapi.py:346-355 | a parameter's type is the raw text of its last `ptype` child, else the parameter's own text; its name is the raw text of its last `name` child, else `None` |
| Registry.ParseCommandSpec | glapi.py:332-356 | a parsed command's return type is the stripped last `ptype` text, else the stripped prototype text; its name is the stripped last `name` text; its parameters are the `<param>` children in order |
| Registry.ParseCommandSucceeds | glapi.py:332-344 | a command can be read iff it has a `<proto>` child whose `name` and `ptype` children all have text and which has a `ptype` child or else text of its own; a missing `<proto>` is the fault raised |
| Registry.ParseCommandsSpec | glapi.py:319-357 | command parsing succeeds iff every command parses, that is, iff every command has a `<proto>` child readable in that sense; a name is in the table iff some command declares it; its signature is that of the last command declaring it |
| Registry.ScanSucceeds | gengl.py:138-154 | a dict-filling loop that may raise finishes iff no element's step raises |
| Registry.ScanKeys | gengl.py:138-154 | the resulting dict's key order is the order of first assignment |
| Registry.ScanValues | gengl.py:138-154 | the resulting dict's values are those of the last assignment to each key |
| Registry.RefNames | glapi.py:269-273 | the `name` attributes of the `require` entries, in document order; a missing attribute raises |
| Registry.ApiNumbersAssigned | glapi.py:257-263 | the keys the feature loop assigns are the `number` attributes of the features of the requested api, in document order |
| Registry.ParseFeaturesSpec | glapi.py:247-275 | feature parsing succeeds iff every feature has an `api` attribute and every one of the requested api has `number`, `name` and named requirements; the keys are the api's feature numbers in first-occurrence order; the values come from the last feature with each number |
| Registry.ParseFeatureRefs | gengl.py:142-154 | a parsed feature carries its `name` and the names of its required constants and commands |
| Types.TypedefStringSpec | gengl.py:190-202 | a typedef's string can be built iff every `name` child has text; its visible characters are then those of the element's text, then for each child those of its `name` text (or `APIENTRY` for an `apientry` child) and of its tail, closed by `;` unless they already end in one |
| Types.TypedefStringVisible | gengl.py:193-202 | the visible characters of a type string, stated from the element alone: the element's text, each child's `name` text or `APIENTRY` and its tail, in document order, then a `;` unless the last is one |
| Types.Normalize | gengl.py:200-202 | a normalised type string ends in `;`, has no leading or trailing whitespace and no whitespace runs |
| Types.NormalizeContent | gengl.py:200-202 | normalising keeps every non-space character in order and adds `;` only when the text did not already end in one |
| Types.NormalizeWords | gengl.py:200-202 | normalising keeps the words of the raw text as `split()` finds them, and glues `;` to the last word (or makes `;` the only word) iff the last visible character is not already `;` |
| Types.NormalizeIdempotent | gengl.py:200-202 | normalising a normalised string changes nothing |
| Types.ParseTypesSpec | gengl.py:184-205 | type parsing succeeds iff every typedef's children can be read; it yields one normalised string per typedef, in document order |
| Text.CollapseKeepsContent | gengl.py:200 | replacing whitespace runs by one space keeps the non-space characters in order |
| Text.CollapseFixesSingleSpaced | gengl.py:200 | a text whose whitespace is only single plain spaces is left unchanged by the substitution |
| Text.CollapseWords | gengl.py:200 | every whitespace run becomes a separator: the collapsed text has exactly the words of the original, as `split()` finds them |
| Text.CollapseLast | gengl.py:200 | collapsing keeps whether the text ends in whitespace |
| Text.CollapseIdempotent | gengl.py:200 | collapsing whitespace twice equals collapsing it once |
| Text.Strip | gengl.py:200 | the stripped text has no whitespace at either end, and it is the slice of the input that is left once only the leading and trailing whitespace is cut |
| Text.StripWords | gengl.py:200 | stripping keeps the words of the text, as `split()` finds them |
| Text.StripKeepsContent | gengl.py:200 | strip removes only whitespace |
| Text.ReplaceHashRoundTrip | glapi.py:240-241 | rewriting `#` to `# ` loses nothing: dropping the added spaces gives back the original text |
| Text.LinesOfUnlines | glapi.py:134 | text built by terminating each line with a newline splits back into those lines |
| Text.RStripUnlines | glapi.py:134-137 | when the last line ends in a visible character, `rstrip` on newline-terminated lines removes only the final newline, and the text splits back into those lines |
| Accumulate.Resolve | glapi.py:291-297 | the filtered list holds only names the table defines, each paired with the table's value |
| Accumulate.ResolveMembers | glapi.py:291-297 | a name survives filtering iff it is referenced and defined |
| Accumulate.ResolveSubsequence | glapi.py:291-297 | the filtered names keep the order of the references |
| Accumulate.ResolveAppend | glapi.py:291-297 | filtering a concatenation is the concatenation of the filtered parts |
| Accumulate.ResolveKnown | glapi.py:291-297 | when every reference is defined, nothing is dropped |
| Accumulate.Included | glapi.py:277-289 | the walked keys are a prefix of the feature keys that ends at the first occurrence of the version, or all keys when it never occurs |
| Accumulate.IncludedMembers | glapi.py:277-289 | a name is walked iff it is one of the keys and either the version never occurs among them or the name's first position is no later than the version's |
| Accumulate.FilterFeatures | glapi.py:277-289 | the loop builds one block per walked key, in walk order, stopping right after the requested version |
| Accumulate.WalkBlocks | glapi.py:277-286 | the block for the i-th walked key holds that feature's number and its filtered constants and commands |
| Accumulate.FilterFeaturesWithTypes | gengl.py:158-171 | the same walk, with the type list kept unchanged |
| Emit.VersionName | glapi.py:122-125 | `None` iff the number is outside the known version list; the feature's name otherwise; a `KeyError` iff the number is known but has no feature |
| Emit.RenderParams | glapi.py:202-212 | the loop that appends `type name, ` and trims two characters yields the parameters joined by `, `, or `void` when there are none |
| Emit.ParamsVoid | glapi.py:208-212 | the parameter text is `void` iff the command has no parameters |
| Emit.Sections | glapi.py:152-155 | the emitters' titles can be computed iff every block's version lookup succeeds; each title is the rendered lookup result |
| Emit.EmitEnumSection | glapi.py:171-182 | one version's constants: the open guard, one `#  define NAME VALUE` line per kept constant, the close guard |
| Emit.EnumString | glapi.py:167-183 | the constants block is the guarded constant lines of each kept version in order; it raises iff some lookup raises |
| Emit.EnumLayout | glapi.py:167-183 | in the constants block the guard lines are exactly each version's open/close pair, and the other lines are exactly the define lines |
| Emit.EmitImplSection | glapi.py:153-164 | one version's loader: the guards around one `glapi_f = (PFNFPROC) load("f");` line per command |
| Emit.ImplementationBlock | glapi.py:149-165 | the loader block is the guarded load lines of each version in order; it raises iff some lookup raises |
| Emit.ImplLayout | glapi.py:149-165 | in the loader block the guard lines are the open/close pairs and the other lines are exactly the load lines |
| Emit.EmitExternSection | glapi.py:193-227 | one version's declarations: three lines per command separated by blank lines; the trailing newline is cut so the close guard follows the last command directly, or is glued to the open guard when there are no commands |
| Emit.EmitStorageSection | glapi.py:230-238 | one version's storage: the guards around one `PFNFPROC glapi_f;` line per command |
| Emit.FunctionString | glapi.py:185-242 | the declaring pass is the extern groups in order; the storage pass is the storage groups with every `#` rewritten to `# `; both raise iff some lookup raises |
| Emit.ExternLayout | glapi.py:193-227 | in the declaring pass the guards are each version's open and close lines, merged into one line for a version with no commands; the other lines are exactly the three declaration lines per command |
| Emit.StorageLayout | glapi.py:229-238 | in the storage pass, before the `#` rewrite, the guards are the open/close pairs and the other lines are exactly the storage lines |
| Emit.DeclarationBlock | glapi.py:139-144 | the declaration block is the constants block, a newline, then the declaring pass |
| Emit.DeclarationLayout | glapi.py:139-144 | the declaration block's guards are those of its two parts in order, and so are its body lines |
| Emit.VersionBlock | glapi.py:127-137 | the version block is the `# define NAME` line of each walked feature, in order, with trailing whitespace stripped |
| Emit.VersionBlockLines | glapi.py:127-137 | when the names are one-line and the last one does not end in whitespace, the version block splits back into exactly those define lines |
| Emit.SectionsOfIndex | glapi.py:122-125 | when every block's number is in the index, every lookup succeeds; the title is the feature name for a known version and "None" otherwise |
| Generator.LoadSpec | glapi.py:94-110 | the `glapi.py` constructor succeeds iff commands and features parse; a command fault comes first; the result holds the `gl` feature index and the blocks of the walk |
| Generator.LoadSurface | gengl.py:97-114 | the `gengl.py` constructor succeeds iff types, commands and features all parse; the fault raised is that of the first of the three to fail, in that order; on success it holds the type list, the `gl` feature index and the blocks of the walk |
| Generator.EmittersTotal | glapi.py:149-155 | on a loaded spec no emitter's name lookup raises, and each section is titled with its feature's name, or "None" outside the known list |

## Left out

- Command-line handling (`glapi.py:33-73`, `gengl.py:34-74`). It only fills the settings, so
  the requested version is a parameter here.
- Opening and parsing the XML file. The model starts from the parsed root element. A
  missing input file makes the source crash on an unbound `tree`; that is not modelled.
- The loader and header writer (`GLLoader`, `glapi.py:363-435`, `gengl.py:271-329`), the log
  helper, and the example C programs: they are file I/O around the emitted blocks.
- The `gles1`/`gles2` feature parses. They are commented out in the source; only `gl` is
  parsed.
- The class-level `enums`, `functions` and `types` dicts. They are shared between instances
  in the source. The model passes the kept blocks explicitly and builds one spec per run.
- Registry.CommandEntry: a command whose prototype has no `name` child is stored under the
  key `None` in the source. The model skips it. No reference name is ever `None`, so
  filtering and emission are unchanged.
- Text.Upper and Emit.ProcName: `str.upper` is modelled for ASCII letters only. Other
  characters are left unchanged, whereas Python also upper-cases non-ASCII letters.
- Text.Collapse: `re.sub(r'\s+', ' ', s)` is modelled directly. There is no general regex
  engine, and the whitespace class is the one `str.isspace` uses.
- Emit.EnumString, Emit.ImplementationBlock, Emit.FunctionString: the model looks up every
  title before writing any text. The source looks each one up while writing. A failing
  run raises the same fault either way, and no partial text is returned.
- Emit.VersionBlock and Accumulate.FilterFeatures require every key the feature index
  iterates over to have a value, as every dict does. Every index the parser builds has this
  shape.
- Accumulate.FilterFeatures: the source writes into dicts keyed by version. The model
  returns the blocks as a list in walk order, which is the order the emitters iterate.
