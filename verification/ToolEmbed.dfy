/** Dumping the embedded resources of a tool as an element tree, and reading that tree back
    as the configuration of the next embedding. */
module ToolEmbed {
  import opened Windows

  datatype ArchiveItem = ArchiveItem(name: string, path: string)

  datatype EmbedSpec =
    | NameValuePair(name: string, value: string)
    | File(name: string, path: string)
    | Archive(name: string, format: string, compression: string, items: seq<ArchiveItem>)
    | Buffer(name: string)
    | BinaryDeletion(name: string)
    | ValuesDeletion(name: string)
    | Void

  /** The vocabulary of the configuration. */
  datatype Tag = ToolEmbedTag | InputTag | PairTag | FileTag | ArchiveTag

  datatype Attribute = Name | Value | Path | Format | Compression

  datatype Element = Element(tag: Tag, attributes: map<Attribute, string>, text: string, children: seq<Element>)

  /** Expands a path and finds the file, or fails. */
  type Resolver = string -> Option<string>

  // ------------------------------------------------------------- the writer

  function ItemElement(item: ArchiveItem): Element {
    Element(FileTag, map[Name := item.name, Path := item.path], "", [])
  }

  function ItemElements(items: seq<ArchiveItem>): seq<Element> {
    seq(|items|, i requires 0 <= i < |items| => ItemElement(items[i]))
  }

  /** Only files, pairs and archives are written, and an archive without its compression. */
  function SpecElement(spec: EmbedSpec): seq<Element> {
    match spec
    case File(name, path) => [Element(FileTag, map[Name := name, Path := path], "", [])]
    case NameValuePair(name, value) => [Element(PairTag, map[Name := name, Value := value], "", [])]
    case Archive(name, format, _, items) =>
      [Element(ArchiveTag, map[Name := name, Format := format], "", ItemElements(items))]
    case _ => []
  }

  function SpecElements(values: seq<EmbedSpec>): seq<Element> {
    if values == [] then []
    else SpecElements(values[..|values| - 1]) + SpecElement(values[|values| - 1])
  }

  function Dump(mothership: string, values: seq<EmbedSpec>): Element {
    Element(ToolEmbedTag, map[], "", [Element(InputTag, map[], mothership, [])] + SpecElements(values))
  }

  lemma DumpStep(mothership: string, values: seq<EmbedSpec>, last: EmbedSpec)
    ensures Dump(mothership, values + [last]).children == Dump(mothership, values).children + SpecElement(last)
  {
    assert (values + [last])[..|values|] == values;
  }

  /** A writer of nested elements. */
  class StructuredWriter {
    var open: seq<Element>
    var written: seq<Element>

    constructor ()
      ensures open == [] && written == []
    {
      open, written := [], [];
    }

    method BeginElement(tag: Tag)
      modifies this`open
      ensures open == old(open) + [Element(tag, map[], "", [])]
    {
      open := open + [Element(tag, map[], "", [])];
    }

    method WriteString(text: string)
      requires open != []
      modifies this`open
      ensures open == old(open)[..|old(open)| - 1] + [old(open)[|old(open)| - 1].(text := text)]
    {
      open := open[..|open| - 1] + [open[|open| - 1].(text := text)];
    }

    method WriteNameValuePair(name: Attribute, value: string)
      requires open != []
      modifies this`open
      ensures var last := old(open)[|old(open)| - 1];
              open == old(open)[..|old(open)| - 1] + [last.(attributes := last.attributes[name := value])]
    {
      var last := open[|open| - 1];
      open := open[..|open| - 1] + [last.(attributes := last.attributes[name := value])];
    }

    /** Ends the innermost element, as a child of the one around it. */
    method EndElement()
      requires open != []
      modifies this
      ensures var n := |old(open)| - 1;
              if n == 0 then open == [] && written == old(written) + [old(open)[0]]
              else
                var parent := old(open)[n - 1];
                && written == old(written)
                && open == old(open)[..n - 1] + [parent.(children := parent.children + [old(open)[n]])]
    {
      var n := |open| - 1;
      var element := open[n];
      if n == 0 {
        open, written := [], written + [element];
      } else {
        var parent := open[n - 1];
        open := open[..n - 1] + [parent.(children := parent.children + [element])];
      }
    }

    /** Writes an element that holds two attributes. */
    method WriteLeaf(tag: Tag, key: Attribute, value: string, key': Attribute, value': string)
      requires open != []
      modifies this
      ensures written == old(written) && |open| == |old(open)| && open[..|open| - 1] == old(open)[..|open| - 1]
      ensures var parent := old(open)[|old(open)| - 1];
              open[|open| - 1] == parent.(children :=
                parent.children + [Element(tag, map[key := value][key' := value'], "", [])])
    {
      BeginElement(tag);
      WriteNameValuePair(key, value);
      WriteNameValuePair(key', value');
      EndElement();
    }
  }

  method WriteArchive(writer: StructuredWriter, name: string, format: string, items: seq<ArchiveItem>)
    requires writer.open != []
    modifies writer
    ensures writer.written == old(writer.written) && |writer.open| == |old(writer.open)|
    ensures writer.open[..|writer.open| - 1] == old(writer.open)[..|writer.open| - 1]
    ensures var parent := old(writer.open)[|old(writer.open)| - 1];
            writer.open[|writer.open| - 1] == parent.(children :=
              parent.children + [Element(ArchiveTag, map[Name := name, Format := format], "", ItemElements(items))])
  {
    writer.BeginElement(ArchiveTag);
    writer.WriteNameValuePair(Name, name);
    writer.WriteNameValuePair(Format, format);
    ghost var n := |writer.open| - 1;
    for i := 0 to |items|
      invariant writer.written == old(writer.written) && |writer.open| == n + 1
      invariant writer.open[..n] == old(writer.open)
      invariant writer.open[n] == Element(ArchiveTag, map[Name := name, Format := format], "", ItemElements(items[..i]))
    {
      writer.WriteLeaf(FileTag, Name, items[i].name, Path, items[i].path);
      assert ItemElements(items[..i + 1]) == ItemElements(items[..i]) + [ItemElement(items[i])];
    }
    assert items[..|items|] == items;
    writer.EndElement();
  }

  method WriteEmbedConfig(mothership: string, values: seq<EmbedSpec>) returns (writer: StructuredWriter)
    ensures fresh(writer) && writer.open == [] && writer.written == [Dump(mothership, values)]
  {
    writer := new StructuredWriter();
    writer.BeginElement(ToolEmbedTag);
    writer.BeginElement(InputTag);
    writer.WriteString(mothership);
    writer.EndElement();
    assert Dump(mothership, []).children == [Element(InputTag, map[], mothership, [])];
    assert writer.open[0].children == [Element(InputTag, map[], mothership, [])];
    assert writer.open == [Dump(mothership, [])];
    assert values[..0] == [];
    for i := 0 to |values|
      invariant fresh(writer) && writer.written == [] && writer.open == [Dump(mothership, values[..i])]
    {
      DumpStep(mothership, values[..i], values[i]);
      assert values[..i + 1] == values[..i] + [values[i]];
      ghost var before := writer.open[0];
      match values[i] {
        case File(name, path) => writer.WriteLeaf(FileTag, Name, name, Path, path);
        case NameValuePair(name, value) => writer.WriteLeaf(PairTag, Name, name, Value, value);
        case Archive(name, format, _, items) => WriteArchive(writer, name, format, items);
        case _ =>
      }
      assert writer.open[0] == before.(children := before.children + SpecElement(values[i]));
    }
    assert values[..|values|] == values;
    writer.EndElement();
  }

  // ------------------------------------------------------------- the reader

  function Tagged(elements: seq<Element>, tag: Tag): seq<Element> {
    if elements == [] then []
    else
      var last := elements[|elements| - 1];
      Tagged(elements[..|elements| - 1], tag) + if last.tag == tag then [last] else []
  }

  function ReadPair(item: Element): Option<EmbedSpec> {
    if item.tag != PairTag || Name !in item.attributes || Value !in item.attributes then None
    else Some(NameValuePair(item.attributes[Name], item.attributes[Value]))
  }

  function ReadFile(resolve: Resolver, item: Element): Option<EmbedSpec> {
    if item.tag != FileTag || Name !in item.attributes || Path !in item.attributes then None
    else
      var path := resolve(item.attributes[Path]);
      if path.None? then None else Some(File(item.attributes[Name], path.value))
  }

  function AttributeOrEmpty(item: Element, name: Attribute): string {
    if name in item.attributes then item.attributes[name] else ""
  }

  /** The items whose path resolves, and whether all of them do. */
  function ReadItems(resolve: Resolver, items: seq<Element>): (seq<ArchiveItem>, bool) {
    if items == [] then ([], true)
    else
      var (before, ok) := ReadItems(resolve, items[..|items| - 1]);
      var last := items[|items| - 1];
      var path := resolve(AttributeOrEmpty(last, Path));
      if path.None? then (before, false) else (before + [ArchiveItem(AttributeOrEmpty(last, Name), path.value)], ok)
  }

  function ReadArchive(resolve: Resolver, item: Element): Option<EmbedSpec> {
    var files := Tagged(item.children, FileTag);
    if item.tag != ArchiveTag || Name !in item.attributes || files == [] then None
    else
      var (items, ok) := ReadItems(resolve, files);
      if !ok then None
      else Some(Archive(item.attributes[Name], AttributeOrEmpty(item, Format), AttributeOrEmpty(item, Compression), items))
  }

  /** The specifications that can be read, and whether all of them can. */
  function ReadAll(read: Element -> Option<EmbedSpec>, items: seq<Element>): (seq<EmbedSpec>, bool) {
    if items == [] then ([], true)
    else
      var (before, ok) := ReadAll(read, items[..|items| - 1]);
      var last := read(items[|items| - 1]);
      if last.None? then (before, false) else (before + [last.value], ok)
  }

  function Reader(resolve: Resolver, kind: Tag): Element -> Option<EmbedSpec> {
    if kind == PairTag then ReadPair
    else if kind == FileTag then item => ReadFile(resolve, item)
    else item => ReadArchive(resolve, item)
  }

  datatype Configuration = Configuration(inputFile: string, toEmbed: seq<EmbedSpec>)

  /** Pairs first, then files, then archives; the first group with an error is the last one read. */
  function ReadConfiguration(resolve: Resolver, config: Configuration, root: Element): (Configuration, HResult) {
    var inputs := Tagged(root.children, InputTag);
    var input := if inputs == [] then Some(config.inputFile) else resolve(inputs[|inputs| - 1].text);
    if input.None? then (config, Failed(0))
    else
      var (pairs, pairsOk) := ReadAll(Reader(resolve, PairTag), Tagged(root.children, PairTag));
      var afterPairs := Configuration(input.value, config.toEmbed + pairs);
      if !pairsOk then (afterPairs, Failed(0))
      else
        var (files, filesOk) := ReadAll(Reader(resolve, FileTag), Tagged(root.children, FileTag));
        var afterFiles := afterPairs.(toEmbed := afterPairs.toEmbed + files);
        if !filesOk then (afterFiles, Failed(0))
        else
          var (archives, ok) := ReadAll(Reader(resolve, ArchiveTag), Tagged(root.children, ArchiveTag));
          (afterFiles.(toEmbed := afterFiles.toEmbed + archives), if ok then S_OK else Failed(0))
  }

  class Main {
    const resolve: Resolver
    var inputFile: string
    var toEmbed: seq<EmbedSpec>

    constructor (resolve: Resolver)
      ensures this.resolve == resolve && inputFile == "" && toEmbed == []
    {
      this.resolve, inputFile, toEmbed := resolve, "", [];
    }

    method AddSpecs(read: Element -> Option<EmbedSpec>, items: seq<Element>) returns (hr: HResult)
      modifies this`toEmbed
      ensures toEmbed == old(toEmbed) + ReadAll(read, items).0
      ensures hr == if ReadAll(read, items).1 then S_OK else Failed(0)
    {
      hr := S_OK;
      for i := 0 to |items|
        invariant toEmbed == old(toEmbed) + ReadAll(read, items[..i]).0
        invariant hr == if ReadAll(read, items[..i]).1 then S_OK else Failed(0)
      {
        assert items[..i + 1][..i] == items[..i];
        var spec := read(items[i]);
        if spec.Some? {
          toEmbed := toEmbed + [spec.value];
        } else {
          hr := Failed(0);
        }
      }
      assert items[..|items|] == items;
    }

    method GetConfigurationFromConfig(root: Element) returns (hr: HResult)
      modifies this
      ensures (Configuration(inputFile, toEmbed), hr)
           == ReadConfiguration(resolve, Configuration(old(inputFile), old(toEmbed)), root)
    {
      var inputs := Tagged(root.children, InputTag);
      if inputs != [] {
        var input := resolve(inputs[|inputs| - 1].text);
        if input.None? {
          return Failed(0);
        }
        inputFile := input.value;
      }
      hr := AddSpecs(Reader(resolve, PairTag), Tagged(root.children, PairTag));
      if hr != S_OK {
        return;
      }
      hr := AddSpecs(Reader(resolve, FileTag), Tagged(root.children, FileTag));
      if hr != S_OK {
        return;
      }
      hr := AddSpecs(Reader(resolve, ArchiveTag), Tagged(root.children, ArchiveTag));
    }
  }

  // ------------------------------------------------- reading arbitrary trees

  /** A pair needs its tag, a name and a value. */
  lemma PairReadIff(item: Element)
    ensures ReadPair(item).Some? <==> item.tag == PairTag && Name in item.attributes && Value in item.attributes
    ensures ReadPair(item).Some? ==> ReadPair(item).value == NameValuePair(item.attributes[Name], item.attributes[Value])
  {
  }

  /** A file needs its tag, a name, and a path that resolves, which it is given. */
  lemma FileReadIff(resolve: Resolver, item: Element)
    ensures ReadFile(resolve, item).Some? <==>
      item.tag == FileTag && Name in item.attributes && Path in item.attributes && resolve(item.attributes[Path]).Some?
    ensures ReadFile(resolve, item).Some? ==>
      ReadFile(resolve, item).value == File(item.attributes[Name], resolve(item.attributes[Path]).value)
  {
  }

  /** The value of an attribute, empty if there is none. */
  ghost predicate IsValue(item: Element, name: Attribute, value: string) {
    (name in item.attributes && item.attributes[name] == value) || (name !in item.attributes && value == "")
  }

  /** The children with a tag, in order. */
  lemma {:induction false} TaggedIs(elements: seq<Element>, tag: Tag)
    ensures forall k :: 0 <= k < |Tagged(elements, tag)| ==> Tagged(elements, tag)[k].tag == tag
    ensures forall e :: e in Tagged(elements, tag) <==> e in elements && e.tag == tag
  {
    if elements != [] {
      var n := |elements| - 1;
      TaggedIs(elements[..n], tag);
      assert elements == elements[..n] + [elements[n]];
    }
  }

  /** Archived files are read in order, those whose path does not resolve left out; a missing name or path is empty. */
  ghost predicate AreItems(resolve: Resolver, files: seq<Element>, items: seq<ArchiveItem>) {
    && |items| == |files|
    && forall k :: 0 <= k < |files| ==>
         exists path :: IsValue(files[k], Path, path) && resolve(path).Some? && items[k].path == resolve(path).value
                        && IsValue(files[k], Name, items[k].name)
  }

  lemma {:induction false} ItemsReadIff(resolve: Resolver, files: seq<Element>)
    ensures ReadItems(resolve, files).1 <==>
      forall k :: 0 <= k < |files| ==> resolve(AttributeOrEmpty(files[k], Path)).Some?
    ensures ReadItems(resolve, files).1 ==> AreItems(resolve, files, ReadItems(resolve, files).0)
  {
    if files != [] {
      var n := |files| - 1;
      ItemsReadIff(resolve, files[..n]);
      assert forall k :: 0 <= k < n ==> files[..n][k] == files[k];
      ValueIs(files[n], Path);
      ValueIs(files[n], Name);
      if ReadItems(resolve, files).1 {
        var items := ReadItems(resolve, files).0;
        forall k | 0 <= k < |files|
          ensures exists path :: IsValue(files[k], Path, path) && resolve(path).Some? && items[k].path == resolve(path).value
                                 && IsValue(files[k], Name, items[k].name)
        {
          if k == n {
            assert IsValue(files[n], Path, AttributeOrEmpty(files[n], Path));
          } else {
            assert files[..n][k] == files[k] && items[k] == ReadItems(resolve, files[..n]).0[k];
          }
        }
      }
    }
  }

  lemma ValueIs(item: Element, name: Attribute)
    ensures IsValue(item, name, AttributeOrEmpty(item, name))
    ensures forall value :: IsValue(item, name, value) ==> value == AttributeOrEmpty(item, name)
  {
  }

  /** An archive needs its tag, a name and at least one file, and the paths of all of them must resolve; format and
      compression are kept, or empty. */
  lemma {:induction false} ArchiveReadIff(resolve: Resolver, item: Element)
    ensures var files := Tagged(item.children, FileTag);
            ReadArchive(resolve, item).Some? <==>
              && item.tag == ArchiveTag && Name in item.attributes && files != []
              && forall k :: 0 <= k < |files| ==> resolve(AttributeOrEmpty(files[k], Path)).Some?
    ensures ReadArchive(resolve, item).Some? ==>
      var spec := ReadArchive(resolve, item).value;
      && spec.Archive? && spec.name == item.attributes[Name]
      && IsValue(item, Format, spec.format) && IsValue(item, Compression, spec.compression)
      && AreItems(resolve, Tagged(item.children, FileTag), spec.items)
  {
    ItemsReadIff(resolve, Tagged(item.children, FileTag));
    ValueIs(item, Format);
    ValueIs(item, Compression);
  }

  /** What is read from two lists is read from them one after the other; a single item adds what it gives, and an
      unreadable one is an error. */
  lemma {:induction false} ReadAllConcat(read: Element -> Option<EmbedSpec>, a: seq<Element>, b: seq<Element>)
    ensures ReadAll(read, a + b).0 == ReadAll(read, a).0 + ReadAll(read, b).0
    ensures ReadAll(read, a + b).1 <==> ReadAll(read, a).1 && ReadAll(read, b).1
  {
    if b == [] {
      assert a + b == a;
    } else {
      var n := |b| - 1;
      ReadAllConcat(read, a, b[..n]);
      assert (a + b)[..|a| + n] == a + b[..n];
    }
  }

  lemma ReadOne(read: Element -> Option<EmbedSpec>, item: Element)
    ensures ReadAll(read, []) == ([], true)
    ensures ReadAll(read, [item]) == if read(item).Some? then ([read(item).value], true) else ([], false)
  {
    ReadAllAppend(read, [], item);
    assert [] + [item] == [item];
    if read(item).Some? {
      assert [] + [read(item).value] == [read(item).value];
    }
  }

  /** Reading a tree: an input that does not resolve changes nothing; otherwise the last one is taken, and the readable
      pairs are added, then the files if all pairs were readable, then the archives if all files were too. */
  lemma {:induction false} ReadOutcome(resolve: Resolver, config: Configuration, root: Element)
    ensures var inputs := Tagged(root.children, InputTag);
            var pairs := ReadAll(ReadPair, Tagged(root.children, PairTag));
            var files := ReadAll(item => ReadFile(resolve, item), Tagged(root.children, FileTag));
            var archives := ReadAll(item => ReadArchive(resolve, item), Tagged(root.children, ArchiveTag));
            var (after, hr) := ReadConfiguration(resolve, config, root);
            var lost := inputs != [] && resolve(inputs[|inputs| - 1].text).None?;
            && (hr == S_OK <==> !lost && pairs.1 && files.1 && archives.1)
            && (lost ==> after == config)
            && (!lost && inputs == [] ==> after.inputFile == config.inputFile)
            && (!lost && inputs != [] ==> resolve(inputs[|inputs| - 1].text) == Some(after.inputFile))
            && (!lost ==> after.toEmbed == (config.toEmbed + pairs.0 + (if pairs.1 then files.0 else [])
                                            + if pairs.1 && files.1 then archives.0 else []))
  {
    SameReader(resolve, Tagged(root.children, FileTag), Tagged(root.children, ArchiveTag));
    hide ReadPair, ReadFile, ReadArchive, ReadAll, Tagged;
    assert config.toEmbed + [] == config.toEmbed;
  }

  lemma SameReader(resolve: Resolver, files: seq<Element>, archives: seq<Element>)
    ensures ReadAll(item => ReadFile(resolve, item), files) == ReadAll(Reader(resolve, FileTag), files)
    ensures ReadAll(item => ReadArchive(resolve, item), archives) == ReadAll(Reader(resolve, ArchiveTag), archives)
  {
    SameReads(item => ReadFile(resolve, item), Reader(resolve, FileTag), files);
    SameReads(item => ReadArchive(resolve, item), Reader(resolve, ArchiveTag), archives);
  }

  lemma {:induction false} SameReads(read: Element -> Option<EmbedSpec>, other: Element -> Option<EmbedSpec>, items: seq<Element>)
    requires forall item :: read(item) == other(item)
    ensures ReadAll(read, items) == ReadAll(other, items)
  {
    if items != [] { SameReads(read, other, items[..|items| - 1]); }
  }

  /** The tree of a file, a pair, an archive of one file, and a deletion, which is not written. */
  lemma DumpIs()
    ensures var values := [File("f", "p"), Archive("z", "7z", "fast", [ArchiveItem("i", "q")]), NameValuePair("n", "v"),
                           BinaryDeletion("d")];
            Dump("m", values) == Element(ToolEmbedTag, map[], "", [
              Element(InputTag, map[], "m", []),
              Element(FileTag, map[Name := "f", Path := "p"], "", []),
              Element(ArchiveTag, map[Name := "z", Format := "7z"], "",
                      [Element(FileTag, map[Name := "i", Path := "q"], "", [])]),
              Element(PairTag, map[Name := "n", Value := "v"], "", [])])
  {
    hide Dump;
    var a, b, c, d := File("f", "p"), Archive("z", "7z", "fast", [ArchiveItem("i", "q")]), NameValuePair("n", "v"),
      BinaryDeletion("d");
    DumpStep("m", [], a);
    DumpStep("m", [a], b);
    DumpStep("m", [a, b], c);
    DumpStep("m", [a, b, c], d);
    OnlyInput("m", PairTag);
    assert [] + [a] == [a] && [a] + [b] == [a, b] && [a, b] + [c] == [a, b, c] && [a, b, c] + [d] == [a, b, c, d];
    assert ItemElements([ArchiveItem("i", "q")]) == [Element(FileTag, map[Name := "i", Path := "q"], "", [])];
    DumpRoot("m", [a, b, c, d]);
  }

  lemma DumpRoot(mothership: string, values: seq<EmbedSpec>)
    ensures var dump := Dump(mothership, values); dump.tag == ToolEmbedTag && dump.attributes == map[] && dump.text == ""
  {
  }

  // ---------------------------------------------------------- the round trip

  /** What becomes of a specification that is written and read. */
  function Kept(resolve: Resolver, spec: EmbedSpec): Option<EmbedSpec> {
    match spec
    case NameValuePair(_, _) => Some(spec)
    case File(name, path) =>
      var resolved := resolve(path);
      if resolved.None? then None else Some(File(name, resolved.value))
    case Archive(name, format, _, items) =>
      var (resolved, ok) := KeptItems(resolve, items);
      if items == [] || !ok then None else Some(Archive(name, format, "", resolved))
    case _ => None
  }

  function KeptItems(resolve: Resolver, items: seq<ArchiveItem>): (seq<ArchiveItem>, bool) {
    if items == [] then ([], true)
    else
      var (before, ok) := KeptItems(resolve, items[..|items| - 1]);
      var last := items[|items| - 1];
      var path := resolve(last.path);
      if path.None? then (before, false) else (before + [ArchiveItem(last.name, path.value)], ok)
  }

  /** The specifications of one kind, in their order. */
  function OfKind(values: seq<EmbedSpec>, kind: Tag): seq<EmbedSpec> {
    if values == [] then []
    else
      var last := values[|values| - 1];
      OfKind(values[..|values| - 1], kind) + if IsKind(last, kind) then [last] else []
  }

  predicate IsKind(spec: EmbedSpec, kind: Tag) {
    match spec
    case NameValuePair(_, _) => kind == PairTag
    case File(_, _) => kind == FileTag
    case Archive(_, _, _, _) => kind == ArchiveTag
    case _ => false
  }

  function KeepAll(resolve: Resolver, values: seq<EmbedSpec>): (seq<EmbedSpec>, bool) {
    if values == [] then ([], true)
    else
      var (before, ok) := KeepAll(resolve, values[..|values| - 1]);
      var last := Kept(resolve, values[|values| - 1]);
      if last.None? then (before, false) else (before + [last.value], ok)
  }

  /** Pairs, then files, then archives. */
  function Grouped(values: seq<EmbedSpec>): seq<EmbedSpec> {
    OfKind(values, PairTag) + OfKind(values, FileTag) + OfKind(values, ArchiveTag)
  }

  lemma {:induction false} ItemsReadBack(resolve: Resolver, items: seq<ArchiveItem>)
    ensures Tagged(ItemElements(items), FileTag) == ItemElements(items)
    ensures ReadItems(resolve, ItemElements(items)) == KeptItems(resolve, items)
  {
    if items != [] {
      hide Tagged, ItemElements, ItemElement, AttributeOrEmpty;
      var n := |items| - 1;
      ItemElementIs(items[n]);
      ItemsReadBack(resolve, items[..n]);
      ItemElementsAppend(items[..n], items[n]);
      TaggedAppend(ItemElements(items[..n]), [ItemElement(items[n])], FileTag);
      assert items == items[..n] + [items[n]];
    }
  }

  lemma ItemElementIs(item: ArchiveItem)
    ensures ItemElement(item).tag == FileTag
    ensures AttributeOrEmpty(ItemElement(item), Name) == item.name && AttributeOrEmpty(ItemElement(item), Path) == item.path
  {
  }

  lemma ItemElementsAppend(items: seq<ArchiveItem>, last: ArchiveItem)
    ensures ItemElements(items + [last]) == ItemElements(items) + [ItemElement(last)]
    ensures ItemElements(items + [last])[..|items|] == ItemElements(items)
  {
  }

  lemma ArchiveReadBack(resolve: Resolver, spec: EmbedSpec)
    requires spec.Archive?
    ensures ReadArchive(resolve, SpecElement(spec)[0]) == Kept(resolve, spec)
  {
    ItemsReadBack(resolve, spec.items);
  }

  lemma SpecReadBack(resolve: Resolver, spec: EmbedSpec)
    ensures |SpecElement(spec)| <= 1
    ensures forall kind :: IsKind(spec, kind) <==> SpecElement(spec) != [] && SpecElement(spec)[0].tag == kind
    ensures SpecElement(spec) != [] ==>
      Reader(resolve, SpecElement(spec)[0].tag)(SpecElement(spec)[0]) == Kept(resolve, spec)
  {
    if spec.Archive? {
      hide Kept, ReadArchive;
      ArchiveReadBack(resolve, spec);
    }
  }

  /** The elements of one kind are read back in order, each as what is kept of its specification. */
  lemma {:induction false} KindReadBack(resolve: Resolver, mothership: string, values: seq<EmbedSpec>, kind: Tag)
    requires kind in {PairTag, FileTag, ArchiveTag}
    ensures var elements := Tagged(Dump(mothership, values).children, kind);
            ReadAll(Reader(resolve, kind), elements) == KeepAll(resolve, OfKind(values, kind))
  {
    hide Kept, SpecElement, Reader, Dump;
    if values == [] {
      OnlyInput(mothership, kind);
    } else {
      var n := |values| - 1;
      var spec, before := values[n], Dump(mothership, values[..n]).children;
      KindReadBack(resolve, mothership, values[..n], kind);
      DumpStep(mothership, values[..n], spec);
      assert values == values[..n] + [spec];
      SpecReadBack(resolve, spec);
      TaggedAppend(before, SpecElement(spec), kind);
      if IsKind(spec, kind) {
        ReadAllAppend(Reader(resolve, kind), Tagged(before, kind), SpecElement(spec)[0]);
        KeepAllAppend(resolve, OfKind(values[..n], kind), spec);
        assert OfKind(values, kind) == OfKind(values[..n], kind) + [spec];
        assert SpecElement(spec) == [SpecElement(spec)[0]];
      } else {
        assert OfKind(values, kind) == OfKind(values[..n], kind);
      }
    }
  }

  lemma OnlyInput(mothership: string, kind: Tag)
    ensures Dump(mothership, []).children == [Element(InputTag, map[], mothership, [])]
    ensures Tagged(Dump(mothership, []).children, kind) == if kind == InputTag then Dump(mothership, []).children else []
  {
    assert Dump(mothership, []).children == [Element(InputTag, map[], mothership, [])];
    assert Dump(mothership, []).children[..0] == [];
  }

  lemma TaggedAppend(elements: seq<Element>, more: seq<Element>, tag: Tag)
    requires |more| <= 1
    ensures Tagged(elements + more, tag) ==
      if more != [] && more[0].tag == tag then Tagged(elements, tag) + more else Tagged(elements, tag)
  {
    if more == [] {
      assert elements + more == elements;
    } else {
      assert (elements + more)[..|elements|] == elements && more == [more[0]];
    }
  }

  lemma ReadAllAppend(read: Element -> Option<EmbedSpec>, items: seq<Element>, last: Element)
    ensures ReadAll(read, items + [last]) ==
      if read(last).None? then (ReadAll(read, items).0, false)
      else (ReadAll(read, items).0 + [read(last).value], ReadAll(read, items).1)
  {
    assert (items + [last])[..|items|] == items;
  }

  lemma KeepAllAppend(resolve: Resolver, values: seq<EmbedSpec>, last: EmbedSpec)
    ensures KeepAll(resolve, values + [last]) ==
      if Kept(resolve, last).None? then (KeepAll(resolve, values).0, false)
      else (KeepAll(resolve, values).0 + [Kept(resolve, last).value], KeepAll(resolve, values).1)
  {
    assert (values + [last])[..|values|] == values;
  }

  lemma {:induction false} InputReadBack(mothership: string, values: seq<EmbedSpec>)
    ensures Tagged(Dump(mothership, values).children, InputTag) == [Element(InputTag, map[], mothership, [])]
  {
    if values == [] {
      OnlyInput(mothership, InputTag);
    } else {
      var n := |values| - 1;
      InputReadBack(mothership, values[..n]);
      DumpStep(mothership, values[..n], values[n]);
      assert values == values[..n] + [values[n]];
      TaggedAppend(Dump(mothership, values[..n]).children, SpecElement(values[n]), InputTag);
    }
  }

  lemma {:induction false} KeepAllConcat(resolve: Resolver, a: seq<EmbedSpec>, b: seq<EmbedSpec>)
    ensures KeepAll(resolve, a + b).0 == KeepAll(resolve, a).0 + KeepAll(resolve, b).0
    ensures KeepAll(resolve, a + b).1 <==> KeepAll(resolve, a).1 && KeepAll(resolve, b).1
  {
    if b == [] {
      assert a + b == a;
    } else {
      var n := |b| - 1;
      KeepAllConcat(resolve, a, b[..n]);
      KeepAllAppend(resolve, a + b[..n], b[n]);
      assert a + b == (a + b[..n]) + [b[n]];
    }
  }

  /** All are kept exactly when each of them is: pairs always, files and archived files whose path resolves, and
      archives that hold a file. */
  lemma {:induction false} KeepAllIff(resolve: Resolver, values: seq<EmbedSpec>)
    ensures KeepAll(resolve, values).1 <==> forall k :: 0 <= k < |values| ==> Kept(resolve, values[k]).Some?
    ensures KeepAll(resolve, values).1 ==>
      && |KeepAll(resolve, values).0| == |values|
      && forall k :: 0 <= k < |values| ==> Some(KeepAll(resolve, values).0[k]) == Kept(resolve, values[k])
  {
    hide Kept;
    if values != [] {
      var n := |values| - 1;
      KeepAllIff(resolve, values[..n]);
      assert forall k :: 0 <= k < n ==> values[..n][k] == values[k];
    }
  }

  /** Reading back a dump succeeds exactly when the mothership and every written specification are kept, and gives
      them stably grouped as pairs, files and archives, without the compression of archives. */
  lemma {:induction false} DumpReadBack(resolve: Resolver, mothership: string, values: seq<EmbedSpec>)
    ensures var (config, hr) := ReadConfiguration(resolve, Configuration("", []), Dump(mothership, values));
            var (kept, ok) := KeepAll(resolve, Grouped(values));
            && (hr == S_OK <==> resolve(mothership).Some? && ok)
            && (hr == S_OK ==> config == Configuration(resolve(mothership).value, kept))
  {
    hide Reader, Kept, Dump, KeepAll, ReadAll, Tagged, OfKind;
    InputReadBack(mothership, values);
    KindReadBack(resolve, mothership, values, PairTag);
    KindReadBack(resolve, mothership, values, FileTag);
    KindReadBack(resolve, mothership, values, ArchiveTag);
    KeepAllConcat(resolve, OfKind(values, PairTag), OfKind(values, FileTag));
    KeepAllConcat(resolve, OfKind(values, PairTag) + OfKind(values, FileTag), OfKind(values, ArchiveTag));
  }

  // ------------------------------------------------------------- idempotence

  /** A resolved path resolves to itself. */
  ghost predicate Stable(resolve: Resolver) {
    forall p :: resolve(p).Some? ==> resolve(resolve(p).value) == resolve(p)
  }

  /** All of them are kept as they are. */
  ghost predicate Settled(resolve: Resolver, values: seq<EmbedSpec>) {
    KeepAll(resolve, values) == (values, true)
  }

  lemma {:induction false} KeptItemsSettled(resolve: Resolver, items: seq<ArchiveItem>)
    requires Stable(resolve) && KeptItems(resolve, items).1
    ensures var kept := KeptItems(resolve, items).0;
            |kept| == |items| && KeptItems(resolve, kept) == (kept, true)
  {
    if items != [] {
      var n := |items| - 1;
      KeptItemsSettled(resolve, items[..n]);
      var kept := KeptItems(resolve, items).0;
      assert kept[..n] == KeptItems(resolve, items[..n]).0;
    }
  }

  lemma KeptSettled(resolve: Resolver, spec: EmbedSpec)
    requires Stable(resolve) && Kept(resolve, spec).Some?
    ensures var kept := Kept(resolve, spec).value;
            Kept(resolve, kept) == Some(kept) && forall kind :: IsKind(kept, kind) <==> IsKind(spec, kind)
  {
    if spec.Archive? { KeptItemsSettled(resolve, spec.items); }
  }

  lemma {:induction false} KeepAllSettled(resolve: Resolver, values: seq<EmbedSpec>)
    requires Stable(resolve) && KeepAll(resolve, values).1
    ensures var kept := KeepAll(resolve, values).0;
            && |kept| == |values| && Settled(resolve, kept)
            && forall k :: 0 <= k < |kept| ==> forall kind :: IsKind(kept[k], kind) <==> IsKind(values[k], kind)
  {
    hide Kept, IsKind;
    if values != [] {
      var n := |values| - 1;
      KeepAllSettled(resolve, values[..n]);
      KeptSettled(resolve, values[n]);
      KeepAllAppend(resolve, KeepAll(resolve, values[..n]).0, Kept(resolve, values[n]).value);
    }
  }

  lemma OfKindAppend(values: seq<EmbedSpec>, last: EmbedSpec, kind: Tag)
    ensures OfKind(values + [last], kind) == OfKind(values, kind) + if IsKind(last, kind) then [last] else []
    ensures OfKind([], kind) == []
  {
    hide IsKind;
    assert (values + [last])[..|values|] == values;
  }

  lemma {:induction false} OfKindConcat(a: seq<EmbedSpec>, b: seq<EmbedSpec>, kind: Tag)
    ensures OfKind(a + b, kind) == OfKind(a, kind) + OfKind(b, kind)
  {
    hide OfKind, IsKind;
    if b == [] {
      assert a + b == a;
      OfKindAppend([], Void, kind);
    } else {
      var n := |b| - 1;
      OfKindConcat(a, b[..n], kind);
      OfKindAppend(a + b[..n], b[n], kind);
      OfKindAppend(b[..n], b[n], kind);
      assert a + b == (a + b[..n]) + [b[n]];
      assert b == b[..n] + [b[n]];
    }
  }

  lemma OneKind(spec: EmbedSpec, of: Tag, kind: Tag)
    requires IsKind(spec, of)
    ensures IsKind(spec, kind) <==> of == kind
  {
  }

  lemma {:induction false} OfKindUniform(values: seq<EmbedSpec>, of: Tag, kind: Tag)
    requires forall k :: 0 <= k < |values| ==> IsKind(values[k], of)
    ensures OfKind(values, kind) == if of == kind then values else []
  {
    hide OfKind, IsKind;
    if values == [] {
      OfKindAppend([], Void, kind);
    } else {
      var n := |values| - 1;
      assert forall k :: 0 <= k < n ==> values[..n][k] == values[k];
      OfKindUniform(values[..n], of, kind);
      OneKind(values[n], of, kind);
      OfKindAppend(values[..n], values[n], kind);
      assert values == values[..n] + [values[n]];
    }
  }

  lemma {:induction false} OfKindIsUniform(values: seq<EmbedSpec>, kind: Tag)
    ensures forall k :: 0 <= k < |OfKind(values, kind)| ==> IsKind(OfKind(values, kind)[k], kind)
  {
    if values != [] { OfKindIsUniform(values[..|values| - 1], kind); }
  }

  lemma GroupedAgain(pairs: seq<EmbedSpec>, files: seq<EmbedSpec>, archives: seq<EmbedSpec>)
    requires forall k :: 0 <= k < |pairs| ==> IsKind(pairs[k], PairTag)
    requires forall k :: 0 <= k < |files| ==> IsKind(files[k], FileTag)
    requires forall k :: 0 <= k < |archives| ==> IsKind(archives[k], ArchiveTag)
    ensures Grouped(pairs + files + archives) == pairs + files + archives
  {
    hide IsKind, OfKind;
    OfKindGrouped(pairs, files, archives, PairTag);
    OfKindGrouped(pairs, files, archives, FileTag);
    OfKindGrouped(pairs, files, archives, ArchiveTag);
  }

  lemma OfKindGrouped(pairs: seq<EmbedSpec>, files: seq<EmbedSpec>, archives: seq<EmbedSpec>, kind: Tag)
    requires forall k :: 0 <= k < |pairs| ==> IsKind(pairs[k], PairTag)
    requires forall k :: 0 <= k < |files| ==> IsKind(files[k], FileTag)
    requires forall k :: 0 <= k < |archives| ==> IsKind(archives[k], ArchiveTag)
    ensures OfKind(pairs + files + archives, kind) ==
      match kind case PairTag => pairs case FileTag => files case ArchiveTag => archives case _ => []
  {
    hide IsKind, OfKind;
    OfKindConcat(pairs + files, archives, kind);
    OfKindConcat(pairs, files, kind);
    OfKindUniform(pairs, PairTag, kind);
    OfKindUniform(files, FileTag, kind);
    OfKindUniform(archives, ArchiveTag, kind);
  }

  /** Once written and read, a configuration survives every further round unchanged. */
  lemma {:induction false} ReadBackIdempotent(resolve: Resolver, mothership: string, values: seq<EmbedSpec>)
    requires Stable(resolve)
    requires ReadConfiguration(resolve, Configuration("", []), Dump(mothership, values)).1 == S_OK
    ensures var first := ReadConfiguration(resolve, Configuration("", []), Dump(mothership, values)).0;
            ReadConfiguration(resolve, Configuration("", []), Dump(first.inputFile, first.toEmbed)) == (first, S_OK)
  {
    var first := ReadConfiguration(resolve, Configuration("", []), Dump(mothership, values)).0;
    DumpReadBack(resolve, mothership, values);
    DumpReadBack(resolve, first.inputFile, first.toEmbed);
    KeptGroupsSettle(resolve, values);
  }

  lemma {:induction false} KeptGroupsSettle(resolve: Resolver, values: seq<EmbedSpec>)
    requires Stable(resolve) && KeepAll(resolve, Grouped(values)).1
    ensures var kept := KeepAll(resolve, Grouped(values)).0;
            Grouped(kept) == kept && Settled(resolve, kept)
  {
    var pairs, files, archives := OfKind(values, PairTag), OfKind(values, FileTag), OfKind(values, ArchiveTag);
    KeepAllConcat(resolve, pairs, files);
    KeepAllConcat(resolve, pairs + files, archives);
    KeepAllSettled(resolve, Grouped(values));
    OfKindIsUniform(values, PairTag);
    OfKindIsUniform(values, FileTag);
    OfKindIsUniform(values, ArchiveTag);
    KeepAllSettled(resolve, pairs);
    KeepAllSettled(resolve, files);
    KeepAllSettled(resolve, archives);
    GroupedAgain(KeepAll(resolve, pairs).0, KeepAll(resolve, files).0, KeepAll(resolve, archives).0);
  }
}
