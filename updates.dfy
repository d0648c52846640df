/** The four rewrites of one module file (`update_metdata`, `update_documentation`,
    `update_short_description`, `update_examples`) as functions from the top-level
    statements before to the statements after, and the sequence `process` runs
    them in for one file.

    Each rewrite looks its assignment up by name; with anything but exactly one
    match it logs and changes nothing. With one match it overwrites the value of
    that one statement, so a file is only ever changed in the values of the
    `ANSIBLE_METADATA`, `DOCUMENTATION` and `EXAMPLES` assignments. */
module Updates {
  import opened Wrappers
  import opened Yaml
  import opened Syntax
  import Documentation
  import Examples
  import ShortDescription

  const MetadataName := "ANSIBLE_METADATA"
  const DocumentationName := "DOCUMENTATION"
  const ExamplesName := "EXAMPLES"
  const ReturnName := "RETURN"
  const ModuleKey := "module"

  /** `{"metadata_version": "1.1", "supported_by": "Ansible"}` */
  const Metadata := DictConst(["metadata_version", "supported_by"], ["1.1", "Ansible"])

  /** `after` is `before` with only statements defining one of `names` changed,
      and every statement keeps its targets. */
  predicate OnlyRewrites(before: seq<Stmt>, after: seq<Stmt>, names: set<string>) {
    |after| == |before|
    && forall i :: 0 <= i < |before| ==>
      && SameTargets(before[i], after[i])
      && (after[i] != before[i] ==> HasTargets(before[i]) && before[i].target.Name? && before[i].target.id in names)
  }

  /** Rewrites one after the other rewrite the union of their names. */
  lemma OnlyRewritesCompose(a: seq<Stmt>, b: seq<Stmt>, c: seq<Stmt>, m: set<string>, n: set<string>)
    requires OnlyRewrites(a, b, m) && OnlyRewrites(b, c, n)
    ensures OnlyRewrites(a, c, m + n)
  {
    forall i | 0 <= i < |a|
      ensures SameTargets(a[i], c[i])
      ensures c[i] != a[i] ==> HasTargets(a[i]) && a[i].target.Name? && a[i].target.id in m + n
    {
      assert SameTargets(a[i], b[i]) && SameTargets(b[i], c[i]);
    }
  }

  /** A rewrite keeps every lookup: whether it can run, and the positions it finds. */
  lemma {:induction false} OnlyRewritesKeepsLookup(before: seq<Stmt>, after: seq<Stmt>, names: set<string>, name: string)
    requires OnlyRewrites(before, after, names)
    ensures Searchable(after) == Searchable(before)
    ensures MatchIndices(name, after) == MatchIndices(name, before)
    decreases |before|
  {
    assert Searchable(after) == Searchable(before) by {
      forall j | 0 <= j < |before| ensures HasTargets(after[j]) == HasTargets(before[j]) {
        assert SameTargets(before[j], after[j]);
      }
    }
    if before != [] {
      var n := |before| - 1;
      assert OnlyRewrites(before[..n], after[..n], names) by {
        forall j | 0 <= j < n ensures SameTargets(before[..n][j], after[..n][j]) {
          assert SameTargets(before[j], after[j]);
        }
      }
      OnlyRewritesKeepsLookup(before[..n], after[..n], names, name);
      assert SameTargets(before[n], after[n]);
    }
  }

  /** A statement defining a name outside those rewritten is left as it was. */
  lemma OnlyRewritesKeeps(before: seq<Stmt>, after: seq<Stmt>, names: set<string>, i: nat, name: string)
    requires OnlyRewrites(before, after, names) && i < |before|
    requires Defines(before[i], name) && name !in names
    ensures after[i] == before[i]
  {
  }

  /** The position of the one statement that defines `name`, when the lookup
      finds exactly one. */
  function Sole(name: string, body: seq<Stmt>): (r: Option<nat>)
    ensures r.Some? <==> |Matches(name, body)| == 1
    ensures r.Some? ==> r.value < |body| && Matches(name, body) == [body[r.value]]
    ensures r.Some? ==> forall j :: 0 <= j < |body| && j != r.value ==> !Defines(body[j], name)
  {
    MatchesAtIndices(name, body);
    if |MatchIndices(name, body)| == 1 then Some(MatchIndices(name, body)[0]) else None
  }

  /** A rewrite leaves the sole definition of every name where it was. */
  lemma SoleKept(before: seq<Stmt>, after: seq<Stmt>, names: set<string>, name: string)
    requires OnlyRewrites(before, after, names)
    ensures Searchable(after) == Searchable(before)
    ensures Sole(name, after) == Sole(name, before)
  {
    OnlyRewritesKeepsLookup(before, after, names, name);
    MatchesAtIndices(name, before);
    MatchesAtIndices(name, after);
  }

  /** Overwriting the value of the statement that defines `name` rewrites only `name`. */
  lemma OverwriteOnly(body: seq<Stmt>, i: nat, c: Stmt, name: string)
    requires i < |body| && Defines(body[i], name) && SameTargets(body[i], c)
    ensures OnlyRewrites(body, body[i := c], {name})
  {
  }

  /** `update_metdata`: with exactly one `ANSIBLE_METADATA` assignment its value
      becomes the fixed metadata whatever it held; otherwise nothing changes. The
      lookup itself raises when some statement's first target has no name. */
  function UpdateMetadata(body: seq<Stmt>): (r: Result<seq<Stmt>>)
    ensures r.Err? <==> !Searchable(body)
    ensures r.Err? ==> r.error == AttributeError
    ensures r.Ok? ==> OnlyRewrites(body, r.value, {MetadataName})
    ensures r.Ok? && Sole(MetadataName, body).None? ==> r.value == body
    ensures r.Ok? && Sole(MetadataName, body).Some? ==>
      var i := Sole(MetadataName, body).value;
      && (body[i].Assign? ==> r.value[i].Assign? && r.value[i].value == Metadata)
      && (!body[i].Assign? ==> r.value == body)
  {
    var bodypart :- FindAssignment(MetadataName, body);
    if |bodypart| != 1 then Ok(body)
    else
      var i := Sole(MetadataName, body).value;
      OverwriteOnly(body, i, WithValue(body[i], Metadata), MetadataName);
      Ok(body[i := WithValue(body[i], Metadata)])
  }

  /** A second metadata update changes nothing. */
  lemma UpdateMetadataIdempotent(body: seq<Stmt>)
    requires Searchable(body)
    ensures UpdateMetadata(UpdateMetadata(body).value) == UpdateMetadata(body)
  {
    var once := UpdateMetadata(body).value;
    SoleKept(body, once, {MetadataName}, MetadataName);
    if Sole(MetadataName, body).Some? {
      var i := Sole(MetadataName, body).value;
      assert once[i := WithValue(once[i], Metadata)] == once;
    }
  }

  /** Overwriting the string of the one statement that defines `name`. */
  function SetString(body: seq<Stmt>, i: nat, text: string): (r: seq<Stmt>)
    requires i < |body| && body[i].Assign?
    ensures |r| == |body| && StringValue(r[i]) == Ok(text)
    ensures forall j :: 0 <= j < |body| && j != i ==> r[j] == body[j]
  {
    body[i := WithString(body[i], text)]
  }

  /** `update_documentation`: with exactly one `DOCUMENTATION` assignment its
      string becomes the rewritten documentation; otherwise nothing changes. */
  function UpdateDocumentation(body: seq<Stmt>, codec: Codec): (r: Result<seq<Stmt>>)
    ensures !Searchable(body) ==> r == Err(AttributeError)
    ensures r.Ok? ==> OnlyRewrites(body, r.value, {DocumentationName})
    ensures Searchable(body) && Sole(DocumentationName, body).None? ==> r == Ok(body)
    ensures Searchable(body) && Sole(DocumentationName, body).Some? ==>
      var i := Sole(DocumentationName, body).value;
      match StringValue(body[i])
      case Err(e) => r == Err(e)
      case Ok(text) =>
        match Documentation.RewriteDocumentation(text, codec)
        case Err(e) => r == Err(e)
        case Ok(text') => r.Ok? && StringValue(r.value[i]) == Ok(text')
  {
    var bodypart :- FindAssignment(DocumentationName, body);
    if |bodypart| != 1 then Ok(body)
    else
      var i := Sole(DocumentationName, body).value;
      var text :- StringValue(body[i]);
      var text' :- Documentation.RewriteDocumentation(text, codec);
      OverwriteOnly(body, i, WithString(body[i], text'), DocumentationName);
      Ok(SetString(body, i, text'))
  }

  /** `update_examples`: with exactly one `EXAMPLES` assignment its string becomes
      the rewritten examples; otherwise nothing changes. */
  function UpdateExamples(body: seq<Stmt>, moduleName: string, collection: string, codec: Codec): (r: Result<seq<Stmt>>)
    ensures !Searchable(body) ==> r == Err(AttributeError)
    ensures r.Ok? ==> OnlyRewrites(body, r.value, {ExamplesName})
    ensures Searchable(body) && Sole(ExamplesName, body).None? ==> r == Ok(body)
    ensures Searchable(body) && Sole(ExamplesName, body).Some? ==>
      var i := Sole(ExamplesName, body).value;
      match StringValue(body[i])
      case Err(e) => r == Err(e)
      case Ok(text) =>
        match Examples.RewriteExamples(text, moduleName, collection, codec)
        case Err(e) => r == Err(e)
        case Ok(text') => r.Ok? && StringValue(r.value[i]) == Ok(text')
  {
    var bodypart :- FindAssignment(ExamplesName, body);
    if |bodypart| != 1 then Ok(body)
    else
      var i := Sole(ExamplesName, body).value;
      var text :- StringValue(body[i]);
      var text' :- Examples.RewriteExamples(text, moduleName, collection, codec);
      OverwriteOnly(body, i, WithString(body[i], text'), ExamplesName);
      Ok(SetString(body, i, text'))
  }

  /** The short description the DOCUMENTATION document should hold, when both
      lookups find exactly one assignment: `None` when either finds another
      number, so that nothing is written. RETURN is read first, and its text is
      loaded before DOCUMENTATION is looked up. */
  function NewShortDescription(body: seq<Stmt>, moduleName: string, codec: Codec): (r: Result<Option<(Entries, Node)>>)
    ensures !Searchable(body) ==> r == Err(AttributeError)
    ensures Searchable(body) && Sole(ReturnName, body).None? ==> r == Ok(None)
    ensures r.Ok? && r.value.Some? ==>
      && Sole(ReturnName, body).Some? && Sole(DocumentationName, body).Some?
      && var retStmt := body[Sole(ReturnName, body).value];
        var docStmt := body[Sole(DocumentationName, body).value];
        && StringValue(retStmt).Ok? && StringValue(docStmt).Ok?
        && codec.load(StringValue(retStmt).value).Some?
        && var (doc, d) := r.value.value;
          && HasKey(doc, ShortDescriptionKey)
          && codec.load(StringValue(docStmt).value) == Some(Mapping(doc))
          && ShortDescription.DeriveShortDescription(
               Mapping(doc), codec.load(StringValue(retStmt).value).value, moduleName) == Ok(d)
    ensures Searchable(body) && Sole(ReturnName, body).Some? ==>
      match StringValue(body[Sole(ReturnName, body).value])
      case Err(e) => r == Err(e)
      case Ok(retText) =>
        match codec.load(retText)
        case None => r == Err(YamlError)
        case Some(ret) =>
          if Sole(DocumentationName, body).None? then r == Ok(None)
          else match StringValue(body[Sole(DocumentationName, body).value])
            case Err(e) => r == Err(e)
            case Ok(docText) =>
              match codec.load(docText)
              case None => r == Err(YamlError)
              case Some(doc) =>
                match ShortDescription.DeriveShortDescription(doc, ret, moduleName)
                case Err(e) => r == Err(e)
                case Ok(d) => r == Ok(Some((doc.entries, d)))
  {
    var retrn :- FindAssignment(ReturnName, body);
    if |retrn| != 1 then Ok(None)
    else
      var retText :- StringValue(retrn[0]);
      var retSection :- Load(retText, codec);
      var documentation := FindAssignment(DocumentationName, body).value;
      if |documentation| != 1 then Ok(None)
      else
        var docText :- StringValue(documentation[0]);
        var docSection :- Load(docText, codec);
        var d :- ShortDescription.DeriveShortDescription(docSection, retSection, moduleName);
        Ok(Some((docSection.entries, d)))
  }

  const ShortDescriptionKey := ShortDescription.ShortDescriptionKey

  /** `update_short_description`: the DOCUMENTATION string is replaced by the dump
      of its document with the new short description stored, and only when the
      description changed. RETURN is never written. */
  function UpdateShortDescription(body: seq<Stmt>, moduleName: string, codec: Codec): (r: Result<seq<Stmt>>)
    ensures r.Err? <==> NewShortDescription(body, moduleName, codec).Err?
    ensures r.Err? ==> r.error == NewShortDescription(body, moduleName, codec).error
    ensures r.Ok? ==> OnlyRewrites(body, r.value, {DocumentationName})
    ensures r.Ok? && r.value != body ==>
      && NewShortDescription(body, moduleName, codec).value.Some?
      && var (doc, d) := NewShortDescription(body, moduleName, codec).value.value;
        && Get(doc, ShortDescriptionKey) != Some(d)
        && StringValue(r.value[Sole(DocumentationName, body).value])
             == Ok(codec.dump(Mapping(Put(doc, ShortDescriptionKey, d))))
    ensures NewShortDescription(body, moduleName, codec) == Ok(None) ==> r == Ok(body)
    ensures NewShortDescription(body, moduleName, codec).Ok? && NewShortDescription(body, moduleName, codec).value.Some? ==>
      var (doc, d) := NewShortDescription(body, moduleName, codec).value.value;
      && r.Ok?
      && (Get(doc, ShortDescriptionKey) == Some(d) ==> r.value == body)
      && (Get(doc, ShortDescriptionKey) != Some(d) ==>
            StringValue(r.value[Sole(DocumentationName, body).value])
              == Ok(codec.dump(Mapping(Put(doc, ShortDescriptionKey, d)))))
  {
    var found :- NewShortDescription(body, moduleName, codec);
    match found
    case None => Ok(body)
    case Some((doc, d)) =>
      if Get(doc, ShortDescriptionKey) == Some(d) then Ok(body)
      else
        var j := Sole(DocumentationName, body).value;
        var text := codec.dump(Mapping(Put(doc, ShortDescriptionKey, d)));
        OverwriteOnly(body, j, WithString(body[j], text), DocumentationName);
        Ok(SetString(body, j, text))
  }

  /** A value that `if not module_name` takes for no name. */
  predicate Falsy(name: Node) {
    name == Null || name == Str([]) || name == Seq([]) || name == Mapping([])
  }

  /** `retrieve_module_name` together with the test `if not module_name`: `None`
      when DOCUMENTATION is not found exactly once or names no module (an empty
      or null `module`), so that the file is skipped. */
  function ModuleName(body: seq<Stmt>, codec: Codec): (r: Result<Option<string>>)
    ensures !Searchable(body) ==> r == Err(AttributeError)
    ensures r.Ok? ==> Searchable(body)
    ensures Searchable(body) && Sole(DocumentationName, body).None? ==> r == Ok(None)
    ensures r.Ok? && r.value.Some? ==> r.value.value != []
    ensures Searchable(body) && Sole(DocumentationName, body).Some? ==>
      match StringValue(body[Sole(DocumentationName, body).value])
      case Err(e) => r == Err(e)
      case Ok(text) =>
        match codec.load(text)
        case None => r == Err(YamlError)
        case Some(doc) =>
          if !doc.Mapping? then r == Err(TypeError)
          else match Get(doc.entries, ModuleKey)
            case None => r == Err(KeyError(ModuleKey))
            case Some(name) =>
              && (name.Str? && name.s != [] ==> r == Ok(Some(name.s)))
              && (Falsy(name) ==> r == Ok(None))
              && (!name.Str? && !Falsy(name) ==> r == Err(TypeError))
  {
    var documentation :- FindAssignment(DocumentationName, body);
    if |documentation| != 1 then Ok(None)
    else
      var text :- StringValue(documentation[0]);
      var doc :- Load(text, codec);
      if !doc.Mapping? then Err(TypeError)
      else
        match Get(doc.entries, ModuleKey)
        case None => Err(KeyError(ModuleKey))
        case Some(name) =>
          if Falsy(name) then Ok(None)
          else if name.Str? then Ok(Some(name.s))
          else Err(TypeError)
  }

  /** What became of one file. */
  datatype Status = Skipped | Migrated | Raised(error: Error)

  /** The steps `process` takes for one file, with the statements as they stand
      when it stops: the four rewrites in order, the short description derived
      from the documentation as the documentation rewrite left it. */
  function Migrate(body: seq<Stmt>, collection: string, codec: Codec): (r: (Status, seq<Stmt>))
    ensures r.0 == Skipped <==> ModuleName(body, codec) == Ok(None)
    ensures r.0 == Skipped ==> r.1 == body
    ensures ModuleName(body, codec).Err? ==> r == (Raised(ModuleName(body, codec).error), body)
    ensures r.0 == Migrated <==>
      && ModuleName(body, codec).Ok? && ModuleName(body, codec).value.Some?
      && var name := ModuleName(body, codec).value.value;
        && UpdateMetadata(body).Ok?
        && UpdateDocumentation(UpdateMetadata(body).value, codec).Ok?
        && var b2 := UpdateDocumentation(UpdateMetadata(body).value, codec).value;
          && UpdateShortDescription(b2, name, codec).Ok?
          && UpdateExamples(UpdateShortDescription(b2, name, codec).value, name, collection, codec).Ok?
          && r.1 == UpdateExamples(UpdateShortDescription(b2, name, codec).value, name, collection, codec).value
    ensures ModuleName(body, codec).Ok? && ModuleName(body, codec).value.Some? ==>
      var name := ModuleName(body, codec).value.value;
      && UpdateMetadata(body).Ok?
      && var b1 := UpdateMetadata(body).value;
        match UpdateDocumentation(b1, codec)
        case Err(e) => r == (Raised(e), b1)
        case Ok(b2) =>
          match UpdateShortDescription(b2, name, codec)
          case Err(e) => r == (Raised(e), b2)
          case Ok(b3) =>
            match UpdateExamples(b3, name, collection, codec)
            case Err(e) => r == (Raised(e), b3)
            case Ok(b4) => r == (Migrated, b4)
    ensures OnlyRewrites(body, r.1, {MetadataName, DocumentationName, ExamplesName})
  {
    match ModuleName(body, codec)
    case Err(e) => OnlyRewritesRefl(body); (Raised(e), body)
    case Ok(None) => OnlyRewritesRefl(body); (Skipped, body)
    case Ok(Some(moduleName)) =>
      var b1 := UpdateMetadata(body).value;
      OnlyRewritesKeepsLookup(body, b1, {MetadataName}, DocumentationName);
      match UpdateDocumentation(b1, codec)
      case Err(e) => (Raised(e), b1)
      case Ok(b2) =>
        OnlyRewritesCompose(body, b1, b2, {MetadataName}, {DocumentationName});
        OnlyRewritesKeepsLookup(b1, b2, {DocumentationName}, DocumentationName);
        match UpdateShortDescription(b2, moduleName, codec)
        case Err(e) => (Raised(e), b2)
        case Ok(b3) =>
          OnlyRewritesCompose(body, b2, b3, {MetadataName, DocumentationName}, {DocumentationName});
          match UpdateExamples(b3, moduleName, collection, codec)
          case Err(e) => (Raised(e), b3)
          case Ok(b4) =>
            OnlyRewritesCompose(body, b3, b4, {MetadataName, DocumentationName}, {ExamplesName});
            assert {MetadataName, DocumentationName} + {ExamplesName} == {MetadataName, DocumentationName, ExamplesName};
            (Migrated, b4)
  }

  lemma OnlyRewritesRefl(body: seq<Stmt>)
    ensures OnlyRewrites(body, body, {MetadataName, DocumentationName, ExamplesName})
  {
  }

  /** Whatever happens to a file, its RETURN assignment is never written. */
  lemma MigrateKeepsReturn(body: seq<Stmt>, collection: string, codec: Codec, i: nat)
    requires i < |body| && Defines(body[i], ReturnName)
    ensures Migrate(body, collection, codec).1[i] == body[i]
  {
    var after := Migrate(body, collection, codec).1;
    OnlyRewritesKeeps(body, after, {MetadataName, DocumentationName, ExamplesName}, i, ReturnName);
  }

  /** The short description settles: when the YAML library reads back the
      document it has just dumped, a second update finds the description it
      wrote and writes nothing. */
  lemma UpdateShortDescriptionSettles(body: seq<Stmt>, moduleName: string, codec: Codec)
    requires NewShortDescription(body, moduleName, codec).Ok?
    requires NewShortDescription(body, moduleName, codec).value.Some? ==>
      var (doc, d) := NewShortDescription(body, moduleName, codec).value.value;
      codec.load(codec.dump(Mapping(Put(doc, ShortDescriptionKey, d)))) == Some(Mapping(Put(doc, ShortDescriptionKey, d)))
    ensures var once := UpdateShortDescription(body, moduleName, codec).value;
      UpdateShortDescription(once, moduleName, codec) == Ok(once)
  {
    var once := UpdateShortDescription(body, moduleName, codec).value;
    if once != body {
      var (doc, d) := NewShortDescription(body, moduleName, codec).value.value;
      var doc' := Put(doc, ShortDescriptionKey, d);
      var i := Sole(ReturnName, body).value;
      var j := Sole(DocumentationName, body).value;
      SoleKept(body, once, {DocumentationName}, ReturnName);
      SoleKept(body, once, {DocumentationName}, DocumentationName);
      OnlyRewritesKeeps(body, once, {DocumentationName}, i, ReturnName);
      var ret := codec.load(StringValue(body[i]).value).value;
      ShortDescription.DeriveShortDescriptionStable(doc, ret, moduleName);
      ShortDescription.PutExisting(doc, ShortDescriptionKey, d);
      assert NewShortDescription(once, moduleName, codec) == Ok(Some((doc', d)));
    }
  }
}
