/** A parsed module file whose top-level statements the migration rewrites in
    place: each update overwrites the value of one statement of the tree, as the
    script assigns `bodypart[0].value` and `bodypart[0].value.value`. Each method
    is proved to leave exactly the statements its function in `Updates` computes,
    so every property proved there holds of the tree. */
module SourceTree {
  import opened Wrappers
  import opened Strings
  import opened Yaml
  import opened Syntax
  import Documentation
  import Examples
  import ShortDescription
  import opened Updates

  /** What a rewrite reports: nothing, or the exception it raised. */
  function OutcomeOf(r: Result<seq<Stmt>>): (o: Outcome)
    ensures o.Pass? <==> r.Ok?
  {
    if r.Ok? then Pass else Fail(r.error)
  }

  /** The statements after a rewrite: those it computed, or, when it raised before
      writing anything, those before it. */
  function StateAfter(before: seq<Stmt>, r: Result<seq<Stmt>>): (after: seq<Stmt>)
    ensures r.Err? ==> after == before
  {
    if r.Ok? then r.value else before
  }

  class SourceFile {
    /** The module's top-level statements, in order. */
    var body: seq<Stmt>

    constructor (body: seq<Stmt>)
      ensures this.body == body
    {
      this.body := body;
    }

    /** `update_metdata(find_assigment_in_ast("ANSIBLE_METADATA", ...))` */
    method UpdateMetadata() returns (o: Outcome)
      modifies this
      ensures o == OutcomeOf(Updates.UpdateMetadata(old(body)))
      ensures body == StateAfter(old(body), Updates.UpdateMetadata(old(body)))
    {
      var bodypart := FindAssignment(MetadataName, body);
      if bodypart.Err? {
        return Fail(bodypart.error);
      }
      if |bodypart.value| != 1 {
        return Pass;
      }
      var i := Sole(MetadataName, body).value;
      body := body[i := WithValue(body[i], Metadata)];
      return Pass;
    }

    /** `update_documentation(find_assigment_in_ast("DOCUMENTATION", ...))` */
    method UpdateDocumentation(codec: Codec) returns (o: Outcome)
      modifies this
      ensures o == OutcomeOf(Updates.UpdateDocumentation(old(body), codec))
      ensures body == StateAfter(old(body), Updates.UpdateDocumentation(old(body), codec))
    {
      var bodypart := FindAssignment(DocumentationName, body);
      if bodypart.Err? {
        return Fail(bodypart.error);
      }
      if |bodypart.value| != 1 {
        return Pass;
      }
      var i := Sole(DocumentationName, body).value;
      var text := StringValue(body[i]);
      if text.Err? {
        return Fail(text.error);
      }
      var repl := Documentation.RewriteDocumentation(text.value, codec);
      if repl.Err? {
        return Fail(repl.error);
      }
      body := SetString(body, i, repl.value);
      return Pass;
    }

    /** `update_examples(find_assigment_in_ast("EXAMPLES", ...), module_name, collection)`:
        the dumped lines go into an array that the comment pass rewrites in place. */
    method UpdateExamples(moduleName: string, collection: string, codec: Codec) returns (o: Outcome)
      modifies this
      ensures o == OutcomeOf(Updates.UpdateExamples(old(body), moduleName, collection, codec))
      ensures body == StateAfter(old(body), Updates.UpdateExamples(old(body), moduleName, collection, codec))
    {
      var bodypart := FindAssignment(ExamplesName, body);
      if bodypart.Err? {
        return Fail(bodypart.error);
      }
      if |bodypart.value| != 1 {
        return Pass;
      }
      var i := Sole(ExamplesName, body).value;
      var text := StringValue(body[i]);
      if text.Err? {
        return Fail(text.error);
      }
      var example := Load(text.value, codec);
      if example.Err? {
        return Fail(example.error);
      }
      var renamed := Examples.QualifyTasks(example.value, moduleName, collection);
      if renamed.Err? {
        return Fail(renamed.error);
      }
      var dumped := SplitLines(codec.dump(renamed.value));
      var exampleLines := new string[|dumped|](k requires 0 <= k < |dumped| => dumped[k]);
      assert exampleLines[..] == dumped;
      Examples.QualifyCommentLines(exampleLines, moduleName, collection);
      body := SetString(body, i, JoinLines(exampleLines[..]));
      return Pass;
    }

    /** `update_short_description(RETURN lookup, DOCUMENTATION lookup, module_name)`:
        the description is compared with the one stored, and the DOCUMENTATION
        string is rewritten only when they differ. */
    method UpdateShortDescription(moduleName: string, codec: Codec) returns (o: Outcome)
      modifies this
      ensures o == OutcomeOf(Updates.UpdateShortDescription(old(body), moduleName, codec))
      ensures body == StateAfter(old(body), Updates.UpdateShortDescription(old(body), moduleName, codec))
    {
      var found := NewShortDescription(body, moduleName, codec);
      if found.Err? {
        return Fail(found.error);
      }
      if found.value.None? {
        return Pass;
      }
      var (docSection, shortDescription) := found.value.value;
      if Get(docSection, ShortDescriptionKey) != Some(shortDescription) {
        var j := Sole(DocumentationName, body).value;
        body := SetString(body, j, codec.dump(Mapping(Put(docSection, ShortDescriptionKey, shortDescription))));
      }
      return Pass;
    }

    /** The steps of `process` for one file: find the module name, skip the file
        without one, then run the four updates in order, stopping at the first
        exception. */
    method Migrate(collection: string, codec: Codec) returns (status: Status)
      modifies this
      ensures (status, body) == Updates.Migrate(old(body), collection, codec)
    {
      var moduleName := ModuleName(body, codec);
      if moduleName.Err? {
        return Raised(moduleName.error);
      }
      if moduleName.value.None? {
        return Skipped;
      }
      var name := moduleName.value.value;
      var o := UpdateMetadata();
      o := UpdateDocumentation(codec);
      if o.Fail? {
        return Raised(o.error);
      }
      o := UpdateShortDescription(name, codec);
      if o.Fail? {
        return Raised(o.error);
      }
      o := UpdateExamples(name, collection, codec);
      if o.Fail? {
        return Raised(o.error);
      }
      return Migrated;
    }
  }
}
