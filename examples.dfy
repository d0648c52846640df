/** The rewrite of a module's EXAMPLES block (`update_examples`): in every task a
    key equal to the module name is renamed to the fully qualified name
    `collection.module_name`, and every line of the dumped text that starts with
    `#`, names the module and does not already hold the full name gets the
    module name replaced by the full name. */
module Examples {
  import opened Wrappers
  import opened Strings
  import opened Yaml

  /** `"{collection}.{module_name}"` */
  function FullName(collection: string, moduleName: string): string {
    collection + "." + moduleName
  }

  /** The pairs of a task with the module name key renamed: the list that the
      comprehension over `task.items()` builds. */
  function RenamePairs(task: Entries, moduleName: string, collection: string): (r: Entries)
    ensures |r| == |task|
    ensures forall i :: 0 <= i < |task| ==> r[i].1 == task[i].1
    ensures forall i :: 0 <= i < |task| ==>
      r[i].0 == if task[i].0 == moduleName then FullName(collection, moduleName) else task[i].0
  {
    var full := FullName(collection, moduleName);
    seq(|task|, i requires 0 <= i < |task| => if task[i].0 == moduleName then (full, task[i].1) else task[i])
  }

  /** One task after `CommentedMap(...)` is built from the renamed pairs. */
  function QualifyTask(task: Entries, moduleName: string, collection: string): Entries {
    FromPairs(RenamePairs(task, moduleName, collection))
  }

  /** A task that does not hold both the module name and the full name as keys
      keeps its length and, at every position, its value; the key at a position
      changes only from the module name to the full name. */
  lemma QualifyTaskInPlace(task: Entries, moduleName: string, collection: string)
    requires UniqueKeys(task)
    requires !(HasKey(task, moduleName) && HasKey(task, FullName(collection, moduleName)))
    ensures var r := QualifyTask(task, moduleName, collection);
      && |r| == |task|
      && (forall i :: 0 <= i < |task| ==> r[i].1 == task[i].1)
      && (forall i :: 0 <= i < |task| ==>
            r[i].0 == if task[i].0 == moduleName then FullName(collection, moduleName) else task[i].0)
  {
    var full := FullName(collection, moduleName);
    var pairs := RenamePairs(task, moduleName, collection);
    forall i, j | 0 <= i < j < |pairs| ensures pairs[i].0 != pairs[j].0 {
      if task[i].0 == moduleName {
        assert Keys(task)[j] == task[j].0;
      } else if task[j].0 == moduleName {
        assert Keys(task)[i] == task[i].0;
      }
    }
    FromUniquePairs(pairs);
  }

  /** Qualifying a task a second time changes nothing. */
  lemma QualifyTaskIdempotent(task: Entries, moduleName: string, collection: string)
    ensures QualifyTask(QualifyTask(task, moduleName, collection), moduleName, collection)
         == QualifyTask(task, moduleName, collection)
  {
    var pairs := RenamePairs(task, moduleName, collection);
    var r := FromPairs(pairs);
    FromPairsKeys(pairs);
    assert !HasKey(pairs, moduleName) by {
      forall i | 0 <= i < |pairs| ensures Keys(pairs)[i] != moduleName {
      }
    }
    assert RenamePairs(r, moduleName, collection) == r by {
      forall i | 0 <= i < |r| ensures r[i].0 != moduleName {
        assert Keys(r)[i] == r[i].0;
      }
    }
    FromUniquePairs(r);
  }

  /** The loop `for idx, task in enumerate(example)`: a list of mappings has every
      task qualified; an empty mapping or empty string gives no iteration; any
      other document raises, either because it cannot be iterated (`TypeError`)
      or because what it yields has no `items` (`AttributeError`). */
  function QualifyTasks(example: Node, moduleName: string, collection: string): (r: Result<Node>)
    ensures r.Ok? <==>
      || (example.Seq? && forall i :: 0 <= i < |example.items| ==> example.items[i].Mapping?)
      || example == Mapping([]) || example == Str([])
    ensures r.Ok? && example.Seq? ==>
      r.value.Seq? && |r.value.items| == |example.items|
      && forall i :: 0 <= i < |example.items| ==>
           r.value.items[i] == Mapping(QualifyTask(example.items[i].entries, moduleName, collection))
    ensures r.Ok? && !example.Seq? ==> r.value == example
    ensures r.Err? ==> r.error == if example.Null? || example.Scalar? then TypeError else AttributeError
  {
    match example
    case Seq(tasks) =>
      if forall i :: 0 <= i < |tasks| ==> tasks[i].Mapping? then
        Ok(Seq(seq(|tasks|, i requires 0 <= i < |tasks| && tasks[i].Mapping? =>
          Mapping(QualifyTask(tasks[i].entries, moduleName, collection)))))
      else Err(AttributeError)
    case Mapping(entries) => if entries == [] then Ok(example) else Err(AttributeError)
    case Str(s) => if s == [] then Ok(example) else Err(AttributeError)
    case Null => Err(TypeError)
    case Scalar(_) => Err(TypeError)
  }

  /** The tasks of a qualified document are qualified already: a second run leaves them. */
  lemma QualifyTasksIdempotent(example: Node, moduleName: string, collection: string)
    requires QualifyTasks(example, moduleName, collection).Ok?
    ensures QualifyTasks(QualifyTasks(example, moduleName, collection).value, moduleName, collection)
         == QualifyTasks(example, moduleName, collection)
  {
    if example.Seq? {
      var once := QualifyTasks(example, moduleName, collection).value;
      var twice := QualifyTasks(once, moduleName, collection).value;
      assert |twice.items| == |once.items|;
      forall i | 0 <= i < |example.items| ensures twice.items[i] == once.items[i] {
        var task := example.items[i].entries;
        assert once.items[i] == Mapping(QualifyTask(task, moduleName, collection));
        QualifyTaskIdempotent(task, moduleName, collection);
      }
      assert twice.items == once.items;
    }
  }

  /** The condition of the comment pass: a comment line that names the module (a
      non-empty name) and does not already hold the fully qualified name. */
  predicate NeedsQualifying(line: string, moduleName: string, collection: string) {
    StartsWith(line, "#") && Contains(line, moduleName) && moduleName != []
    && !Contains(line, FullName(collection, moduleName))
  }

  /** One line of the comment pass. The line changes exactly when it needs
      qualifying, and then it holds the fully qualified name. */
  function QualifyComment(line: string, moduleName: string, collection: string): (r: string)
    ensures r != line <==> NeedsQualifying(line, moduleName, collection)
    ensures NeedsQualifying(line, moduleName, collection) ==> Contains(r, FullName(collection, moduleName))
  {
    if NeedsQualifying(line, moduleName, collection) then
      var full := FullName(collection, moduleName);
      ReplaceLength(line, moduleName, full);
      ReplaceInserts(line, moduleName, full);
      Replace(line, moduleName, full)
    else line
  }

  /** A line the comment pass has treated is left alone by a second pass. */
  lemma QualifyCommentIdempotent(line: string, moduleName: string, collection: string)
    ensures QualifyComment(QualifyComment(line, moduleName, collection), moduleName, collection)
         == QualifyComment(line, moduleName, collection)
  {
  }

  /** The comment pass over all lines of the dumped examples. */
  function QualifyComments(lines: seq<string>, moduleName: string, collection: string): (r: seq<string>)
    ensures |r| == |lines|
  {
    seq(|lines|, i requires 0 <= i < |lines| => QualifyComment(lines[i], moduleName, collection))
  }

  /** The comment pass keeps the number of lines, changes only the lines that need
      qualifying, and a second pass changes nothing. */
  lemma QualifyCommentsProperties(lines: seq<string>, moduleName: string, collection: string)
    ensures var r := QualifyComments(lines, moduleName, collection);
      && |r| == |lines|
      && (forall i :: 0 <= i < |lines| ==> (r[i] != lines[i] <==> NeedsQualifying(lines[i], moduleName, collection)))
      && QualifyComments(r, moduleName, collection) == r
  {
    var r := QualifyComments(lines, moduleName, collection);
    forall i | 0 <= i < |lines|
      ensures QualifyComment(r[i], moduleName, collection) == r[i]
    {
      QualifyCommentIdempotent(lines[i], moduleName, collection);
    }
  }

  /** The loop `for idx, line in enumerate(example_lines)` rewriting the lines in place. */
  method QualifyCommentLines(lines: array<string>, moduleName: string, collection: string)
    modifies lines
    ensures lines[..] == QualifyComments(old(lines[..]), moduleName, collection)
  {
    var idx := 0;
    while idx < lines.Length
      invariant 0 <= idx <= lines.Length
      invariant forall j :: 0 <= j < idx ==> lines[j] == QualifyComment(old(lines[j]), moduleName, collection)
      invariant forall j :: idx <= j < lines.Length ==> lines[j] == old(lines[j])
    {
      var line := lines[idx];
      if StartsWith(line, "#") && Contains(line, moduleName) && moduleName != []
        && !Contains(line, FullName(collection, moduleName))
      {
        lines[idx] := Replace(line, moduleName, FullName(collection, moduleName));
      }
      idx := idx + 1;
    }
  }

  /** The new text of the EXAMPLES literal: load, qualify the tasks, dump, split
      into lines, qualify the comment lines, join with "\n". */
  function RewriteExamples(text: string, moduleName: string, collection: string, codec: Codec): (r: Result<string>)
    ensures r.Err? <==> match codec.load(text)
      case None => true
      case Some(example) => QualifyTasks(example, moduleName, collection).Err?
    ensures r.Ok? ==>
      var renamed := QualifyTasks(codec.load(text).value, moduleName, collection).value;
      r.value == JoinLines(QualifyComments(SplitLines(codec.dump(renamed)), moduleName, collection))
    ensures codec.load(text).None? ==> r == Err(YamlError)
    ensures codec.load(text).Some? && QualifyTasks(codec.load(text).value, moduleName, collection).Err? ==>
      r == Err(QualifyTasks(codec.load(text).value, moduleName, collection).error)
  {
    match codec.load(text)
    case None => Err(YamlError)
    case Some(example) =>
      var renamed :- QualifyTasks(example, moduleName, collection);
      Ok(JoinLines(QualifyComments(SplitLines(codec.dump(renamed)), moduleName, collection)))
  }
}
