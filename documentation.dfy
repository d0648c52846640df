/** The rewrite of a module's DOCUMENTATION block (`update_documentation`):
    the top-level `version_added` moves to just after `description` with the
    value "1.0.0", and every line of the dumped text whose leading whitespace is
    immediately followed by `version_added:` and one whitespace character is
    dropped. */
module Documentation {
  import opened Wrappers
  import opened Strings
  import opened Yaml

  const Description := "description"
  const VersionAdded := "version_added"
  const InitialVersion := "1.0.0"

  /** The entry inserted after the description. */
  const VersionEntry: (string, Node) := (VersionAdded, Str(InitialVersion))

  /** The edit of the decoded document: pop `version_added`, find the positions of
      `description`, insert `version_added: 1.0.0` after the first. Without a
      `description` the list of its positions is empty and indexing it raises. */
  function EditDocumentation(doc: Entries): (r: Result<Entries>)
    ensures r.Err? <==> !HasKey(doc, Description)
    ensures r.Err? ==> r.error == IndexError
  {
    var popped := RemoveKey(doc, VersionAdded);
    RemoveKeyHas(doc, VersionAdded, Description);
    match IndexOf(popped, Description)
    case None => Err(IndexError)
    case Some(i) => Ok(popped[..i + 1] + [VersionEntry] + popped[i + 1..])
  }

  lemma InsertFreshUnique(m: Entries, i: nat, e: (string, Node))
    requires UniqueKeys(m) && !HasKey(m, e.0) && i <= |m|
    ensures UniqueKeys(m[..i] + [e] + m[i..])
  {
    var r := m[..i] + [e] + m[i..];
    forall a, b | 0 <= a < b < |r| ensures r[a].0 != r[b].0 {
      if a < i && b > i {
        assert r[a] == m[a] && r[b] == m[b - 1];
      } else if a > i {
        assert r[a] == m[a - 1] && r[b] == m[b - 1];
      } else if a == i {
        assert Keys(m)[b - 1] == r[b].0;
      } else if b == i {
        assert Keys(m)[a] == r[a].0;
      }
    }
  }

  /** Inserting an entry whose key occurs nowhere else, then removing that key,
      gives back the entries around it. */
  lemma {:induction false} RemoveInserted(before: Entries, after: Entries, e: (string, Node))
    requires !HasKey(before, e.0) && !HasKey(after, e.0)
    ensures RemoveKey(before + [e] + after, e.0) == before + after
  {
    var k := e.0;
    var left := before + [e];
    RemoveKeyAppend(left, after, k);
    RemoveKeyAppend(before, [e], k);
    RemoveAbsentKey(before, k);
    RemoveAbsentKey(after, k);
    assert RemoveKey([e], k) == [] by {
      assert [e][1..] == [];
    }
    assert RemoveKey(left, k) == before;
  }

  /** A prefix and a suffix of entries without `k` have no `k`. */
  lemma SplitWithoutKey(m: Entries, i: nat, k: string)
    requires i <= |m| && !HasKey(m, k)
    ensures !HasKey(m[..i], k) && !HasKey(m[i..], k)
  {
    assert Keys(m[..i]) == Keys(m)[..i];
    assert Keys(m[i..]) == Keys(m)[i..];
  }

  /** The edit of a document with a description, spelt out. */
  lemma EditDocumentationIs(doc: Entries)
    requires HasKey(doc, Description)
    ensures var popped := RemoveKey(doc, VersionAdded);
      && !HasKey(popped, VersionAdded)
      && IndexOf(popped, Description).Some?
      && var i := IndexOf(popped, Description).value;
        EditDocumentation(doc) == Ok(popped[..i + 1] + [VersionEntry] + popped[i + 1..])
  {
    RemoveKeyHas(doc, VersionAdded, Description);
    RemoveKeyHas(doc, VersionAdded, VersionAdded);
  }

  /** On a document with a description the edit leaves exactly one top-level
      `version_added`, with value "1.0.0", right after `description`; without it
      every entry keeps its value and relative order. */
  lemma EditedDocument(doc: Entries)
    requires HasKey(doc, Description)
    ensures EditDocumentation(doc).Ok?
    ensures var r := EditDocumentation(doc).value;
      && RemoveKey(r, VersionAdded) == RemoveKey(doc, VersionAdded)
      && |r| == |RemoveKey(r, VersionAdded)| + 1
      && IndexOf(r, Description).Some?
      && IndexOf(r, Description).value + 1 < |r|
      && r[IndexOf(r, Description).value + 1] == VersionEntry
  {
    EditDocumentationIs(doc);
    var popped := RemoveKey(doc, VersionAdded);
    var i := IndexOf(popped, Description).value;
    var r := popped[..i + 1] + [VersionEntry] + popped[i + 1..];
    InsertAfterDescription(popped, i, r);
  }

  /** The edit keeps the keys of a document unique. */
  lemma EditKeepsKeysUnique(doc: Entries)
    requires HasKey(doc, Description) && UniqueKeys(doc)
    ensures EditDocumentation(doc).Ok? && UniqueKeys(EditDocumentation(doc).value)
  {
    EditDocumentationIs(doc);
    var popped := RemoveKey(doc, VersionAdded);
    var i := IndexOf(popped, Description).value;
    RemoveKeyUnique(doc, VersionAdded);
    InsertAfterDescription(popped, i, popped[..i + 1] + [VersionEntry] + popped[i + 1..]);
  }

  /** Inserting the entry after the description of entries without `version_added`. */
  lemma InsertAfterDescription(popped: Entries, i: nat, r: Entries)
    requires IndexOf(popped, Description) == Some(i) && !HasKey(popped, VersionAdded)
    requires r == popped[..i + 1] + [VersionEntry] + popped[i + 1..]
    ensures RemoveKey(r, VersionAdded) == popped
    ensures IndexOf(r, Description) == Some(i) && r[i + 1] == VersionEntry
    ensures UniqueKeys(popped) ==> UniqueKeys(r)
  {
    var before, after := popped[..i + 1], popped[i + 1..];
    SplitWithoutKey(popped, i + 1, VersionAdded);
    RemoveInserted(before, after, VersionEntry);
    assert before + after == popped;
    DescriptionStays(popped, i, r);
    if UniqueKeys(popped) {
      InsertFreshUnique(popped, i + 1, VersionEntry);
    }
  }

  lemma DescriptionStays(popped: Entries, i: nat, r: Entries)
    requires IndexOf(popped, Description) == Some(i)
    requires r == popped[..i + 1] + [VersionEntry] + popped[i + 1..]
    ensures IndexOf(r, Description) == Some(i)
  {
    assert r[i] == popped[i];
    forall j | 0 <= j < i ensures r[j].0 != Description {
      assert r[j] == popped[j];
    }
    IndexOfFirst(r, Description, i);
  }

  /** The number of leading whitespace characters of a line. */
  function Indent(line: string): (n: nat)
    ensures n <= |line|
    decreases |line|
  {
    if line == [] || !IsSpace(line[0]) then 0 else 1 + Indent(line[1..])
  }

  /** The indentation is the longest run of leading whitespace. */
  lemma {:induction false} IndentIsLeadingSpace(line: string)
    ensures forall j :: 0 <= j < Indent(line) ==> IsSpace(line[j])
    ensures Indent(line) < |line| ==> !IsSpace(line[Indent(line)])
    decreases |line|
  {
    if line != [] && IsSpace(line[0]) {
      IndentIsLeadingSpace(line[1..]);
    }
  }

  const Tag := "version_added:"

  /** What may follow the whitespace after the tag for `.*$` to match: anything in
      which a newline, if any, is the last character. */
  predicate RestOfLine(rest: string) {
    forall j :: 0 <= j < |rest| - 1 ==> rest[j] != '\n'
  }

  /** The pattern matches with a whitespace run of length `k`. */
  predicate MatchesAt(line: string, k: nat) {
    1 <= k && k + |Tag| + 1 <= |line|
    && (forall j :: 0 <= j < k ==> IsSpace(line[j]))
    && line[k..k + |Tag|] == Tag
    && IsSpace(line[k + |Tag|])
    && RestOfLine(line[k + |Tag| + 1..])
  }

  /** `re.match(r"^\s+version_added\:\s.*$", line)` succeeds: one or more
      whitespace characters, the tag, one whitespace character, the rest. */
  ghost predicate MatchesPattern(line: string) {
    exists k: nat :: MatchesAt(line, k)
  }

  /** The same test as the regular expression engine settles it: the whitespace run
      must be the whole indentation, since the tag does not start with whitespace. */
  predicate IsNestedVersionAdded(line: string) {
    var n := Indent(line);
    1 <= n && n + |Tag| + 1 <= |line|
    && line[n..n + |Tag|] == Tag
    && IsSpace(line[n + |Tag|])
    && RestOfLine(line[n + |Tag| + 1..])
  }

  /** The indentation test agrees with the regular expression on every line. */
  lemma {:induction false} PatternIsIndentTest(line: string)
    ensures MatchesPattern(line) <==> IsNestedVersionAdded(line)
  {
    var n := Indent(line);
    IndentIsLeadingSpace(line);
    if IsNestedVersionAdded(line) {
      assert MatchesAt(line, n);
    }
    if MatchesPattern(line) {
      var k: nat :| MatchesAt(line, k);
      assert line[k] == 'v' by {
        assert line[k..k + |Tag|][0] == Tag[0];
      }
      assert n == k;
    }
  }

  /** A line that does not start with whitespace, such as the top-level
      `version_added: 1.0.0`, never matches the pattern. */
  lemma UnindentedLineKept(line: string)
    requires line == [] || !IsSpace(line[0])
    ensures !MatchesPattern(line)
  {
    PatternIsIndentTest(line);
  }

  /** The list comprehension that drops every line matching the pattern. */
  function DropNestedVersionAdded(lines: seq<string>): (r: seq<string>)
    ensures |r| <= |lines|
    decreases |lines|
  {
    if lines == [] then []
    else Kept(lines[0]) + DropNestedVersionAdded(lines[1..])
  }

  /** What the filter keeps of one line. */
  function Kept(line: string): seq<string> {
    if IsNestedVersionAdded(line) then [] else [line]
  }

  /** The filter keeps exactly the lines that do not match. */
  lemma {:induction false} DropNestedKeeps(lines: seq<string>)
    ensures forall l :: l in DropNestedVersionAdded(lines) <==> l in lines && !IsNestedVersionAdded(l)
    decreases |lines|
  {
    if lines != [] {
      DropNestedKeeps(lines[1..]);
      assert lines == [lines[0]] + lines[1..];
    }
  }

  lemma DropCons(line: string, rest: seq<string>)
    ensures DropNestedVersionAdded([line] + rest) == Kept(line) + DropNestedVersionAdded(rest)
  {
    assert ([line] + rest)[1..] == rest;
  }

  /** The filter keeps the order of the lines it keeps: filtering two blocks of lines
      one after the other is filtering their concatenation. */
  lemma {:induction false} DropAppend(a: seq<string>, b: seq<string>)
    ensures DropNestedVersionAdded(a + b) == DropNestedVersionAdded(a) + DropNestedVersionAdded(b)
    decreases |a|
  {
    if a == [] {
      assert a + b == b;
    } else {
      DropAppend(a[1..], b);
      assert a == [a[0]] + a[1..];
      DropAppendStep(a[0], a[1..], b);
    }
  }

  lemma DropAppendStep(line: string, rest: seq<string>, b: seq<string>)
    requires DropNestedVersionAdded(rest + b) == DropNestedVersionAdded(rest) + DropNestedVersionAdded(b)
    ensures DropNestedVersionAdded([line] + rest + b) == DropNestedVersionAdded([line] + rest) + DropNestedVersionAdded(b)
  {
    DropConsAppend(line, rest, b);
    DropCons(line, rest);
    AppendAssoc(Kept(line), DropNestedVersionAdded(rest), DropNestedVersionAdded(b));
  }

  lemma DropConsAppend(line: string, rest: seq<string>, b: seq<string>)
    ensures DropNestedVersionAdded([line] + rest + b) == Kept(line) + DropNestedVersionAdded(rest + b)
  {
    assert [line] + rest + b == [line] + (rest + b);
    DropCons(line, rest + b);
  }

  /** Concatenation is associative; a lemma of its own so that the step above is
      proved without the filter's definition in view. */
  lemma AppendAssoc(a: seq<string>, b: seq<string>, c: seq<string>)
    ensures a + (b + c) == (a + b) + c
  {
  }

  /** The new text of the DOCUMENTATION literal: load, edit, dump, split into lines,
      drop the nested `version_added` lines, join with "\n". Raises when the text
      does not load, does not hold a mapping (`pop` on a list raises `TypeError`,
      on any other value `AttributeError`) or has no `description`. */
  function RewriteDocumentation(text: string, codec: Codec): (r: Result<string>)
    ensures r.Err? <==> match codec.load(text)
      case None => true
      case Some(doc) => !doc.Mapping? || !HasKey(doc.entries, Description)
    ensures r.Ok? ==>
      var edited := EditDocumentation(codec.load(text).value.entries).value;
      r.value == JoinLines(DropNestedVersionAdded(SplitLines(codec.dump(Mapping(edited)))))
    ensures r.Err? ==> r.error == match codec.load(text)
      case None => YamlError
      case Some(doc) => if doc.Seq? then TypeError else if !doc.Mapping? then AttributeError else IndexError
  {
    match codec.load(text)
    case None => Err(YamlError)
    case Some(doc) =>
      if doc.Seq? then Err(TypeError)
      else if !doc.Mapping? then Err(AttributeError)
      else
        var edited :- EditDocumentation(doc.entries);
        Ok(JoinLines(DropNestedVersionAdded(SplitLines(codec.dump(Mapping(edited))))))
  }

  /** The rewritten documentation is the dump of the edited document, split into
      lines, without exactly the lines the pattern matches, joined with "\n". */
  lemma RewrittenDocumentationLines(text: string, codec: Codec)
    requires RewriteDocumentation(text, codec).Ok?
    ensures var edited := EditDocumentation(codec.load(text).value.entries).value;
      var dumped := SplitLines(codec.dump(Mapping(edited)));
      var kept := DropNestedVersionAdded(dumped);
      && RewriteDocumentation(text, codec).value == JoinLines(kept)
      && forall l :: l in kept <==> l in dumped && !MatchesPattern(l)
  {
    var edited := EditDocumentation(codec.load(text).value.entries).value;
    var dumped := SplitLines(codec.dump(Mapping(edited)));
    DropNestedKeeps(dumped);
    forall l ensures MatchesPattern(l) <==> IsNestedVersionAdded(l) {
      PatternIsIndentTest(l);
    }
  }
}
