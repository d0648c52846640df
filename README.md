# collection_prep `update.py`, modelled in Dafny

`update.py` gets the modules of an Ansible network collection ready for release
1.0.0. For every module file it finds the module name in the `DOCUMENTATION`
block and then makes four rewrites of the parsed file:

- it replaces `ANSIBLE_METADATA` with a fixed dictionary;
- it moves `version_added` to just after `description` in `DOCUMENTATION`, with
  the value "1.0.0", and drops every dumped line whose leading whitespace is
  immediately followed by `version_added:` and one whitespace character;
- it derives the short description: "<resource> resource module" for a resource
  module, and "(deprecated) " in front for a deprecated one;
- it renames the module to its fully qualified name `collection.module` in the
  keys of every task of `EXAMPLES`, and in every dumped line that starts with `#`,
  names the module and does not already hold the full name.

This project models those rewrites and proves what they promise. The modules are:

- `Wrappers`: Python exceptions as values.
- `Strings`: the `str` operations used.
- `Yaml`: YAML documents as nodes whose mappings are ordered lists of entries.
  The YAML library itself is a parameter.
- `Syntax`: the top-level statements of a parsed file and the assignment lookup.
- `Documentation`, `Examples`, `ShortDescription`: the three text rewrites.
- `Updates`: the four rewrites as functions on the list of statements, and the
  per-file sequence of `process`.
- `SourceTree`: a class holding the statements, whose methods overwrite them in
  place the way the script assigns `bodypart[0].value`.

A Python exception is an `Err` carrying the exception class. A rewrite that
raises leaves the statements as they were before it, and `process` stops at the
first exception.

Two details of the code decide results:

- The deprecation test is `startswith('(deprecated)')`, with no trailing space
  (`update.py:205`), while the prefix added is "(deprecated) ".
- `ios_interfaces` is described as "Interfaces resource module", because the
  special spelling of `interfaces` is "Interfaces" (`update.py:20`).

## Model

| member | source | states |
|---|---|---|
| Strings.Replace | update.py:163 | `str.replace`: every occurrence of the pattern, found left to right without overlap, is replaced; what this does to a line is stated by Strings.ReplaceInserts, ReplaceLength and ReplaceAbsent |
| Strings.ReplaceInserts | update.py:163 | after `line.replace(module_name, full_name)` on a line holding the module name, the line holds the full name |
| Strings.ReplaceLength | update.py:163 | replacing by a longer name never shortens a line, and lengthens it whenever the name occurs |
| Strings.ReplaceAbsent | update.py:163 | a line without the pattern is unchanged by `replace` |
| Strings.Split | update.py:190 | `str.split` on one character gives at least one part; its parts are described by Strings.SplitJoin, SplitWhole and SplitFirst |
| Strings.SplitJoin | update.py:190 | `"_".join(name.split("_"))` is the name again, and no part holds `_` |
| Strings.SplitWhole | update.py:190 | a name without `_` splits into the single part itself |
| Strings.SplitFirst | update.py:190 | the text before the first `_` is the first part, and the rest splits on its own |
| Strings.SplitLines | update.py:122 | `splitlines` (here and on the examples dump at update.py:155) gives lines without line breaks, and is empty exactly for the empty text |
| Strings.Lower | update.py:192 | `str.lower`: the same length, and at each position the character with an ASCII capital made small |
| Strings.Upper | update.py:196 | `str.upper`: the same length, and at each position the character with an ASCII small letter made capital |
| Strings.SplitJoinLines | update.py:122-125 | joining lines without breaks (the last non-empty) with "\n" and splitting again gives the lines back |
| Strings.JoinSplitLines | update.py:122-125 | on text whose only breaks are "\n", splitting then joining with "\n" loses exactly a trailing "\n" |
| Yaml.Load | update.py:109-111 | loading raises exactly where the YAML library rejects the text, and gives its document otherwise |
| Yaml.IndexOf | update.py:114-116 | the position found holds the key and no earlier entry does; none exactly when the key is absent |
| Yaml.Get | update.py:184 | `m[k]` gives a value exactly when `k` is a key (otherwise `KeyError`), and that value is the one stored at the key's position |
| Yaml.RemoveKey | update.py:113 | `pop(k, None)`: what it keeps is stated by Yaml.RemoveKeyHas, RemoveAbsentKey, RemoveKeyAppend and RemoveKeyUnique |
| Yaml.RemoveKeyHas | update.py:113 | `pop("version_added", None)` keeps exactly the other keys |
| Yaml.RemoveAbsentKey | update.py:113 | popping an absent key changes nothing |
| Yaml.RemoveKeyAppend | update.py:113 | popping is a filter: on two concatenated lists it concatenates the results |
| Yaml.RemoveKeyUnique | update.py:113 | popping keeps the keys unique |
| Yaml.Put | update.py:211 | afterwards the key gives the value stored; a present key is overwritten at its position, a new key is appended; every entry under another key stays where it was |
| Yaml.PutUnique | update.py:211 | storing keeps keys unique and adds only its key |
| Yaml.FromPairs | update.py:146-151 | `CommentedMap(pairs)` stores each pair in turn; what the result holds is stated by Yaml.FromUniquePairs and FromPairsKeys |
| Yaml.FromUniquePairs | update.py:146-151 | a mapping built from pairs with distinct keys holds the same entries in the same order |
| Yaml.FromPairsKeys | update.py:146-151 | a mapping built from pairs holds each key once, and exactly the keys of the pairs |
| Syntax.FindAssignment | update.py:55-65 | the lookup raises `AttributeError` exactly when some first target has no name; otherwise it returns the statements whose first target is the name, and every one of them is a statement of the body that defines (assigns or deletes) the name |
| Syntax.Matches | update.py:63-65 | the statements the comprehension keeps, in body order; stated by Syntax.MatchesAtIndices and MatchesAppend |
| Syntax.MatchesAtIndices | update.py:63-65 | the lookup returns exactly the statements that define the name, each once, in body order |
| Syntax.MatchesAppend | update.py:63-65 | looking up in two concatenated bodies concatenates the results |
| Syntax.OverwriteKeepsLookup | update.py:97 | overwriting a statement's value keeps whether the lookup can run and the positions it finds; lookups of other names give the same statements |
| Syntax.StringValue | update.py:110 | `b.value.value` exists exactly for an assignment of a string literal, and is then the literal's text; otherwise `AttributeError` |
| Syntax.WithString | update.py:125 | setting `b.value.value` keeps the targets and makes the literal hold the new text |
| Syntax.WithValue | update.py:97 | setting `b.value` keeps the targets, and replaces the right-hand side of an assignment |
| Documentation.EditDocumentation | update.py:113-118 | the edit raises `IndexError` exactly when the document has no `description` |
| Documentation.EditedDocument | update.py:113-118 | after the edit there is exactly one top-level `version_added`, "1.0.0", right after `description`; without it the document is the original without `version_added` |
| Documentation.EditKeepsKeysUnique | update.py:113-118 | the edit keeps the keys of a document unique |
| Documentation.InsertAfterDescription | update.py:118 | the inserted entry sits right after the first `description`, and popping it again gives the popped document |
| Documentation.IndentIsLeadingSpace | update.py:123 | the indentation is the longest run of leading whitespace |
| Documentation.MatchesPattern | update.py:123-124 | the regular expression read as written: some run of one or more whitespace characters at the start, the tag, one whitespace character, and the rest of the line; equal to the indentation test by Documentation.PatternIsIndentTest |
| Documentation.IsNestedVersionAdded | update.py:123-124 | the indentation is non-empty and is followed by `version_added:`, one whitespace character and the rest of the line; equal to the pattern by Documentation.PatternIsIndentTest |
| Documentation.PatternIsIndentTest | update.py:123-124 | `re.match(r"^\s+version_added\:\s.*$", line)` succeeds exactly when the line's indentation is followed by the tag, one whitespace character and the rest of the line |
| Documentation.UnindentedLineKept | update.py:121-124 | a line without leading whitespace, such as the top-level `version_added`, never matches |
| Documentation.DropNestedVersionAdded | update.py:124 | the comprehension `[l for l in lines if not re.match(regex, l)]`, never longer than its input; what it keeps is stated by Documentation.DropNestedKeeps and DropAppend |
| Documentation.DropNestedKeeps | update.py:124 | the filter keeps exactly the lines that do not match |
| Documentation.DropAppend | update.py:124 | the filter keeps the order of the lines it keeps |
| Documentation.RewriteDocumentation | update.py:109-125 | the rewrite raises exactly when the text does not load (`YamlError`), is a list (`TypeError`) or another non-mapping (`AttributeError`), or has no `description` (`IndexError`); otherwise it is the dump of the edited document, split into lines, without the nested `version_added` lines, joined with "\n" |
| Documentation.RewrittenDocumentationLines | update.py:119-125 | the lines of a rewritten documentation are exactly those dumped lines that do not match the `version_added` pattern, in their order |
| Examples.RenamePairs | update.py:146-151 | every pair keeps its value and position; a key changes only from the module name to the full name |
| Examples.QualifyTask | update.py:146-151 | one task rebuilt as `CommentedMap` of its renamed pairs; stated by Examples.QualifyTaskInPlace and QualifyTaskIdempotent |
| Examples.QualifyTaskInPlace | update.py:146-151 | a task that does not hold both names as keys is renamed in place: same length, same values, only the module-name key renamed |
| Examples.QualifyTaskIdempotent | update.py:146-151 | qualifying a task twice is qualifying it once |
| Examples.QualifyTasks | update.py:145-151 | the task loop succeeds exactly on a list of mappings, an empty mapping or an empty string; it raises `TypeError` on a value that cannot be iterated and `AttributeError` otherwise; a list keeps its length, and each task becomes that task with the module-name key renamed |
| Examples.QualifyTasksIdempotent | update.py:145-151 | a second task loop over qualified tasks changes nothing |
| Examples.QualifyComment | update.py:157-163 | a line changes exactly when it is a comment naming the unqualified module, and then it holds the full name |
| Examples.QualifyCommentIdempotent | update.py:157-163 | a comment line treated once is left alone by a second pass |
| Examples.QualifyComments | update.py:155-163 | the comment pass applied to every line, keeping the number of lines; stated further by Examples.QualifyCommentsProperties |
| Examples.QualifyCommentsProperties | update.py:155-163 | the comment pass keeps the number of lines, changes exactly the lines that need it, and a second pass changes nothing |
| Examples.QualifyCommentLines | update.py:155-163 | the in-place loop leaves in the array exactly the lines of the comment pass |
| Examples.RewriteExamples | update.py:143-164 | the rewrite raises exactly when the text does not load (`YamlError`) or the task loop raises (its exception); otherwise it is the dump of the renamed tasks, split into lines, with the comment pass applied, joined with "\n" |
| ShortDescription.PresentKeys | update.py:187 | the keys kept are exactly the wanted ones present in RETURN |
| ShortDescription.IsResourceModule | update.py:186-188 | `len(match) == len(rm_rets)`; equal to RETURN holding all three keys by ShortDescription.ResourceModuleKeys |
| ShortDescription.ResourceModuleKeys | update.py:186-188 | a module is a resource module exactly when RETURN has `after`, `before` and `commands` |
| ShortDescription.Spelling | update.py:193-196 | the special spelling from `SPECIALS`, otherwise the upper-cased token; by ShortDescription.SpellingIsCaseChange it differs from the token only in letter case |
| ShortDescription.LowerFinalS | update.py:197-200 | a last character that is `s` or `S` becomes `s`, nothing else changes; used by ShortDescription.ResourceName, whose resource part, before the qualifier, never ends in `S` |
| ShortDescription.Qualifier | update.py:201-202 | " " and the third part of the name, when there is one and it is not "global"; stated by ShortDescription.ResourceNameThreeParts |
| ShortDescription.ResourceName | update.py:190-202 | raises `IndexError` exactly when the name has no second part or an empty one; otherwise the resource is the second part with only letter case changed, no final upper-case S, and then the qualifier |
| ShortDescription.ResourceNameTwoParts | update.py:190-200 | a two-part name gives the spelling of its lower-cased second part, with a final s in lower case |
| ShortDescription.ResourceNameThreeParts | update.py:190-202 | the same resource, then the third part after a space unless it is "global" |
| ShortDescription.InterfacesExample | update.py:20 | `ios_interfaces` names the resource "Interfaces" |
| ShortDescription.VlansExample | update.py:192-200 | `ios_vlans` names the resource "VLANs": upper case, then the final S lowered |
| ShortDescription.MixedCaseExample | update.py:192-200 | the second part is lower-cased before it is looked up: `ios_VLANS` also names the resource "VLANs" |
| ShortDescription.NoResourceName | update.py:190-192 | every name without `_` raises `IndexError`, as `parts[1]` does not exist |
| ShortDescription.SpellingIsCaseChange | update.py:193-196 | the spelling of a lower-case token differs from it only in letter case |
| ShortDescription.ResourceDescription | update.py:203 | a resource description ends with " resource module" |
| ShortDescription.MarkDeprecated | update.py:205-207 | raises only for a deprecated module whose description is not a string; a deprecated module's description then starts with "(deprecated)"; the only change is the prefix "(deprecated) " on an unmarked description |
| ShortDescription.MarkDeprecatedIdempotent | update.py:205-207 | marking twice is marking once |
| ShortDescription.DeriveShortDescription | update.py:177-207 | `TypeError` for a document that is not a mapping, `KeyError` without `short_description`, `AttributeError` for a RETURN that is not a mapping; a module that is not a resource module gets its stored description, marked when deprecated; a resource module raises `IndexError` when its name has no resource, and otherwise gets the resource description, marked when deprecated; a deprecated result starts with "(deprecated)" |
| ShortDescription.ResourceNotMarked | update.py:203-205 | a resource description never starts with "(deprecated)" |
| ShortDescription.ResourceModuleDescription | update.py:186-207 | a resource module gets "<resource> resource module", after "(deprecated) " exactly when deprecated, whatever it held before |
| ShortDescription.PutExisting | update.py:211 | storing under a present key keeps every key at its position, makes that key give the new value, and every other key what it gave |
| ShortDescription.DeriveShortDescriptionStable | update.py:184-211 | deriving again from the document with the derived description stored gives the same description |
| Updates.OnlyRewritesCompose | update.py:250-280 | rewrites one after another change only the union of their names |
| Updates.OnlyRewritesKeepsLookup | update.py:63-65 | a rewrite keeps whether a lookup can run and the positions it finds |
| Updates.OnlyRewritesKeeps | update.py:240-281 | a statement defining a name outside those rewritten is unchanged |
| Updates.Sole | update.py:91 | exactly one statement defines the name, at the position found, and no other does |
| Updates.SoleKept | update.py:250-280 | a rewrite keeps the sole definition of every name where it was |
| Updates.OverwriteOnly | update.py:97 | overwriting the value of the statement that defines a name rewrites only that name |
| Updates.UpdateMetadata | update.py:85-97 | raises `AttributeError` exactly when the lookup does; with one `ANSIBLE_METADATA` assignment its value becomes the fixed metadata, and nothing else changes |
| Updates.UpdateMetadataIdempotent | update.py:85-97 | a second metadata update changes nothing |
| Updates.SetString | update.py:125 | only the statement at the position changes, and its literal holds the new text |
| Updates.UpdateDocumentation | update.py:100-125 | with one `DOCUMENTATION` assignment its string becomes the rewritten documentation, or the rewrite's exception is raised; otherwise nothing changes; only `DOCUMENTATION` is ever written |
| Updates.UpdateExamples | update.py:128-164 | with one `EXAMPLES` assignment its string becomes the rewritten examples, or the rewrite's exception is raised; otherwise nothing changes; only `EXAMPLES` is ever written |
| Updates.NewShortDescription | update.py:174-207 | with exactly one RETURN and one DOCUMENTATION, both loaded, the derived description and the document it is derived from; nothing without exactly one RETURN, or when RETURN loads and there is not exactly one DOCUMENTATION; each exception of reading either string, loading it, or deriving is raised |
| Updates.UpdateShortDescription | update.py:167-213 | raises exactly the exception of the derivation; with nothing derived nothing changes; a derived description equal to the stored one changes nothing; otherwise the DOCUMENTATION string becomes the dump of the document with it stored, and nothing else changes |
| Updates.UpdateShortDescriptionSettles | update.py:184-213 | when the YAML library reads back the document it dumped, a second update writes nothing |
| Updates.ModuleName | update.py:68-82 | `AttributeError` from the lookup; no name (the file is skipped) without exactly one DOCUMENTATION; with one, the exceptions of reading and loading it, `TypeError` for a document that is not a mapping, `KeyError` without `module`; a non-empty string is the name, a falsy value means no name |
| Updates.Migrate | update.py:240-281 | a file is skipped exactly when it has no module name, and is then unchanged; an exception while finding the name leaves it unchanged; it is migrated exactly when the metadata, documentation, short description and examples updates, in that order, all succeed, and then it is their result; otherwise the first of them that raises gives the status and the statements as they stood before it; whatever happens only `ANSIBLE_METADATA`, `DOCUMENTATION` and `EXAMPLES` are written |
| Updates.MigrateKeepsReturn | update.py:240-281 | RETURN is never written |
| SourceTree.SourceFile.UpdateMetadata | update.py:85-97 | the statements in place become those of `Updates.UpdateMetadata` |
| SourceTree.SourceFile.UpdateDocumentation | update.py:100-125 | the statements in place become those of `Updates.UpdateDocumentation`, and stay unchanged when it raises |
| SourceTree.SourceFile.UpdateExamples | update.py:128-164 | the comment pass runs in place over an array of lines, and the statements become those of `Updates.UpdateExamples` |
| SourceTree.SourceFile.UpdateShortDescription | update.py:167-213 | the statements in place become those of `Updates.UpdateShortDescription` |
| SourceTree.SourceFile.Migrate | update.py:240-281 | the status and final statements are those of `Updates.Migrate` |

## Left out

- Parsing and unparsing Python source with `astor` (`load_py_as_ast`, `astor.to_source`): a file is its list of top-level statements, and only the statements that carry assignment targets are distinguished.
- The YAML library: `load` and `dump` are a parameter. Comment preservation, round-trip fidelity and the text layout of a dump are not modelled. The only assumption about `load(dump(d))` is stated on `Updates.UpdateShortDescriptionSettles`.
- YAML mapping keys are strings only. Documents with keys of other types are not modelled.
- A loaded mapping that lists a key twice stands for no document the round-trip loader yields, since the loader rejects repeated keys. On such a list `Get` answers with the first entry and `RemoveKey` drops every entry. The contracts that need unique keys require `UniqueKeys`.
- File I/O and the directory walk of `process`: `os.listdir`, the `.py` filter, the `SUBDIRS` loop, and writing the file back with the `LICENSE` header. Also left out: running `black`, the command-line parsing in `main`, and all logging.
- Case mapping (`lower`, `upper`) is modelled for ASCII letters only.
- Syntax.StringValue: a right-hand side that is not a string literal always raises `AttributeError`. In Python, a constant of another type, such as a bytes literal, also has a `.value`, which `ruamel.yaml.load` may accept.
- Updates.ModuleName: a `module` value that is neither a string nor falsy, such as a number or a non-empty list, is modelled as raising `TypeError` at once. In Python it passes `if not module_name`. A module that is not a resource module can then be migrated without error: `format` and `==` accept it, and `module_name in line` runs only on a dumped line starting with `#`, where it raises `TypeError`. A resource module raises `AttributeError` at `module_name.split("_")`. A falsy scalar such as `0` or `false` is also treated as raising rather than skipping.
