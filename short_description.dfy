/** The derivation of a module's short description (`update_short_description`):
    a resource module (its RETURN block has `after`, `before` and `commands`) is
    described as "<resource> resource module", with the resource taken from the
    module name; a deprecated module gets the prefix "(deprecated) ". */
module ShortDescription {
  import opened Wrappers
  import opened Strings
  import opened Yaml

  const ShortDescriptionKey := "short_description"
  const DeprecatedKey := "deprecated"
  const DeprecatedPrefix := "(deprecated) "
  const DeprecatedMark := "(deprecated)"
  const ResourceSuffix := " resource module"

  /** Resource tokens whose spelling is not simply the token in upper case. */
  const Specials: map<string, string> :=
    map["ospfv2" := "OSPFv2", "interfaces" := "Interfaces", "static" := "Static"]

  /** The keys whose presence in RETURN marks a resource module. */
  const ResourceReturnKeys: seq<string> := ["after", "before", "commands"]

  /** `[x for x in rm_rets if x in list(ret_section.keys())]` */
  function PresentKeys(wanted: seq<string>, ret: Entries): (r: seq<string>)
    ensures |r| <= |wanted|
    ensures forall x :: x in r <==> x in wanted && HasKey(ret, x)
    decreases |wanted|
  {
    if wanted == [] then []
    else (if HasKey(ret, wanted[0]) then [wanted[0]] else []) + PresentKeys(wanted[1..], ret)
  }

  /** `len(match) == len(rm_rets)`: RETURN holds every one of the three keys. */
  predicate IsResourceModule(ret: Entries) {
    |PresentKeys(ResourceReturnKeys, ret)| == |ResourceReturnKeys|
  }

  lemma ResourceModuleKeys(ret: Entries)
    ensures IsResourceModule(ret) <==> HasKey(ret, "after") && HasKey(ret, "before") && HasKey(ret, "commands")
  {
    var w := ResourceReturnKeys;
    assert w[1..] == ["before", "commands"] && w[1..][1..] == ["commands"] && w[1..][1..][1..] == [];
  }

  /** The resource token in the spelling the description uses: the special
      spelling if there is one, otherwise the token in upper case. */
  function Spelling(token: string): string {
    if token in Specials then Specials[token] else Upper(token)
  }

  /** The spelling with a final `s` or `S` in lower case. */
  function LowerFinalS(name: string): (r: string)
    requires name != []
  {
    var last := name[|name| - 1];
    if LowerChar(last) == 's' then name[..|name| - 1] + [LowerChar(last)] else name
  }

  /** `" " + parts[2]` when there is a third part of the name other than "global". */
  function Qualifier(parts: seq<string>): string {
    if |parts| > 2 && parts[2] != "global" then " " + parts[2] else ""
  }

  /** The resource named by a module name: its second `_`-separated part, spelt as
      above, with a final s in lower case and the third part appended. A name
      without a second part, or with an empty one, raises `IndexError`. */
  function ResourceName(moduleName: string): (r: Result<string>)
    ensures var parts := Split(moduleName, '_');
      r.Err? <==> |parts| < 2 || parts[1] == []
    ensures r.Err? ==> r.error == IndexError
    ensures r.Ok? ==>
      var parts := Split(moduleName, '_');
      var token := Lower(parts[1]);
      && |token| <= |r.value|
      && Lower(r.value[..|token|]) == token
      && r.value[|token| - 1] != 'S'
      && r.value[|token|..] == Qualifier(parts)
  {
    var parts := Split(moduleName, '_');
    if |parts| < 2 then Err(IndexError)
    else
      var token := Lower(parts[1]);
      var name := Spelling(token);
      if name == [] then Err(IndexError)
      else
        SpellingIsCaseChange(token);
        var resource := LowerFinalS(name);
        assert Lower(resource) == Lower(name);
        Ok(resource + Qualifier(parts))
  }

  /** A name of two parts names the spelling of its second part in lower case,
      with a final s in lower case. */
  lemma ResourceNameTwoParts(first: string, second: string)
    requires '_' !in first && '_' !in second && second != []
    ensures ResourceName(first + "_" + second) == Ok(LowerFinalS(Spelling(Lower(second))))
  {
    SplitFirst(first, '_', second);
    SplitWhole(second, '_');
    var parts := Split(first + "_" + second, '_');
    assert parts == [first, second];
    SpellingIsCaseChange(Lower(second));
    var name := LowerFinalS(Spelling(Lower(second)));
    assert name + Qualifier(parts) == name;
  }

  /** A name of three or more parts appends its third part, unless that is "global". */
  lemma ResourceNameThreeParts(first: string, second: string, rest: string)
    requires '_' !in first && '_' !in second && second != []
    ensures var third := Split(rest, '_')[0];
      ResourceName(first + "_" + second + "_" + rest)
        == Ok(LowerFinalS(Spelling(Lower(second))) + (if third != "global" then " " + third else ""))
  {
    assert first + "_" + second + "_" + rest == first + "_" + (second + "_" + rest);
    SplitFirst(first, '_', second + "_" + rest);
    SplitFirst(second, '_', rest);
    SpellingIsCaseChange(Lower(second));
  }

  /** "ios_interfaces" names "Interfaces", the special spelling. */
  lemma InterfacesExample(moduleName: string)
    requires moduleName == "ios_interfaces"
    ensures ResourceName(moduleName) == Ok("Interfaces")
  {
    var first, second := "ios", "interfaces";
    assert Lower(second) == second;
    assert '_' !in first && '_' !in second;
    assert Spelling(second) == "Interfaces";
    assert LowerFinalS("Interfaces") == "Interfaces";
    assert moduleName == first + "_" + second;
    ResourceNameTwoParts(first, second);
  }

  /** "ios_vlans" names "VLANs": the token in upper case, its final S in lower case. */
  lemma VlansExample(moduleName: string)
    requires moduleName == "ios_vlans"
    ensures ResourceName(moduleName) == Ok("VLANs")
  {
    var first, second := "ios", "vlans";
    assert Lower(second) == second;
    assert '_' !in first && '_' !in second;
    assert second !in Specials;
    assert Upper(second) == "VLANS";
    assert LowerFinalS("VLANS") == "VLANs";
    assert moduleName == first + "_" + second;
    ResourceNameTwoParts(first, second);
  }

  /** "ios_VLANS" names "VLANs" too: the token is lowered before it is spelt. */
  lemma MixedCaseExample(moduleName: string)
    requires moduleName == "ios_VLANS"
    ensures ResourceName(moduleName) == Ok("VLANs")
  {
    var first, second := "ios", "VLANS";
    assert Lower(second) == "vlans";
    assert '_' !in first && '_' !in second;
    assert "vlans" !in Specials;
    assert Upper("vlans") == "VLANS";
    assert LowerFinalS("VLANS") == "VLANs";
    assert moduleName == first + "_" + second;
    ResourceNameTwoParts(first, second);
  }

  /** A name without `_` has no second part: `parts[1]` raises. */
  lemma NoResourceName(moduleName: string)
    requires '_' !in moduleName
    ensures ResourceName(moduleName) == Err(IndexError)
  {
    SplitWhole(moduleName, '_');
  }

  lemma LowerUpperLower(s: string)
    ensures Lower(Upper(Lower(s))) == Lower(s)
  {
  }

  /** The spelling of a lower-case token differs from it only in letter case. */
  lemma SpellingIsCaseChange(token: string)
    requires token == Lower(token)
    ensures |Spelling(token)| == |token| && Lower(Spelling(token)) == token
  {
    if token !in Specials {
      LowerUpperLower(token);
    }
  }

  /** The description of a resource module. */
  function ResourceDescription(moduleName: string): (r: Result<Node>)
    ensures r.Ok? ==> r.value.Str? && |r.value.s| > |ResourceSuffix|
    ensures r.Ok? ==> r.value.s[|r.value.s| - |ResourceSuffix|..] == ResourceSuffix
  {
    var resource :- ResourceName(moduleName);
    var s := resource + ResourceSuffix;
    assert s[|s| - |ResourceSuffix|..] == ResourceSuffix;
    Ok(Str(s))
  }

  /** The deprecation rule: a deprecated module's description that does not start
      with "(deprecated)" gets the prefix "(deprecated) ". Only a string has
      `startswith`; any other value raises. */
  function MarkDeprecated(description: Node, deprecated: bool): (r: Result<Node>)
    ensures r.Err? <==> deprecated && !description.Str?
    ensures r.Ok? && deprecated ==> r.value.Str? && StartsWith(r.value.s, DeprecatedMark)
    ensures r.Ok? && r.value != description ==>
      deprecated && !StartsWith(description.s, DeprecatedMark) && r.value.s == DeprecatedPrefix + description.s
  {
    if !deprecated then Ok(description)
    else if !description.Str? then Err(AttributeError)
    else if StartsWith(description.s, DeprecatedMark) then Ok(description)
    else
      assert (DeprecatedPrefix + description.s)[..|DeprecatedMark|] == DeprecatedMark;
      Ok(Str(DeprecatedPrefix + description.s))
  }

  /** Applying the deprecation rule twice is applying it once. */
  lemma MarkDeprecatedIdempotent(description: Node, deprecated: bool)
    requires MarkDeprecated(description, deprecated).Ok?
    ensures MarkDeprecated(MarkDeprecated(description, deprecated).value, deprecated)
         == MarkDeprecated(description, deprecated)
  {
  }

  /** The short description the DOCUMENTATION document should hold. Reading
      `doc['short_description']` raises `TypeError` on a document that is not a
      mapping and `KeyError` when the key is missing; `ret_section.keys()` raises
      `AttributeError` on a RETURN document that is not a mapping. */
  function DeriveShortDescription(doc: Node, ret: Node, moduleName: string): (r: Result<Node>)
    ensures !doc.Mapping? ==> r == Err(TypeError)
    ensures doc.Mapping? && !HasKey(doc.entries, ShortDescriptionKey) ==> r == Err(KeyError(ShortDescriptionKey))
    ensures doc.Mapping? && HasKey(doc.entries, ShortDescriptionKey) && !ret.Mapping? ==> r == Err(AttributeError)
    ensures r.Ok? ==> doc.Mapping? && ret.Mapping? && HasKey(doc.entries, ShortDescriptionKey)
    ensures r.Ok? && HasKey(doc.entries, DeprecatedKey) ==> r.value.Str? && StartsWith(r.value.s, DeprecatedMark)
    ensures r.Ok? && !IsResourceModule(ret.entries) && !HasKey(doc.entries, DeprecatedKey) ==>
      Some(r.value) == Get(doc.entries, ShortDescriptionKey)
    ensures doc.Mapping? && HasKey(doc.entries, ShortDescriptionKey) && ret.Mapping? && !IsResourceModule(ret.entries) ==>
      r == MarkDeprecated(Get(doc.entries, ShortDescriptionKey).value, HasKey(doc.entries, DeprecatedKey))
    ensures doc.Mapping? && HasKey(doc.entries, ShortDescriptionKey) && ret.Mapping? && IsResourceModule(ret.entries) ==>
      if ResourceName(moduleName).Err? then r == Err(IndexError)
      else r == MarkDeprecated(Str(ResourceName(moduleName).value + ResourceSuffix), HasKey(doc.entries, DeprecatedKey))
  {
    if !doc.Mapping? then Err(TypeError)
    else match Get(doc.entries, ShortDescriptionKey)
      case None => Err(KeyError(ShortDescriptionKey))
      case Some(current) =>
        if !ret.Mapping? then Err(AttributeError)
        else
          var description :- if IsResourceModule(ret.entries) then ResourceDescription(moduleName) else Ok(current);
          MarkDeprecated(description, HasKey(doc.entries, DeprecatedKey))
  }

  /** A resource description never starts with "(deprecated)": its second
      character is an upper-case letter, a special spelling's second letter, a
      final lower-case s, or a space. */
  lemma ResourceNotMarked(moduleName: string)
    requires ResourceName(moduleName).Ok?
    ensures !StartsWith(ResourceName(moduleName).value + ResourceSuffix, DeprecatedMark)
  {
    var parts := Split(moduleName, '_');
    var token := Lower(parts[1]);
    var name := Spelling(token);
    SpellingIsCaseChange(token);
    var d := ResourceName(moduleName).value + ResourceSuffix;
    assert d == LowerFinalS(name) + Qualifier(parts) + ResourceSuffix;
    if |token| >= 2 {
      assert d[1] == LowerFinalS(name)[1];
      if token in Specials {
        assert token == "ospfv2" || token == "interfaces" || token == "static";
      }
      assert d[1] != 'd';
    } else {
      assert d[1] == ' ';
    }
  }

  /** For a resource module whose name has a resource part the short description
      is "<resource> resource module", after "(deprecated) " when the documentation
      has a `deprecated` key; whatever it was before does not matter. */
  lemma ResourceModuleDescription(doc: Entries, ret: Entries, moduleName: string)
    requires HasKey(doc, ShortDescriptionKey) && IsResourceModule(ret)
    requires ResourceName(moduleName).Ok?
    ensures DeriveShortDescription(Mapping(doc), Mapping(ret), moduleName)
         == Ok(Str((if HasKey(doc, DeprecatedKey) then DeprecatedPrefix else "")
                   + ResourceName(moduleName).value + ResourceSuffix))
  {
    var r := ResourceName(moduleName).value;
    var prefix := if HasKey(doc, DeprecatedKey) then DeprecatedPrefix else "";
    ResourceNotMarked(moduleName);
    MarkUnmarked(r + ResourceSuffix, HasKey(doc, DeprecatedKey));
    assert prefix + r + ResourceSuffix == prefix + (r + ResourceSuffix);
  }

  /** A description not yet marked gets the prefix exactly when the module is deprecated. */
  lemma MarkUnmarked(d: string, deprecated: bool)
    requires !StartsWith(d, DeprecatedMark)
    ensures MarkDeprecated(Str(d), deprecated) == Ok(Str((if deprecated then DeprecatedPrefix else "") + d))
  {
    if !deprecated {
      assert [] + d == d;
    }
  }

  /** Storing a value under a key present keeps every key at its position, makes
      the key give that value, and lets every other key give what it gave. */
  lemma PutExisting(m: Entries, k: string, v: Node)
    requires HasKey(m, k)
    ensures Keys(Put(m, k, v)) == Keys(m)
    ensures forall key :: HasKey(Put(m, k, v), key) <==> HasKey(m, key)
    ensures Get(Put(m, k, v), k) == Some(v)
    ensures forall key :: key != k ==> Get(Put(m, k, v), key) == Get(m, key)
  {
    var r := Put(m, k, v);
    assert Keys(r) == Keys(m);
    forall key | key != k ensures Get(r, key) == Get(m, key) {
      if HasKey(m, key) {
        var i := IndexOf(m, key).value;
        forall j | 0 <= j < i ensures r[j].0 != key {
          assert Keys(r)[j] == Keys(m)[j];
        }
        IndexOfFirst(r, key, i);
      }
    }
  }

  /** The rewrite settles: once the derived description is stored, deriving it
      again from the same RETURN document gives the same description, so a second
      run writes nothing. */
  lemma DeriveShortDescriptionStable(doc: Entries, ret: Node, moduleName: string)
    requires DeriveShortDescription(Mapping(doc), ret, moduleName).Ok?
    ensures var d := DeriveShortDescription(Mapping(doc), ret, moduleName).value;
      DeriveShortDescription(Mapping(Put(doc, ShortDescriptionKey, d)), ret, moduleName) == Ok(d)
  {
    var d := DeriveShortDescription(Mapping(doc), ret, moduleName).value;
    PutExisting(doc, ShortDescriptionKey, d);
    var doc' := Put(doc, ShortDescriptionKey, d);
    assert HasKey(doc', DeprecatedKey) == HasKey(doc, DeprecatedKey);
    if !IsResourceModule(ret.entries) {
      var current := Get(doc, ShortDescriptionKey).value;
      MarkDeprecatedIdempotent(current, HasKey(doc, DeprecatedKey));
    }
  }
}
