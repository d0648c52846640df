/** The top level of a parsed module file, as far as the migration reads it, and the
    assignment lookup `find_assigment_in_ast`.

    Parsing and unparsing are not modelled: a file is its list of top-level
    statements, and the only statements told apart are those that carry
    assignment targets. */
module Syntax {
  import opened Wrappers

  /** An assignment target: a plain name, or anything else (an attribute, a
      subscript, a tuple, a starred name), which has no `id`. */
  datatype Target = Name(id: string) | Unnamed

  /** The right-hand sides the migration reads or writes: a string literal, the
      dictionary display it writes for the metadata, and anything else. */
  datatype Expr =
    | StrConst(s: string)
    | DictConst(keys: seq<string>, values: seq<string>)
    | OtherExpr

  /** A top-level statement. An assignment and a `del` statement carry a non-empty
      list of targets (the first kept apart); no other statement carries any. */
  datatype Stmt =
    | Assign(target: Target, others: seq<Target>, value: Expr)
    | Delete(target: Target, others: seq<Target>)
    | Other

  /** `hasattr(b, "targets")` */
  predicate HasTargets(b: Stmt) {
    b.Assign? || b.Delete?
  }

  /** The lookup can evaluate `b.targets[0].id` for every statement that has targets. */
  predicate Searchable(body: seq<Stmt>) {
    forall i :: 0 <= i < |body| && HasTargets(body[i]) ==> body[i].target.Name?
  }

  /** `hasattr(b, "targets") and b.targets[0].id == name` */
  predicate Defines(b: Stmt, name: string) {
    HasTargets(b) && b.target == Name(name)
  }

  /** The statements of `body` that define `name`, in body order. */
  function Matches(name: string, body: seq<Stmt>): seq<Stmt>
    decreases |body|
  {
    if body == [] then []
    else
      var last := body[|body| - 1];
      Matches(name, body[..|body| - 1]) + (if Defines(last, name) then [last] else [])
  }

  /** The positions in `body` of the statements that define `name`, ascending. */
  function MatchIndices(name: string, body: seq<Stmt>): seq<nat>
    decreases |body|
  {
    if body == [] then []
    else
      MatchIndices(name, body[..|body| - 1]) + (if Defines(body[|body| - 1], name) then [|body| - 1] else [])
  }

  /** `find_assigment_in_ast(name, ast_file)`: the list comprehension over the
      body raises `AttributeError` when some first target has no `id`. */
  function FindAssignment(name: string, body: seq<Stmt>): (r: Result<seq<Stmt>>)
    ensures r.Err? <==> !Searchable(body)
    ensures r.Ok? ==> r.value == Matches(name, body)
    ensures r.Ok? ==> forall b :: b in r.value ==> b in body && Defines(b, name)
  {
    if Searchable(body) then MatchesSound(name, body); Ok(Matches(name, body))
    else Err(AttributeError)
  }

  lemma {:induction false} MatchesSound(name: string, body: seq<Stmt>)
    ensures forall b :: b in Matches(name, body) ==> b in body && Defines(b, name)
    decreases |body|
  {
    if body != [] {
      MatchesSound(name, body[..|body| - 1]);
    }
  }

  /** The lookup is a filter: looking up in two concatenated bodies concatenates the results. */
  lemma {:induction false} MatchesAppend(name: string, a: seq<Stmt>, b: seq<Stmt>)
    ensures Matches(name, a + b) == Matches(name, a) + Matches(name, b)
    decreases |b|
  {
    if b == [] {
      assert a + b == a;
    } else {
      MatchesAppend(name, a, b[..|b| - 1]);
      assert (a + b)[..|a + b| - 1] == a + b[..|b| - 1];
    }
  }

  /** The lookup returns exactly the statements that define `name`, each once and
      in body order: its k-th result is the statement at the k-th matching
      position, the positions ascend, and a position matches exactly when its
      statement defines `name`. */
  lemma {:induction false} MatchesAtIndices(name: string, body: seq<Stmt>)
    ensures |Matches(name, body)| == |MatchIndices(name, body)|
    ensures forall k :: 0 <= k < |MatchIndices(name, body)| ==>
      MatchIndices(name, body)[k] < |body| && Matches(name, body)[k] == body[MatchIndices(name, body)[k]]
    ensures forall k, l :: 0 <= k < l < |MatchIndices(name, body)| ==>
      MatchIndices(name, body)[k] < MatchIndices(name, body)[l]
    ensures forall j :: 0 <= j < |body| ==> (Defines(body[j], name) <==> j in MatchIndices(name, body))
    decreases |body|
  {
    if body != [] {
      var init := body[..|body| - 1];
      MatchesAtIndices(name, init);
      forall j | 0 <= j < |init| ensures body[j] == init[j] { }
    }
  }

  /** Two statements that carry the same targets, so that no lookup tells them
      apart and the unparser prints the same left-hand side. */
  predicate SameTargets(b: Stmt, c: Stmt) {
    HasTargets(b) == HasTargets(c) && (HasTargets(b) ==> b.target == c.target && b.others == c.others)
  }

  /** Overwriting a statement by one with the same targets leaves every lookup's
      positions where they were, and leaves the result of every lookup for a name
      the statement does not define as it was. */
  lemma OverwriteKeepsLookup(body: seq<Stmt>, i: nat, c: Stmt, name: string)
    requires i < |body| && SameTargets(body[i], c)
    ensures Searchable(body[i := c]) == Searchable(body)
    ensures MatchIndices(name, body[i := c]) == MatchIndices(name, body)
    ensures !Defines(body[i], name) ==> Matches(name, body[i := c]) == Matches(name, body)
  {
    OverwriteKeepsSearchable(body, i, c);
    OverwriteKeepsMatches(body, i, c, name);
  }

  lemma OverwriteKeepsSearchable(body: seq<Stmt>, i: nat, c: Stmt)
    requires i < |body| && SameTargets(body[i], c)
    ensures Searchable(body[i := c]) == Searchable(body)
  {
    forall j | 0 <= j < |body| ensures HasTargets(body[i := c][j]) == HasTargets(body[j]) {
    }
  }

  lemma {:induction false} OverwriteKeepsMatches(body: seq<Stmt>, i: nat, c: Stmt, name: string)
    requires i < |body| && SameTargets(body[i], c)
    ensures MatchIndices(name, body[i := c]) == MatchIndices(name, body)
    ensures !Defines(body[i], name) ==> Matches(name, body[i := c]) == Matches(name, body)
    decreases |body|
  {
    var body' := body[i := c];
    if i < |body| - 1 {
      OverwriteKeepsMatches(body[..|body| - 1], i, c, name);
      assert body'[..|body'| - 1] == body[..|body| - 1][i := c];
    } else {
      assert body'[..|body'| - 1] == body[..|body| - 1];
    }
  }


  /** `b.value.value`: the text of a string literal assigned by `b`. Any other
      statement or right-hand side has no such attribute. */
  function StringValue(b: Stmt): (r: Result<string>)
    ensures r.Ok? <==> b.Assign? && b.value.StrConst?
    ensures r.Ok? ==> r.value == b.value.s
    ensures r.Err? ==> r.error == AttributeError
  {
    if b.Assign? && b.value.StrConst? then Ok(b.value.s) else Err(AttributeError)
  }

  /** `b.value.value = text` on an assignment of a string literal. */
  function WithString(b: Stmt, text: string): (r: Stmt)
    requires b.Assign?
    ensures SameTargets(b, r) && StringValue(r) == Ok(text)
    ensures r.others == b.others
  {
    b.(value := StrConst(text))
  }

  /** `b.value = e`. On a `del` statement Python stores an attribute that the
      unparser never prints, so the statement is unchanged. */
  function WithValue(b: Stmt, e: Expr): (r: Stmt)
    ensures SameTargets(b, r)
    ensures b.Assign? ==> r.Assign? && r.value == e && r.others == b.others
    ensures !b.Assign? ==> r == b
  {
    if b.Assign? then b.(value := e) else b
  }
}
