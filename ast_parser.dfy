/** The condition compiler: walks an already-parsed SpEL expression tree and
    turns it into a list of typed filter conditions, or a typed parse error. */
module AstParser {

  /** A nullable Kotlin value (`String?`). */
  datatype Option<+T> = None | Some(value: T)

  /** Arrow's `Either<ParseError, T>`: `Left` is the error side, `Right` the value. */
  datatype Either<+T> = Left(error: ParseError) | Right(value: T)

  /** `ParseError` and its two subclasses. */
  datatype ParseError = UnsupportedConditionError | UnsupportedExpressionError

  /** The part of the SpEL node hierarchy the compiler looks at; every other
      node class (other operators, other literals, method calls, ...) is `OtherNode`. */
  datatype SpelNode =
    | OpEQ(leftOperand: SpelNode, rightOperand: SpelNode)
    | OpAnd(leftOperand: SpelNode, rightOperand: SpelNode)
    | PropertyOrFieldReference(name: string)
    | StringLiteral(originalValue: Option<string>)
    | OtherNode

  /** The four subclasses of the sealed class `Condition`, each carrying `name`. */
  datatype Condition =
    | JobCondition(name: string)
    | DeploymentCondition(name: string)
    | MetricCondition(name: string)
    | OriginCondition(name: string)

  /** The runtime class of a condition: all that its `equals` and `hashCode` look at. */
  datatype Kind = Job | Deployment | Metric | Origin

  function KindOf(c: Condition): Kind
  {
    match c
    case JobCondition(_) => Job
    case DeploymentCondition(_) => Deployment
    case MetricCondition(_) => Metric
    case OriginCondition(_) => Origin
  }

  /** The field keywords the compiler recognises, and the condition class each selects. */
  const FieldKinds: map<string, Kind> :=
    map["job" := Job, "deployment" := Deployment, "metric" := Metric, "origin" := Origin]

  /** `Condition.equals`: two conditions are equal exactly when they are
      instances of the same subclass; the carried `name` plays no part. */
  predicate SameKind(c: Condition, other: Condition)
    ensures SameKind(c, other) <==>
      || (c.JobCondition? && other.JobCondition?)
      || (c.DeploymentCondition? && other.DeploymentCondition?)
      || (c.MetricCondition? && other.MetricCondition?)
      || (c.OriginCondition? && other.OriginCondition?)
  {
    KindOf(c) == KindOf(other)
  }

  /** The kind-only equality is an equivalence relation, as `equals` must be. */
  lemma SameKindIsEquivalence(a: Condition, b: Condition, c: Condition)
    ensures SameKind(a, a)
    ensures SameKind(a, b) ==> SameKind(b, a)
    ensures SameKind(a, b) && SameKind(b, c) ==> SameKind(a, c)
  {
  }

  /** `Condition.fromSpelNodes`: the left operand must be a field reference,
      the right one a string literal whose value is not null; the field name
      then picks one of the four condition classes. */
  function FromSpelNodes(left: SpelNode, right: SpelNode): (r: Either<Condition>)
    ensures r == Left(UnsupportedExpressionError) <==>
      !left.PropertyOrFieldReference? || !right.StringLiteral? || right.originalValue.None?
    ensures r == Left(UnsupportedConditionError) <==>
      && left.PropertyOrFieldReference? && right.StringLiteral? && right.originalValue.Some?
      && left.name !in FieldKinds
    ensures r.Right? ==>
      && left.PropertyOrFieldReference? && left.name in FieldKinds
      && right.StringLiteral? && right.originalValue == Some(r.value.name)
      && KindOf(r.value) == FieldKinds[left.name]
  {
    if !left.PropertyOrFieldReference? then Left(UnsupportedExpressionError)
    else if !right.StringLiteral? then Left(UnsupportedExpressionError)
    else match right.originalValue
      case None => Left(UnsupportedExpressionError)
      case Some(value) =>
        if left.name == "job" then Right(JobCondition(value))
        else if left.name == "deployment" then Right(DeploymentCondition(value))
        else if left.name == "metric" then Right(MetricCondition(value))
        else if left.name == "origin" then Right(OriginCondition(value))
        else Left(UnsupportedConditionError)
  }

  /** `cs.contains(c)` under the kind-only equality. */
  predicate Contains(cs: seq<Condition>, c: Condition)
  {
    exists i :: 0 <= i < |cs| && SameKind(cs[i], c)
  }

  /** No two elements are equal under the kind-only equality: what a set holds. */
  predicate NoDuplicates(cs: seq<Condition>)
  {
    forall i, j :: 0 <= i < j < |cs| ==> !SameKind(cs[i], cs[j])
  }

  /** `LinkedHashSet.addAll`: each element of `xs`, in order, is appended to
      the insertion-ordered set `elements` unless an equal one is already there. */
  function AddAll(elements: seq<Condition>, xs: seq<Condition>): (r: seq<Condition>)
    ensures |elements| <= |r| && r[..|elements|] == elements
    decreases |xs|
  {
    if xs == [] then elements
    else AddAll(if Contains(elements, xs[0]) then elements else elements + [xs[0]], xs[1..])
  }

  /** Everything `addAll` appends comes from the added collection. */
  lemma {:induction false} AddAllFrom(elements: seq<Condition>, xs: seq<Condition>)
    ensures forall i :: |elements| <= i < |AddAll(elements, xs)| ==> AddAll(elements, xs)[i] in xs
    decreases |xs|
  {
    if xs != [] {
      var next := if Contains(elements, xs[0]) then elements else elements + [xs[0]];
      AddAllFrom(next, xs[1..]);
      var r := AddAll(elements, xs);
      forall i | |elements| <= i < |r| ensures r[i] in xs {
        if i < |next| {
          assert r[i] == next[i] == xs[0];
        } else {
          assert r[i] in xs[1..];
        }
      }
    }
  }

  /** `addAll` keeps a set a set. */
  lemma {:induction false} AddAllNoDuplicates(elements: seq<Condition>, xs: seq<Condition>)
    requires NoDuplicates(elements)
    ensures NoDuplicates(AddAll(elements, xs))
    decreases |xs|
  {
    if xs != [] {
      if Contains(elements, xs[0]) {
        AddAllNoDuplicates(elements, xs[1..]);
      } else {
        var next := elements + [xs[0]];
        assert NoDuplicates(next) by {
          forall i, j | 0 <= i < j < |next| ensures !SameKind(next[i], next[j]) {
            if j == |elements| {
              assert next[i] == elements[i];
            } else {
              assert next[i] == elements[i] && next[j] == elements[j];
            }
          }
        }
        AddAllNoDuplicates(next, xs[1..]);
      }
    }
  }

  /** After `addAll`, the set contains a condition exactly when the old set or
      the added collection did. */
  lemma {:induction false} AddAllContains(elements: seq<Condition>, xs: seq<Condition>)
    ensures forall c :: Contains(AddAll(elements, xs), c) <==> Contains(elements, c) || Contains(xs, c)
    decreases |xs|
  {
    if xs != [] {
      var next := if Contains(elements, xs[0]) then elements else elements + [xs[0]];
      AddAllContains(next, xs[1..]);
      forall c ensures Contains(xs, c) <==> SameKind(xs[0], c) || Contains(xs[1..], c) {
        if Contains(xs, c) {
          var i :| 0 <= i < |xs| && SameKind(xs[i], c);
          if i > 0 { assert xs[1..][i - 1] == xs[i]; }
        }
        if Contains(xs[1..], c) {
          var i :| 0 <= i < |xs[1..]| && SameKind(xs[1..][i], c);
          assert xs[i + 1] == xs[1..][i];
        }
        assert SameKind(xs[0], c) ==> Contains(xs, c);
      }
      forall c ensures Contains(next, c) <==> Contains(elements, c) || SameKind(xs[0], c) {
        if Contains(next, c) && next != elements {
          var i :| 0 <= i < |next| && SameKind(next[i], c);
          if i < |elements| { assert next[i] == elements[i]; }
        }
        if SameKind(xs[0], c) && next == elements {
          var i :| 0 <= i < |elements| && SameKind(elements[i], xs[0]);
          assert SameKind(elements[i], c);
        } else if SameKind(xs[0], c) {
          assert next[|elements|] == xs[0];
        }
        if Contains(elements, c) {
          var i :| 0 <= i < |elements| && SameKind(elements[i], c);
          assert next[i] == elements[i];
        }
      }
    }
  }

  /** `Iterable.union`: `this.toMutableSet()` (which drops the receiver's own
      duplicates, keeping first occurrences) followed by `addAll(other)`. */
  function Union(a: seq<Condition>, b: seq<Condition>): (r: seq<Condition>)
    ensures forall c :: Contains(r, c) <==> Contains(a, c) || Contains(b, c)
    ensures forall i :: 0 <= i < |r| ==> r[i] in a || r[i] in b
    ensures NoDuplicates(r)
    ensures |a| > 0 ==> |r| > 0
  {
    var receiver := SetOf(a);
    var r := AddAll(receiver, b);
    assert forall c :: Contains(r, c) <==> Contains(a, c) || Contains(b, c) by {
      AddAllContains(receiver, b);
    }
    assert forall i :: 0 <= i < |r| ==> r[i] in a || r[i] in b by {
      AddAllFrom(receiver, b);
    }
    assert NoDuplicates(r) by {
      AddAllNoDuplicates(receiver, b);
    }
    assert |a| > 0 ==> Contains(r, a[0]) by {
      if |a| > 0 {
        assert SameKind(a[0], a[0]);
        AddAllContains(receiver, b);
      }
    }
    r
  }

  /** The elements of `b`, in order, that `a` does not already contain. */
  function Missing(a: seq<Condition>, b: seq<Condition>): (r: seq<Condition>)
    ensures forall i :: 0 <= i < |r| ==> r[i] in b && !Contains(a, r[i])
  {
    if b == [] then []
    else (if Contains(a, b[0]) then [] else [b[0]]) + Missing(a, b[1..])
  }

  /** Conversely, every element of `b` whose class `a` lacks is kept. */
  lemma {:induction false} MissingComplete(a: seq<Condition>, b: seq<Condition>)
    ensures forall i :: 0 <= i < |b| && !Contains(a, b[i]) ==> b[i] in Missing(a, b)
    decreases |b|
  {
    if b != [] {
      MissingComplete(a, b[1..]);
      forall i | 1 <= i < |b| && !Contains(a, b[i])
        ensures b[i] in Missing(a, b)
      {
        assert b[i] == b[1..][i - 1];
      }
    }
  }

  lemma {:induction false} MissingFromEmpty(b: seq<Condition>)
    ensures Missing([], b) == b
  {
    if b != [] { MissingFromEmpty(b[1..]); }
  }

  /** Adding to `a` an element equal to nothing in `b` does not change what
      of `b` is missing from `a`. */
  lemma {:induction false} MissingAfterAppend(a: seq<Condition>, x: Condition, b: seq<Condition>)
    requires forall i :: 0 <= i < |b| ==> !SameKind(x, b[i])
    ensures Missing(a + [x], b) == Missing(a, b)
  {
    if b != [] {
      assert Contains(a + [x], b[0]) <==> Contains(a, b[0]) by {
        if Contains(a + [x], b[0]) {
          var i :| 0 <= i < |a + [x]| && SameKind((a + [x])[i], b[0]);
          assert i < |a| && (a + [x])[i] == a[i];
        }
        if Contains(a, b[0]) {
          var i :| 0 <= i < |a| && SameKind(a[i], b[0]);
          assert (a + [x])[i] == a[i];
        }
      }
      MissingAfterAppend(a, x, b[1..]);
    }
  }

  /** Adding a duplicate-free sequence appends exactly its missing elements. */
  lemma {:induction false} AddAllDistinct(elements: seq<Condition>, xs: seq<Condition>)
    requires NoDuplicates(xs)
    ensures AddAll(elements, xs) == elements + Missing(elements, xs)
    decreases |xs|
  {
    if xs != [] {
      var rest := xs[1..];
      assert NoDuplicates(rest) by {
        forall i, j | 0 <= i < j < |rest| ensures !SameKind(rest[i], rest[j]) {
          assert rest[i] == xs[i + 1] && rest[j] == xs[j + 1];
        }
      }
      if Contains(elements, xs[0]) {
        AddAllDistinct(elements, rest);
      } else {
        forall i | 0 <= i < |rest| ensures !SameKind(xs[0], rest[i]) {
          assert rest[i] == xs[i + 1];
        }
        MissingAfterAppend(elements, xs[0], rest);
        AddAllDistinct(elements + [xs[0]], rest);
      }
    }
  }

  /** When both sides are already duplicate-free (as every compiled list is),
      the union is the left list unchanged, followed by the right-side
      conditions whose class does not occur on the left: on a clash the left
      value is kept. */
  lemma UnionDistinct(a: seq<Condition>, b: seq<Condition>)
    requires NoDuplicates(a) && NoDuplicates(b)
    ensures Union(a, b) == a + Missing(a, b)
  {
    AddAllDistinct([], a);
    MissingFromEmpty(a);
    AddAllDistinct(a, b);
  }

  /** `traverseAst`: an equality compiles to a one-element list, a conjunction
      to the union of its two sides (left compiled first), anything else is
      an unsupported expression. */
  function TraverseAst(ast: SpelNode): (r: Either<seq<Condition>>)
    ensures r.Right? ==> |r.value| > 0 && NoDuplicates(r.value)
    decreases ast
  {
    match ast
    case OpEQ(left, right) =>
      (match FromSpelNodes(left, right)
       case Left(e) => Left(e)
       case Right(c) => Right([c]))
    case OpAnd(left, right) =>
      (match TraverseAst(left)
       case Left(e) => Left(e)
       case Right(leftConditions) =>
         match TraverseAst(right)
         case Left(e) => Left(e)
         case Right(rightConditions) => Right(Union(leftConditions, rightConditions)))
    case _ => Left(UnsupportedExpressionError)
  }

  /** A well-shaped equality on a known field compiles to the one matching
      condition carrying the literal; a malformed one is an unsupported
      expression, an unknown field name an unsupported condition. */
  lemma TraverseEquality(left: SpelNode, right: SpelNode)
    ensures var r := TraverseAst(OpEQ(left, right));
      && (r.Right? <==>
            left.PropertyOrFieldReference? && right.StringLiteral? && right.originalValue.Some?
            && left.name in FieldKinds)
      && (r.Right? ==> |r.value| == 1 && KindOf(r.value[0]) == FieldKinds[left.name]
                         && Some(r.value[0].name) == right.originalValue)
      && (r == Left(UnsupportedExpressionError) <==>
            !left.PropertyOrFieldReference? || !right.StringLiteral? || right.originalValue.None?)
  {
  }

  /** A node that is neither an equality nor a conjunction is rejected. */
  lemma TraverseOther(ast: SpelNode)
    requires !ast.OpEQ? && !ast.OpAnd?
    ensures TraverseAst(ast) == Left(UnsupportedExpressionError)
  {
  }

  /** A conjunction: the left side's error wins, then the right side's; on
      success the result is the left list followed by the right-side
      conditions of a class the left does not have, so a class occurs in the
      result exactly when it occurs on either side. */
  lemma TraverseConjunction(left: SpelNode, right: SpelNode)
    ensures var r, lr, rr := TraverseAst(OpAnd(left, right)), TraverseAst(left), TraverseAst(right);
      && (lr.Left? ==> r == lr)
      && (lr.Right? && rr.Left? ==> r == rr)
      && (lr.Right? && rr.Right? ==>
            && r == Right(lr.value + Missing(lr.value, rr.value))
            && forall c :: Contains(r.value, c) <==> Contains(lr.value, c) || Contains(rr.value, c))
  {
    var lr, rr := TraverseAst(left), TraverseAst(right);
    if lr.Right? && rr.Right? {
      UnionDistinct(lr.value, rr.value);
    }
  }

  /** The classes occurring in `cs`. */
  function KindsOf(cs: seq<Condition>): (ks: set<Kind>)
    ensures forall k :: k in ks <==> exists i :: 0 <= i < |cs| && KindOf(cs[i]) == k
  {
    if cs == [] then {}
    else
      var rest := KindsOf(cs[1..]);
      assert forall i :: 1 <= i < |cs| ==> cs[i] == cs[1..][i - 1];
      {KindOf(cs[0])} + rest
  }

  /** A duplicate-free list has as many classes as elements. */
  lemma {:induction false} KindsOfDistinct(cs: seq<Condition>)
    requires NoDuplicates(cs)
    ensures |KindsOf(cs)| == |cs|
  {
    if cs != [] {
      var rest := cs[1..];
      assert NoDuplicates(rest) by {
        forall i, j | 0 <= i < j < |rest| ensures !SameKind(rest[i], rest[j]) {
          assert rest[i] == cs[i + 1] && rest[j] == cs[j + 1];
        }
      }
      KindsOfDistinct(rest);
      assert KindOf(cs[0]) !in KindsOf(rest) by {
        forall i | 0 <= i < |rest| ensures KindOf(rest[i]) != KindOf(cs[0]) {
          assert rest[i] == cs[i + 1];
        }
      }
    }
  }

  lemma {:induction false} SubsetSize(a: set<Kind>, b: set<Kind>)
    requires a <= b
    ensures |a| <= |b|
  {
    if a != {} {
      var x :| x in a;
      SubsetSize(a - {x}, b - {x});
    }
  }

  /** A duplicate-free list of conditions has at most one per class. */
  lemma AtMostFour(cs: seq<Condition>)
    requires NoDuplicates(cs)
    ensures |cs| <= 4
  {
    KindsOfDistinct(cs);
    var all := {Job, Deployment, Metric, Origin};
    SubsetSize(KindsOf(cs), all);
  }

  /** Every successful compilation holds between one and four conditions. */
  lemma TraverseSize(ast: SpelNode)
    ensures TraverseAst(ast).Right? ==> 1 <= |TraverseAst(ast).value| <= 4
  {
    if TraverseAst(ast).Right? {
      AtMostFour(TraverseAst(ast).value);
    }
  }

  // A reference reading of the compiler: flatten the conjunction tree into its
  // leaves, compile each leaf on its own, and collect the conditions into an
  // insertion-ordered set.

  /** The operands of a conjunction tree, left to right. */
  function Leaves(ast: SpelNode): (ns: seq<SpelNode>)
    ensures |ns| >= 1
    ensures forall i :: 0 <= i < |ns| ==> !ns[i].OpAnd?
  {
    match ast
    case OpAnd(left, right) => Leaves(left) + Leaves(right)
    case _ => [ast]
  }

  /** A single leaf: an equality compiles to its condition, anything else is unsupported. */
  function CompileLeaf(n: SpelNode): (r: Either<Condition>)
    requires !n.OpAnd?
    ensures r.Right? <==> n.OpEQ? && FromSpelNodes(n.leftOperand, n.rightOperand).Right?
  {
    if n.OpEQ? then FromSpelNodes(n.leftOperand, n.rightOperand)
    else Left(UnsupportedExpressionError)
  }

  /** Compiles the leaves left to right; the first failing leaf's error is the result. */
  function CompileLeaves(ns: seq<SpelNode>): (r: Either<seq<Condition>>)
    requires forall i :: 0 <= i < |ns| ==> !ns[i].OpAnd?
    ensures r.Right? <==> forall i :: 0 <= i < |ns| ==> CompileLeaf(ns[i]).Right?
    ensures r.Right? ==> |r.value| == |ns| && forall i :: 0 <= i < |ns| ==> r.value[i] == CompileLeaf(ns[i]).value
  {
    if ns == [] then Right([])
    else match CompileLeaf(ns[0])
      case Left(e) => Left(e)
      case Right(c) =>
        match CompileLeaves(ns[1..])
        case Left(e) => Left(e)
        case Right(cs) =>
          assert forall i :: 1 <= i < |ns| ==> ns[i] == ns[1..][i - 1];
          Right([c] + cs)
  }

  /** The insertion-ordered set of `cs`: `cs.toMutableSet()`. */
  function SetOf(cs: seq<Condition>): (r: seq<Condition>)
    ensures NoDuplicates(r)
    ensures forall c :: Contains(r, c) <==> Contains(cs, c)
    ensures forall i :: 0 <= i < |r| ==> r[i] in cs
  {
    assert NoDuplicates([]);
    AddAllContains([], cs);
    AddAllNoDuplicates([], cs);
    AddAllFrom([], cs);
    AddAll([], cs)
  }

  /** `addAll` keeps the first element of each class of `xs` that the set
      lacks: an element no earlier one of `xs` equals ends up in the result. */
  lemma {:induction false} AddAllKeepsFirst(elements: seq<Condition>, xs: seq<Condition>, i: nat)
    requires i < |xs| && !Contains(elements, xs[i])
    requires forall j :: 0 <= j < i ==> !SameKind(xs[j], xs[i])
    ensures xs[i] in AddAll(elements, xs)
    decreases |xs|
  {
    var next := if Contains(elements, xs[0]) then elements else elements + [xs[0]];
    assert AddAll(elements, xs) == AddAll(next, xs[1..]);
    if i == 0 {
      assert next[|elements|] == xs[0];
      assert AddAll(next, xs[1..])[..|next|] == next;
      assert AddAll(next, xs[1..])[|elements|] == xs[0];
    } else {
      assert !Contains(next, xs[i]) by {
        forall k | 0 <= k < |next|
          ensures !SameKind(next[k], xs[i])
        {
          if k < |elements| {
            assert next[k] == elements[k];
          } else {
            assert next[k] == xs[0] && !SameKind(xs[0], xs[i]);
          }
        }
      }
      assert xs[i] == xs[1..][i - 1];
      AddAllKeepsFirst(next, xs[1..], i - 1);
    }
  }

  /** `toMutableSet` keeps the first occurrence of each class. */
  lemma SetOfKeepsFirst(cs: seq<Condition>, i: nat)
    requires i < |cs|
    requires forall j :: 0 <= j < i ==> !SameKind(cs[j], cs[i])
    ensures cs[i] in SetOf(cs)
  {
    AddAllKeepsFirst([], cs, i);
  }

  lemma {:induction false} AddAllAppend(elements: seq<Condition>, xs: seq<Condition>, ys: seq<Condition>)
    ensures AddAll(elements, xs + ys) == AddAll(AddAll(elements, xs), ys)
    decreases |xs|
  {
    if xs == [] {
      assert xs + ys == ys;
    } else {
      var next := if Contains(elements, xs[0]) then elements else elements + [xs[0]];
      assert (xs + ys)[0] == xs[0] && (xs + ys)[1..] == xs[1..] + ys;
      AddAllAppend(next, xs[1..], ys);
    }
  }

  /** Once `d` has been added, a list starting with a class `d` holds adds
      what the rest of the list adds. */
  lemma AddAllSkipsPresent(elements: seq<Condition>, d: seq<Condition>, rs: seq<Condition>)
    requires rs != [] && Contains(d, rs[0])
    ensures AddAll(elements, d + rs) == AddAll(elements, d + rs[1..])
  {
    var e := AddAll(elements, d);
    AddAllContains(elements, d);
    assert Contains(e, rs[0]);
    assert AddAll(e, rs) == AddAll(e, rs[1..]);
    AddAllAppend(elements, d, rs);
    AddAllAppend(elements, d, rs[1..]);
  }

  /** Adding the set built from `d` and `rs` adds exactly what adding `d` and
      then all of `rs` would: the duplicates it dropped change nothing. */
  lemma {:induction false} AddAllAbsorb(elements: seq<Condition>, d: seq<Condition>, rs: seq<Condition>)
    ensures AddAll(elements, AddAll(d, rs)) == AddAll(elements, d + rs)
    decreases |rs|
  {
    if rs == [] {
      assert d + rs == d;
    } else if Contains(d, rs[0]) {
      // `rs[0]` is skipped when added to `d`, and again after `d` has been added.
      calc {
        AddAll(elements, AddAll(d, rs));
        AddAll(elements, AddAll(d, rs[1..]));
        { AddAllAbsorb(elements, d, rs[1..]); }
        AddAll(elements, d + rs[1..]);
        { AddAllSkipsPresent(elements, d, rs); }
        AddAll(elements, d + rs);
      }
    } else {
      // `rs[0]` is new to `d`, so it moves from the added list to the set.
      calc {
        AddAll(elements, AddAll(d, rs));
        AddAll(elements, AddAll(d + [rs[0]], rs[1..]));
        { AddAllAbsorb(elements, d + [rs[0]], rs[1..]); }
        AddAll(elements, (d + [rs[0]]) + rs[1..]);
        { assert rs == [rs[0]] + rs[1..]; assert (d + [rs[0]]) + rs[1..] == d + rs; }
        AddAll(elements, d + rs);
      }
    }
  }

  lemma {:induction false} CompileLeavesAppend(ns: seq<SpelNode>, ms: seq<SpelNode>)
    requires forall i :: 0 <= i < |ns| ==> !ns[i].OpAnd?
    requires forall i :: 0 <= i < |ms| ==> !ms[i].OpAnd?
    ensures CompileLeaves(ns + ms) ==
      match CompileLeaves(ns)
      case Left(e) => Left(e)
      case Right(cs) =>
        match CompileLeaves(ms)
        case Left(e) => Left(e)
        case Right(ds) => Right(cs + ds)
  {
    if ns == [] {
      assert ns + ms == ms;
      if CompileLeaves(ms).Right? {
        assert [] + CompileLeaves(ms).value == CompileLeaves(ms).value;
      }
    } else {
      assert (ns + ms)[0] == ns[0] && (ns + ms)[1..] == ns[1..] + ms;
      CompileLeavesAppend(ns[1..], ms);
      var r := CompileLeaves(ns[1..]);
      if CompileLeaf(ns[0]).Right? && r.Right? && CompileLeaves(ms).Right? {
        assert [CompileLeaf(ns[0]).value] + (r.value + CompileLeaves(ms).value)
            == ([CompileLeaf(ns[0]).value] + r.value) + CompileLeaves(ms).value;
      }
    }
  }

  /** The compiler agrees with the reference reading: its result is the
      first failing leaf's error, or else the leaf conditions in left-to-right
      order with every later condition of an already-seen class dropped. */
  lemma {:induction false} TraverseFlattens(ast: SpelNode)
    ensures TraverseAst(ast) ==
      match CompileLeaves(Leaves(ast))
      case Left(e) => Left(e)
      case Right(cs) => Right(SetOf(cs))
  {
    match ast
    case OpAnd(left, right) =>
      TraverseFlattens(left);
      TraverseFlattens(right);
      CompileLeavesAppend(Leaves(left), Leaves(right));
      var lc, rc := CompileLeaves(Leaves(left)), CompileLeaves(Leaves(right));
      if lc.Right? && rc.Right? {
        AddAllAbsorb([], [], lc.value);
        assert [] + lc.value == lc.value;
        AddAllAbsorb(SetOf(lc.value), [], rc.value);
        assert [] + rc.value == rc.value;
        AddAllAppend([], lc.value, rc.value);
      }
    case OpEQ(_, _) =>
      var r := FromSpelNodes(ast.leftOperand, ast.rightOperand);
      if r.Right? {
        assert !Contains([], r.value);
        assert AddAll([], [r.value]) == AddAll([r.value], []);
      }
    case _ =>
  }

  /** Regrouping a chain of conjunctions does not change what it compiles to. */
  lemma TraverseAssociative(a: SpelNode, b: SpelNode, c: SpelNode)
    ensures TraverseAst(OpAnd(OpAnd(a, b), c)) == TraverseAst(OpAnd(a, OpAnd(b, c)))
  {
    var left, right := OpAnd(OpAnd(a, b), c), OpAnd(a, OpAnd(b, c));
    assert Leaves(left) == Leaves(right) by {
      assert Leaves(a) + Leaves(b) + Leaves(c) == Leaves(a) + (Leaves(b) + Leaves(c));
    }
    calc {
      TraverseAst(left);
      { TraverseFlattens(left); }
      match CompileLeaves(Leaves(left))
      case Left(e) => Left(e)
      case Right(cs) => Right(SetOf(cs));
      match CompileLeaves(Leaves(right))
      case Left(e) => Left(e)
      case Right(cs) => Right(SetOf(cs));
      { TraverseFlattens(right); }
      TraverseAst(right);
    }
  }
}
