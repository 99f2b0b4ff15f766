/** Concrete queries, written as the trees the SpEL parser produces for them,
    and what the condition compiler makes of each. A SpEL string literal keeps
    its source text, quotes included, as its `originalValue`, so that quoted
    text is what a condition carries as its `name`. */
module ParseQueryExamples {
  import opened AstParser

  /** The tree of `<field> == '<text>'`, where `text` is what is written
      between the quotes. */
  function Equals(field: string, text: string): SpelNode
  {
    OpEQ(PropertyOrFieldReference(field), StringLiteral(Some(Quoted(text))))
  }

  /** The source text of a single-quoted literal. */
  function Quoted(text: string): string
  {
    "'" + text + "'"
  }

  /** The literals of the repository's test, as SpEL keeps them. */
  lemma QuotedTestTexts()
    ensures Quoted("foo") == "'foo'" && Quoted("bar") == "'bar'"
  {
  }

  /** `job == '<a>' and deployment == '<b>'` compiles to two conditions, one
      of each class, carrying the quoted literals, whatever the two texts. */
  lemma JobAndDeployment(a: string, b: string)
    ensures TraverseAst(OpAnd(Equals("job", a), Equals("deployment", b)))
         == Right([JobCondition(Quoted(a)), DeploymentCondition(Quoted(b))])
  {
    var left, right := Equals("job", a), Equals("deployment", b);
    var job, deployment := JobCondition(Quoted(a)), DeploymentCondition(Quoted(b));
    assert TraverseAst(left) == Right([job]);
    assert TraverseAst(right) == Right([deployment]);
    assert Missing([job], [deployment]) == [deployment] by {
      assert !Contains([job], deployment);
      assert [deployment][1..] == [];
    }
    TraverseConjunction(left, right);
    assert [job] + [deployment] == [job, deployment];
  }

  /** The query of the repository's test, `job == 'foo' and deployment == 'bar'`,
      gives a list of size 2 that contains `JobCondition("foo")` and, under the
      class-only equality, `DeploymentCondition("foo")`, although the
      conditions carry the quoted texts `'foo'` and `'bar'`. */
  lemma QueryOfTheTest()
    ensures var r := TraverseAst(OpAnd(Equals("job", "foo"), Equals("deployment", "bar")));
      && r == Right([JobCondition("'foo'"), DeploymentCondition("'bar'")])
      && |r.value| == 2
      && Contains(r.value, JobCondition("foo"))
      && Contains(r.value, DeploymentCondition("foo"))
  {
    var cs := [JobCondition("'foo'"), DeploymentCondition("'bar'")];
    assert TraverseAst(OpAnd(Equals("job", "foo"), Equals("deployment", "bar"))) == Right(cs) by {
      JobAndDeployment("foo", "bar");
      QuotedTestTexts();
    }
    assert Contains(cs, JobCondition("foo")) by {
      assert SameKind(cs[0], JobCondition("foo"));
    }
    assert Contains(cs, DeploymentCondition("foo")) by {
      assert SameKind(cs[1], DeploymentCondition("foo"));
    }
  }

  /** `job == '<a>' and job == '<b>'` collapses to the left condition alone,
      even when the two values differ. */
  lemma DuplicateClassCollapses(a: string, b: string)
    ensures TraverseAst(OpAnd(Equals("job", a), Equals("job", b))) == Right([JobCondition(Quoted(a))])
  {
    var first, second := JobCondition(Quoted(a)), JobCondition(Quoted(b));
    assert TraverseAst(Equals("job", a)) == Right([first]);
    assert TraverseAst(Equals("job", b)) == Right([second]);
    assert Missing([first], [second]) == [] by {
      assert SameKind([first][0], second);
      assert [second][1..] == [];
    }
    TraverseConjunction(Equals("job", a), Equals("job", b));
    assert [first] + [] == [first];
  }

  /** An unknown field is an unsupported condition, and the match is case-sensitive. */
  lemma UnknownFieldIsUnsupportedCondition()
    ensures TraverseAst(Equals("region", "us-east")) == Left(UnsupportedConditionError)
    ensures TraverseAst(Equals("Job", "foo")) == Left(UnsupportedConditionError)
  {
  }

  /** An `or` (any operator but `==` and `and`) is an unsupported expression,
      at the root or inside a chain; the left side's error is reported first. */
  lemma OtherOperatorsAreUnsupported()
    ensures TraverseAst(OtherNode) == Left(UnsupportedExpressionError)
    ensures TraverseAst(OpAnd(Equals("job", "foo"), OtherNode)) == Left(UnsupportedExpressionError)
    ensures TraverseAst(OpAnd(Equals("region", "x"), OtherNode)) == Left(UnsupportedConditionError)
  {
  }

  /** A literal on the left, a field reference on the right, or a null
      literal on the right is malformed. */
  lemma MisplacedOperandsAreUnsupported()
    ensures TraverseAst(OpEQ(StringLiteral(Some("'job'")), PropertyOrFieldReference("foo"))) == Left(UnsupportedExpressionError)
    ensures TraverseAst(OpEQ(PropertyOrFieldReference("job"), PropertyOrFieldReference("foo"))) == Left(UnsupportedExpressionError)
    ensures TraverseAst(OpEQ(PropertyOrFieldReference("job"), StringLiteral(None))) == Left(UnsupportedExpressionError)
  {
  }
}
