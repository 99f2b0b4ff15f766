# Condition compiler of ast_parser, in Dafny

This project models the condition compiler of `ast_parser` (`src/main/kotlin/astparser/AstParser.kt`).
The compiler takes a query that SpEL (Spring's expression language) has already parsed into a tree.
The query is a chain of `<field> == '<value>'` comparisons joined by `and`.
The compiler turns the tree into a list of typed filter conditions (`JobCondition`, `DeploymentCondition`, `MetricCondition`, `OriginCondition`) or returns a `ParseError`.

- `ast_parser.dfy`, module `AstParser`: the model and its proofs.
  - The SpEL tree is a closed datatype `SpelNode` with the node classes the compiler tests for: `OpEQ`, `OpAnd`, `PropertyOrFieldReference`, and `StringLiteral` with a nullable value. Every other node class is `OtherNode`.
  - `Condition` has the four subclasses as constructors. Kotlin's `equals` compares only the class, and `SameKind` models that.
  - `FromSpelNodes` is `Condition.fromSpelNodes`, and `TraverseAst` is `traverseAst`.
  - Kotlin's `union` is `toMutableSet()` (an insertion-ordered `LinkedHashSet`) followed by `addAll`. `AddAll` models that step as a recursive list function. Membership is decided by `SameKind`, never by Dafny's structural `==`.
  - A reference reading (`Leaves`, `CompileLeaves`, `SetOf`) flattens the `and` chain and compiles each leaf. `TraverseFlattens` proves that the compiler agrees with it.
- `parse_query_examples.dfy`, module `ParseQueryExamples`: concrete queries, including the one from the repository's test, and what each compiles to.
  A SpEL `StringLiteral` keeps the literal's source text, quotes included, as its `originalValue`, and `fromSpelNodes` passes that text on unchanged. So `job == 'foo'` gives `JobCondition("'foo'")`. The repository's test cannot see this, because equality ignores the carried value.

The model follows the code. A cleaner design would wrap a SpEL syntax error in a dedicated `ParseError`, but the code does not: the error escapes from `parseRaw` as an exception. So the model has no syntax-error variant.

## Model

| member | source | states |
|---|---|---|
| `AstParser.SameKind` | src/main/kotlin/astparser/AstParser.kt:51-97 | two conditions are equal exactly when both are instances of the same one of the four subclasses; the carried `name` is ignored |
| `AstParser.SameKindIsEquivalence` | src/main/kotlin/astparser/AstParser.kt:51-97 | the class-only equality is reflexive, symmetric and transitive |
| `AstParser.FromSpelNodes` | src/main/kotlin/astparser/AstParser.kt:33-47 | the result is `UnsupportedExpressionError` iff the left operand is not a field reference, the right is not a string literal, or the literal is null; it is `UnsupportedConditionError` iff the shapes are right and the field name is not exactly `job`, `deployment`, `metric` or `origin`; otherwise it is the condition of that field's class carrying the literal's `originalValue` |
| `AstParser.AddAll` | src/main/kotlin/astparser/AstParser.kt:23 | adding to an insertion-ordered set keeps its existing elements unchanged and in order at the front |
| `AstParser.AddAllContains` | src/main/kotlin/astparser/AstParser.kt:23 | after adding, the set contains a condition iff the old set or the added list did |
| `AstParser.AddAllNoDuplicates` | src/main/kotlin/astparser/AstParser.kt:23 | adding to a duplicate-free set leaves no two conditions of the same class |
| `AstParser.AddAllFrom` | src/main/kotlin/astparser/AstParser.kt:23 | every element appended comes from the added list |
| `AstParser.AddAllDistinct` | src/main/kotlin/astparser/AstParser.kt:23 | adding a duplicate-free list appends exactly its conditions whose class the set lacks, in their order |
| `AstParser.SetOf` | src/main/kotlin/astparser/AstParser.kt:23 | `toMutableSet` yields a duplicate-free list of elements of the input that contains the same classes |
| `AstParser.AddAllKeepsFirst` | src/main/kotlin/astparser/AstParser.kt:23 | a condition of the added list that the set lacks and that no earlier added condition equals ends up in the set, so the first of each new class is the one kept |
| `AstParser.SetOfKeepsFirst` | src/main/kotlin/astparser/AstParser.kt:23 | `toMutableSet` keeps the first occurrence of each class of its input |
| `AstParser.Union` | src/main/kotlin/astparser/AstParser.kt:23 | the union is duplicate-free, non-empty when the left is, contains a class iff either side does, and holds only elements of the two sides |
| `AstParser.Missing` | src/main/kotlin/astparser/AstParser.kt:23 | every condition it keeps comes from the right list and has a class the left list lacks |
| `AstParser.MissingComplete` | src/main/kotlin/astparser/AstParser.kt:23 | conversely, every condition of the right list whose class the left list lacks is kept |
| `AstParser.UnionDistinct` | src/main/kotlin/astparser/AstParser.kt:23 | for duplicate-free sides the union is the left list unchanged followed by the right-side conditions of a class the left lacks, so on a clash the left value is kept |
| `AstParser.TraverseAst` | src/main/kotlin/astparser/AstParser.kt:15-29 | every successful result is non-empty and has no two conditions of the same class |
| `AstParser.TraverseEquality` | src/main/kotlin/astparser/AstParser.kt:17-19 | an equality node succeeds iff its operands are a field reference with one of the four names and a non-null string literal, giving exactly one condition of that field's class carrying the literal; malformed operands give `UnsupportedExpressionError` |
| `AstParser.TraverseOther` | src/main/kotlin/astparser/AstParser.kt:27 | a node that is neither an equality nor an `and` gives `UnsupportedExpressionError` |
| `AstParser.TraverseConjunction` | src/main/kotlin/astparser/AstParser.kt:21-25 | a left error is the result whatever the right gives; otherwise a right error is the result; when both succeed the result is the left list followed by the right conditions of a class the left lacks, and a class occurs in it iff it occurs on either side |
| `AstParser.AtMostFour` | src/main/kotlin/astparser/AstParser.kt:51-97 | a list with no two conditions of the same class has at most four elements |
| `AstParser.TraverseSize` | src/main/kotlin/astparser/AstParser.kt:15-29 | every successful result has between one and four conditions |
| `AstParser.CompileLeaves` | src/main/kotlin/astparser/AstParser.kt:15-29 | compiling the leaves of an `and` chain one by one succeeds iff every leaf does, giving one condition per leaf in order |
| `AstParser.TraverseFlattens` | src/main/kotlin/astparser/AstParser.kt:15-29 | the compiler's result is the error of the leftmost failing leaf of the `and` chain; if no leaf fails, it is the leaf conditions in order with each later condition of an already-seen class dropped |
| `AstParser.TraverseAssociative` | src/main/kotlin/astparser/AstParser.kt:21-25 | regrouping an `and` chain, `(a and b) and c` versus `a and (b and c)`, does not change the result |
| `ParseQueryExamples.JobAndDeployment` | src/main/kotlin/astparser/AstParser.kt:21-25 | for any literal texts `a` and `b`, `job == 'a' and deployment == 'b'` gives `[JobCondition("'a'"), DeploymentCondition("'b'")]`, each condition carrying its literal's quoted source text |
| `ParseQueryExamples.QueryOfTheTest` | src/test/kotlin/astparsertest/ParseQueryTest.kt:12-21 | `job == 'foo' and deployment == 'bar'` gives `[JobCondition("'foo'"), DeploymentCondition("'bar'")]`, of size 2, which contains `JobCondition("foo")` and, under the class-only equality, `DeploymentCondition("foo")` |
| `ParseQueryExamples.DuplicateClassCollapses` | src/main/kotlin/astparser/AstParser.kt:21-25 | for any literal texts `a` and `b`, even different ones, `job == 'a' and job == 'b'` gives only `JobCondition("'a'")` |
| `ParseQueryExamples.UnknownFieldIsUnsupportedCondition` | src/main/kotlin/astparser/AstParser.kt:40-45 | `region == 'us-east'` and `Job == 'foo'` give `UnsupportedConditionError` |
| `ParseQueryExamples.OtherOperatorsAreUnsupported` | src/main/kotlin/astparser/AstParser.kt:21-27 | another operator gives `UnsupportedExpressionError`, both at the root and as the right side of an `and`; when the left side already failed, its error is reported instead |
| `ParseQueryExamples.MisplacedOperandsAreUnsupported` | src/main/kotlin/astparser/AstParser.kt:34-38 | a literal on the left, a field reference on the right, or a null string literal on the right gives `UnsupportedExpressionError` |

## Left out

- `parseQuery` (src/main/kotlin/astparser/AstParser.kt:9-13): it calls Spring's `SpelExpressionParser.parseRaw`, which is foreign code. The model starts from the parsed tree. A syntax error from `parseRaw` is an exception, not a `ParseError`, and is not modelled.
- Arrow's `Either` and `flatMap` are a library. A local `Either` datatype with `match` expressions stands in for them.
- `hashCode` overrides: each returns the hash of the class. This only matters because it agrees with the class-only `equals`, which `SameKind` already models.
- `equals` called with `null` or with a non-`Condition` argument always answers false. The model compares only conditions with each other.
- The `this === other` shortcut in each `equals` is covered by the class comparison. Identical objects always have the same class.
- The SpEL node classes are reduced to the ones `traverseAst` and `fromSpelNodes` test for. All others are `OtherNode`, because the compiler treats them alike.
- `itDoesNotSupportOtherOperations` in the test file is an unimplemented stub. The behaviour it names is stated by `ParseQueryExamples.OtherOperatorsAreUnsupported`.
