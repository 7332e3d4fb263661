# MathParser symbolic core, modelled in Dafny

MathParser is a roblox-ts library for symbolic algebra on expression trees. This project
models its core as Dafny datatypes, functions, classes and methods, and proves what the
code promises about them:

- the node tree and its constructors (`BasicNodes`, `Nodes`), structural equality,
  one-level flattening and literal folding (`NodeUtils`);
- exact rational and complex arithmetic (`Fractions`, `Complexes`, `LiteralUtils`);
- pattern matching: the pattern builders and classes (`Patterns`), the expansion of a
  pattern into its alternatives and the cache in front of it (`Expansion`,
  `PatternExpansion`), and the matcher with captures, commutative permutations and
  partial matches (`Match`, `Matcher`);
- simplification: the rule tables for addition, multiplication, exponentiation and the
  basic identities (`RuleSupport`, `AdditionRules`, `MultiplicationRules`,
  `ExponentiationRules`, `BasicRules`, `SimplificationRules`) and the bottom-up
  simplifier that applies them (`Simplifier`);
- serialisation of nodes and patterns to text (`NodeSerializer`) and to LaTeX (`LaTeX`);
- tensors: flat indexing, element access, reshaping, element-wise operations, matrix
  products, transposition and the stock tensors (`TensorIndex`, `TensorUtils`), and
  the shape of a parsed tensor literal (`TensorParser`);
- parsing support: the array helpers (`ArrayPolyfill`), the post-processing of the
  parse tree (`PostProcessor`), the token stream (`Tokens`, `TokenStreams`) and the
  right-to-left identifier splitter (`RLEagerTokenizer`);
- tree traversals (`Visitors`), validation against the function registry
  (`Validation`, `Registries`) and symbolic differentiation (`Calculus`);
- polynomials: recognising a tree as a polynomial and classifying it
  (`PolynomialAnalyzer`), polynomial arithmetic, division, GCD and derivatives
  (`Polynomials`), and the linear and quadratic solvers (`PolynomialSolver`).

The helper modules `Tree`, `Arith`, `Text`, `PowerMaps` and `Wrappers` hold the node
datatype, arithmetic facts, decimal strings, insertion-ordered maps and the
`Option`/`Result` types.

Errors are values: each operation that can throw returns a `Result` whose error names
the library's error kind (`PolynomialError`, `TensorError`, `DerivativeError`, ...) or `HostError` for a
Luau runtime error the code runs into (indexing nil, comparing with nil). Where the code
and its documentation disagree, the model follows the code; the places where the code is
evidently not what was meant are under "## Findings", each with the as-written and the
corrected definition.

## Model

| member | source | states |
|---|---|---|
| AdditionRules.AllChildren | src/Simplification/AdditionRules.ts:16-46 | four rules, each replacing matched summands only, none the whole node |
| AdditionRules.AddZeroShape | src/Simplification/AdditionRules.ts:17-21 | p + 0 is a commutative Add of the slots P and 0 that returns P and requires P |
| AdditionRules.AddZeroSound | src/Simplification/AdditionRules.ts:17-21 | p + 0 never exceeds the depth limit, and when it fires on an Add it drops one literal zero and moves the other summand last |
| AdditionRules.AddZeroComplete | src/Simplification/AdditionRules.ts:17-21 | an Add with a literal zero beside any other summand takes the rule |
| AdditionRules.LiteralSumShape | src/Simplification/AdditionRules.ts:23-29 | R + R is a commutative Add of two captured literal slots whose replacement is their complex sum |
| AdditionRules.LiteralSumSound | src/Simplification/AdditionRules.ts:23-29 | R + R never exceeds the depth limit, and when it fires two literal summands are replaced by their sum, placed last |
| AdditionRules.LiteralSumComplete | src/Simplification/AdditionRules.ts:23-29 | an Add with two literal summands takes the rule |
| AdditionRules.NestedHeights | src/Simplification/AdditionRules.ts:31-45 | qp + p and qp + rp nest one Multiply slot, so they need a depth of 2 |
| AdditionRules.LikeTermSound | src/Simplification/AdditionRules.ts:31-37 | qp + p never exceeds a depth of 2; when it fires, there are summands s and t, t a two-factor product with a factor Equal to summand s, and the result is the Add without s and t, the other summands in order, followed by (q + 1)p, where p is the earlier of the two Equal nodes and q is the other factor |
| AdditionRules.LikeTermComplete | src/Simplification/AdditionRules.ts:31-37 | conversely, such summands s and t (either factor, either order) make qp + p fire |
| AdditionRules.LikeTermsSound | src/Simplification/AdditionRules.ts:39-45 | qp + rp never exceeds a depth of 2; when it fires, there are summands u and v, both two-factor products sharing an Equal factor, and the result is the Add without them, the other summands in order, followed by (q + r)p, where p is the earlier shared factor, q the other factor of u and r the other factor of v |
| AdditionRules.LikeTermsComplete | src/Simplification/AdditionRules.ts:39-45 | conversely, two such summands (either factor of each, either order) make qp + rp fire |
| PolynomialAnalyzer.PowerInfoSpec | src/AST/Polynomials/PolynomialAnalyzer.ts:127-141 | ParseExponentiationInfo reads a power as a variable to a nonzero integer real literal; a power with fewer than two arguments is a host error, and any other power gives no term |
| PolynomialAnalyzer.FactorsStop | src/AST/Polynomials/PolynomialAnalyzer.ts:86-101 | the factor loop returns at the first factor it rejects, so the factors after it are not read |
| PolynomialAnalyzer.FactorsParse | src/AST/Polynomials/PolynomialAnalyzer.ts:82-111 | a product is a term exactly when each factor is a literal, a variable or an accepted power; a host error can come only from a malformed power |
| PolynomialAnalyzer.AbsorbParsable | src/AST/Polynomials/PolynomialAnalyzer.ts:87-98 | a literal factor multiplies into the coefficient, and a variable or power factor adds its power to its variable's entry (`get(v) \|\| 0` plus the power) |
| PolynomialAnalyzer.FactorsSum | src/AST/Polynomials/PolynomialAnalyzer.ts:82-111 | a parsed product has one entry per variable, its degree is the sum of the factors' powers, and its coefficient is 1 times the literal factors in order |
| PolynomialAnalyzer.FactorsPowers | src/AST/Polynomials/PolynomialAnalyzer.ts:86-101 | each variable's power is the sum of its contributions, and it has an entry exactly when some factor mentions it |
| PolynomialAnalyzer.ParseMultiply | src/AST/Polynomials/PolynomialAnalyzer.ts:82-111 | the loop over the factors computes the term ProductTerm describes |
| PolynomialAnalyzer.AbsorbFactor | src/AST/Polynomials/PolynomialAnalyzer.ts:86-100 | one pass of the loop: a literal multiplies into the coefficient, a variable or an accepted power adds to its power, anything else stops the parse, as Absorb does |
| PowerMaps.SumPowers | src/AST/Polynomials/PolynomialAnalyzer.ts:103-104 | the `forEach` over the powers adds them all up: the degree is Sum of the powers |
| PolynomialAnalyzer.TermsOfSpec | src/AST/Polynomials/PolynomialAnalyzer.ts:46-58 | a sum is parsed exactly when every summand is a term, and then its terms are the summands' terms, in order |
| PolynomialAnalyzer.OneBadSummand | src/AST/Polynomials/PolynomialAnalyzer.ts:51-54 | one summand that is not a term makes the whole sum unparsable |
| PolynomialAnalyzer.TermsOfNeverFails | src/AST/Polynomials/PolynomialAnalyzer.ts:46-58 | the sum loop fails only when a summand does |
| PolynomialAnalyzer.ZeroExponentUnparsable | src/AST/Polynomials/PolynomialAnalyzer.ts:134-135 | `x ^ 0` is not a term, alone or as a factor of a product, since `!power` rejects 0 |
| PolynomialAnalyzer.ParseTerm | src/AST/Polynomials/PolynomialAnalyzer.ts:60-80 | ParseTerm gives a variable coefficient 1 and power 1, a literal no powers, parses products and powers, and gives no term for any other node |
| PolynomialAnalyzer.ParseAdd | src/AST/Polynomials/PolynomialAnalyzer.ts:46-58 | ParseAdd parses every summand and makes a polynomial of the terms, or gives none |
| PolynomialAnalyzer.TermsOfStop | src/AST/Polynomials/PolynomialAnalyzer.ts:51-54 | the sum loop returns at the first summand that is not a term |
| PolynomialAnalyzer.Parse | src/AST/Polynomials/PolynomialAnalyzer.ts:35-44 | Parse parses a sum summand by summand, and any other node as a polynomial of one term |
| PolynomialAnalyzer.CreatePolynomial | src/AST/Polynomials/PolynomialAnalyzer.ts:143-169 | the loop over the terms gathers the variables and the maximum degree, as Create does |
| PolynomialAnalyzer.FirstOfDegreeSpec | src/AST/Polynomials/PolynomialAnalyzer.ts:152-156 | the leading and constant coefficients come from the first term of the degree, or none when no term has it |
| PolynomialAnalyzer.MaxDegreeSpec | src/AST/Polynomials/PolynomialAnalyzer.ts:145-150 | the degree starts at 0: it is at least 0, no term has more, and it is 0 or some term's degree |
| PolynomialAnalyzer.AllKeysSpec | src/AST/Polynomials/PolynomialAnalyzer.ts:144-148 | a name is a variable of the polynomial exactly when some term has a power of it |
| PolynomialAnalyzer.CreateSpec | src/AST/Polynomials/PolynomialAnalyzer.ts:143-169 | CreatePolynomial: the degree is the largest term degree or 0; the leading coefficient is the first coefficient of that degree and the constant term the first of degree 0, each literal 0 when there is none; the variables are listed once, exactly those of the terms |
| PolynomialAnalyzer.FirstUnique | src/AST/Polynomials/PolynomialAnalyzer.ts:152-156 | only one term is the first of a degree, so the coefficients CreateSpec names are well defined |
| PolynomialAnalyzer.HomogeneousSpec | src/AST/Polynomials/PolynomialAnalyzer.ts:171-175 | IsHomogeneous holds exactly when all terms have one degree, so for no terms too |
| PolynomialAnalyzer.GetType | src/AST/Polynomials/PolynomialAnalyzer.ts:208-225 | degrees 0 to 5 have their own type and every other degree is Higher |
| PolynomialAnalyzer.Classify | src/AST/Polynomials/PolynomialAnalyzer.ts:188-206 | the loop copies the variables into a list that is then deduplicated, as ClassificationOf does |
| PolynomialAnalyzer.DeDupOne | src/AST/Polynomials/PolynomialAnalyzer.ts:196-202 | the deduplicated list has one item exactly when one name occurs |
| PolynomialAnalyzer.DeDupConstant | src/AST/Polynomials/PolynomialAnalyzer.ts:196 | a list of one repeated name deduplicates to that name |
| PolynomialAnalyzer.DeDupTwo | src/AST/Polynomials/PolynomialAnalyzer.ts:196-203 | the deduplicated list has more than one item exactly when two different names occur |
| PolynomialAnalyzer.ClassifySpec | src/AST/Polynomials/PolynomialAnalyzer.ts:188-237 | a polynomial is univariate exactly when one name occurs among its variables, multivariate exactly when two do, and its special forms are its homogeneous, binomial and trinomial flags |
| PolynomialAnalyzer.CollapseDistinct | src/AST/Polynomials/PolynomialAnalyzer.ts:266-271 | a power map with one entry per variable is copied unchanged into `temp` |
| PolynomialAnalyzer.PowerSignature | src/AST/Polynomials/PolynomialAnalyzer.ts:266-278 | the two loops sum the powers per variable and print `variable^power` for each, as SignatureOf does |
| PolynomialAnalyzer.CoefficientOfSpec | src/AST/Polynomials/PolynomialAnalyzer.ts:242-254 | GetCoefficient gives the coefficient of the first term with the signature, or literal 0 when none has it |
| PolynomialAnalyzer.GetCoefficient | src/AST/Polynomials/PolynomialAnalyzer.ts:242-254 | GetCoefficient compares the signature of the given powers with each term's |
| PolynomialAnalyzer.GetCoefficients | src/AST/Polynomials/PolynomialAnalyzer.ts:256-264 | the loop sets each term's coefficient under its signature, as CoefficientTable does |
| PolynomialAnalyzer.CoefficientTableSpec | src/AST/Polynomials/PolynomialAnalyzer.ts:256-264 | GetCoefficients has an entry exactly for the terms' signatures, holding the LAST coefficient of each |
| PolynomialAnalyzer.Degrees | src/AST/Polynomials/PolynomialAnalyzer.ts:284 | the degrees are the terms' degrees, in order |
| PolynomialAnalyzer.InsertSpec | src/AST/Polynomials/PolynomialAnalyzer.ts:284 | inserting into an ascending list keeps it ascending and adds the one item |
| PolynomialAnalyzer.SortSpec | src/AST/Polynomials/PolynomialAnalyzer.ts:284 | the sort with the comparator `b > a` puts the same items in ascending order |
| PolynomialAnalyzer.PowersSpec | src/AST/Polynomials/PolynomialAnalyzer.ts:283-295 | the powers are the term degrees in ascending order, a degree is among them exactly when some term has it, and hasConstantTerm holds exactly when some term has degree 0 |
| PolynomialAnalyzer.SymmetrySpec | src/AST/Polynomials/PolynomialAnalyzer.ts:297-318 | Even and Odd are reported exactly when the polynomial has one variable and every degree is even, respectively odd; never both when there is a term |
| PolynomialAnalyzer.TermsOfDegree | src/AST/Polynomials/PolynomialAnalyzer.ts:323-325 | GetTermsOfDegree keeps exactly the terms of the degree |
| PolynomialAnalyzer.Analyze | src/AST/Polynomials/PolynomialAnalyzer.ts:16-30 | Analyze gives none when Parse does, and otherwise the polynomial with its classification, coefficient table and structure |
| BasicRules.SameConstants | src/Simplification/BasicRules.ts:20 | the BasicNodes constants the duplicated entries call build the same nodes as the Nodes constants (also lines 44 and 57) |
| BasicRules.Composition | src/Simplification/BasicRules.ts:16-76 | the list is the two power rules, the first two additive rules and the first five multiplicative rules, as written and corrected; the like-term and power-product rules are not in it |
| BasicRules.Replacements | src/Simplification/BasicRules.ts:16-76 | P^0, P^1 and P * 0 replace the whole node (and Literal * -1 as written); every other entry replaces matched arguments; the first two are power patterns, the next two sums, the rest products |
| BasicNodes.LiteralValue | src/Node/BasicNodes.ts:20-41 | a number literal is n/1 + 0/1 i; a complex literal stores its value unreduced; NegativeOne, One and Zero are the literals -1, 1 and 0 (also lines 159-169) |
| BasicNodes.OperandsKept | src/Node/BasicNodes.ts:57-62 | Add, Multiply, List and Function store their operands exactly as given (also lines 71-76, 92-98 and 128-133) |
| BasicNodes.DerivedShapes | src/Node/BasicNodes.ts:64-69 | Divide is Multiply[n1, n2^-1] and Subtract is Add[n1, Multiply[n2, -1]] (also lines 78-83) |
| BasicNodes.Arities | src/Node/BasicNodes.ts:85-90 | Exponentiation and Equals have two operands, Absolute and Factorial one (also lines 107-126) |
| BasicNodes.TensorShapes | src/Node/BasicNodes.ts:135-149 | Vector has shape [length]; Matrix has shape [rows, cols] with no check against the element count |
| Calculus.Derive | src/AST/Calculus.ts:98-117 | a power is derived only when it has both a base and an exponent |
| Calculus.DerivePower | src/AST/Calculus.ts:98-117 | VisitExponentiation succeeds only when the base and the exponent both derive |
| Calculus.DeriveAbsolute | src/AST/Calculus.ts:119-124 | VisitAbsolute succeeds only when its argument is there and derives |
| Calculus.DeriveAll | src/AST/Calculus.ts:70 | `args.map(arg => this.Visit(arg))` gives one derivative per argument (also lines 150 and 154) |
| Calculus.DeriveAllSpec | src/AST/Calculus.ts:70 | the map succeeds exactly when every argument derives, and then holds their derivatives in order (also lines 150 and 154) |
| Calculus.DeriveAllFails | src/AST/Calculus.ts:70 | a failed map fails with the error of its first failing argument (also lines 150 and 154) |
| Calculus.DeriveAllPrefixErr | src/AST/Calculus.ts:70 | once an argument fails, the later ones are not visited (also lines 150 and 154) |
| Calculus.LeafRules | src/AST/Calculus.ts:53-67 | the variable derives to 1 and a constant to 0; another variable derives to 0 when held constant, and as written `this.Visit(node)` on it never returns |
| Calculus.SumRule | src/AST/Calculus.ts:69-72 | a sum derives exactly when each summand does, to Nodes.Add of their derivatives |
| Calculus.ProductRule | src/AST/Calculus.ts:74-96 | a product of two or more factors derives exactly when each factor does, to the sum over i of the product with factor i replaced by its derivative |
| Calculus.ElementwiseRule | src/AST/Calculus.ts:149-155 | lists and tensors derive element by element and keep their kind and shape |
| Calculus.PowerDerivative | src/AST/Calculus.ts:98-117 | b^e derives to b^e · (b' · e / b + e' · ln b); a missing base or exponent is a host error |
| Calculus.ArgsOfPower | src/AST/Calculus.ts:99 | the destructuring reads the base and exponent when present, and a missing one is nil |
| Calculus.AbsoluteDerivative | src/AST/Calculus.ts:119-124 | \|u\| derives to u / \|u\| · u' |
| Calculus.FunctionDerivative | src/AST/Calculus.ts:126-141 | a function derives to its table derivative times the first argument's derivative, and throws "Function not found" for a name not in the table |
| Calculus.ThrowingRules | src/AST/Calculus.ts:143-161 | factorials and equations throw a Derivative error |
| Calculus.ErrorKinds | src/AST/Calculus.ts:38-162 | every error is a Derivative error, a host error or the non-terminating visit, and with other variables held constant never the last |
| Calculus.FirstError | src/AST/Calculus.ts:69-96 | a failing sum, product, list or tensor fails with one of those errors (also lines 149-155) |
| Calculus.OnlyTheVariable | src/AST/Calculus.ts:61-67 | as written a tree derives only when the variable is its only variable |
| Calculus.ArgDerives | src/AST/Calculus.ts:69-155 | when a node derives, each of its arguments derives |
| Calculus.SingleFactorDerives | src/AST/Calculus.ts:77-78 | a product of one factor derives as that factor does |
| Calculus.PowerArgsDerive | src/AST/Calculus.ts:98-102 | a power that derives has a base and an exponent that both derive |
| Calculus.AbsoluteArgDerives | src/AST/Calculus.ts:119-122 | an absolute value that derives has an argument that derives |
| Calculus.MappedArgDerives | src/AST/Calculus.ts:69-96 | each argument of a sum, product, list or tensor that derives derives (also lines 149-155) |
| Calculus.OtherVariable | src/AST/Calculus.ts:61-66 | for another variable, as written the visit never returns, and with the variable held constant its derivative is 0 |
| Calculus.DerivativeVisitor.constructor | src/AST/Calculus.ts:38-46 | the variable is the given one when it is given and not empty, and "x" otherwise |
| Calculus.DerivativeVisitor.SetVariable | src/AST/Calculus.ts:48-51 | SetVariable sets the variable |
| Calculus.DerivativeVisitor.VisitMultiply | src/AST/Calculus.ts:74-96 | the nested loops give the product-rule derivative with other variables held constant |
| Calculus.DerivativeVisitor.VisitFactor | src/AST/Calculus.ts:84-92 | the inner loop multiplies factor i's derivative with the other factors left as they are, or passes on the error that derivative throws |
| PatternExpansion.ExpansionCache.constructor | src/Matching/PatternExpander.ts:9-11 | an empty cache of the given size |
| PatternExpansion.ExpansionCache.GetKey | src/Matching/PatternExpander.ts:13-19 | the key of the pattern's encoding, or a CacheError when it cannot be encoded |
| PatternExpansion.ExpansionCache.Get | src/Matching/PatternExpander.ts:21-31 | a hit returns the stored expansion and makes its key the newest; a miss returns nothing and changes nothing; the stored entries never change |
| PatternExpansion.ExpansionCache.Set | src/Matching/PatternExpander.ts:33-47 | the key then holds the result; a present key is replaced and made the newest; a new key is appended, after evicting the oldest key when the cache is full; no other entry changes |
| PatternExpansion.ExpansionCache.Replace | src/Matching/PatternExpander.ts:36-37 | set on a stored key: delete, then store as the newest (also lines 46) |
| PatternExpansion.ExpansionCache.Detach | src/Matching/PatternExpander.ts:36-37 | deleting a stored key takes it out of the insertion order exactly once and leaves the stored expansions alone |
| PatternExpansion.ExpansionCache.Insert | src/Matching/PatternExpander.ts:38-46 | set on a new key: evict the oldest when full, then append |
| PatternExpansion.ExpansionCache.Attach | src/Matching/PatternExpander.ts:46 | storing a key the cache lacks appends it as the newest entry and restores the cache invariant |
| PatternExpansion.ExpansionCache.EvictOldest | src/Matching/PatternExpander.ts:40-43 | the loop that breaks after one key deletes exactly the oldest entry |
| PatternExpansion.ExpansionCache.Clear | src/Matching/PatternExpander.ts:49-51 | the cache is empty |
| PatternExpansion.ExpansionCache.GetSize | src/Matching/PatternExpander.ts:53-55 | the number of entries, never more than the capacity |
| PatternExpansion.WithoutDistinct | src/Matching/PatternExpander.ts:26-27 | deleting a stored key from the order leaves it duplicate-free and one shorter (also lines 36-37) |
| PatternExpansion.PatternExpander.constructor | src/Matching/PatternExpander.ts:68-77 | missing settings default to depth 100, caching on and 500 entries; an empty cache of that size |
| PatternExpansion.PatternExpander.SetConfig | src/Matching/PatternExpander.ts:156-158 | changes the named setting and no other; the cache keeps its size |
| PatternExpansion.PatternExpander.ClearCache | src/Matching/PatternExpander.ts:152-154 | the cache is empty |
| PatternExpansion.PatternExpander.Expand | src/Matching/PatternExpander.ts:79-92 | with caching off, the depth-bounded expansion and the cache untouched; a hit returns the stored instances, which are the expansion of the pattern stored under that key; a miss expands and stores a success; with distinct keys per pattern every success is the pattern's expansion; errors are only MaxDepthExceeded or CacheError |
| PatternExpansion.PatternExpander.ExpandPattern | src/Matching/PatternExpander.ts:94-109 | the instances of each alternative, in order, or MaxDepthExceeded when the pattern nests deeper than the bound |
| PatternExpansion.PatternExpander.ExpandNode | src/Matching/PatternExpander.ts:111-118 | an argless node is its own single instance; otherwise expandNormal; MaxDepthExceeded exactly when too deep |
| PatternExpansion.PatternExpander.ExpandNormal | src/Matching/PatternExpander.ts:120-125 | each slot expanded, then combined |
| PatternExpansion.PatternExpander.GenerateCombinations | src/Matching/PatternExpander.ts:127-150 | each combination becomes one instance, or one instance per ordering when the node is commutative |
| Expansion.PrependEachMembers | src/Matching/PatternExpander.ts:192 | the flatMap holds exactly the lists whose head is in the first array and whose tail is in the rest |
| Expansion.CartesianProductSize | src/Matching/PatternExpander.ts:185-193 | there are as many combinations as the product of the array sizes |
| Expansion.CartesianProductMembers | src/Matching/PatternExpander.ts:185-193 | a combination is exactly a list with one entry from each array, in order |
| Expansion.PermutationsSize | src/Matching/PatternExpander.ts:160-183 | k entries have k! orderings |
| Expansion.PermutationsSound | src/Matching/PatternExpander.ts:160-183 | every ordering is a rearrangement of the entries |
| Expansion.PermutationsComplete | src/Matching/PatternExpander.ts:160-183 | every rearrangement of the entries is among the orderings |
| Expansion.InstancesCount | src/Matching/PatternExpander.ts:127-150 | combinations of k entries give one instance each, or k! for a commutative node |
| Expansion.InstancesHead | src/Matching/PatternExpander.ts:132-147 | the first combination's instances come first |
| Expansion.ExpandConcat | src/Matching/PatternExpander.ts:94-109 | the alternatives contribute their instances in order; the empty pattern has none |
| Expansion.ExpandSingle | src/Matching/PatternExpander.ts:94-109 | a one-alternative pattern expands as its node |
| Expansion.ExpandNodeCount | src/Matching/PatternExpander.ts:111-150 | an argless node has one instance; otherwise the product of the slot counts, times k! for a commutative node of k slots |
| Expansion.NonCommutativeInstances | src/Matching/PatternExpander.ts:120-150 | an instance of a non-commutative node takes slot i's argument from slot i's instances, and every such choice is an instance |
| Expansion.CommutativeInstances | src/Matching/PatternExpander.ts:120-150 | a commutative node's instances are exactly the rearrangements of each combination |
| Expansion.InstancesMembers | src/Matching/PatternExpander.ts:141-146 | without commutativity the instances are exactly the combinations |
| Expansion.CommutativeMembers | src/Matching/PatternExpander.ts:133-140 | with commutativity the instances are exactly the rearrangements of the combinations |
| Expansion.ExpandNodeShaped | src/Matching/PatternExpander.ts:127-150 | every instance has one argument per slot and carries the node's own type, name, number, conditions and capture |
| Expansion.DeepAlternative | src/Matching/PatternExpander.ts:94-97 | one alternative too deep for the bound makes the whole expansion fail with MaxDepthExceeded |
| Expansion.ShallowPattern | src/Matching/PatternExpander.ts:94-109 | when every alternative is within the bound, the expansion succeeds with the joined instances |
| Expansion.HeightBound | src/Matching/PatternExpander.ts:94-109 | a pattern is within a height exactly when each alternative is |
| Expansion.SlotsHeightBound | src/Matching/PatternExpander.ts:120-125 | a node's slots are within a height exactly when each slot's pattern is one less |
| Fractions.Gcd | src/Math/Symbolic/Fraction.ts:4-13 | the loop on the absolute values returns Euclid's gcd: a common divisor of a and b that every common divisor divides; \|a\| when b is 0 |
| Fractions.GcdDivides | src/Math/Symbolic/Fraction.ts:4-13 | Euclid's gcd divides both arguments |
| Fractions.GcdGreatest | src/Math/Symbolic/Fraction.ts:4-13 | every common divisor divides Euclid's gcd |
| Fractions.GcdZero | src/Math/Symbolic/Fraction.ts:4-13 | the gcd is 0 exactly when both arguments are |
| Fractions.GcdScale | src/Math/Symbolic/Fraction.ts:4-13 | gcd(a k, b k) = gcd(a, b) k |
| Fractions.SimplifyExact | src/Math/Symbolic/Fraction.ts:15-22 | with a nonzero denominator, the divisor is positive and divides both sign-corrected fields exactly, and the new denominator is positive |
| Fractions.SimplifyCoprime | src/Math/Symbolic/Fraction.ts:15-22 | Simplify leaves numerator and denominator with no common factor |
| Fractions.SimplifyNormalises | src/Math/Symbolic/Fraction.ts:15-22 | with a nonzero denominator, Simplify keeps the value, makes the denominator positive and reduces to lowest terms |
| Fractions.SimplifyZeroDenominator | src/Math/Symbolic/Fraction.ts:15-22 | n/0 with n ≠ 0 simplifies to sign(n)/0 |
| Fractions.SimplifyValue | src/Math/Symbolic/Fraction.ts:15-22 | Simplify of a fraction of value v is normal with value v |
| Fractions.AddIsSum | src/Math/Symbolic/Fraction.ts:24-29 | Add is normal and has the value of the sum |
| Fractions.SubtractIsDifference | src/Math/Symbolic/Fraction.ts:31-36 | Subtract is normal and has the value of the difference |
| Fractions.MultiplyIsProduct | src/Math/Symbolic/Fraction.ts:38-43 | Multiply is normal and has the value of the product |
| Fractions.DivideIsQuotient | src/Math/Symbolic/Fraction.ts:45-50 | Divide by a nonzero fraction is normal and has the value of the quotient |
| Fractions.DivideByZeroAccepted | src/Math/Symbolic/Fraction.ts:45-50 | a zero divisor is not rejected: 1/1 divided by 0/1 is 1/0 |
| Fractions.Commute | src/Math/Symbolic/Fraction.ts:24-43 | Add and Multiply give the same fraction, fields included, in either order |
| Fractions.EqualIsFieldwise | src/Math/Symbolic/Fraction.ts:66-68 | Equal compares fields: 1/2 and 2/4 have one value but are not Equal |
| Fractions.EqualOnNormal | src/Math/Symbolic/Fraction.ts:66-68 | on normal fractions, Equal holds exactly when the values agree |
| Fractions.NormalUnique | src/Math/Symbolic/Fraction.ts:15-22 | two normal fractions of one value are the same fraction (also lines 66-68) |
| Fractions.IsIntegerIffUnitDenominator | src/Math/Symbolic/Fraction.ts:81-83 | IsInteger holds exactly for denominator 1, since numerators are whole |
| Fractions.FromNumberIsWhole | src/Math/Symbolic/Fraction.ts:70-75 | FractionFromNumber(v) is v/1, an integer of value v |
| Fractions.ValueZeroIff | src/Math/Symbolic/Fraction.ts:77-79 | IsZero holds exactly when the value is 0 |
| LaTeX.LaTeXFraction | src/Visitors/String.ts:130-138 | a zero fraction prints as "0" |
| LaTeX.FractionStringHead | src/Visitors/String.ts:130-138 | the printed fraction is never empty, and starts with `\frac` exactly when it is neither zero nor an integer |
| LaTeX.FractionStringInjective | src/Visitors/String.ts:130-138 | two reduced fractions with one printed form are equal |
| LaTeX.FracInjective | src/Visitors/String.ts:136 | `\frac{a}{b}` determines a and b |
| LaTeX.RenderAll | src/Visitors/String.ts:47 | rendering the arguments gives one string per argument |
| LaTeX.RenderOk | src/Visitors/String.ts:21-128 | rendering succeeds exactly on the trees Renderable accepts: every argument the code reads is there, no tensor has more than 2 dimensions, and every matrix cell read is stored |
| LaTeX.RenderAllOk | src/Visitors/String.ts:47 | the arguments render exactly when each does (also lines 51, 59, 63 and 75) |
| LaTeX.CellOk | src/Visitors/String.ts:88-97 | a cell in the shape renders exactly when its element is stored and renders |
| LaTeX.RowsOk | src/Visitors/String.ts:86-103 | the first rows of a matrix render exactly when their cells are all stored and all render |
| LaTeX.RowCellsOk | src/Visitors/String.ts:87-100 | the first cells of a row render exactly when they are stored and render |
| LaTeX.CellAt | src/Visitors/String.ts:88 | cell (i, c) of a matrix is element i × columns + c |
| LaTeX.MatrixOk | src/Visitors/String.ts:83-105 | a matrix renders exactly when Renderable accepts it |
| LaTeX.VectorOk | src/Visitors/String.ts:107-122 | corrected, the first cells of a vector render exactly when they are stored and render |
| LaTeX.VectorsNeverRender | src/Visitors/String.ts:109 | as written no vector renders: `shape[1]` of a one-dimensional shape is nil, and comparing with it throws |
| LaTeX.VectorAsRow | src/Visitors/String.ts:106-125 | corrected, a two-element vector renders as `{\begin{bmatrix}a&b\end{bmatrix}}` |
| LaTeX.RenderVector | src/Visitors/String.ts:106-125 | corrected, a vector renders as its cells between `\begin{bmatrix}` and `\end{bmatrix}` |
| LaTeX.VectorPair | src/Visitors/String.ts:109-122 | a two-cell vector's cells are joined by one `&` |
| LaTeX.VectorFirst | src/Visitors/String.ts:121 | every cell but the last is followed by `&` |
| LaTeX.VectorCellAt | src/Visitors/String.ts:110 | corrected, cell k of a vector is element k |
| LaTeX.Braced | src/Visitors/String.ts:26-127 | every rendering is "0" or is wrapped in braces |
| LaTeX.CellIsGetElement | src/Visitors/String.ts:88-97 | a cell GetElement does not find throws "Out of bounds", and a found one renders as its element |
| LaTeX.RowsErrPersists | src/Visitors/String.ts:86-103 | the first error in a matrix is the one thrown |
| LaTeX.RowCellsErrPersists | src/Visitors/String.ts:87-100 | the first error in a row is the one thrown |
| LaTeX.VectorErrPersists | src/Visitors/String.ts:109-122 | the first error in a vector is the one thrown |
| LaTeX.VisitTensor | src/Visitors/String.ts:78-127 | VisitTensor throws a Visualizer error for more than 2 dimensions, and renders a matrix or a vector otherwise |
| LaTeX.VisitMatrix | src/Visitors/String.ts:83-105 | the nested loops render the matrix as Render does |
| LaTeX.AppendRow | src/Visitors/String.ts:86-103 | one pass of the outer loop extends the rendering of the rows before i by row i and its separator, or throws the error the row throws |
| LaTeX.VisitRow | src/Visitors/String.ts:87-100 | the inner loop renders one row |
| LaTeX.VisitCell | src/Visitors/String.ts:88-97 | GetElement and then Visit give the cell's rendering, or the "Out of bounds" Visualizer error when there is no element |
| LaTeX.AppendCell | src/Visitors/String.ts:88-99 | the cell is appended, with `&` after it unless it is the last, or its error is passed on |
| LaTeX.VisitVector | src/Visitors/String.ts:106-125 | corrected, the loop renders the vector |
| LaTeX.AppendElement | src/Visitors/String.ts:109-122 | one pass of the corrected vector loop extends the rendering of the elements before i by element i, or throws the error the element throws |
| LiteralUtils.SingleOperand | src/Node/Literal.ts:5-20 | a single literal is returned as it is by AddValues and MultiplyValues |
| LiteralUtils.TwoOperandsCommute | src/Node/Literal.ts:5-20 | two literals fold to the same literal in either order: their complex sum and product |
| LiteralUtils.TwoNumbers | src/Node/Literal.ts:5-20 | the fold of two numbers is ComplexUtils.Add / Multiply of them |
| LiteralUtils.AddValuesIsSum | src/Node/Literal.ts:5-10 | AddValues has as real and imaginary parts the sums of the operands' parts, normalised from two operands on |
| LiteralUtils.MultiplyValuesIsProduct | src/Node/Literal.ts:12-20 | MultiplyValues has as value the exact complex product of the operands, normalised from two operands on |
| LiteralUtils.MultiplyParts | src/Node/Literal.ts:12-20 | one step of the fold multiplies by (a + bi)(c + di) = (ac - bd) + (ad + bc)i |
| Complexes.AddIsSum | src/Math/Symbolic/Complex.ts:5-10 | Add adds the real parts and the imaginary parts, normalised |
| Complexes.SubtractIsDifference | src/Math/Symbolic/Complex.ts:12-17 | Subtract subtracts the parts, normalised |
| Complexes.MultiplyIsProduct | src/Math/Symbolic/Complex.ts:19-29 | (a + bi)(c + di) = (ac - bd) + (ad + bc)i, normalised |
| Complexes.NormSquaredValue | src/Math/Symbolic/Complex.ts:40-43 | the divisor is c² + d² |
| Complexes.QuotientReValue | src/Math/Symbolic/Complex.ts:32-35 | the real numerator is ac + bd |
| Complexes.QuotientImValue | src/Math/Symbolic/Complex.ts:36-39 | the imaginary numerator is bc - ad |
| Complexes.DivideIsQuotient | src/Math/Symbolic/Complex.ts:31-49 | when c² + d² is not 0, Divide is ((ac + bd) + (bc - ad)i) / (c² + d²), normalised |
| Complexes.Commute | src/Math/Symbolic/Complex.ts:5-29 | Add and Multiply give the same complex number, fields included, in either order |
| Complexes.EqualIsIdentity | src/Math/Symbolic/Complex.ts:51-53 | Equal holds exactly when both fraction pairs are identical |
| Complexes.ConstantsValues | src/Math/Symbolic/Complex.ts:55-66 | Zero, One and OneI are 0, 1 and i (also lines 81-91) |
| Complexes.FromNumbersUnreduced | src/Math/Symbolic/Complex.ts:68-79 | FromNumbers stores its fractions unreduced: 2/4 stays 2/4 |
| Matcher.MatchSingleGrows | src/Matching/PatternMatcher.ts:85-127 | a successful match only adds captures, never changes one |
| Matcher.MatchesExtend | src/Matching/PatternMatcher.ts:85-141 | a pattern that matches under a capture map matches under every larger one |
| Matcher.MatchSingleSound | src/Matching/PatternMatcher.ts:85-141 | when MatchSingleNode succeeds, the node has the pattern's fields, satisfies its conditions, each capture name is bound to an Equal node and the arguments match pairwise, all under the final captures |
| Matcher.MatchFromSound | src/Matching/PatternMatcher.ts:129-141 | when MatchArgs succeeds from position i, every later argument matches its slot under the final captures |
| Matcher.MatchSingleComplete | src/Matching/PatternMatcher.ts:85-141 | when the node matches the pattern under some capture map that the current captures agree with, MatchSingleNode succeeds and its captures still agree with that map |
| Matcher.BindComplete | src/Matching/PatternMatcher.ts:86-94 | the capture step succeeds when the map binds the name to an Equal node |
| Matcher.MatchFromComplete | src/Matching/PatternMatcher.ts:129-141 | when every argument from i on matches its slot under a map the captures agree with, MatchArgs succeeds |
| Matcher.MatchFresh | src/Matching/PatternMatcher.ts:75-83 | MatchPattern succeeds exactly when some capture map makes the node match the pattern |
| Matcher.MatchSingleNode | src/Matching/PatternMatcher.ts:85-127 | the statement-by-statement matcher, with its early returns, computes the reference match |
| Matcher.CaptureStep | src/Matching/PatternMatcher.ts:86-94 | binds an unseen capture name, and otherwise succeeds only on a node Equal to the bound one |
| Matcher.FieldTests | src/Matching/PatternMatcher.ts:96-118 | the type, string, number and condition tests, in order, hold exactly when the fields match |
| Matcher.MatchArgsLoop | src/Matching/PatternMatcher.ts:129-141 | fails on a length mismatch, else matches the arguments in order, threading the captures, stopping at the first failure |
| Matcher.GetIndicesArray | src/Matching/PatternMatcher.ts:231-237 | the loop returns 0, 1, ..., size - 1 |
| Matcher.CombosSound | src/Matching/PatternMatcher.ts:212-225 | every list backtrack produces is an ascending choice of k positions from start to n |
| Matcher.CombosComplete | src/Matching/PatternMatcher.ts:212-225 | every ascending choice of k positions from start to n is produced |
| Matcher.CombosCount | src/Matching/PatternMatcher.ts:212-225 | backtrack produces C(n - start, k) lists |
| Matcher.CombosTooMany | src/Matching/PatternMatcher.ts:206 | with more slots than positions left there is no combination (also lines 212-225) |
| Matcher.CombosExact | src/Matching/PatternMatcher.ts:208 | with as many slots as positions left the one combination is the full range (also lines 212-225) |
| Matcher.GenerateCombinationsIsBacktracking | src/Matching/PatternMatcher.ts:205-229 | the three shortcuts return what the backtracking would |
| Matcher.GenerateCombinationsMeaning | src/Matching/PatternMatcher.ts:205-229 | the combinations are exactly the ascending choices of count positions, C(n, count) of them |
| Matcher.Backtrack | src/Matching/PatternMatcher.ts:212-225 | the recursive method with its loop extends current by every ascending choice from start, in lexicographic order |
| Matcher.GenerateCombinationsLoop | src/Matching/PatternMatcher.ts:205-229 | the method computes GenerateCombinations |
| Matcher.FirstMatchFirst | src/Matching/PatternMatcher.ts:161-181 | the combination loop returns the first combination whose arguments match the slots from fresh captures, and nothing exactly when none does |
| Matcher.FindPartialSound | src/Matching/PatternMatcher.ts:143-182 | a partial match is an Add or Multiply of the pattern's type; its indices are an ascending choice of as many positions as slots; those arguments match the slots; every combination before it fails |
| Matcher.FindPartialComplete | src/Matching/PatternMatcher.ts:143-182 | when some ascending choice of positions matches the slots, FindPartialMatches finds a match |
| Matcher.FindPartialMatches | src/Matching/PatternMatcher.ts:143-182 | the method with its loops and early exits computes the partial match |
| Matcher.KeepMembers | src/Matching/PatternMatcher.ts:190-195 | the arguments kept are exactly those at positions not removed |
| Matcher.KeepLength | src/Matching/PatternMatcher.ts:190-195 | removing ascending in-range indices removes one argument per index |
| Matcher.ReplaceChildrenShape | src/Matching/PatternMatcher.ts:184-203 | the replacement keeps the node's kind and other fields; the last argument is the rule's new child; every other argument is an unmatched original, and every unmatched original is kept; one argument per index is removed |
| Matcher.ReplaceChildrenLoop | src/Matching/PatternMatcher.ts:184-203 | copying, sorting the indices with a > b (they stay ascending), removing them from the largest down and pushing the new child gives ReplaceChildren |
| Matcher.ApplyInstancesFirst | src/Matching/PatternMatcher.ts:22-50 | the rewrite of the first instance that fires (a match or partial match, all required captures, a node or children action) is returned; nothing exactly when none fires |
| Matcher.ApplyInstancesHead | src/Matching/PatternMatcher.ts:25-47 | the first instance is tried, then the rest |
| Matcher.AttemptIndices | src/Matching/PatternMatcher.ts:26-32 | after a full match the indices are all argument positions; an argless node gets no indices; any indices are ascending and in range |
| Matcher.MatchInstancesFirst | src/Matching/PatternMatcher.ts:52-73 | Match returns the captures of the first instance that matches, and nothing exactly when none does |
| Matcher.AttemptLoop | src/Matching/PatternMatcher.ts:26-32 | one instance: full match, else partial match on sums and products, else all indices |
| Matcher.ApplyInstancesLoop | src/Matching/PatternMatcher.ts:25-49 | the loop over the instances with its early return computes ApplyInstances |
| Matcher.MatchInstancesLoop | src/Matching/PatternMatcher.ts:55-72 | the loop over the instances with its early return computes MatchInstances |
| Matcher.PatternMatcher.constructor | src/Matching/PatternMatcher.ts:18-20 | a fresh expander with depth 100, caching on, a cache of 500 entries, empty |
| Matcher.PatternMatcher.ApplyRuleWithPartialMatch | src/Matching/PatternMatcher.ts:22-50 | expands the rule's pattern (an error only for depth or cache) and returns the first instance's rewrite; with distinct cache keys this is the rewrite over the pattern's whole expansion |
| Matcher.PatternMatcher.Match | src/Matching/PatternMatcher.ts:52-73 | expands the pattern and returns the first instance's captures; with distinct cache keys this is over the whole expansion |
| Registries.Bindings | src/Registry.ts:12-19 | each argument of addVariables becomes one binding, in order: a bare name binds literal 0, a pair its node |
| Registries.BindAllLookup | src/Registry.ts:12-19 | after a run of bindings a name is bound exactly when it was before or some binding names it, and then to the last binding's node; other names keep their nodes (also lines 30-34) |
| Registries.LastBindingIsLast | src/Registry.ts:13-19 | the binding that counts is the last one naming the key, and there is none exactly when no binding names it (also lines 31-33) |
| Registries.Registry.constructor | src/Registry.ts:5-9 | a new registry has no functions and no converters, and binds `a` to 0 among the variables and to 1 among the constants |
| Registries.Registry.AddVariables | src/Registry.ts:12-20 | addVariables binds each argument's name in turn, overwriting, and changes no other field |
| Registries.Registry.AddPostProcessorFunctions | src/Registry.ts:22-24 | the converters are appended in order, and no other field changes |
| Registries.Registry.AddFunctions | src/Registry.ts:26-28 | the functions are appended in order, and no other field changes |
| Registries.Registry.AddConstants | src/Registry.ts:30-34 | addConstants binds each pair's name in turn, overwriting, and changes no other field |
| Registries.BareNameOverwrites | src/Registry.ts:14-18 | a later bare name resets a bound variable to 0, and a later pair overrides a bare name |
| ArrayPolyfill.FlattenContents | src/Polyfill/Array.ts:1-11 | the concatenation is as long as the arrays together and holds exactly their items |
| ArrayPolyfill.Concat | src/Polyfill/Array.ts:1-11 | concat pushes every item of every array, in order |
| ArrayPolyfill.Mapped | src/Polyfill/Array.ts:49-57 | the mapped array has one entry per item |
| ArrayPolyfill.FlatMap | src/Polyfill/Array.ts:13-22 | flatMap is the concatenation of the callback's arrays, in order |
| ArrayPolyfill.Clamp | src/Polyfill/Array.ts:28-40 | a position is clamped to 0..length, and a negative one counts back from the end |
| ArrayPolyfill.Slice | src/Polyfill/Array.ts:24-47 | slice gives the items from the clamped start up to the clamped end (the length when none is given), or nothing when the start is not before the end |
| ArrayPolyfill.Map | src/Polyfill/Array.ts:49-57 | map gives the callback's result for each item with its index and the array, in order |
| ArrayPolyfill.From | src/Polyfill/Array.ts:59-65 | from gives `size` copies of the value, and none for a negative size |
| ArrayPolyfill.DeDuplicate | src/Polyfill/Array.ts:67-72 | the reduce keeps each item whose value it has not kept yet, as DeDup does |
| ArrayPolyfill.DeDupSpec | src/Polyfill/Array.ts:67-72 | the result has no repeated item and holds exactly the input's values |
| ArrayPolyfill.DeDupDistinct | src/Polyfill/Array.ts:67-72 | an array without repeats comes back unchanged |
| ArrayPolyfill.DeDupIdempotent | src/Polyfill/Array.ts:67-72 | deduplicating twice is deduplicating once |
| ArrayPolyfill.ArrayFromMap | src/Polyfill/Array.ts:74-80 | given an iteration order that lists each key of the map once, arrayFromMap gives as many values as the map has keys, the value of the i-th key at position i |
| ArrayPolyfill.ArrayFromMapComplete | src/Polyfill/Array.ts:74-80 | every key of the map contributes its value at exactly one position of the array |
| PostProcessor.FlatAll | src/Parse/PostProcessor.ts:20-24 | flattening the arguments of any other node keeps their number |
| PostProcessor.ConcatTypeFlattened | src/Parse/PostProcessor.ts:30-41 | concatType leaves no argument of the given kind, and each argument is flattened |
| PostProcessor.FlatFlattened | src/Parse/PostProcessor.ts:9-28 | after flat no sum has a sum argument and no product a product argument, at any depth |
| PostProcessor.ConcatTypeKeeps | src/Parse/PostProcessor.ts:30-41 | flattened arguments of another kind are kept as they are |
| PostProcessor.FlatKeeps | src/Parse/PostProcessor.ts:9-28 | flat changes no tree that is already flattened |
| PostProcessor.FlatIdempotent | src/Parse/PostProcessor.ts:9-28 | flat applied twice is flat applied once |
| PostProcessor.FlatNode | src/Parse/PostProcessor.ts:9-28 | the recursive method computes Flat |
| PostProcessor.ConcatTypeLoop | src/Parse/PostProcessor.ts:30-41 | the loop splices each flattened argument of the kind and pushes every other one, as ConcatType does |
| PostProcessor.ComplexLiteralsVars | src/Parse/PostProcessor.ts:79-93 | complexLiterals removes the variable `i` and no other variable |
| PostProcessor.ComplexLiteralsKeeps | src/Parse/PostProcessor.ts:79-93 | a tree without the variable `i` is unchanged |
| PostProcessor.FindConverter | src/Parse/PostProcessor.ts:46-48 | the converter found lists the name, and there is none exactly when no converter lists it |
| PostProcessor.PostVarsAllMember | src/Parse/PostProcessor.ts:43-77 | a list's variables are those of its entries |
| PostProcessor.PostProcessVars | src/Parse/PostProcessor.ts:43-77 | without converters, postProcess keeps exactly the variables of the parsed tree |
| MultiplicationRules.TablesDiffer | src/Simplification/MultiplicationRules.ts:17-71 | seven rules; the corrected table differs from the written one only in the third and fifth rules; only P * 0 replaces the whole node |
| MultiplicationRules.MulZeroShape | src/Simplification/MultiplicationRules.ts:18-22 | P * 0 is a commutative product of the single slot 0 that replaces the node by 0 |
| MultiplicationRules.MulZeroSound | src/Simplification/MultiplicationRules.ts:18-22 | P * 0 never exceeds a depth of 1; when it fires the node is a product with a zero factor and the result is 0 |
| MultiplicationRules.MulZeroComplete | src/Simplification/MultiplicationRules.ts:18-22 | a product with a zero factor takes the rule |
| MultiplicationRules.MulOneShape | src/Simplification/MultiplicationRules.ts:24-28 | P * 1 is a commutative product of the slots P and 1 that returns P |
| MultiplicationRules.MulOneSound | src/Simplification/MultiplicationRules.ts:24-28 | P * 1 never exceeds a depth of 1, and when it fires one factor 1 was dropped and the other moved last |
| MultiplicationRules.MulOneComplete | src/Simplification/MultiplicationRules.ts:24-28 | a product with a factor 1 beside any other factor takes the rule |
| MultiplicationRules.NegatedValue | src/Simplification/MultiplicationRules.ts:33-35 | the replacement multiplies the literal's number by -1 |
| MultiplicationRules.NegLiteralShape | src/Simplification/MultiplicationRules.ts:30-36 | Literal * -1 is a commutative product of a captured literal slot and -1 |
| MultiplicationRules.NegLiteralAsWrittenSound | src/Simplification/MultiplicationRules.ts:30-36 | as written, Literal * -1 replaces the whole product by the negated literal |
| MultiplicationRules.NegLiteralSound | src/Simplification/MultiplicationRules.ts:30-36 | corrected, Literal * -1 replaces the two matched factors by the negated literal |
| MultiplicationRules.NegLiteralComplete | src/Simplification/MultiplicationRules.ts:30-36 | both versions fire on a product with a literal beside a factor -1 |
| MultiplicationRules.NegLiteralDropsFactors | src/Simplification/MultiplicationRules.ts:30-36 | as written, x · c · -1 with x not a literal and c ≠ -1 becomes the literal -c: x is lost |
| MultiplicationRules.NegLiteralKeepsFactors | src/Simplification/MultiplicationRules.ts:30-36 | corrected, x · c · -1 keeps x beside -c |
| MultiplicationRules.LiteralProductShape | src/Simplification/MultiplicationRules.ts:38-44 | Literal * Literal is a commutative product of two captured literal slots whose replacement is their complex product |
| MultiplicationRules.LiteralProductSound | src/Simplification/MultiplicationRules.ts:38-44 | Literal * Literal never exceeds a depth of 1, and when it fires two literal factors are replaced by their product |
| MultiplicationRules.LiteralProductComplete | src/Simplification/MultiplicationRules.ts:38-44 | a product with two literal factors takes the rule |
| MultiplicationRules.PSquaredShape | src/Simplification/MultiplicationRules.ts:46-52 | P * P is a commutative product of two slots capturing P |
| MultiplicationRules.PSquaredAsWrittenSound | src/Simplification/MultiplicationRules.ts:46-52 | as written, P * P fires on two Equal factors and leaves a power with no exponent |
| MultiplicationRules.PSquaredSound | src/Simplification/MultiplicationRules.ts:46-52 | corrected, P * P replaces two Equal factors by the first squared |
| MultiplicationRules.PSquaredComplete | src/Simplification/MultiplicationRules.ts:46-52 | both versions fire on a product with two Equal factors |
| MultiplicationRules.PSquaredLosesExponent | src/Simplification/MultiplicationRules.ts:46-52 | as written, x · x becomes a power of x with one argument and no exponent |
| MultiplicationRules.PSquaredKeepsExponent | src/Simplification/MultiplicationRules.ts:46-52 | corrected, x · x becomes x^2 |
| MultiplicationRules.NestedHeights | src/Simplification/MultiplicationRules.ts:54-70 | P * P^Q and P^Q * P^R nest an Exponentiation slot, so they need a depth of 2 |
| MultiplicationRules.PTimesPowerSound | src/Simplification/MultiplicationRules.ts:54-60 | P * P^Q never exceeds a depth of 2; when it fires, there are factors s and t, t a two-argument power whose base is Equal to factor s, and the result is the product without s and t, the other factors in order, followed by p^(q + 1), where p is the earlier of the two Equal nodes and q is the exponent |
| MultiplicationRules.PTimesPowerComplete | src/Simplification/MultiplicationRules.ts:54-60 | conversely, such factors s and t, in either order, make P * P^Q fire |
| MultiplicationRules.PowerTimesPowerSound | src/Simplification/MultiplicationRules.ts:62-70 | P^Q * P^R never exceeds a depth of 2; when it fires, there are factors u and v, both two-argument powers with Equal bases, and the result is the product without them, the other factors in order, followed by p^(q + r), where p is the earlier base, q the exponent at u and r the exponent at v |
| MultiplicationRules.PowerTimesPowerComplete | src/Simplification/MultiplicationRules.ts:62-70 | conversely, two such factors, in either order, make P^Q * P^R fire |
| NodeUtils.EqualNodes | src/Node/NodeUtils.ts:31-56 | the loop over the arguments computes Equal: same kind, same name, equal numbers and pairwise Equal arguments |
| NodeUtils.EqualReflexive | src/Node/NodeUtils.ts:31-56 | every tree is Equal to itself |
| NodeUtils.EqualSymmetric | src/Node/NodeUtils.ts:31-56 | Equal is symmetric |
| NodeUtils.EqualTransitive | src/Node/NodeUtils.ts:31-56 | Equal is transitive |
| NodeUtils.EqualIsIdentityWithoutTensors | src/Node/NodeUtils.ts:31-56 | on trees without tensors, Equal is equality |
| NodeUtils.EqualIgnoresShape | src/Node/NodeUtils.ts:31-56 | Equal does not compare tensor shapes: [x] of shape [1] is Equal to [x] of shape [2] |
| NodeUtils.QuickFlatLoop | src/Node/NodeUtils.ts:58-72 | the loop pushes the arguments of each argument of the node's own kind, and every other argument, as QuickFlat does |
| NodeUtils.SpliceConcat | src/Node/NodeUtils.ts:60-66 | splicing a list splits over its parts |
| NodeUtils.NoneOfKind | src/Node/NodeUtils.ts:60-66 | arguments of other kinds are kept as they are |
| NodeUtils.SpliceMembers | src/Node/NodeUtils.ts:60-66 | every spliced node is an argument of another kind or an argument of an argument of the node's kind |
| NodeUtils.QuickFlatOneLevel | src/Node/NodeUtils.ts:58-72 | QuickFlat removes one level: when no argument of the kind has an argument of the kind, no argument of the result is of the kind |
| NodeUtils.NonLiterals | src/Node/NodeUtils.ts:78-84 | the non-literal operands hold no literal |
| NodeUtils.Literals | src/Node/NodeUtils.ts:78-84 | the literal operands are literals |
| NodeUtils.CombineLiteralsLoop | src/Node/NodeUtils.ts:74-93 | the loop separates the literals, and appends their fold when there is one, as CombineLiterals does |
| NodeUtils.NoLiterals | src/Node/NodeUtils.ts:78-84 | without literals every operand is kept and nothing is folded |
| NodeUtils.PartitionCounts | src/Node/NodeUtils.ts:78-84 | every operand goes to exactly one side, and there are no literals exactly when no operand is one |
| NodeUtils.CombineLiteralsShape | src/Node/NodeUtils.ts:74-93 | CombineLiterals keeps the non-literals in order and appends at most one literal, only when there was one; only the last entry can be a literal; it never grows the list |
| Nodes.FewOperands | src/Node/NodeUtils.ts:97-132 | Nodes.Add and Nodes.Multiply of no operands are 0, of one operand that operand (unless a product of zeros) |
| Nodes.ManyOperands | src/Node/NodeUtils.ts:97-132 | with two or more combined operands, Nodes.Add is their QuickFlat sum and Nodes.Multiply their QuickFlat product, or 0 when every factor is 0 |
| Nodes.ZeroFactorKept | src/Node/NodeUtils.ts:112-114 | a product is 0 only when every factor is: x · 0 stays x · 0 |
| Nodes.ExponentiationUnits | src/Node/NodeUtils.ts:149-153 | n^0 is 1 and n^1 is n for a base that is not a power |
| Nodes.NestedExponent | src/Node/NodeUtils.ts:143-148 | (b^e1)^e2 has exponent Nodes.Multiply(e1, e2), and is 1 or b when that exponent is 0 or 1 |
| Nodes.NegativeIsRaw | src/Node/NodeUtils.ts:160-165 | Nodes.Negative is the raw product n · -1, with no folding |
| Nodes.DivideOfPlainOperands | src/Node/NodeUtils.ts:134-136 | Nodes.Divide of operands that do not fold is the raw n1 · n2^-1 (also lines 156-158) |
| Nodes.SubtractOfPlainOperands | src/Node/NodeUtils.ts:138-140 | Nodes.Subtract of operands that do not fold is the raw n1 + n2 · -1 |
| Nodes.NegativeOfPlain | src/Node/NodeUtils.ts:97-117 | multiplying by -1 a node that is neither a literal nor a product gives Nodes.Negative of it (also lines 160-165) |
| Nodes.CombineWithLiteral | src/Node/NodeUtils.ts:74-93 | a non-literal and a literal combine to themselves |
| Nodes.PlainPair | src/Node/NodeUtils.ts:97-132 | two non-literal operands of another kind give the plain sum or product |
| Patterns.BuilderShapes | src/Matching/Patterns.ts:15-21 | Add and Multiply give one commutative alternative with one slot per argument pattern; Exponentiation is not commutative and has the slots [base, exponent] (also lines 31-37 and 47-52) |
| Patterns.DerivedBuilders | src/Matching/Patterns.ts:23-29 | Subtract is Add with a negated second slot; Negative multiplies by -1; Divide's exponent slot is the negated divisor, which is not the pattern of -1 (also lines 39-45 and 54-56) |
| Patterns.DivideExponentSlot | src/Matching/Patterns.ts:39-45 | no instance of Divide's exponent slot as written matches the literal -1 of a quotient; the corrected slot is the single -1 instance, which matches it |
| Patterns.CaptureKeepsFields | src/Matching/Patterns.ts:6-8 | a capture keeps every alternative, changing only its capture name |
| Patterns.SpecialNodesShape | src/Matching/Patterns.ts:164-179 | Wildcard is the single empty alternative; P, Q, R and S capture it under their names |
| Patterns.UnitPatterns | src/Matching/Patterns.ts:62-64 | Zero, One and NegativeOne fix the literal number v/1 + 0/1 i |
| Patterns.IntegersMeaning | src/Matching/Patterns.ts:67-75 | the Integers conditions accept exactly the literals n/1 + 0/1 i |
| Patterns.RationalsMeaning | src/Matching/Patterns.ts:90-95 | the Rationals conditions accept exactly the literals with imaginary part 0/1, whatever the real denominator; Reals is the same pattern (also lines 110-115) |
| Patterns.RationalSignReadsImaginary | src/Matching/Patterns.ts:97-107 | PositiveRationals tests the imaginary numerator: -3 passes it but fails PositiveReals, and NegativeRationals accepts no real literal at all (also lines 117-121) |
| Patterns.RationalSignIntended | src/Matching/Patterns.ts:97-107 | with the sign read from the real numerator, the signed rational classes accept exactly the real literals of that sign |
| Polynomials.ConstantSpec | src/AST/Polynomials/Polynomial.ts:186-196 | Constant(node) is the one term `node` with no powers and degree 0, whose leading and constant coefficient is `node`; it is zero exactly when `node` is literal 0, so Zero() is zero |
| Polynomials.LeadingSpec | src/AST/Polynomials/Polynomial.ts:280-282 | LeadingTerm finds the first term whose degree is the polynomial's degree, and finds none exactly when no term has that degree |
| Polynomials.TableLookup | src/AST/Polynomials/Polynomial.ts:198-214 | under each power signature the map holds the first term of that signature with the coefficients of all its later terms added on in order by Nodes.Add, and nothing under a signature no term has |
| Polynomials.TableKeys | src/AST/Polynomials/Polynomial.ts:198-214 | the map has one entry per signature, in the order the signatures first appear |
| Polynomials.CombinedSpec | src/AST/Polynomials/Polynomial.ts:198-221 | CombineTerms leaves no two terms with one signature and lists them in the order their signatures first appear |
| Polynomials.CombineTerms | src/AST/Polynomials/Polynomial.ts:198-221 | the loop builds the signature map TableLookup and TableKeys describe and returns its values |
| Polynomials.CollectTerms | src/AST/Polynomials/Polynomial.ts:199-214 | the first loop builds the signature map Table describes: each term adds its coefficient to the entry of its signature or is stored under it |
| PowerMaps.ValuesOf | src/AST/Polynomials/Polynomial.ts:216-220 | the values are pushed in the map's iteration order |
| Polynomials.AddSpec | src/AST/Polynomials/Polynomial.ts:9-14 | under each signature the sum holds the terms of the first operand with that signature, then those of the second, their coefficients added in that order |
| Polynomials.Add | src/AST/Polynomials/Polynomial.ts:9-14 | Add is CombineTerms of both term lists, made a polynomial |
| Polynomials.SubtractSpec | src/AST/Polynomials/Polynomial.ts:16-26 | as AddSpec, with every coefficient of the second operand negated by Nodes.Negative |
| Polynomials.Subtract | src/AST/Polynomials/Polynomial.ts:16-26 | Subtract is CombineTerms of the first terms and the negated second terms |
| Polynomials.ScaledSpec | src/AST/Polynomials/Polynomial.ts:43-50 | MultiplyScalar multiplies each coefficient by the scalar and keeps the powers, degrees, order and number of the terms; it does not combine terms |
| Polynomials.AddPowersSpec | src/AST/Polynomials/Polynomial.ts:227-230 | after the first loop each variable of term1 has its power plus term2's power (0 when absent), and no other variable is present |
| Polynomials.NewPowersSpec | src/AST/Polynomials/Polynomial.ts:232-236 | the second loop adds each variable only term2 has, with term2's power, and changes nothing else |
| Polynomials.NonzeroPowersSpec | src/AST/Polynomials/Polynomial.ts:302-307 | RemoveZeroPowers keeps every nonzero power with its value and drops the zero ones, keeping one entry per variable |
| Polynomials.TermProductSpec | src/AST/Polynomials/Polynomial.ts:223-245 | in the product each variable's power is the sum of its powers in the factors, a variable is present exactly when it occurs in a factor with a nonzero sum, no power is zero, and the degree is the sum of the degrees |
| Polynomials.RemoveZeroPowers | src/AST/Polynomials/Polynomial.ts:297-313 | on a term, the loop leaves the term with its nonzero powers only |
| Polynomials.WithoutZeroPowersSpec | src/AST/Polynomials/Polynomial.ts:297-300 | on a polynomial, every term keeps its coefficient, degree and place, loses its zero powers and keeps every other power; the result's degree is the terms' maximum degree |
| Polynomials.RemovePolynomialZeroPowers | src/AST/Polynomials/Polynomial.ts:297-300 | the polynomial branch applies the term branch to every term and makes a polynomial of the results |
| Polynomials.MultiplyTerms | src/AST/Polynomials/Polynomial.ts:223-245 | the two loops and RemoveZeroPowers compute the product TermProductSpec describes |
| Polynomials.SharedPowers | src/AST/Polynomials/Polynomial.ts:229-232 | the first loop gives each power of the first term plus the second term's power of that variable, as AddPowers |
| Polynomials.OwnPowers | src/AST/Polynomials/Polynomial.ts:234-238 | the second loop adds the second term's powers of the variables the first term lacks, as NewPowers |
| Polynomials.PairsSpec | src/AST/Polynomials/Polynomial.ts:28-36 | the nested loops give one product per pair of terms, term i of the first with term j of the second at position i * (number of second terms) + j |
| Polynomials.Multiply | src/AST/Polynomials/Polynomial.ts:28-41 | Multiply is CombineTerms of the pair products PairsSpec describes, made a polynomial |
| Polynomials.PowerQuotientFails | src/AST/Polynomials/Polynomial.ts:251-266 | DivideTerms throws a Polynomial error exactly when the divisor has a higher power of some variable of the dividend |
| Polynomials.PowerQuotientSpec | src/AST/Polynomials/Polynomial.ts:251-261 | when DivideTerms succeeds each dividend variable's power is the difference of the powers, a variable whose difference is 0 and a variable only the divisor has are absent, and no power is zero |
| Polynomials.DivisorOnlyVariable | src/AST/Polynomials/Polynomial.ts:247-273 | x divided by y keeps x with power 1 but gets degree 0, since only the dividend's variables are read while the degrees are subtracted |
| Polynomials.DividePowers | src/AST/Polynomials/Polynomial.ts:251-266 | the loop over the dividend's powers gives the quotient powers or the Polynomial error, stopping at the first variable the divisor has more of |
| Polynomials.DivideTerms | src/AST/Polynomials/Polynomial.ts:247-274 | DivideTerms divides the coefficients with Nodes.Divide, divides the powers as DividePowers does and subtracts the degrees |
| Polynomials.DivideLoopExit | src/AST/Polynomials/Polynomial.ts:64-74 | whatever its body computes, the loop ends only with a zero remainder or one of lower degree than the divisor |
| Polynomials.DivisionSpec | src/AST/Polynomials/Polynomial.ts:52-84 | dividing by a zero polynomial throws "Dividing by a zero polynomial is not possible"; every remainder returned is zero or of lower degree than the divisor; a dividend of lower degree is returned as the remainder of a zero quotient (as written, a division that needs a pass does not return: see XOverXNeverReturns) |
| Polynomials.DividePass | src/AST/Polynomials/Polynomial.ts:65-73 | one pass divides the leading terms, and subtracts the divisor times that quotient term from the remainder |
| Polynomials.DivisionLoop | src/AST/Polynomials/Polynomial.ts:61-74 | the loop collects the quotient terms and the last remainder, as DivideLoop does for at most `fuel` passes |
| Polynomials.Divide | src/AST/Polynomials/Polynomial.ts:52-84 | Divide is Division: the zero-divisor error, the loop's quotient terms (Zero() when no pass ran) and its last remainder |
| Polynomials.NegatedSumIsAdd | src/AST/Polynomials/Polynomial.ts:16-26 | a coefficient plus a negated coefficient is an Add node, never literal zero, so Subtract does not cancel a term with itself |
| Polynomials.PassOnLinearX | src/AST/Polynomials/Polynomial.ts:64-74 | one pass on c·x divided by x succeeds and leaves the single term (c + -(1·(c/1)))·x |
| Polynomials.StaysLinearX | src/AST/Polynomials/Polynomial.ts:64-74 | from a nonzero c·x, a pass dividing by x leaves another nonzero c'·x, so the loop condition still holds |
| Polynomials.NeverExits | src/AST/Polynomials/Polynomial.ts:64-74 | a loop whose every pass succeeds and keeps a condition under which the loop goes on runs out of any fuel |
| Polynomials.XOverXNeverReturns | src/AST/Polynomials/Polynomial.ts:52-84 | as written, Divide(x, x) never returns, whatever the bound on its passes |
| Polynomials.GcdXXNeverReturns | src/AST/Polynomials/Polynomial.ts:110-121 | as written, GCD(x, x) never returns either |
| Polynomials.CombinedFrom | src/AST/Polynomials/Polynomial.ts:198-221 | each combined term is one of the input terms with only its coefficient changed |
| Polynomials.CombinedInOneVariable | src/AST/Polynomials/Polynomial.ts:198-221 | combining terms in one variable below a degree leaves terms in that variable below it, one per degree |
| Polynomials.TermQuotientInOneVariable | src/AST/Polynomials/Polynomial.ts:247-274 | in one variable, DivideTerms of a higher or equal power succeeds, with the coefficients divided and the power and degree the difference of the degrees |
| Polynomials.TermProductInOneVariable | src/AST/Polynomials/Polynomial.ts:223-245 | in one variable, MultiplyTerms adds the degrees and keeps only the power of the sum (none at 0) |
| Polynomials.CancellingPassLowers | src/AST/Polynomials/Polynomial.ts:64-74 | corrected, a pass on polynomials in one variable succeeds, gives a quotient term of degree deg(rem) - deg(divisor), and leaves a polynomial in that variable with no terms or a lower degree |
| Polynomials.CancellingLoopEnds | src/AST/Polynomials/Polynomial.ts:61-74 | corrected, the loop in one variable ends within deg(rem) - deg(divisor) + 1 passes, its remainder in that variable |
| Polynomials.CancellingDivisionEnds | src/AST/Polynomials/Polynomial.ts:52-84 | corrected, Divide of polynomials in one variable returns, with a remainder that is zero or below the divisor's degree |
| Polynomials.CancellingXOverX | src/AST/Polynomials/Polynomial.ts:52-84 | corrected, x / x is the constant 1 / 1 with a remainder that has no terms |
| Polynomials.CancellingGcdXX | src/AST/Polynomials/Polynomial.ts:110-121 | corrected, GCD(x, x) is x made monic |
| Polynomials.ZeroPowerIsZero | src/AST/Polynomials/Polynomial.ts:100 | as written, every polynomial to the power 0 is the zero polynomial, so x^0 is 0 |
| Polynomials.PowerSpec | src/AST/Polynomials/Polynomial.ts:86-108 | corrected: p^0 is the nonzero constant 1, p^1 is p, p^(e+1) is p^e times p, and a negative exponent throws "Negative exponents not supported for polynomial exponents"; from exponent 1 on it agrees with the code |
| Polynomials.Exponentiation | src/AST/Polynomials/Polynomial.ts:86-108 | the loop multiplies `e - 1` times by p, as Power does |
| Polynomials.MonicSpec | src/AST/Polynomials/Polynomial.ts:284-295 | ToMonic returns a zero polynomial unchanged, and otherwise keeps every term's powers and degree and divides its coefficient by the leading coefficient |
| Polynomials.GcdSpec | src/AST/Polynomials/Polynomial.ts:110-121 | the GCD with a zero second operand is the first made monic, and every result is some remainder made monic, whatever the division (as written, a GCD that needs a division pass does not return: see GcdXXNeverReturns) |
| Polynomials.GcdRun | src/AST/Polynomials/Polynomial.ts:110-121 | the loop replaces (a, b) by (b, a mod b) until b is zero and returns a made monic, as GcdLoop does for at most `fuel` passes |
| Polynomials.GCD | src/AST/Polynomials/Polynomial.ts:110-121 | GCD runs that loop with Divide's division |
| Polynomials.DeriveStepsSpec | src/AST/Polynomials/Polynomial.ts:138-151 | on a term with one entry per variable the loop meets the variable exactly when present, lowers its power by one, keeps every other power, scales the coefficient once by the old power (the code divides by it, the corrected derivative multiplies), and lowers the sum of the powers by one |
| Polynomials.TermDerivativeSpec | src/AST/Polynomials/Polynomial.ts:134-166 | corrected: the derivative of a term is none when the variable is absent; otherwise its power drops by one, every other power stays, the coefficient is multiplied by the old power and the degree is the sum of the new powers, one less than before |
| Polynomials.SquareDerivativeHalves | src/AST/Polynomials/Polynomial.ts:142-145 | as written, the derivative of 3x^2 in x is (3 / 2)x; corrected, it is (3 · 2)x |
| Polynomials.NegativePowerDerivative | src/AST/Polynomials/Polynomial.ts:147 | as written, the derivative of x^-1 drops x, giving power 0 and degree 0 instead of power -2 and degree -2 |
| Polynomials.TermDerivative | src/AST/Polynomials/Polynomial.ts:134-166 | the loop and the degree sum compute TermDerivativeOf |
| Polynomials.LowerPowers | src/AST/Polynomials/Polynomial.ts:139-153 | corrected, the loop multiplies the coefficient by the variable's power, lowers the powers and records whether the variable was met, as DeriveSteps does |
| Polynomials.DerivedTermsCount | src/AST/Polynomials/Polynomial.ts:123-132 | a term without the variable vanishes from the derivative and every other term gives one term, and the terms are not combined |
| Polynomials.Derivative | src/AST/Polynomials/Polynomial.ts:123-132 | the loop keeps the defined term derivatives in order; the variable is x unless given |
| Polynomials.NodeSpec | src/AST/Polynomials/Polynomial.ts:168-184 | a term without powers becomes its coefficient (unless the coefficient is a product of zeros), and the zero polynomial becomes literal 0 |
| Polynomials.TermToNode | src/AST/Polynomials/Polynomial.ts:173-184 | TermToNode multiplies the coefficient by `v ^ k` for each power, in iteration order |
| Polynomials.ToNode | src/AST/Polynomials/Polynomial.ts:168-171 | ToNode adds the term nodes in order |
| RuleSupport.ExpandUnary | src/Matching/PatternExpander.ts:111-150 | a node with one slot holding a single argless alternative has height 1 and one instance |
| RuleSupport.ExpandBinary | src/Matching/PatternExpander.ts:111-150 | a node with two argless slots has height 1 and one instance, or both orders when commutative |
| RuleSupport.Winner | src/Matching/PatternMatcher.ts:22-50 | a rewrite comes from one instance that fires |
| RuleSupport.ChildrenRewrite | src/Matching/PatternMatcher.ts:42-43 | a firing children rule has ascending in-range indices and every required capture, and its rewrite keeps the unmatched arguments and appends the replacement (also lines 184-203) |
| RuleSupport.LeafMatch | src/Matching/PatternMatcher.ts:85-127 | an argless instance whose capture is unbound matches exactly when its fields hold, binding the node |
| RuleSupport.SlotFields | src/Matching/PatternMatcher.ts:96-118 | P..S accept anything and bind their name; P(Literal) accepts exactly literals; Zero, One and NegativeOne accept exactly the literal Equal to v and bind nothing |
| RuleSupport.SlotCaptures | src/Matching/PatternMatcher.ts:85-94 | the captures of two slots for two matching nodes |
| RuleSupport.PairAttempt | src/Matching/PatternMatcher.ts:143-182 | a successful attempt of [a, b] matched two positions i < j whose arguments satisfy the slots, with their captures |
| RuleSupport.PairSound | src/Matching/PatternMatcher.ts:22-50 | a two-slot rule never exceeds a depth of 1, and what it returns is a rewrite of two matching positions |
| RuleSupport.PairComplete | src/Matching/PatternMatcher.ts:22-50 | two positions of an Add or Multiply of the pattern's type that satisfy the slots, in order or swapped for a commutative pattern, make the rule fire when the slots capture every required name (also lines 143-182) |
| RuleSupport.IdentitySound | src/Matching/PatternMatcher.ts:22-50 | P op v => P never exceeds a depth of 1, and when it fires one argument equal to v was dropped |
| RuleSupport.IdentityComplete | src/Matching/PatternMatcher.ts:22-50 | a commutative P op v fires on an Add or Multiply of its type with an argument v beside any other |
| RuleSupport.FoldSound | src/Matching/PatternMatcher.ts:22-50 | P(Literal) op Q(Literal) with a commutative fold never exceeds a depth of 1, and when it fires two literal arguments were folded |
| RuleSupport.FoldComplete | src/Matching/PatternMatcher.ts:22-50 | two literal arguments of an Add or Multiply of the pattern's type make the rule fire |
| RuleSupport.LiteralValueSound | src/Matching/PatternMatcher.ts:22-50 | P(Literal) op v never exceeds a depth of 1, and when it fires the result is computed from a literal found beside an argument v |
| RuleSupport.LiteralValueComplete | src/Matching/PatternMatcher.ts:22-50 | a commutative P(Literal) op v fires on an Add or Multiply of its type with a literal beside an argument v |
| RuleSupport.TwinAttempt | src/Matching/PatternMatcher.ts:85-94 | a successful attempt of [P, P] matched two Equal arguments, binding the first (also lines 143-182) |
| RuleSupport.TwinSound | src/Matching/PatternMatcher.ts:22-50 | P op P never exceeds a depth of 1, and when it fires it rewrote two Equal arguments |
| RuleSupport.TwinComplete | src/Matching/PatternMatcher.ts:22-50 | two Equal arguments of an Add or Multiply of the pattern's type make P op P fire |
| RuleSupport.ExactAttempt | src/Matching/PatternMatcher.ts:26-32 | on a type other than Add and Multiply there is no partial match: the attempt succeeds exactly when the two arguments satisfy the slots in order (also lines 75-83) |
| RuleSupport.ExactSound | src/Matching/PatternMatcher.ts:22-50 | a positional two-slot rule never exceeds a depth of 1 and fires exactly on nodes whose two arguments satisfy the slots in order |
| RuleSupport.FiresShape | src/Matching/PatternMatcher.ts:34-45 | a firing instance of k slots has the node's type; a children rewrite keeps the type, removes k arguments at ascending positions, keeps the others in order and appends the rule's replacement (also lines 184-203) |
| RuleSupport.RuleSound | src/Matching/PatternMatcher.ts:22-50 | a rule of one alternative never exceeds a depth bound at least its height; a children rewrite keeps the type, removes one argument per slot at ascending positions, keeps the others in order, and appends the replacement for captures holding every required name |
| RuleSupport.CommutativePairSound | src/Matching/PatternExpander.ts:127-150 | every instance of a commutative node over two slots takes an instance of each slot, in either order |
| RuleSupport.CommutativePairComplete | src/Matching/PatternExpander.ts:127-150 | conversely, an instance of each slot, in either order, is an instance of the node |
| RuleSupport.InnerMatch | src/Matching/PatternMatcher.ts:85-127 | a node over P and x matches exactly a node of its type with two arguments whose P position is Equal to an earlier P, binding P (unless bound) and x |
| RuleSupport.LeafInnerSound | src/Matching/PatternMatcher.ts:22-50 | a rule over P beside a node over P and x never exceeds its height, and when it fires it rewrote an argument and a two-argument node with an Equal argument, appending build(P, x) |
| RuleSupport.LeafInnerComplete | src/Matching/PatternMatcher.ts:22-50 | conversely, such a pair of arguments of an Add or Multiply of the pattern's type makes the rule fire |
| RuleSupport.InnerInnerSound | src/Matching/PatternMatcher.ts:22-50 | a rule over two nodes over P never exceeds its height, and when it fires it rewrote two two-argument nodes sharing an Equal argument, appending build(P, x1, x2) |
| RuleSupport.InnerInnerComplete | src/Matching/PatternMatcher.ts:22-50 | conversely, two such arguments of an Add or Multiply of the pattern's type make the rule fire |
| RuleSupport.SingleAttempt | src/Matching/PatternMatcher.ts:143-182 | a successful attempt of [a] matched one position i |
| RuleSupport.SingleSound | src/Matching/PatternMatcher.ts:22-50 | a one-slot rule never exceeds a depth of 1; its rewrite is the one at a matching position |
| RuleSupport.SingleComplete | src/Matching/PatternMatcher.ts:22-50 | one matching position of an Add or Multiply of the pattern's type makes the rule fire when the slot captures every required name |
| NodeSerializer.ShapeStrs | src/Node/NodeSerializer.ts:38 | each dimension of the shape prints as its decimal digits |
| NodeSerializer.ArgStrs | src/Node/NodeSerializer.ts:42 | each argument prints as its own serialisation, in order |
| NodeSerializer.JoinBalanced | src/Node/NodeSerializer.ts:42 | arguments with balanced braces, joined by `\|`, have balanced braces |
| NodeSerializer.GroupPrefixFree | src/Node/NodeSerializer.ts:25-46 | a serialised node is one brace group, so no serialisation is a proper prefix of another |
| NodeSerializer.JoinGroupsInjective | src/Node/NodeSerializer.ts:42 | the `\|`-joined serialisations of the arguments determine the arguments' serialisations |
| NodeSerializer.IntStrBraceless | src/Node/NodeSerializer.ts:30 | a printed number has no braces (also lines 38) |
| NodeSerializer.NumberPartBalanced | src/Node/NodeSerializer.ts:29-31 | the number part has balanced braces |
| NodeSerializer.StringPartBalanced | src/Node/NodeSerializer.ts:33-35 | the name part of a name without braces has balanced braces |
| NodeSerializer.ShapePartBalanced | src/Node/NodeSerializer.ts:37-39 | the shape part has balanced braces |
| NodeSerializer.ArgsPartBalanced | src/Node/NodeSerializer.ts:41-43 | the argument part has balanced braces |
| NodeSerializer.BodyBalanced | src/Node/NodeSerializer.ts:25-46 | the text between the outer braces is balanced |
| NodeSerializer.ToStringGroup | src/Node/NodeSerializer.ts:24-47 | every serialisation of a tree whose names avoid `{`, `}`, `\|` and `:` is one balanced brace group |
| NodeSerializer.CodeSingle | src/Node/NodeSerializer.ts:5-21 | every kind's type code is one character |
| NodeSerializer.CodeInjective | src/Node/NodeSerializer.ts:5-21 | different kinds have different codes |
| NodeSerializer.NumberEqual | src/Node/NodeSerializer.ts:30 | the four printed fields of a number determine it |
| NodeSerializer.ShapeEqual | src/Node/NodeSerializer.ts:38 | the printed shape determines the shape |
| NodeSerializer.ShapeAvoidsColon | src/Node/NodeSerializer.ts:38 | the printed shape has no `:` |
| NodeSerializer.ArgGroups | src/Node/NodeSerializer.ts:42 | every argument's serialisation is a group |
| NodeSerializer.ArgsEqual | src/Node/NodeSerializer.ts:42 | the printed argument list determines the arguments |
| NodeSerializer.RestLiteral | src/Node/NodeSerializer.ts:29-31 | a literal prints `:` and its four number fields |
| NodeSerializer.RestName | src/Node/NodeSerializer.ts:33-35 | a variable or constant prints `:` and its name |
| NodeSerializer.RestFunction | src/Node/NodeSerializer.ts:33-43 | a function prints its name, then its arguments |
| NodeSerializer.RestTensor | src/Node/NodeSerializer.ts:37-43 | a tensor prints its shape, then its elements |
| NodeSerializer.RestArgs | src/Node/NodeSerializer.ts:41-43 | every other node with arguments prints its arguments only |
| NodeSerializer.LiteralFields | src/Node/NodeSerializer.ts:29-31 | two literals that print the same have the same number |
| NodeSerializer.NameFields | src/Node/NodeSerializer.ts:33-35 | two variables, or two constants, that print the same have the same name |
| NodeSerializer.FunctionFields | src/Node/NodeSerializer.ts:33-43 | two functions that print the same have the same name and argument list |
| NodeSerializer.TensorFields | src/Node/NodeSerializer.ts:37-43 | two tensors that print the same have the same shape and element list |
| NodeSerializer.ArgFields | src/Node/NodeSerializer.ts:41-43 | two other nodes that print the same have the same argument list |
| NodeSerializer.ToStringInjective | src/Node/NodeSerializer.ts:24-47 | ToString is injective on trees whose names avoid `{`, `}`, `\|` and `:` |
| NodeSerializer.ToStringMatchesEqual | src/Node/NodeSerializer.ts:24-47 | on tensor-free trees with such names, two trees serialise alike exactly when NodeUtils.Equal holds |
| NodeSerializer.ToStringSeesShape | src/Node/NodeSerializer.ts:37-39 | tensors [x] of shapes [1] and [2] are Equal but serialise differently |
| NodeSerializer.AlternativeStrs | src/Node/NodeSerializer.ts:64-67 | each alternative of a pattern prints as its own string |
| NodeSerializer.SlotStrs | src/Node/NodeSerializer.ts:64-67 | each argument slot prints as its pattern string |
| NodeSerializer.ConditionStrs | src/Node/NodeSerializer.ts:73-76 | each condition prints as its JSON encoding |
| NodeSerializer.CommutativeDistinguishes | src/Node/NodeSerializer.ts:82-86 | a true, a false and an absent commutative flag print three different strings |
| NodeSerializer.PatternToString | src/Node/NodeSerializer.ts:49-94 | the loop prints `[`, the alternatives separated by `:`, and `]`, as PatternString does |
| NodeSerializer.AlternativeToString | src/Node/NodeSerializer.ts:54-87 | one alternative prints its type code, name, number, argument patterns, conditions, special node and commutative flag, separated by `:`, within braces |
| NodeSerializer.SlotsToString | src/Node/NodeSerializer.ts:62-69 | the argument patterns print between `[` and `]`, separated by `:` |
| NodeSerializer.ConditionsToString | src/Node/NodeSerializer.ts:71-78 | the conditions print between `[` and `]`, separated by `:` |
| ExponentiationRules.ExpZeroShape | src/Simplification/ExponentiationRules.ts:15-19 | P^0 is a positional power of the slots Wildcard and 0 that replaces the node by 1 |
| ExponentiationRules.ExpOneShape | src/Simplification/ExponentiationRules.ts:21-25 | P^1 is a positional power of the slots P and 1 that returns P |
| ExponentiationRules.ExpZeroSound | src/Simplification/ExponentiationRules.ts:15-19 | P^0 fires exactly on a power of two arguments whose exponent is the literal 0, and returns 1 |
| ExponentiationRules.ExpOneSound | src/Simplification/ExponentiationRules.ts:21-25 | P^1 fires exactly on a power of two arguments whose exponent is the literal 1, and returns the base |
| SimplificationRules.Layout | src/Simplification/SimplificationRules.ts:4-7 | eleven rules: the four additive rules, then the seven multiplicative ones, as written and corrected; every one is a sum or product pattern |
| SimplificationRules.IdleOn | src/Simplification/SimplificationRules.ts:4-7 | no rule of either table fires on a variable or on a sum of one variable |
| SimplificationRules.MultiplicationIdle | src/Simplification/SimplificationRules.ts:4-7 | no multiplicative rule fires on a node that is not a product |
| Simplifier.FirstRewriteFirst | src/Simplification/Simplifier.ts:16-21 | the rule loop gives nothing exactly when no rule fires; otherwise the outcome of the first rule that fires or throws, every earlier one giving nothing |
| Simplifier.SimplifyChildren | src/Simplification/Simplifier.ts:30-40 | keeps the node's kind, fields and number of arguments; an argless node is returned as it is |
| Simplifier.SimplifyAllElementwise | src/Simplification/Simplifier.ts:32 | the map succeeds exactly when every argument's simplification does, and then holds them in order |
| Simplifier.ChildrenElementwise | src/Simplification/Simplifier.ts:30-40 | argument i of the children-simplified node is the simplification of argument i |
| Simplifier.NormalForm | src/Simplification/Simplifier.ts:13-28 | with the simplified child unwrapped, every result is a normal form: no rule fires on it and no sum or product of one argument is left in it |
| Simplifier.LeafUnchanged | src/Simplification/Simplifier.ts:13-28 | a leaf that no rule touches is its own simplification |
| Simplifier.SelfRewriteDiverges | src/Simplification/Simplifier.ts:16-21 | there is no cycle detection: a leaf that a rule rewrites to itself never settles, whatever the bound |
| Simplifier.UnwrapsUnsimplifiedChild | src/Simplification/Simplifier.ts:23-25 | as written, a sum of one sum of one variable simplifies to the inner sum of one argument, which is not normal; unwrapping the simplified child gives the variable |
| Simplifier.DefaultTableUnwrap | src/Simplification/Simplifier.ts:23-25 | the same on the default table, for both versions of it |
| PolynomialSolver.CoefficientSpec | src/AST/Polynomials/PolynomialSolver.ts:9-21 | degree 0 reads the coefficient of the first term without variables, any other degree d that of the first term whose signature is `variable^d` (literal 0 when there is none) |
| PolynomialSolver.SolveQuadraticSpec | src/AST/Polynomials/PolynomialSolver.ts:23-62 | SolveQuadratic throws the Polynomial error "Polynomial is not a quadratic or univariate" exactly when the polynomial is not a univariate quadratic; otherwise the roots are (-b + sqrt(b^2 - 4ac)) / 2a and (-b - sqrt(b^2 - 4ac)) / 2a with a, b, c the coefficients of degree 2, 1 and 0, unless the node 2a is a malformed power |
| PolynomialSolver.SolveLinearSpec | src/AST/Polynomials/PolynomialSolver.ts:64-85 | SolveLinear throws "Polynomial is not a linear or univariate" exactly when the polynomial is not a univariate linear one; otherwise it gives b / a, the constant coefficient over that of degree 1, with no change of sign |
| PolynomialSolver.SolveLinearSolvesNegated | src/AST/Polynomials/PolynomialSolver.ts:84 | as written, under any valuation of nodes as reals that reads the result as b / a, the result solves a·x - b = 0, and it solves a·x + b = 0 only when b is zero |
| PolynomialSolver.LinearRootSpec | src/AST/Polynomials/PolynomialSolver.ts:75-85 | corrected, the root fails exactly where SolveLinear does and with its error; otherwise it is -b / a, which under any valuation that reads it as a quotient and -b as the opposite of b solves a·x + b = 0 |
| RLEagerTokenizer.SubSpec | src/Parse/Tokenizing/RLEagerTokenizer.ts:12 | Luau `sub(2)` drops the first character and `sub(1, -(k + 1))` the last k (also lines 30-35) |
| RLEagerTokenizer.EagerSpec | src/Parse/Tokenizing/RLEagerTokenizer.ts:26-36 | EagerTokenizer finds the longest suffix of the value that is a known identifier, or else the last character; its index is where it starts, and its type is the input's |
| RLEagerTokenizer.RestSpec | src/Parse/Tokenizing/RLEagerTokenizer.ts:9-13 | the next input is always shorter: as written it is empty, corrected it is the value less the piece found |
| RLEagerTokenizer.SplitAsWrittenSpec | src/Parse/Tokenizing/RLEagerTokenizer.ts:3-24 | as written the loop runs once: only the rightmost piece comes back |
| RLEagerTokenizer.SplitDropsPieces | src/Parse/Tokenizing/RLEagerTokenizer.ts:3-24 | as written `xy` with no known identifiers gives the one token `y`; corrected it gives `y`, `*`, `x` |
| RLEagerTokenizer.SplitStep | src/Parse/Tokenizing/RLEagerTokenizer.ts:6-20 | under either rule each pass pushes the piece, and `*` before the remainder while one is left; corrected, the remainder and the piece make up the value |
| RLEagerTokenizer.SplitShape | src/Parse/Tokenizing/RLEagerTokenizer.ts:3-24 | corrected: pieces and `*` tokens alternate, starting and ending with a piece; every piece has the input's type and is a known identifier or one character; nothing comes back only for an empty value |
| RLEagerTokenizer.SplitGlued | src/Parse/Tokenizing/RLEagerTokenizer.ts:3-24 | corrected: the pieces, read right to left, spell the input value |
| RLEagerTokenizer.Tokenize | src/Parse/Tokenizing/RLEagerTokenizer.ts:3-24 | the loop returns the split under the rule it is given: only the rightmost piece as written, the whole identifier in pieces when corrected |
| TokenStreams.ExpandedAppend | src/Parse/Tokenizing/TokenStream.ts:59-72 | RLEagerTokenize splits each token in place, so the tokens keep their order |
| TokenStreams.ExpandedKeeps | src/Parse/Tokenizing/TokenStream.ts:61-69 | a list without identifiers is unchanged |
| TokenStreams.ExpandedIdentifiers | src/Parse/Tokenizing/TokenStream.ts:59-72 | under either splitter rule, afterwards every identifier is a known constant or one character, and every token is an old one, a piece of an identifier or an inserted `*` |
| TokenStreams.ShouldInsertExamples | src/Parse/Tokenizing/TokenStream.ts:98-125 | the pairs the code's comments list get a `*`; two literals, a function name before its parenthesis and an operator do not |
| TokenStreams.StepsPrefix | src/Parse/Tokenizing/TokenStream.ts:77-92 | what the loop has pushed after fewer tokens is a prefix of what it pushes after more |
| TokenStreams.ImplicitSpec | src/Parse/Tokenizing/TokenStream.ts:74-95 | implicitMultiplication keeps every token in order; between two neighbours it puts exactly one `*`, indexed just past the left token's text, when shouldInsertMultiplication holds and nothing otherwise; nothing follows the last token |
| TokenStreams.TokenStream.constructor | src/Parse/Tokenizing/TokenStream.ts:14-21 | the constructor tokenizes its input onto an empty list, with the splitter rule it is given (the code's is the as-written one), with the cursor at 0 |
| TokenStreams.TokenStream.Tokenize | src/Parse/Tokenizing/TokenStream.ts:23-27 | tokenize runs processInput, RLEagerTokenize and implicitMultiplication in turn and leaves the cursor |
| TokenStreams.TokenStream.NextToken | src/Parse/Tokenizing/TokenStream.ts:29-39 | nextToken returns the token under the cursor and moves it on; at the end it throws UnexpectedEndOfInput and changes nothing |
| TokenStreams.TokenStream.Reset | src/Parse/Tokenizing/TokenStream.ts:41-44 | reset empties the list and puts the cursor at 0 |
| TokenStreams.TokenStream.ProcessInput | src/Parse/Tokenizing/TokenStream.ts:46-57 | lexed tokens of a string are pushed after the tokens already there; a token list replaces them |
| TokenStreams.TokenStream.RLEagerTokenize | src/Parse/Tokenizing/TokenStream.ts:59-72 | every identifier is replaced by its split against the constants under the stream's splitter rule, every other token kept |
| TokenStreams.ReplacementRules | src/Parse/Tokenizing/TokenStream.ts:59-72 | with the code's splitter an identifier is replaced by its rightmost piece alone; with the corrected one its pieces spell it |
| TokenStreams.ExpandedXY | src/Parse/Tokenizing/TokenStream.ts:59-72 | the code's stream for `xy` with no known constants holds `y` only; the corrected stream holds `y`, `*`, `x` |
| TokenStreams.TokenStream.ImplicitMultiplication | src/Parse/Tokenizing/TokenStream.ts:74-95 | the list becomes the one ImplicitSpec describes |
| TensorIndex.Unflatten | src/Math/Symbolic/Tensor.ts:41-52 | the index tuple has one index per dimension |
| TensorIndex.IndicesToFlatIndex | src/Math/Symbolic/Tensor.ts:15-39 | the loop throws "Index dimension mismatch" when the ranks differ, "Index for dimension i out of bounds" for the last dimension i whose index is out of range, and otherwise gives the row-major position Flat |
| TensorIndex.FlatIndex | src/Math/Symbolic/Tensor.ts:15-39 | IndicesToFlatIndex succeeds exactly on a tuple of the shape's rank with every index inside its dimension |
| TensorIndex.OutOfBounds | src/Math/Symbolic/Tensor.ts:24-31 | the dimension named is out of range and every later one is in range, and there is none exactly when all are in range |
| TensorIndex.FlatIndexToIndices | src/Math/Symbolic/Tensor.ts:41-52 | the loop of remainders and floored quotients, from the last dimension back, gives Unflatten |
| TensorIndex.ProductCons | src/Math/Symbolic/Tensor.ts:11-13 | the element total of a shape is its first dimension times the total of the rest |
| TensorIndex.FlatCons | src/Math/Symbolic/Tensor.ts:25-36 | the flat position of a tuple is the first index times the rest's total, plus the rest's position |
| TensorIndex.ProductPositive | src/Math/Symbolic/Tensor.ts:11-13 | a shape of positive dimensions has a positive total |
| TensorIndex.FlatBounds | src/Math/Symbolic/Tensor.ts:15-39 | an in-bounds tuple has a position in [0, total) |
| TensorIndex.FlattenRoundTrip | src/Math/Symbolic/Tensor.ts:15-52 | FlatIndexToIndices undoes IndicesToFlatIndex on every in-bounds tuple |
| TensorIndex.UnflattenRoundTrip | src/Math/Symbolic/Tensor.ts:15-52 | IndicesToFlatIndex undoes FlatIndexToIndices on every position below the total, and the tuple is in bounds |
| TensorIndex.FlatInjective | src/Math/Symbolic/Tensor.ts:15-39 | two in-bounds tuples with one flat position are equal |
| TensorUtils.At | src/Math/Symbolic/Tensor.ts:57 | reading an array position gives the element when it is there and nothing (Luau nil) otherwise |
| TensorUtils.ProductNonneg | src/Math/Symbolic/Tensor.ts:7-13 | a shape of counts has a total of at least 0, and a positive total only with every dimension positive |
| TensorUtils.GetElementInBounds | src/Math/Symbolic/Tensor.ts:54-61 | on a well-formed tensor GetElement finds an element exactly for an in-bounds tuple, the one at its flat position |
| TensorUtils.GetElementAtFlat | src/Math/Symbolic/Tensor.ts:41-61 | every stored element is found again at the tuple of its position |
| TensorUtils.SetElement | src/Math/Symbolic/Tensor.ts:63-71 | SetElement writes the value at the tuple's flat position and returns true when the tuple is in bounds, and otherwise returns false and changes nothing |
| TensorUtils.SetThenGet | src/Math/Symbolic/Tensor.ts:54-71 | after a set, the tuple reads the new value and every other tuple its old one |
| TensorUtils.ReshapeRoundTrip | src/Math/Symbolic/Tensor.ts:73-86 | Reshape succeeds exactly when the element totals agree, keeps the elements, and reshaping back gives the tensor again |
| TensorUtils.ElementWise | src/Math/Symbolic/Tensor.ts:92-163 | ElementAdd, ElementSubtract, ElementMultiply and ElementDivide throw a Tensor error exactly when the shapes differ, and otherwise combine the elements position by position under a's shape |
| TensorUtils.CombineEach | src/Math/Symbolic/Tensor.ts:106-109 | element i of the result combines element i of each operand; ElementSubtract, ElementMultiply and ElementDivide repeat this loop at lines 123-126, 140-143 and 157-160 |
| TensorUtils.ScalarMultiply | src/Math/Symbolic/Tensor.ts:165-172 | every element is multiplied by the scalar, under the same shape |
| TensorUtils.Grid | src/Math/Symbolic/Tensor.ts:198-215 | the nested loops over rows and columns give rows × cols entries |
| TensorUtils.GridAt | src/Math/Symbolic/Tensor.ts:198-215 | entry (i, j) lands at position i × cols + j |
| TensorUtils.ProductEntries | src/Math/Symbolic/Tensor.ts:194-215 | the three nested loops build each entry as the sum over k of a[i·inner + k] · b[k·cols + j], a single term not wrapped in Add |
| TensorUtils.RowEntries | src/Math/Symbolic/Tensor.ts:199-214 | the middle loop gives the entries of row i, one per column, as EntryAt describes |
| TensorUtils.EntryTerms | src/Math/Symbolic/Tensor.ts:200-213 | the inner loop gives entry (i, j): the one product when the inner dimension is 1, the Add of the products over k otherwise |
| TensorUtils.MultiplyMatrices | src/Math/Symbolic/Tensor.ts:174-218 | MatrixMultiplication with b's dimensions read from b: a Tensor error unless both are matrices with a's columns equal to b's rows |
| TensorUtils.CellAt | src/Math/Symbolic/Tensor.ts:54-61 | the element at (i, k) of a well-formed matrix is the one at i × columns + k |
| TensorUtils.MatrixEntry | src/Math/Symbolic/Tensor.ts:174-218 | the product of two well-formed matrices is a well-formed rows(a) × cols(b) matrix whose entry (i, j) is the sum of a(i, k) · b(k, j) over k |
| TensorUtils.EntryCells | src/Math/Symbolic/Tensor.ts:198-214 | the entry the loops build is that sum over the cells of the two matrices |
| TensorUtils.MatrixMultiplicationReadsWrongShape | src/Math/Symbolic/Tensor.ts:183-192 | as written, a 1×2 matrix times a 2×1 one throws the dimension error, because b's rows are read from a's shape; with b's shape read from b it succeeds |
| TensorUtils.VectorDot | src/Math/Symbolic/Tensor.ts:220-247 | VectorDot throws a Tensor error unless both are vectors of one length, and otherwise gives the sum of the element products (a single product not wrapped in Add) |
| TensorUtils.Permuted | src/Math/Symbolic/Tensor.ts:290-296 | the new shape takes dimension axes[i] of the old at position i |
| TensorUtils.ScatterAt | src/Math/Symbolic/Tensor.ts:301-308 | placing the new indices along distinct axes puts newIndices[p] at axis axes[p] |
| TensorUtils.TransposedArgsErr | src/Math/Symbolic/Tensor.ts:298-321 | once an element lookup fails, the transposition fails with that error |
| TensorUtils.PermutedPositive | src/Math/Symbolic/Tensor.ts:290-299 | permuting the dimensions of a non-empty tensor keeps them positive |
| TensorUtils.DefaultAxesNeverEnd | src/Math/Symbolic/Tensor.ts:254-259 | as written the default-axes loop counts up from rank - 1 while the counter is at least 0, so no fuel is enough for it to end |
| TensorUtils.ReversedAxesPermutation | src/Math/Symbolic/Tensor.ts:254-259 | corrected, the default axes rank-1 … 0 are a permutation of the dimensions |
| TensorUtils.OriginalIndices | src/Math/Symbolic/Tensor.ts:301-308 | the loops start from zeros and write newIndices[i] at axis axes[i] |
| TensorUtils.TransposeTensor | src/Math/Symbolic/Tensor.ts:249-324 | Transpose with the given axes, or the reversed axes when none are given |
| TensorUtils.DefaultAxes | src/Math/Symbolic/Tensor.ts:254-259 | corrected, the default-axes loop counts down and gives the reversed axes |
| TensorUtils.TransposeAlong | src/Math/Symbolic/Tensor.ts:261-323 | the axes checks ("Axes array must have same length as tensor rank", "Axes must be a permutation of tensor dimensions") and the element loop compute Transpose |
| TensorUtils.TransposedArgsAt | src/Math/Symbolic/Tensor.ts:298-321 | the element loop puts at position f the element TransposedElement finds there |
| TensorUtils.TransposeElement | src/Math/Symbolic/Tensor.ts:249-324 | when Transpose succeeds the axes are a permutation, dimension i of the result is dimension axes[i] of the tensor, the element count is kept, and element f of the result is the original element whose index along axes[i] is the new index i |
| TensorUtils.IdentityMatrix | src/Math/Symbolic/Tensor.ts:326-341 | IdentityMatrix builds size × size entries in row order, 1 on the diagonal and 0 elsewhere |
| TensorUtils.IdentityAt | src/Math/Symbolic/Tensor.ts:326-341 | entry (i, j) of the identity matrix is 1 when i = j and 0 otherwise |
| TensorUtils.Filled | src/Math/Symbolic/Tensor.ts:343-363 | the loop gives one copy of the value per element of the shape's total (none for a total below 1) |
| TensorUtils.ZerosTensor | src/Math/Symbolic/Tensor.ts:343-352 | Zeros fills the shape with literal 0 |
| TensorUtils.OnesTensor | src/Math/Symbolic/Tensor.ts:354-363 | Ones fills the shape with literal 1 |
| TensorParser.CalculateShape | src/Parse/TensorParser.ts:15-31 | the shape starts with the number of elements |
| TensorParser.AnalyzeTensorStructure | src/Parse/TensorParser.ts:4-13 | no elements give shape [0] and an invalid tensor; otherwise the shape is read off the first elements and the tensor is valid exactly when the whole nesting has that shape |
| TensorParser.ShapeOfValid | src/Parse/TensorParser.ts:15-50 | a nesting that has a shape of positive dimensions gives that shape back from its first elements |
| TensorParser.AnalyzeExact | src/Parse/TensorParser.ts:4-50 | a valid tensor's shape is the one calculateShape reads, and the nesting has it |
| TensorParser.LeavesConcat | src/Parse/TensorParser.ts:33-50 | the leaves of two lists are the leaves of the first followed by those of the second |
| TensorParser.ValidLeafCount | src/Parse/TensorParser.ts:33-50 | a nesting that has a shape holds exactly the shape's total number of leaves |
| TensorParser.RowsLeafCount | src/Parse/TensorParser.ts:42-49 | n rows of a valid nesting hold n times the total of the inner shape |
| TensorParser.FlatMatrixFailsNestedCheck | src/Parse/TensorParser.ts:33-50 | four flat elements do not have shape [2, 2]; two rows of two do |
| Validation.FindFunction | src/Visitors/Validation.ts:26 | `functions.find` gives the first entry that lists the name, and none exactly when no entry lists it |
| Validation.ValidateSpec | src/Visitors/Validation.ts:20-181 | a validator returns the tree unchanged exactly when every node of it passes its check, and otherwise throws a Parser error |
| Validation.ValidateAllSpec | src/Visitors/Validation.ts:20-181 | the arguments pass exactly when each does, and then come back unchanged |
| Validation.FunctionRules | src/Visitors/Validation.ts:25-42 | FunctionValidator throws for a function no entry lists ("Function not found") and for an argument count other than the first listing entry's, and accepts the node itself otherwise |
| Validation.FirstEntryDecides | src/Visitors/Validation.ts:26-39 | only the first entry naming a function is read: with f listed for 1 and then for 2 arguments, f(a, b) is refused |
| Validation.LeafRules | src/Visitors/Validation.ts:62-108 | LeafValidator accepts a variable exactly when its name is not empty, a constant exactly when its name is not empty and is a registered constant, and a literal exactly when neither denominator is 0 |
| Validation.TensorRules | src/Visitors/Validation.ts:45-60 | TensorValidator accepts a tensor exactly when its elements have its shape and each element passes |
| Validation.OperatorRules | src/Visitors/Validation.ts:110-181 | after OperatorValidator a sum or product has at least two arguments, an absolute value or factorial one, and a power two with a nonzero exponent and no negative real exponent on a zero base |
| Validation.ZeroBaseNegativeExponent | src/Visitors/Validation.ts:161-166 | 0 to a negative real literal is refused ("Dividing by zero is not possible"), and 0 to a literal with an imaginary part is accepted |
| Validation.OperatorAcceptsPolynomials | src/Visitors/Validation.ts:115-135 | on sums and products of variables OperatorValidator accepts exactly those where each sum and product has at least two arguments |
| Validation.HasConstant | src/Visitors/Validation.ts:86-89 | the loop over the registered constants finds the name exactly when it is registered |
| Validation.ValidateLeaf | src/Visitors/Validation.ts:62-108 | LeafValidator on a node without arguments, with the constant found by that loop |
| Visitors.VisitAll | src/Visitors/Base.ts:34 | `args.map(arg => this.Visit(arg))` keeps the number of arguments |
| Visitors.IdentityKeeps | src/Visitors/Base.ts:18-96 | NodeVisitor rebuilds every tree unchanged |
| Visitors.ComplexUnitIsComplexLiterals | src/Parse/Visitors/Converting.ts:23-33 | ComplexVisitor replaces the variable `i` by the unit `i` at every depth, the same tree complexLiterals of the post-processor builds |
| Visitors.FunctionsKeep | src/Parse/Visitors/Converting.ts:6-20 | FunctionVisitor changes no tree in which no function has a converter |
| Visitors.FunctionsConvert | src/Parse/Visitors/Converting.ts:11-17 | a function whose name a converter lists is replaced by that converter applied to the visited arguments |
| Visitors.SplicedMembers | src/Visitors/Node.ts:13-21 | every node VisitAdd collects comes from one visited child: the child itself or one of its arguments |
| Visitors.SplicedFlattened | src/Visitors/Node.ts:10-24 | when the visited children are flattened, nothing collected has the spliced kind |
| Visitors.AssembleFlattened | src/Visitors/Node.ts:23 | Nodes.Add and Nodes.Multiply of flattened nodes are flattened (also lines 39) |
| Visitors.VisitFlattened | src/Visitors/Node.ts:5-41 | FlatteningVisitor, as written and corrected, leaves no sum inside a sum, and corrected no product inside a product either |
| Visitors.FlatteningAddShape | src/Visitors/Node.ts:10-24 | VisitAdd gives 0 for no collected nodes, the node itself for one, and otherwise a sum with no sum argument and at most its last argument a literal |
| Visitors.PieceValue | src/Visitors/Node.ts:16-20 | pushing a child's arguments in place of a child of the same kind keeps the value of the sum or product |
| Visitors.SplicedShape | src/Visitors/Node.ts:13-21 | splicing keeps the nodes polynomial and drops none of the children |
| Visitors.SplicedValue | src/Visitors/Node.ts:10-40 | splicing the visited children keeps the value of the sum or product |
| Visitors.AssemblePlain | src/Visitors/Node.ts:23 | Nodes.Add and Nodes.Multiply build the plain node of two or more non-literal operands of another kind (also lines 39) |
| Visitors.FlatteningKeepsValue | src/Visitors/Node.ts:5-41 | corrected, FlatteningVisitor keeps the value of a polynomial tree under every integer assignment of its variables, and flattens it |
| Visitors.VisitAllValue | src/Visitors/Node.ts:10-40 | visiting each child without changing its value keeps the value of the sum or product |
| Visitors.SumOfVariablesKept | src/Visitors/Node.ts:10-24 | as written x + y is unchanged |
| Visitors.ProductOfSumSpliced | src/Visitors/Node.ts:26-40 | as written x · (y + z) becomes x · y · z, since VisitMultiply splices sums |
| Visitors.MultiplySplicesSums | src/Visitors/Node.ts:32 | as written, x · (y + z) is 2 at x = y = z = 1 but its visited tree x · y · z is 1 |
| Visitors.VisitNode | src/Node/Visitors.ts:21-48 | the recursive method computes Visit for each visitor |
| Visitors.VisitArgs | src/Visitors/Base.ts:34 | the loop over the arguments computes VisitAll |
| Visitors.SpliceLoop | src/Visitors/Node.ts:11-21 | the forEach loop collects the nodes Spliced describes |

## Left out

- Floating point: NumericDerivative (src/AST/Calculus.ts:23-36), the numeric evaluators, src/Math/FloatingPoint and the numeric `function` fields of the math function table are not part of this model; all arithmetic here is exact on fractions.
- Calculus.Derive: VisitFunction's derivative lookup in the math function table is a parameter (`table`), since the table's shape does not fit the lookup the code makes; a name missing from it gives the "Function not found" error.
- Non-termination: the loops of Polynomial.Divide and Polynomial.GCD and the simplifier's restart-on-rewrite have no bound in the code. The model gives each a `fuel` count and reports running out as a `Diverges` error. As written, Divide's pass never cancels the remainder's leading term (the Findings row for Polynomial.ts:64-74), so a division that needs a pass, and a GCD that needs one, runs out of any fuel.
- Polynomials.DivisionSpec: the exit condition and the no-pass case are all it states; that the code's Ok results are only those where no pass ran is shown for x / x (Polynomials.XOverXNeverReturns), not for every input, since an uncombined dividend can fold its own coefficients.
- Polynomials.GcdSpec: likewise states only what any division gives; GCD(x, x) not returning is Polynomials.GcdXXNeverReturns.
- Polynomials.CancellingDivision: the division identity p1 = q·p2 + r is not proved, because coefficients are expression trees that Nodes.Add and Nodes.Multiply do not normalise; termination is proved for polynomials in one variable whose divisor's leading coefficient can be inverted.
- Polynomials.CancellingGcd: only GCD(x, x) is proved to end; in general the leading coefficient of each remainder would have to stay invertible, which the model does not track.
- Calculus.Derive: the visit of another variable recurses on the same node forever; the model reports that as a `Diverges` error instead of a stack overflow, and the corrected mode holds such a variable constant.
- Polynomials.DivideNodes: inverting a power node that lacks its exponent reads a nil argument; the model reports that as a `HostError` rather than the exact Luau failure.
- Nodes.Exponentiation: a base that is a power node without its exponent (as MultiplicationRules.PSquaredAsWritten builds) makes the code read a nil `args[1]`; the function requires the exponent to be present, so that read is not modelled.
- Nodes.Inverse: requires a power node to carry its exponent, for the nil read of Nodes.Exponentiation.
- Nodes.Divide: requires a divisor that is a power node to carry its exponent, for the nil read of Nodes.Exponentiation.
- TensorUtils.ElementWise: element-wise division requires every divisor that is a power node to carry its exponent, for the nil read of Nodes.Exponentiation; it also requires b to hold at least as many elements as a when the shapes agree, since the code reads b's element at each of a's positions.
- TensorUtils.VectorDot: for two vectors of one length, b must hold at least as many elements as a, since the code reads b's element at each of a's positions.
- TensorUtils.SetElement: requires the flat position of an in-bounds tuple to lie inside the storage. A shorter storage, such as the row list of a parsed nested matrix, is written past its end in the host, which grows the table; the model's storage is a fixed-length array, so that growth is not modelled.
- Polynomials.Power: the exponent is an `int`, so the code's "non-integer exponent" error is left out; a negative exponent gives the same error as in the code.
- Map iteration order: roblox-ts maps iterate in Luau table order, which the code cannot rely on. The model takes iteration to follow first insertion, with `set` on a present key keeping its place (`PowerMaps`); this fixes which entry the expansion cache evicts and the order of polynomial signatures.
- PatternExpansion.ExpansionCache: `HttpService:JSONEncode`, used for cache keys, is a parameter `keyOf` that may fail; a failing key gives `CacheError`. The condition strings of NodeSerializer.PatternToString come from a total parameter `encode`, since the JSON text of a condition is not modelled.
- src/Polyfill/Object.ts is not part of this model: its one use copies captures into an empty map, which is a plain value copy here.
- Simplifier.Simplify: the simplifier's matcher caches expansions; the model expands uncached, and PatternExpansion proves that the cached expander returns the same expansion when the cache keys are injective.
- Expansion.Permutations: generatePermutations skips entries by reference identity, and the entries of one combination are always distinct objects, so the guard never fires; orderings are taken over positions, k! of them.
- Pattern conditions and rule replacements: the lambdas of the pattern and rule tables are a closed set of conditions and total replacement functions; arbitrary user-supplied lambdas are not modelled.
- The Luau-pattern Tokenizer and `tonumber` are not part of this model; TokenStreams.TokenStream takes the lexer's output as a parameter.
- ArrayPolyfill.From: a negative size gives no elements; `new Array(size)` compiles to the host's `table.create`, which most likely throws for a negative size, and that throw is not modelled.
- TokenStreams.TokenStream.RLEagerTokenize: the call passes three arguments to a two-argument splitter; the model passes the token and the set of known identifiers, given as a parameter, and the splitter's rule (the code's as-written one, or the corrected one of the Findings row) is a parameter of the stream.
- TensorUtils.Transpose: the default-axes path never ends and is modelled only as a finding (TensorUtils.DefaultAxesAsWritten); the explicit-axes path is modelled in full.
- PostProcessor.PostProcess: the converter lookup iterates a dictionary with `ipairs` and reads a field that does not exist; the model takes the converter list as a parameter and states the lookup it evidently means (PostProcessor.FindConverter).
- Registries.Registry: the registry's function entries carry names and an arity, which is what the validator reads; the host function values themselves are not modelled.
- src/Parse/Parser.ts, src/Parse/Rules.ts and src/Parse/PostProcNodes.ts are not part of this model: the parser and its rules call each other under names neither defines, so there is no behaviour to state.
- The stale duplicates src/AST/PolynomialAnalyzer.ts, src/AST/Polynomial.ts, src/AST/PolynomialSolver.ts, src/AST/Visualizer.ts and src/Parse/PostProcessing/*.ts are not part of this model. The BaseASTVisitor of src/Node/Visitors.ts, which the converters of src/Parse/Visitors/Converting.ts extend, is modelled as `Visitors.Visit` and `Visitors.VisitNode`.
- The facade (src/MathParser.ts, src/index.ts) and the type-only files under src/Typescript are used only as datatype declarations. The switch on the node type in src/Visitors/Visitor.ts is the `match` on the node in each visiting function of the model (`Visitors.Visit`, `Calculus.Derive`, `LaTeX.Render`, `NodeSerializer.ToString`); its abstract class is not modelled as a type.
- Integer range: numerators, denominators, shapes and indices are host doubles; the model uses unbounded integers and does not model overflow or loss of precision.
- Name casing: `applyRuleWithPartialMatch`, `ComplexUtils.fromNumber`, `hasArgs`, `addValues` and `multiplyValues` are called under names that differ in case from their definitions; the model treats each pair as one function.
- Concurrency: there is none; the cache belongs to one expander.
- PolynomialSolver.LinearRootSpec: nodes have no numeric value in this model, so that the root solves a·x + b = 0 is stated under any valuation that treats the root's own nodes as arithmetic, not for an evaluator of nodes.

## Findings

| source | as written | input that shows it | evidently intended | confidence | as-written member | corrected member |
|---|---|---|---|---|---|---|
| src/Math/Symbolic/Tensor.ts:183-192 | the rows and columns of b are read from a.shape | a 1×2 matrix times a 2×1 matrix is rejected as a dimension mismatch | read them from b.shape | not executed | TensorUtils.MatrixMultiplicationAsWritten, TensorUtils.MatrixMultiplicationReadsWrongShape | TensorUtils.MatrixMultiplication, TensorUtils.MatrixEntry |
| src/Math/Symbolic/Tensor.ts:254-259 | the default-axes loop counts i up from rank - 1 while i >= 0 | any tensor of rank 1 or more transposed without axes: the loop never ends | count down to 0, giving the reversed axes | not executed | TensorUtils.DefaultAxesAsWritten, TensorUtils.DefaultAxesNeverEnd | TensorUtils.ReversedAxes, TensorUtils.ReversedAxesPermutation |
| src/Visitors/Node.ts:32 | VisitMultiply splices children that are sums | x · (y + z) becomes x · y · z | splice children that are products | not executed | Visitors.Visit with FlatteningAsWritten, Visitors.ProductOfSumSpliced | Visitors.Visit with Flattening, Visitors.FlatteningKeepsValue |
| src/Visitors/String.ts:109 | the vector loop compares with shape[1] | any vector: shape[1] of a one-dimensional shape is nil and the comparison throws | loop over shape[0] and read element [i]; the index [i, i] of line 110 has the wrong rank for a vector, so that read alone would also throw "Out of bounds" | not executed | LaTeX.Render with VectorsAsWritten, LaTeX.VectorsNeverRender | LaTeX.Render with VectorsAsRow, LaTeX.VectorAsRow |
| src/AST/Calculus.ts:65 | another variable is visited again with `this.Visit(node)` | the derivative in x of y: the visit never returns | 0, the variable held constant | not executed | Calculus.Derive with Revisited, Calculus.OtherVariable | Calculus.Derive with HeldConstant, Calculus.LeafRules |
| src/Simplification/MultiplicationRules.ts:30-36 | the Literal * -1 rule replaces the whole product | 2 · x · -1 becomes -2, and x is lost | replace only the two matched factors | not executed | MultiplicationRules.NegLiteralAsWritten, MultiplicationRules.NegLiteralDropsFactors | MultiplicationRules.NegLiteral, MultiplicationRules.NegLiteralKeepsFactors |
| src/Simplification/MultiplicationRules.ts:46-52 | P * P builds P^Q, but Q is not captured | x · x becomes a power with one argument and no exponent | x^2 | not executed | MultiplicationRules.PSquaredAsWritten, MultiplicationRules.PSquaredLosesExponent | MultiplicationRules.PSquared, MultiplicationRules.PSquaredKeepsExponent |
| src/AST/Polynomials/Polynomial.ts:64-74 | the remainder less the divisor times the quotient term is combined, and the leading coefficient becomes c + -(c·q), an Add node rather than literal 0 | x divided by x: the remainder keeps degree 1 and the loop never ends | cancel the leading terms, so the remainder's degree drops | not executed | Polynomials.Division, Polynomials.XOverXNeverReturns | Polynomials.CancellingDivision, Polynomials.CancellingDivisionEnds |
| src/AST/Polynomials/Polynomial.ts:100 | exponent 0 returns the zero polynomial | x^0 is 0 | the constant 1 | not executed | Polynomials.PowerAsWritten, Polynomials.ZeroPowerIsZero | Polynomials.Power, Polynomials.PowerSpec |
| src/AST/Polynomials/Polynomial.ts:147 | a power is lowered only when it is above 1, otherwise dropped | the derivative of x^-1 has no x left | lower every power by one, dropping it only when it reaches 0 | not executed | Polynomials.TermDerivativeAsWritten, Polynomials.NegativePowerDerivative | Polynomials.TermDerivativeOf, Polynomials.TermDerivativeSpec |
| src/AST/Polynomials/Polynomial.ts:142-145 | the coefficient is divided by the variable's power | the derivative of 3x^2 is (3 / 2)x | multiply by the power, giving 6x | not executed | Polynomials.TermDerivativeAsWritten, Polynomials.SquareDerivativeHalves | Polynomials.TermDerivativeOf, Polynomials.TermDerivativeSpec |
| src/AST/Polynomials/PolynomialSolver.ts:84 | the root of a x + b is b / a | x + 1 gives the root 1, where 1 + 1 is not 0 | -b / a | not executed | PolynomialSolver.SolveLinear, PolynomialSolver.SolveLinearSolvesNegated | PolynomialSolver.LinearRoot, PolynomialSolver.LinearRootSpec |
| src/Parse/Tokenizing/RLEagerTokenizer.ts:12-13 | the rest is cut from the piece just found, not from the input | `xy` with no known identifiers gives only `y` | cut the piece off the input and go on with the rest | not executed | RLEagerTokenizer.SplitAsWritten, RLEagerTokenizer.SplitDropsPieces | RLEagerTokenizer.SplitOf, RLEagerTokenizer.SplitGlued |
| src/Simplification/Simplifier.ts:23-25 | a one-argument sum or product returns the child it was given | the sum of the sum of x gives the sum of x | return the simplified child | not executed | Simplifier.Simplify with InputNode, Simplifier.UnwrapsUnsimplifiedChild | Simplifier.Simplify with SimplifiedNode, Simplifier.NormalForm |
| src/Matching/Patterns.ts:39-45 | Divide's exponent slot is the negated divisor | the quotient a · b^-1 that Nodes.Divide builds does not match Divide(a, b): the literal -1 is no instance of b · -1 | the literal -1 | not executed | Patterns.Divide, Patterns.DerivedBuilders | Patterns.DivideIntended, Patterns.DivideExponentSlot |
| src/Matching/Patterns.ts:97-107 | the rational sign classes test the imaginary numerator | -3 is a positive rational (it fails PositiveReals), and no node at all is a negative rational | test the real numerator | not executed | Patterns.PositiveRationals, Patterns.RationalSignReadsImaginary | Patterns.PositiveRationalsIntended, Patterns.RationalSignIntended |
