# spdaot core in Dafny

A model of the rewriting core of spdaot, a small Python 2 package for computing with
noncommutative polynomials in named variables modulo user-declared rewriting rules.

- **Words** (`VariableWord`) are sequences of registered variable names. They are built
  and validated against the registry, concatenated, searched for their leftmost
  subword, and renamed in place.
- **Variables** (`Variable`) register their name in `config.variables` and can be renamed.
- **Relations** (`Relation`) are rules `lhs = sum of coeff * word`. They are validated
  and stored in `config.relations`, keyed by left-hand side and kept in iteration order.
- **Elements** (`Element`) are polynomials: a coefficient map from words to integers.
  They support `+`, `-`, `*`, `==`, indexing and renaming. `_simplify` rewrites them:
  in each pass, the first rule in table order is applied at the leftmost occurrence
  of its left-hand side, in the first stored word where any rule fires. Zeros are
  dropped, and passes repeat until no rule fires.
- **Families**: `make_poly_family` declares q-commutation rules `y x = q x y` among
  its arguments. `add_central_variable` declares a variable that commutes with every
  known one.
- **`finite_set_exponential`** enumerates every function between two finite lists.
- **Folds**: `right_associative` and `left_associative` turn a binary function into
  an n-ary one. `compose` and `prod` are built with them.

How it is organised:

- Global state (the registry and the relation table) becomes the objects
  `Variables.Registry` and `Relations.RelationTable`. Methods receive them as parameters.
- Code that updates in place becomes classes and methods with loop invariants. Each
  method is proved against a specification function:
  - `Element.Simplify` against `Simplifier.Normalize`;
  - `Element.AddTerms` against `Coefficients.AddPairs`;
  - `RelationTable.Declare` against `Relations.RelationOf`;
  - `DeclareFamily` against `Families.Family`.
- Lemmas state what the specification functions mean.
- Python exceptions become the `Failure` side of `Wrappers.Result`.
- Every word the source rebuilds or concatenates (`w1 * w2` in `*`, `key.copy()` in
  `transform`, `VariableWord(*before)` and `before_vw*varword*after_vw` in `_simplify`)
  is checked against the registry again, so a stored word holding an unregistered name
  raises UnknownVariableName at the same point as in the source. `transform` itself
  does not check `new`, so such words can be stored. This holds for the words the model
  stores; the zero keys that the source's reads insert are not stored here (see
  "## Left out").
- A dict's iteration order is its insertion order. Assigning to an existing key keeps
  its position.

## Model

| member | source | states |
|---|---|---|
| `Words.NewWord` | variable.py:124-149 | The word is built exactly when every argument is a str or Variable with a registered name; it then lists those names in order. Otherwise the error is the first rejected argument's: UnknownVariableName for an unregistered name, TypeError for a nested word or any other value |
| `Words.Revalidate` | variable.py:132-149 | Rebuilding a word from a list of names gives back that list exactly when every name is registered, and UnknownVariableName otherwise |
| `Words.AllKnownConcat` | variable.py:146-149 | A concatenation holds only registered names exactly when both of its parts do |
| `Words.Mul` | variable.py:155-162 | `w * other` is the concatenation with the other word or Variable name on the right, validated like a new word; any other operand raises TypeError |
| `Words.RMul` | variable.py:164-171 | `other * w` through `__rmul__` puts the other operand's names first, with the same validation and TypeError |
| `Words.FindFromMeaning` | variable.py:257-259 | The position returned is an occurrence of the pattern at or after the start, with no occurrence before it; None means no occurrence at all |
| `Words.SplitOnMeaning` | variable.py:244-260 | An empty pattern splits at the front. Otherwise `before + during + after` is the word and `during` is the pattern, at its leftmost occurrence. There is no split exactly when the pattern occurs nowhere |
| `Words.SplitOnSub` | variable.py:254-260 | The search loop with its early return gives the split the specification defines |
| `Words.FiresIff` | element.py:245-246 | A left-hand side fires in a word exactly when it is nonempty and occurs in it, so an empty left-hand side never fires |
| `Words.TransformInPlace` | variable.py:219-237 | The array is renamed position by position. The counts returned are the number of occurrences of `old` and, with swap and distinct names, of `new` |
| `Words.RenameAt` | variable.py:225-233 | One iteration renames position `i` as the specification says, leaves later positions untouched, and keeps each count equal to the occurrences in the prefix passed |
| `Words.PassedAll` | variable.py:225-237 | After the last position the array is the renamed word and the counts are the numbers of `old` and (with swap, distinct names) `new` in the original word |
| `Words.OccurrencesCount` | variable.py:219-233 | Counting occurrences one position at a time gives the multiplicity of the name in the word |
| `Words.RenameTwiceRestores` | variable.py:225-231 | With swap, renaming twice restores the word |
| `Words.RenameCounts` | variable.py:225-237 | After renaming, no `old` is left and `new` has gained them all; with swap the two counts are exchanged; every other name keeps its count |
| `Variables.Variable.Register` | variable.py:83-95 | A new name is inserted at the end of the registry. A known name raises VariableNameCollision and leaves the registry unchanged |
| `Variables.Variable.Transform` | variable.py:101-119 | The name becomes `new` if it was `old`, or `old` if it was `new` with swap; the result says whether it changed; the degree is untouched |
| `Variables.EqualsByName` | variable.py:41-48 | Comparing with a Variable is comparing with its name, and equality between Variables is symmetric |
| `Variables.NewVariable` | variable.py:21-39 | A new name is registered. A known name is ignored unless `register` is set; then VariableNameCollision propagates and nothing changes |
| `Relations.LookupMeaning` | config.py:16-20 | A lookup returns a stored rule with the requested left-hand side, and returns nothing exactly when no rule has it |
| `Relations.RegisterLookup` | relation.py:67-69 | After registration the rule's left-hand side maps to the rule, and every other left-hand side to what it mapped to before |
| `Relations.RegisterPosition` | relation.py:67-69 | A new left-hand side goes to the end. A known one is replaced in place and every other position is unchanged. Left-hand sides stay distinct |
| `Relations.RegisterAppends` | relation.py:67-69 | Registering a rule whose left-hand side is new appends it at the end |
| `Relations.RegisterReplaces` | relation.py:67-69 | Registering a rule whose left-hand side is stored replaces that rule in place; the length and every other rule are unchanged |
| `Relations.RegisterTwice` | relation.py:67-69 | Registering the same rule twice gives the same table as registering it once |
| `Relations.RegisterAllLookup` | relation.py:67-69 | After a sequence of registrations, a left-hand side maps to `rel` when `rel` was registered and every registered rule with that left-hand side is `rel` |
| `Relations.RegisterAllDistinct` | relation.py:67-69 | Any sequence of registrations keeps left-hand sides distinct |
| `Relations.TermsOfMeaning` | relation.py:54-63 | The right-hand side is accepted exactly when every pair is. It is stored pair by pair in the given order; otherwise the error is the first rejected pair's |
| `Relations.TermsOfPrefix` | relation.py:55-63 | Once a prefix of the pairs is rejected, the whole right-hand side is, with the same error |
| `Relations.RelationTable.Declare` | relation.py:32-65 | Builds the relation or raises the error the checks give (TypeError for a bad left-hand side, coefficient or word or for an argument that cannot be unpacked, ValueError for one that does not unpack into two, UnknownVariableName for an unregistered Variable); the table changes only by registering a relation that was built |
| `Coefficients.LoadGet` | element.py:89-96 | Copying pairs into a fresh dict: the last pair for a word wins, and exactly the words of the pairs are stored |
| `Coefficients.AddPairsGet` | element.py:206-214 | Adding pairs one by one adds to each word the total paired with it; the stored words are the old ones and those of the pairs |
| `Coefficients.EntriesGet` | element.py:264 | The items of a dict, summed or copied into a new dict, give back its coefficients |
| `Coefficients.PruneMeaning` | element.py:267-268 | Dropping zeros keeps every coefficient and leaves no zero. It stores only words that were stored, and changes nothing when there was no zero |
| `Simplifier.RuleFromMeaning` | element.py:244-246 | Returns the first rule at or after the given position that fires in the word; None means none fires |
| `Simplifier.PairFromMeaning` | element.py:244-260 | Returns the first (word, rule) pair in product order, words outer, in which the rule fires; None means no rule fires in any remaining word |
| `Simplifier.FirstRedexMeaning` | element.py:244-260 | A rewrite is found exactly when the terms are not reduced. It is in the first word where any rule fires, with the first such rule in table order, at the leftmost occurrence of its nonempty left-hand side |
| `Simplifier.PrunedReduced` | element.py:262-268 | When no rule fires, dropping the zeros leaves well-formed terms with no zero in which no rule fires |
| `Simplifier.NormalizePass` | element.py:239-268 | One pass whose validations fail ends simplification with UnknownVariableName. A pass that rewrites leaves one pass fewer to reach the same result. A pass that finds no rewrite ends with the terms it leaves |
| `Simplifier.ReducedSub` | element.py:267-268 | Dropping stored words keeps the terms reduced |
| `Simplifier.DeltaGet` | element.py:251-256 | Changes: the matched word loses its coefficient `c`; each `before + r + after` gains `k * c` for each pair `(k, r)` of the rule |
| `Simplifier.RewriteGet` | element.py:251-268 | One pass: the chosen word loses `c`, the rule's words gain `k * c`, every other word keeps its coefficient, and no zero is stored |
| `Simplifier.Normalize` | element.py:237-268 | A result (when the passes suffice) is well formed, free of zeros, and reduced: no rule fires in any stored word. The only failures are exhausted passes and UnknownVariableName from a pass whose `before`, `after` or concatenations hold an unregistered name |
| `Simplifier.NormalizeFixed` | element.py:239-268 | Terms free of zeros in which no rule fires are left exactly as they are |
| `Simplifier.NormalizeIdempotent` | element.py:98-108 | Simplifying a simplified result again changes nothing |
| `Simplifier.EmptyLhsNeverFires` | element.py:245-246 | With no rule that can fire (all left-hand sides empty), simplification only drops zeros |
| `Simplifier.DeltaKnown` | element.py:251-256 | When the validations of a pass succeed, every word of its changes dict holds only registered names |
| `Simplifier.RedexChecked` | element.py:244-256 | In terms over registered names, the rewrite chosen by a rule over registered names passes every validation of the pass |
| `Simplifier.RewriteKnown` | element.py:251-268 | A pass whose validations succeed keeps every stored word over registered names |
| `Simplifier.KeptKnown` | element.py:267-268 | Dropping zeros keeps every stored word over registered names |
| `Simplifier.NormalizeKnown` | element.py:239-268 | Terms and rules over registered names never raise UnknownVariableName during simplification (the only failure left is exhausted passes), and the result is over registered names |
| `Simplifier.NormalizeRejects` | element.py:244-253 | When the word the pass chooses holds an unregistered name, simplification raises UnknownVariableName |
| `Arithmetic.UnionMeaning` | element.py:114 | The union of the stored words holds the words of either operand, once each |
| `Arithmetic.SumGet` | element.py:113-114 | Before simplification the sum holds `a[w] + b[w]` for every word and stores exactly the words stored in either operand |
| `Arithmetic.SumMeaning` | element.py:113-114 | The sum reads `a[w] + b[w]` at every word and stores exactly the words stored in either operand |
| `Arithmetic.ProductGet` | element.py:129-131 | Before simplification the product holds, for each word `w`, the sum of `a[w1] * b[w2]` over stored pairs with `w1 + w2 == w` |
| `Arithmetic.ProductUnit` | element.py:129-131 | The Element `1` is a unit of the product on both sides |
| `Arithmetic.MulRowsUnitOrder` | element.py:129-131 | Multiplying by an Element whose only word is the empty one visits each word of `a` once, in order, so the product keeps the order of `a` |
| `Arithmetic.PairProductSumScalar` | element.py:129-131 | Multiplying by the Element `s` gives each word of `a` its coefficient times `s`, and every other word 0 |
| `Arithmetic.ProductScalar` | element.py:129-131 | The product with the Element `s` keeps the stored order and multiplies every coefficient by `s` |
| `Arithmetic.ConcatenableRows` | element.py:129-131 | The product loop raises nothing exactly when none of its rows does, and one row that raises makes the product raise |
| `Arithmetic.ConcatenableScalar` | element.py:131 | The concatenations of a product with a Number hold only registered names exactly when the stored words of the other operand do |
| `Arithmetic.SameCoefficientsIff` | element.py:151-152 | The comparison over the union of the stored words is agreement on every word; between zero-free terms it is equality of the maps |
| `Arithmetic.MarkedInFailure` | element.py:166-171 | Once the Element-index loop has raised, the remaining items do not matter |
| `Arithmetic.MarkedInMeaning` | element.py:165-173 | Over the first `n` items: no mark exactly when every coefficient is 0. A marked word is the only item with coefficient 1, all others being 0, and such an item is always marked. The only error is TypeError |
| `Arithmetic.MarkedZero` | element.py:162-174 | An Element index reads None exactly when it is zero |
| `Arithmetic.MarkedWordSound` | element.py:162-174 | An Element index that reads the word `w` is `1 * w` |
| `Arithmetic.MarkedWordComplete` | element.py:162-174 | An Element index that is `1 * w` reads `w` |
| `Arithmetic.MarkedMeaning` | element.py:162-174 | An Element index is accepted exactly when it is `1 * w` (it reads `w`) or zero (it reads None); otherwise TypeError |
| `Arithmetic.TransformKeepsLater` | element.py:220-229 | Without swap, when two words rename to the same word, the later one's scaled coefficient is kept |
| `Arithmetic.SwapInjective` | element.py:222-228 | With swap and distinct names, renaming never maps two different words to the same word |
| `Arithmetic.TransformSwap` | element.py:218-229 | With swap and distinct names, each word's renamed image holds its coefficient times `scalar ** ex1 * revscalar ** ex2` |
| `Arithmetic.DictTermsMeaning` | element.py:89-96 | A dict argument is accepted exactly when every key is a word or a registered Variable, and is copied item by item; otherwise the first bad key's error |
| `Arithmetic.DictTermsPrefix` | element.py:90-95 | Once a prefix of the items has a bad key, the whole dict is rejected with that error |
| `Arithmetic.DictTermsWords` | element.py:90-92 | A dict whose keys are all words is taken as it is |
| `Arithmetic.EmptyWordReduced` | element.py:101-102 | No rule fires in terms that hold only the empty word |
| `Arithmetic.ConstructNumber` | element.py:101-102 | `Element(n)` holds `n` on the empty word and nothing else, whatever the rules; for a nonzero `n` it is exactly that one term |
| `Arithmetic.ConstructWord` | element.py:97-100 | `Element(w)` for a word, a registered Variable, or a name in which no rule fires holds exactly `1 * w` |
| `Arithmetic.NoRulesArithmetic` | element.py:110-139 | When no rule fires, `+` is the coefficient-wise sum. `*` raises exactly when some concatenation `w1 * w2` holds an unregistered name, and is otherwise the convolution over concatenated words |
| `Arithmetic.NoRulesMinus` | element.py:122-124 | When no rule fires, `a - b` raises exactly when a stored word of `b` holds an unregistered name, and is otherwise the coefficient-wise difference `a[w] - b[w]` |
| `Arithmetic.NegatedByTimes` | element.py:124 | `b * -1` of a simplified Element negates every coefficient and keeps the stored order; it raises UnknownVariableName when a stored word of `b` is unregistered |
| `Arithmetic.DifferenceGet` | element.py:113-114 | The dict of `a - b` before simplification reads `a[w] - b[w]` at every word and stores each word of either operand once |
| `Arithmetic.SumNegated` | element.py:113-124 | Adding the negated terms gives the difference dict |
| `Arithmetic.MinusMeaning` | element.py:122-124 | `a - b` for a simplified Element `b` is the Element built from the coefficient-wise difference, whatever the rules; it raises UnknownVariableName when a stored word of `b` is unregistered |
| `Arithmetic.EqualIff` | element.py:141-152 | `==` between Elements holds exactly when the coefficients agree on every word |
| `Arithmetic.IndexByOne` | element.py:160-161 | Indexing by the Element `1` reads the same coefficient as indexing by the number 1 |
| `Elements.BuildChanges` | element.py:251-256 | The changes dict is built exactly when `before`, `after` and every concatenation hold only registered names; it is then the changes of the specification. Otherwise UnknownVariableName |
| `Elements.RhsChanges` | element.py:255-256 | The loop over the rule's right-hand side completes exactly when every `before_vw*varword*after_vw` holds only registered names, and then yields the changes of the specification; otherwise UnknownVariableName |
| `Elements.Element.AddTerms` | element.py:196-214 | The pairs are added in turn. On a bad coefficient or word the error is the first bad pair's, and the terms hold exactly the pairs added before it |
| `Elements.Element.FindRedex` | element.py:244-260 | The nested search returns the rewrite the specification chooses |
| `Elements.Element.Pass` | element.py:242-268 | A pass whose validations fail raises UnknownVariableName and changes nothing. Otherwise it rewrites exactly when the specification finds a rewrite; the terms are then the rewritten ones, otherwise those with the zeros dropped |
| `Elements.Element.PassWithin` | element.py:239-268 | A pass taken from a state that reaches the normal form in `n` passes reaches it in `n - 1`, or has reached it when it rewrote nothing, or raises the error the normal form reports |
| `Elements.Element.Simplify` | element.py:237-268 | The loop ends with the terms of the specification: reduced, free of zeros, well formed. Otherwise it reports the specification's error: exhausted passes, or UnknownVariableName from a pass |
| `Elements.Element.GetItem` | element.py:154-174 | Reads the coefficient of a word, a registered Variable (an unregistered one raises UnknownVariableName), the number 1 (the empty word) or a `1 * w` Element. Raises for a bad Element index; None for anything else |
| `Elements.Element.Transform` | element.py:216-230 | A stored word with an unregistered name raises UnknownVariableName at its copy, before the terms change. Otherwise the renamed and scaled terms are simplified, with the specification's result or error; `revscalar` defaults to `scalar` |
| `Elements.RenamedCopy` | element.py:222-228 | A copied key renamed in place is the renamed word, and the counts are the numbers of `old` and (with swap, distinct names) `new` in the key |
| `Elements.RenameKey` | element.py:222-228 | A key copied and renamed in place, with its coefficient scaled by `scalar` and `revscalar` to the counts the renaming returns |
| `Elements.RenameStep` | element.py:221-228 | One iteration copies the key, raising exactly when it holds an unregistered name, and extends the new dict by its renamed entry |
| `Elements.RenameAll` | element.py:220-229 | The loop builds the renamed dict of the specification, or raises UnknownVariableName exactly when a stored word holds an unregistered name |
| `Elements.KeyWord` | element.py:91-95 | A key that is a word is kept, a Variable becomes its one-letter word (UnknownVariableName when unregistered), and anything else raises TypeError |
| `Elements.WordArgsAccepted` | element.py:262 | The items of a changes dict, passed to `_add_terms`, are all accepted and kept in order |
| `Elements.FromItems` | element.py:87-96 | The copy loop stores the accepted items in order, or raises the first bad key's error |
| `Elements.ItemsOf` | element.py:97-104 | A word, a Variable, a str or a Number is a one-item dict with coefficient 1 (or the number on the empty word); anything else raises TypeError |
| `Elements.FromDict` | element.py:87-108 | A dict argument is copied, then simplified |
| `Elements.NewElement` | element.py:73-108 | `Element(x)` is the simplified dict `x` stands for, or the error of its conversion or simplification |
| `Elements.Operand2` | element.py:143-150 | The other operand of `+`, `*`, `==` is an Element, or is converted when it is a word, a Variable or a Number |
| `Elements.SumElement` | element.py:113-114 | The comprehension's dict, made into a new simplified Element |
| `Elements.Add` | element.py:110-120 | `a + other` is the simplified coefficient-wise sum; an unsupported operand gives back the TypeError class instead of raising |
| `Elements.Element.AddRow` | element.py:130-131 | The inner loop adds `c1 * b[w2]` to `w1 * w2` for each stored `w2`, in order. It stops exactly when some concatenation holds an unregistered name, at the first such `w2`, with the entries before it added |
| `Elements.FillProduct` | element.py:128-131 | The nested loops fill a fresh Element with the product of the specification exactly when every `w1 * w2` holds only registered names; otherwise they raise UnknownVariableName |
| `Elements.ProductElement` | element.py:128-133 | `__mul__` between Elements gives the result of `Multiply`: UnknownVariableName from a concatenation, or the simplified product, or the error of simplification |
| `Elements.Mul` | element.py:126-139 | `a * other` is the simplified product, or UnknownVariableName from a concatenation; an unsupported operand raises TypeError |
| `Elements.Negated` | element.py:124 | `b * -1` is the simplified product with the number -1 |
| `Elements.SubElement` | element.py:122-124 | `a - b` for an Element is `a + b * -1`, which `Arithmetic.MinusMeaning` shows is the simplified coefficient-wise difference |
| `Elements.AddNegated` | element.py:124 | `a - n` for a number is `a + (-n)` |
| `Elements.SubScalar` | element.py:122-124 | `a - x` for a non-Element: a number is negated; `str * -1` is the empty str, which `+` rejects by returning TypeError; anything else raises TypeError |
| `Elements.Sub` | element.py:122-124 | `a - other` is `a + other * -1` for every kind of operand; for an Element, the simplified coefficient-wise difference (`Arithmetic.MinusMeaning`) |
| `Elements.CompareCoefficients` | element.py:151-152 | The two loops decide agreement on every word stored in either operand |
| `Elements.Equals` | element.py:141-152 | `a == other` compares coefficients after converting the operand; an unsupported operand raises TypeError |
| `Families.StepMeaning` | element.py:43-44 | One declaration succeeds exactly when `com(x, y)` is a number; it then adds `y x = c x y`; a failure is TypeError |
| `Families.RowFromMeaning` | element.py:42-44 | The inner loop succeeds exactly when every later argument gives a number. It keeps the rules declared before and adds the rule for each later argument; every rule is the family rule of its own left-hand side |
| `Families.FromMeaning` | element.py:41-44 | The same for the nested loops over all pairs `a < b` from a row on |
| `Families.FromKeeps` | element.py:41-44 | The nested loops only raise TypeError and declare only family rules |
| `Families.RowCovers` | element.py:42-44 | The inner loop keeps earlier rules and, when it ends without exception, has declared the rule of its argument before every later one |
| `Families.FromRetains` | element.py:41-44 | The nested loops keep the rules declared before them |
| `Families.FromAccepts` | element.py:41-44 | The nested loops end without exception exactly when `com` gives a number for every pair `a < b` |
| `Families.FromCovers` | element.py:41-44 | When the nested loops end without exception, every family rule for a pair `a < b` is declared |
| `Families.FamilyMeaning` | element.py:35-44 | The family is declared without error exactly when `com` gives a number for every pair `i < j`. An error is TypeError. Every declared rule is `names[j] names[i] = c names[i] names[j]` for its own pair |
| `Families.FamilyLookup` | element.py:41-44 | After a successful declaration, the table maps `names[j] names[i]` to `c names[i] names[j]` for every `i < j` |
| `Families.AppendedMeaning` | element.py:34 | Registering the arguments adds exactly the new names, once each, after the known ones |
| `Families.RegisterNames` | element.py:34 | `Variable(x)` for each argument registers the new names in order and keeps every known one |
| `Families.DeclarePair` | element.py:43-44 | One pass declares the family rule of the pair and registers it when it is built |
| `Families.DeclareRow` | element.py:42-44 | The inner loop declares the rules of the specification's row and stops at the first error |
| `Families.DeclareFamily` | element.py:41-44 | The nested loops register exactly the family's rules and report its error |
| `Families.CollectMeaning` | element.py:45 | The tuple comprehension succeeds exactly when every element does; its values come in order; on failure the error is the first failing element's |
| `Families.CollectPrefix` | element.py:45 | Once a prefix of the comprehension fails, the whole fails with the same error |
| `Families.FamilyElements` | element.py:45 | Returns one new Element per argument, in order, holding `Element(v)`'s terms; on failure the error is that of the first argument whose `Element(v)` fails |
| `Families.MakePolyFamily` | element.py:18-45 | Registers the names and declares the family rules. On a non-number `com` it raises TypeError, with the rules before it declared. Otherwise it returns `Element(v)` for each argument in order, or the error of the first that fails |
| `Families.RelationOfPair` | element.py:44 | `Relation(y*x, (c, x*y))` is built exactly when `c` is a number, with the single term `c * x y`; otherwise TypeError |
| `Families.CentralUpToMeaning` | element.py:63-65 | The loop over the first names declares `u v = v u` for each name `u` other than `v`, and nothing else |
| `Families.CentralRulesMeaning` | element.py:63-65 | Over the whole registry: every known `u` other than `v` gets `u v = v u`, and every rule is of that form |
| `Families.CentralLookup` | element.py:63-65 | After the declarations the table maps `u v` to `v u` for every known `u` other than `v` |
| `Families.DeclareCentralPair` | element.py:64-65 | One declaration registers `u v = v u`, or raises UnknownVariableName when `v` is not registered |
| `Families.DeclareCentral` | element.py:63-65 | The loop registers all central rules when `v` is registered and leaves the table unchanged otherwise |
| `Families.AddCentralVariable` | element.py:47-66 | A str is made a registered Variable; other values raise TypeError. A registered `v` gets the central rules and `Element(v)`. An unregistered Variable raises UnknownVariableName and declares nothing |
| `Tools.RestrictTail` | tools.py:40-43 | A function on `exponent` is the update at `exponent[0]` of a function on the rest of `exponent` |
| `Tools.ExtendDistinct` | tools.py:40-43 | Setting `exponent[0]` to each distinct value over distinct functions on the rest yields distinct dicts |
| `Tools.ExponentialCount` | tools.py:39-43 | The generator yields `len(base) ** len(exponent)` dicts |
| `Tools.ExponentialOrder` | tools.py:39-43 | The value of `exponent[0]` varies slowest, following `base`; for each of them the dicts for the rest come in their own order |
| `Tools.ExponentialFunctions` | tools.py:28-43 | Each yielded dict is a function from the entries of `exponent` into the entries of `base` |
| `Tools.ExponentialComplete` | tools.py:16-43 | Every such function is yielded |
| `Tools.ExponentialDistinct` | tools.py:23-43 | Under the docstring's assumptions (distinct entries in both lists) no dict is yielded twice |
| `Tools.FiniteSetExponentialMeaning` | tools.py:32-43 | An empty base raises ValueError, even for an empty exponent. An empty exponent yields the one empty dict. Otherwise exactly the `len(base) ** len(exponent)` functions are yielded |
| `Frosting.AssociativeExamples` | frosting.py:40-63 | One argument is returned unchanged. Three arguments group as `f(x, f(y, z))` on the right and `f(f(x, y), z)` on the left |
| `Frosting.GroupingMatters` | frosting.py:40-63 | For subtraction the two decorators give different results |
| `Frosting.LaFuncCons` | frosting.py:61-62 | For an associative function, the left fold can take its first argument off the front |
| `Frosting.AssociativeAgree` | frosting.py:40-63 | For an associative function both decorators give the same result on every argument list |
| `Frosting.ComposeFold` | frosting.py:108-111 | The left fold of binary composition applies the functions from the last to the first |
| `Frosting.ComposeApply` | frosting.py:108-111 | `compose(f1, ..., fn)(x) == f1(...fn(x))`; calling it with no function raises TypeError |
| `Frosting.ProdMeaning` | frosting.py:114-117 | `prod(x, y, z) == (x*y)*z`, and in general the product of all the arguments; no argument raises TypeError |

## Left out

- Printing (`__str__`, `__repr__`, `config.print_options`) is not modelled; it produces text only.
- `Element.copy`, `VariableWord.copy` and `__hash__` are left out. Words and Elements are values here, so a copy is the value itself.
- Coefficients are integers. Other numeric types (floats, fractions) and the `coeff_initializer` argument are not modelled.
- Reading a missing key of a defaultdict (`self.terms[index]`, element.py:157) inserts that key with coefficient 0. The key stays stored until the Element is simplified again, and only `transform` does that to an existing Element. The model reads 0 without inserting, so its Elements never hold these zero keys. Every coefficient is the same either way, but the stored keys are not. Every later loop over the Element's keys also visits them: the concatenations of `*`, the comprehension of `+`, and the copy, renaming and simplification of `transform`. In any of them a zero key can raise where the model does not, or change which word is rewritten first. The lines below name the members affected, with examples; the list of ways this can happen is not exhaustive.
- `Elements.Add`: `a + b` with an Element `b` inserts into `a` the words only `b` stores, and into `b` the words only `a` stores (element.py:113-114); `a - b` does the same to `a`. The model leaves both operands unchanged. The comprehension also copies the zero keys `a` already holds into the new dict. `_simplify` picks the first stored word in which a rule fires, zero coefficient or not, before it drops zeros (element.py:243-268). So the constructor validates a zero key when a rule fires in it. Example: registry {x, y}, `e = Element(VariableWord('x', 'y'))`, `e.transform('x', 'z')`, `f = Element()`. Then `f + e` leaves `f.terms == {zy: 0}`. The rule `Relation(VariableWord('y'), (1, VariableWord('x')))` is declared after that. Now `f + Element(x)` raises UnknownVariableName at `VariableWord('z')` (element.py:252), whatever the iteration order, because `zy` is the only word where a rule fires. The model's `Plus` on `f`'s terms, which are empty, succeeds.
- `Elements.Equals`: `a == other` inserts into `a` the words only the other side stores, and into an Element `other` the words only `a` stores (element.py:151-152). The model leaves both unchanged.
- `Elements.Element.GetItem`: `e[index]` inserts the word it reads when `e` lacks it: the VariableWord itself, `VariableWord(v)` for a Variable, the empty word for `1`, the unit word of an Element index. For an Element index, the `index == 1` test runs first; it inserts the empty word into the index when the index lacks it (element.py:151-152, 160). The model leaves `e` and the index unchanged. It reads an Element index through its items without that test; `Arithmetic.IndexByOne` shows that both read the same coefficient.
- `Elements.Mul`: the loops of `*` also run over the zero keys an operand holds (element.py:130-131). Where such a key makes `w1 * w2` hold an unregistered name (a name an earlier `transform` put there), the source raises UnknownVariableName and the model's `Times` succeeds. Example: registry {x, y}, `e = Element(x)`, `e.transform('x', 'z')`, `f = Element(y)`, `f + e` leaves `f.terms == {y: 1, z: 0}`, and then `f * f` raises at `VariableWord('y', 'z')`. The inserted keys also hold places in iteration order, so they can change which word `_simplify` rewrites first in the product.
- `Elements.Element.Transform`: the loop also copies and renames zero keys (element.py:222-228). Their `key.copy()` can raise UnknownVariableName, as above, and so can the `_simplify` that follows (element.py:252-256) when a rule fires in a renamed zero key. Example: registry {x, y}, the rule `Relation(VariableWord('y'), (1, VariableWord('x')))`, `e = Element(x)`; reading `e[VariableWord('x', 'y')]` stores `xy: 0`; `e.transform('x', 'z')` renames it to `zy`, where the rule fires, and `VariableWord('z')` raises, where the model's `Transform` gives {z: 1}. When a zero key renames to the same word as an earlier stored key, its 0 overwrites that key's coefficient (`Arithmetic.TransformKeepsLater`). Example, for the insertion order this model assumes (`x` visited before `y`; in the other order the 1 is kept): registry {x, y}, `e = Element(x)`, `e + Element(y)` leaves `e.terms == {x: 1, y: 0}`, and `e.transform('y', 'x')` then makes `e` zero, where the model's `Transform` keeps `x: 1`.
- Python 2 leaves dict and set iteration order unspecified. The model fixes it to insertion order, so results that depend on order (which rewrite `_simplify` picks first) hold for that order.
- `_simplify` may loop forever; the source says so. Every loop here gets `fuel` passes and reports `FuelExhausted` when they run out. Non-termination itself is not modelled.
- `Elements.Element.Simplify`: when a pass raises or the passes run out, the terms that the earlier passes left in place are not stated; only the error is.
- `Elements.Element.Transform`: when simplification fails after the renaming, the renamed terms the source leaves in place are not stated; only the error is.
- `Elements.SubScalar`: sequences other than str (list, tuple) are "anything else" and raise TypeError. In Python, `list * -1` is an empty list, which `+` answers by returning TypeError.
- `Variable.__mul__` is defined twice in variable.py; only the later definition takes effect. It is used only through `VariableWord` and is not modelled separately.
- `make_poly_family` accepts only names, not Variable objects. A `commute` callable is a pure function of the two names. A callable that raises, depends on object identity, or cannot be called is folded into the `NotNumber` outcome, which raises TypeError like the source.
- `Families.FamilyMeaning` states which rules are declared (coherence: each is the family rule of its own pair) and when an error occurs. It does not state that the declared rules are exactly the prefix before the first failing pair; `Families.DeclareFamily` and `Families.Family` do.
- `Tools.FiniteSetExponentialMeaning`: the generator raises ValueError on its first advance, not at the call. The model gives the whole yielded sequence or the error, so laziness is not modelled.
- `Frosting.ProdMeaning`: `prod` works for any operands with `*`. The model fixes integers, and `Frosting.AssociativeAgree` covers any associative operation.
- `decorator`, `disabled`, `memo` and `trace` are not modelled: they handle wrapper metadata, caching and printing.
- Functions of tools.py other than `finite_set_exponential` (`div_geometric`, `relation_finder`) are not part of this model.
