# GooKit field selection and JSON web tokens, in Dafny

This project models three parts of GooKit, a .NET client library for Google APIs.

**Partial-response field selection** (`GooKit.Common.FieldSelection`):
- A `JsonFieldSelectorBuilder` collects property selectors. Each selector becomes a single-branch `FieldSelectorTree` built by `FieldSelectorTreeCreator`.
- The builder merges the trees. Parts of the same name are grouped level by level.
- It then optimises the merged tree against the full tree reflected from the root type, down to the merged tree's depth. A part whose children are all selected loses its children.
- It renders the result as a `fields` expression such as `a/b,c(d,e)`.

**`JsonWebToken`** (`GooKit.Services.ServiceAccount`):
- the URL-safe base 64 (section 5 of RFC 4648);
- the hash algorithm lookup;
- the three-segment compact token `header.payload.signature` (section 7.1 of RFC 7515) built by both `Encode` overloads.

**`GoogleSchemaEntity`**: equality and hashing by ETag.

## How it is modelled

The object graph is modelled as Dafny classes, because the source mutates it in place:
- `FieldSelectorPart` and `FieldSelectorTree`;
- the creator's `fieldSelectorParts` stack;
- the builder's list of root trees.

Each class carries:
- a ghost `Model`, a value of type `Part(name, children)` or `seq<Part>`;
- a `Repr` footprint.

Every method is proved against a specification function over these values:
- `FullTree` is the reflected tree.
- `Chain` is a selector's single branch.
- `MergeLevel` is grouping by name.
- `OptimizeEach` is pruning against the full tree.
- `TreeBuild` is rendering.
- `SelectorExpression` is the whole pipeline.

The properties of the source are proved as lemmas about those functions.

Other modelling choices:
- **Reflection.** It is replaced by a `Schema`, a map from type to its property list.
- **Selector lambdas.** A selector lambda is the sequence of properties it accesses, in order from the root: `x => x.A.B` is `[A, B]`.
- **Exceptions.** They are `Result` and `Outcome` values carrying the exception's kind.
- **Signing and hashing.** HMAC, RSA and the string and reference hash functions are parameters.

## Model

| member | source | states |
|---|---|---|
| PartNames.JsonPropertyExtractPartName | Source/GooKit.Common/FieldSelection/JsonPropertyPartNameExtractor.cs:19-33 | fails with ArgumentNull exactly when no property is given |
| PartNames.PropertyNameExtractPartName | Source/GooKit.Common/FieldSelection/PropertyNamePartNameExtractor.cs:16-24 | fails with ArgumentNull exactly when no property is given |
| PartNames.JsonExtractorFallsBackToMemberName | Source/GooKit.Common/FieldSelection/JsonPropertyPartNameExtractor.cs:26-32 | an unannotated property is named by its member name |
| PartNames.JsonExtractorUsesAnnotationVerbatim | Source/GooKit.Common/FieldSelection/JsonPropertyPartNameExtractor.cs:26-32 | a `[JsonProperty]` name is used as given, even when it is empty |
| PartNames.PropertyNameExtractorIgnoresAnnotation | Source/GooKit.Common/FieldSelection/PropertyNamePartNameExtractor.cs:16-24 | the member name is used whatever annotation the property carries |
| PartNames.ExtractorsAgreeWithoutAnnotation | Source/GooKit.Common/FieldSelection/JsonPropertyPartNameExtractor.cs:19-33 | without an annotation the two extractors name a property alike |
| SelectorValues.MaxDeepIsMaximum | Source/GooKit.Common/FieldSelection/FieldSelectorPart.cs:79-87 | the depth of a level bounds the depth of each of its parts and equals one of them |
| SelectorValues.DeepOfChildren | Source/GooKit.Common/FieldSelection/FieldSelectorPart.cs:79-87 | a part with children is one deeper than its deepest child; a leaf has depth 0 |
| SelectorValues.TreeDeepOfParts | Source/GooKit.Common/FieldSelection/FieldSelectorTree.cs:44-52 | a tree is as deep as its deepest root part plus one, and 0 when empty |
| SelectorValues.BuildForms | Source/GooKit.Common/FieldSelection/FieldSelectorPart.cs:94-104 | a leaf renders as its name, one child as `name/child`, several as `name(c1,c2,…)` |
| SelectorValues.TreeBuildJoins | Source/GooKit.Common/FieldSelection/FieldSelectorTree.cs:59-62 | a tree renders as its root parts' renderings joined by `,` |
| SelectorValues.ChainDeep | Source/GooKit.Common/FieldSelection/FieldSelectorTreeCreator.cs:122-135 | a selector's chain of n names has depth n |
| SelectorValues.ChainPaths | Source/GooKit.Common/FieldSelection/FieldSelectorTreeCreator.cs:122-135 | the paths of a chain are exactly the non-empty prefixes of its names |
| SelectorValues.ChainBuildsToSlashPath | Source/GooKit.Common/FieldSelection/FieldSelectorTreeCreator.cs:122-135 | a chain renders as its names joined by `/` |
| SelectorValues.GraftChains | Source/GooKit.Common/FieldSelection/JsonFieldSelectorBuilder.cs:165-177 | hanging a chain under the leaf of another gives the chain of both name lists |
| FieldSelectorParts.FieldSelectorPart.New | Source/GooKit.Common/FieldSelection/FieldSelectorPart.cs:22-35 | fails with ArgumentNull exactly for an empty name; otherwise a fresh childless part of that name |
| FieldSelectorParts.FieldSelectorPart.AddPart | Source/GooKit.Common/FieldSelection/FieldSelectorPart.cs:65-73 | a missing child is ArgumentNull and changes nothing; otherwise the child is appended after the existing children, the name is kept and the part stays well formed |
| FieldSelectorParts.FieldSelectorPart.RemoveAllParts | Source/GooKit.Common/FieldSelection/FieldSelectorPart.cs:55-58 | the part keeps its name and loses every child |
| FieldSelectorParts.FieldSelectorPart.GetDeep | Source/GooKit.Common/FieldSelection/FieldSelectorPart.cs:79-87 | the recursive walk over the object graph yields the depth of the part's value |
| FieldSelectorParts.FieldSelectorPart.Build | Source/GooKit.Common/FieldSelection/FieldSelectorPart.cs:94-104 | the recursive rendering over the object graph yields the rendering of the part's value |
| FieldSelectorParts.FieldSelectorPart.ValidIsNamed | Source/GooKit.Common/FieldSelection/FieldSelectorPart.cs:22-35 | every part reachable from a well-formed part has a non-empty name |
| FieldSelectorTrees.FieldSelectorTree.AddPart | Source/GooKit.Common/FieldSelection/FieldSelectorTree.cs:30-38 | a missing part is ArgumentNull and changes nothing; otherwise the part is appended after the existing ones and the tree stays well formed |
| FieldSelectorTrees.FieldSelectorTree.GetDeep | Source/GooKit.Common/FieldSelection/FieldSelectorTree.cs:44-52 | the walk over the root parts yields the tree's depth: deepest root part plus one, 0 when empty |
| FieldSelectorTrees.FieldSelectorTree.Build | Source/GooKit.Common/FieldSelection/FieldSelectorTree.cs:59-62 | the object graph renders as the tree's value |
| FieldSelectorTreeCreators.FullPartsDepth | Source/GooKit.Common/FieldSelection/FieldSelectorTreeCreator.cs:68-102 | the reflected tree is no deeper than the remaining depth budget |
| FieldSelectorTreeCreators.FullTreeAtZero | Source/GooKit.Common/FieldSelection/FieldSelectorTreeCreator.cs:47-58 | a depth budget of zero reflects an empty tree |
| FieldSelectorTreeCreators.FullPartsPaths | Source/GooKit.Common/FieldSelection/FieldSelectorTreeCreator.cs:68-102 | a path is in the reflected tree exactly when it follows the schema's properties and fits in the depth budget |
| FieldSelectorTreeCreators.ChainTree | Source/GooKit.Common/FieldSelection/FieldSelectorTreeCreator.cs:122-135 | linking the stacked parts each under the previous one yields a well-formed tree holding their chain |
| FieldSelectorTreeCreators.LinkChain | Source/GooKit.Common/FieldSelection/FieldSelectorTreeCreator.cs:122-135 | the first stacked part becomes the tree's only root part and each later one the only child of the one before; the last stays a leaf; with no parts the tree stays empty |
| FieldSelectorTreeCreators.FieldSelectorTreeCreator.GenerateFullFieldSelectorTree | Source/GooKit.Common/FieldSelection/FieldSelectorTreeCreator.cs:47-58 | succeeds exactly when every reflected name is non-empty, and the fresh tree's value is the schema's full tree to the given depth |
| FieldSelectorTreeCreators.FieldSelectorTreeCreator.GenerateChildTreeFromProperties | Source/GooKit.Common/FieldSelection/FieldSelectorTreeCreator.cs:68-102 | the fresh, disjoint parts hold one reflected part per property (none at the depth limit); they expand objects and collection element types but not primitives |
| FieldSelectorTreeCreators.FieldSelectorTreeCreator.GenerateChildPart | Source/GooKit.Common/FieldSelection/FieldSelectorTreeCreator.cs:80-101 | one property's part, expanded through its type while the depth allows |
| FieldSelectorTreeCreators.FieldSelectorTreeCreator.GenerateFromLambdaExpression | Source/GooKit.Common/FieldSelection/FieldSelectorTreeCreator.cs:112-140 | fails with ArgumentNull for a missing selector or an empty part name; otherwise the fresh tree is the chain of the selector's names in access order from the root |
| FieldSelectorTreeCreators.FieldSelectorTreeCreator.Visit | Source/GooKit.Common/FieldSelection/FieldSelectorTreeCreator.cs:150-161 | visiting a member access pushes fresh parts, one per accessed property, so that the stack reads in access order from the root, the first accessed property on top |
| FieldSelectorTreeCreators.FieldSelectorTreeCreator.VisitMember | Source/GooKit.Common/FieldSelection/FieldSelectorTreeCreator.cs:150-161 | the last accessed property (the outermost member expression) is pushed first and the expression it is read from is visited after, which leaves the first accessed property on top |
| FieldSelectorTreeCreators.FieldSelectorTreeCreator.PushNew | Source/GooKit.Common/FieldSelection/FieldSelectorTreeCreator.cs:157-158 | an empty name fails with ArgumentNull and leaves the stack alone; otherwise a fresh part of that name is on top |
| OptimizableFieldSelectorParts.OptimizableFieldSelectorPart.New | Source/GooKit.Common/FieldSelection/OptimizableFieldSelectorPart.cs:17-32 | fails with ArgumentNull exactly when either part is missing; otherwise pairs the two parts |
| MergeValues.DistinctNamesAreDistinct | Source/GooKit.Common/FieldSelection/JsonFieldSelectorBuilder.cs:94-114 | grouping by name yields each name once |
| MergeValues.DistinctNamesFirstOccurrence | Source/GooKit.Common/FieldSelection/JsonFieldSelectorBuilder.cs:94-114 | the groups come in the order of each name's first occurrence |
| MergeValues.MergeNames | Source/GooKit.Common/FieldSelection/JsonFieldSelectorBuilder.cs:94-114 | a merged level holds one part per distinct name, in first-occurrence order |
| MergeValues.MergeIsMerged | Source/GooKit.Common/FieldSelection/JsonFieldSelectorBuilder.cs:123-140 | after merging no level at any depth has two parts of the same name |
| MergeValues.MergePaths | Source/GooKit.Common/FieldSelection/JsonFieldSelectorBuilder.cs:94-140 | merging selects exactly the same paths as the unmerged selections |
| MergeValues.MergeFixpoint | Source/GooKit.Common/FieldSelection/JsonFieldSelectorBuilder.cs:94-140 | an already merged level is left unchanged by merging |
| MergeValues.MergeIdempotent | Source/GooKit.Common/FieldSelection/JsonFieldSelectorBuilder.cs:94-140 | merging twice is merging once |
| MergeValues.MergeRepeated | Source/GooKit.Common/FieldSelection/JsonFieldSelectorBuilder.cs:94-140 | selecting the same parts twice merges to the same result as selecting them once |
| MergeValues.SameSelectionTwice | Source/GooKit.Common/FieldSelection/JsonFieldSelectorBuilder.cs:148-155 | the same property selected twice merges into its single chain |
| MergeValues.MergePrefixChain | Source/GooKit.Common/FieldSelection/JsonFieldSelectorBuilder.cs:94-140 | a selection that is a prefix of another merges into the longer chain |
| MergeValues.PrefixSelectionExample | Source/GooKit.Common/FieldSelection/JsonFieldSelectorBuilder.cs:94-140 | selecting `a` and `a.b` renders as `a/b` |
| OptimizeValues.SingleIndex | Source/GooKit.Common/FieldSelection/JsonFieldSelectorBuilder.cs:58 | `Single` succeeds exactly when one full-tree part has the name, and yields it; otherwise InvalidOperation |
| OptimizeValues.SingleIndexUnique | Source/GooKit.Common/FieldSelection/JsonFieldSelectorBuilder.cs:58 | the part `Single` finds is the only one of that name |
| OptimizeValues.OptimizeEachPrunes | Source/GooKit.Common/FieldSelection/JsonFieldSelectorBuilder.cs:46-85 | a successful optimisation keeps the names at every level and drops children only where all the full part's children were selected |
| OptimizeValues.OptimizeClears | Source/GooKit.Common/FieldSelection/JsonFieldSelectorBuilder.cs:69-85 | a part ends childless exactly when it had none or had as many children as its full counterpart |
| OptimizeValues.OptimizeKeepsTopLevel | Source/GooKit.Common/FieldSelection/JsonFieldSelectorBuilder.cs:46-62 | optimisation keeps the root names in order |
| OptimizeValues.OptimizeEachSucceeds | Source/GooKit.Common/FieldSelection/JsonFieldSelectorBuilder.cs:46-85 | optimisation succeeds exactly when every selected name has exactly one full-tree counterpart at every level it reaches, else InvalidOperation |
| OptimizeValues.OptimizePartSucceeds | Source/GooKit.Common/FieldSelection/JsonFieldSelectorBuilder.cs:69-85 | the same condition for a single part |
| OptimizeValues.OptimizeEachIdempotent | Source/GooKit.Common/FieldSelection/JsonFieldSelectorBuilder.cs:46-85 | optimising an optimised level again changes nothing |
| OptimizeValues.OptimizeNeverNarrows | Source/GooKit.Common/FieldSelection/JsonFieldSelectorBuilder.cs:46-85 | every path the selection covers is still covered after optimisation, and every optimised path was selected |
| OptimizeValues.OptimizeMayWiden | Source/GooKit.Common/FieldSelection/JsonFieldSelectorBuilder.cs:81-84 | the child count can match with different children, and then the collapsed part covers a path that was not selected |
| JsonFieldSelectorBuilders.MergeChildPart | Source/GooKit.Common/FieldSelection/JsonFieldSelectorBuilder.cs:123-140 | fresh, disjoint, well-formed parts that hold the merge of the given level, recursively |
| JsonFieldSelectorBuilders.MergeRootParts | Source/GooKit.Common/FieldSelection/JsonFieldSelectorBuilder.cs:94-114 | a fresh tree holding the merge of all root trees' parts, in order |
| JsonFieldSelectorBuilders.Optimize | Source/GooKit.Common/FieldSelection/JsonFieldSelectorBuilder.cs:46-62 | succeeds exactly when the value-level optimisation does, failing with InvalidOperation, and then the tree holds the optimised value |
| JsonFieldSelectorBuilders.OptimizePart | Source/GooKit.Common/FieldSelection/JsonFieldSelectorBuilder.cs:69-85 | the in-place optimisation of one part matches the value-level one, both in success and in result |
| JsonFieldSelectorBuilders.OptimizeChildren | Source/GooKit.Common/FieldSelection/JsonFieldSelectorBuilder.cs:76-80 | each child is paired with its single namesake in the full part and optimised, in order |
| JsonFieldSelectorBuilders.AddToLastChild | Source/GooKit.Common/FieldSelection/JsonFieldSelectorBuilder.cs:173-174 | hanging the item tree's root under the collection chain's last part gives the chain of both name lists |
| JsonFieldSelectorBuilders.ThrowIfPropertyDontParticipateInResponse | Source/GooKit.Common/FieldSelection/JsonFieldSelectorBuilder.cs:202-214 | passes exactly for a present selector whose final property (the one `GetPropertyInfo` yields) carries `[JsonProperty]`; ArgumentNull when missing, InvalidOperation otherwise |
| JsonFieldSelectorBuilders.OptimizeAgainstFullTree | Source/GooKit.Common/FieldSelection/JsonFieldSelectorBuilder.cs:186-194 | the merged tree is optimised against the full tree of its own depth, as the value-level pipeline says |
| JsonFieldSelectorBuilders.NothingSelected | Source/GooKit.Common/FieldSelection/JsonFieldSelectorBuilder.cs:186-194 | with no selections the expression is empty |
| JsonFieldSelectorBuilders.SelectorExpressionSucceeds | Source/GooKit.Common/FieldSelection/JsonFieldSelectorBuilder.cs:186-194 | the expression is built exactly when the full tree is well named and the merged selections match it; the two failures are ArgumentNull and InvalidOperation |
| JsonFieldSelectorBuilders.SelectorExpressionShape | Source/GooKit.Common/FieldSelection/JsonFieldSelectorBuilder.cs:186-194 | the expression renders a merged tree that has the selected root names, selects only selected paths and keeps every covered path |
| JsonFieldSelectorBuilders.JsonFieldSelectorBuilder.SelectProperty | Source/GooKit.Common/FieldSelection/JsonFieldSelectorBuilder.cs:148-155 | on success the selector's chain is recorded after the earlier ones; the errors come in the source's order and leave the selections alone |
| JsonFieldSelectorBuilders.JsonFieldSelectorBuilder.SelectCollectionProperty | Source/GooKit.Common/FieldSelection/JsonFieldSelectorBuilder.cs:165-177 | both selectors are checked in order; on success the chain of the collection's names followed by the item's names is recorded |
| JsonFieldSelectorBuilders.JsonFieldSelectorBuilder.GenerateCollectionTree | Source/GooKit.Common/FieldSelection/JsonFieldSelectorBuilder.cs:168-176 | the collection's tree with the item tree grafted under its last part holds the joined chain |
| JsonFieldSelectorBuilders.JsonFieldSelectorBuilder.Record | Source/GooKit.Common/FieldSelection/JsonFieldSelectorBuilder.cs:154 | the tree is added after the earlier root trees and its selection after the earlier selections |
| JsonFieldSelectorBuilders.JsonFieldSelectorBuilder.BuildSelectorExpression | Source/GooKit.Common/FieldSelection/JsonFieldSelectorBuilder.cs:186-194 | the result is the value-level selector expression of everything selected so far |
| JsonFieldSelectorBuilders.JsonFieldSelectorBuilder.MergeAndOptimize | Source/GooKit.Common/FieldSelection/JsonFieldSelectorBuilder.cs:186-193 | the merged and optimised tree, or its error, is the one the value-level pipeline gives |
| Base64.CharToIndex | Source/GooKit.Services/ServiceAccount/JsonWebToken.cs:285 | each alphabet character stands for the six-bit value it encodes |
| Base64.EncodeUnpadded | Source/GooKit.Services/ServiceAccount/JsonWebToken.cs:251 | the unpadded encoding uses the alphabet and has four characters per three octets plus the partial group |
| Base64.ToBase64String | Source/GooKit.Services/ServiceAccount/JsonWebToken.cs:251 | the padded encoding's length is a multiple of four and it holds only alphabet characters and `=` |
| Base64.FromBase64String | Source/GooKit.Services/ServiceAccount/JsonWebToken.cs:285 | succeeds exactly on text whose length is a multiple of four, made of alphabet characters with `=` only as one or two final characters; every failure is a FormatException |
| Base64.DecodeGroupsAccepts | Source/GooKit.Services/ServiceAccount/JsonWebToken.cs:285 | a sequence of four-character groups decodes exactly when every character is in the alphabet except for `=` padding at the very end |
| Base64.DecodeEncode | Source/GooKit.Services/ServiceAccount/JsonWebToken.cs:251-285 | decoding the standard encoding of any bytes gives the bytes back |
| JsonWebTokens.GetHashAlgorithm | Source/GooKit.Services/ServiceAccount/JsonWebToken.cs:220-240 | an empty name is ArgumentNull, an unknown name Argument, and a found algorithm has exactly that name |
| JsonWebTokens.GetHashAlgorithmOfName | Source/GooKit.Services/ServiceAccount/JsonWebToken.cs:220-240 | every algorithm is found under its own name |
| JsonWebTokens.SplitJoin | Source/GooKit.Services/ServiceAccount/JsonWebToken.cs:252 | splitting a join of separator-free segments gives the segments back |
| JsonWebTokens.FromToUrlAlphabet | Source/GooKit.Services/ServiceAccount/JsonWebToken.cs:253-254 | the `+`→`-`, `/`→`_` replacement is undone by the reverse replacement |
| JsonWebTokens.Base64UrlEncode | Source/GooKit.Services/ServiceAccount/JsonWebToken.cs:244-256 | fails with ArgumentNull exactly for empty input; otherwise a non-empty string of the URL-safe alphabet with no `=`, `+` or `/` |
| JsonWebTokens.Base64UrlDecode | Source/GooKit.Services/ServiceAccount/JsonWebToken.cs:261-287 | empty input is ArgumentNull, a length of 1 modulo 4 is InvalidOperation, any other failure is a FormatException |
| JsonWebTokens.Base64UrlRoundTrip | Source/GooKit.Services/ServiceAccount/JsonWebToken.cs:244-287 | decoding the URL-safe encoding of any non-empty bytes gives the bytes back |
| JsonWebTokens.HashAlgorithms | Source/GooKit.Services/ServiceAccount/JsonWebToken.cs:33-62 | the table has entries for HS256, HS384 and HS512 and none for RS256 |
| JsonWebTokens.CompactToken | Source/GooKit.Services/ServiceAccount/JsonWebToken.cs:86-103 | joining the three encoded segments with `.` gives a token that splits into three segments decoding to header, payload and signature |
| JsonWebTokens.EncodeSegments | Source/GooKit.Services/ServiceAccount/JsonWebToken.cs:86-103 | the token is the compact form of header, payload and the signature of the signing input; a missing signer is KeyNotFound |
| JsonWebTokens.Encode | Source/GooKit.Services/ServiceAccount/JsonWebToken.cs:74-104 | a missing or empty payload or key is ArgumentNull and RS256 is KeyNotFound; for an HS algorithm it succeeds exactly when the HMAC of the signing input is non-empty, and then yields the compact token carrying that signature |
| JsonWebTokens.EncodeWithCertificate | Source/GooKit.Services/ServiceAccount/JsonWebToken.cs:113-155 | a missing payload or certificate is ArgumentNull; otherwise an RS256 compact token signed by the certificate over the signing input |
| GoogleSchemaEntities.Equals | Source/GooKit.Services/GoogleSchemaEntity.cs:32-41 | a resource equals itself; null and objects of other types are never equal to it; without a non-blank ETag it equals only itself |
| GoogleSchemaEntities.GetHashCode | Source/GooKit.Services/GoogleSchemaEntity.cs:50-58 | a resource with a non-blank ETag hashes as that ETag string, whatever its kind and identity; any other as its reference |
| GoogleSchemaEntities.EqualsByETag | Source/GooKit.Services/GoogleSchemaEntity.cs:32-41 | two resources with non-blank ETags are equal exactly when their ETags are |
| GoogleSchemaEntities.EqualsFallsBackToReference | Source/GooKit.Services/GoogleSchemaEntity.cs:32-41 | without two non-blank ETags only the same object is equal, and null or a non-resource never is |
| GoogleSchemaEntities.KindIrrelevant | Source/GooKit.Services/GoogleSchemaEntity.cs:32-41 | with equal non-blank ETags, resources of different kinds are equal both ways |
| GoogleSchemaEntities.EqualsIsEquivalence | Source/GooKit.Services/GoogleSchemaEntity.cs:32-41 | equality on resources is reflexive, symmetric and transitive |
| GoogleSchemaEntities.HashCodeConsistent | Source/GooKit.Services/GoogleSchemaEntity.cs:50-58 | equal resources have equal hash codes, whatever the hash functions |

## Left out

- Null arguments to constructors and private methods are ruled out by non-null types. The public `AddPart` methods and the factories `FieldSelectorPart.New` and `OptimizableFieldSelectorPart.New` do model their null checks. A null part name is modelled as the empty name, a null selector as `None`, and a null `FieldSelectorPart` in `OptimizableFieldSelectorPart.New` as `null`.
- `Expression<Func<…>>` trees and reflection are not modelled:
  - a selector is the sequence of `PropertyInfo`s it accesses;
  - `GetProperties`, `IsPrimitive`, `IsIEnumerable` and `GetSingleGenericParameter` are read from a `Schema` value.
- `IPartNameExtractor` is a two-value datatype rather than an open interface.
- FieldSelectorParts.FieldSelectorPart.AddPart requires the child's footprint to be disjoint from the part's. Adding the same part twice, or a part under itself or its own descendant, is accepted by the source but is outside this model. No caller does either.
- FieldSelectorTrees.FieldSelectorTree.AddPart requires the part's footprint to be disjoint from the tree's. Adding the same part twice is accepted by the source but is outside this model. No caller does it.
- JsonFieldSelectorBuilders.ThrowIfPropertyDontParticipateInResponse treats a selector that accesses no property (`x => x`) as not participating, so it fails with InvalidOperation. This is an assumption: that case is decided by `GetPropertyInfo`, an extension method from another library that is not part of this model.
- FieldSelectorTreeCreators.FieldSelectorTreeCreator.GenerateFromLambdaExpression requires an empty part stack. The source never clears the stack, so a second call on the same creator would link the first call's parts as well. Every caller in JsonFieldSelectorBuilder.cs (152, 169-170) uses a fresh creator, so that reuse is not modelled.
- FieldSelectorTreeCreators.FieldSelectorTreeCreator.GenerateFullFieldSelectorTree takes `maximumDeep` as a `nat`. With a negative `Int32` depth the source never reaches its `currentDeep == maximumDeep` stop and recurses without bound through nested types; that is not modelled. The builder only passes a tree's depth, which is never negative.
- JsonFieldSelectorBuilders.LastChild finds the chain's last part by walking down single children. It does not model `WhereRecursive(...).Single()` in general, which matches because a selector's tree is a single chain.
- JsonFieldSelectorBuilders.MergeChildPart groups parts by value snapshots and builds fresh parts. It does not reuse the source's part objects, whose identity is not observable afterwards.
- JsonFieldSelectorBuilders.Optimize leaves the tree only known to be well formed when optimisation fails midway. The source's partially optimised state after an `InvalidOperationException` is not described.
- Optimisation can select more than was selected. A part loses its children whenever it has as many children as its full counterpart (JsonFieldSelectorBuilder.cs:81-84), even when some of those children were themselves only partly selected. OptimizeValues.OptimizeMayWiden gives such an input. The model follows the code, and OptimizeValues.OptimizeNeverNarrows shows that nothing selected is lost.
- `FieldSelectorExtensions` is not part of this model.
- `JsonWebToken.Decode` and signature verification are not modelled. HMAC-SHA and RSA signing are function parameters, and JSON serialisation of header and payload is not modelled: the header is a fixed ASCII string.
- JsonWebTokens.Utf8Bytes covers ASCII text only. The signing input is always base 64 plus `.`.
- JsonWebTokens.Base64UrlEncode treats a null byte array like an empty one.
- Base64.FromBase64String rejects whitespace, which the .NET decoder skips. Like the .NET decoder, it accepts a final group whose unused low bits are not zero.
- GoogleSchemaEntities.GetHashCode takes both hash functions as parameters and does not model 32-bit hash values.
