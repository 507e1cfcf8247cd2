# Role allow-list decision of kube-secret-syncer, in Dafny

This project models the role validator of kube-secret-syncer. The validator decides whether a secret may name a given IAM role inside a Kubernetes namespace. The namespace opts in by listing the allowed roles, as a JSON array of role names, under the annotation `iam.amazonaws.com/allowed-roles`. Role names are compared by their ARNs (Amazon Resource Names), so two different names for the same role count as equal.

- `rolevalidator.dfy` (module `RoleValidation`) holds the model:
  - the data model: `Error`, `Result`, `Namespace`, `Outcome`;
  - the decision as pure functions: `Whitelisted`, `RoleAllowed`, `ScanAllowList`;
  - ghost functions that record which collaborator calls the decision makes, in order (`Calls`, `RoleAllowedCalls`, `ScanResolved`);
  - the class `RoleValidator`. Its two collaborators are `const` fields, set by the constructor and never written again. Its methods `IsWhitelisted` and `IsRoleAllowed` follow the Go code step by step, including the early-exit loop over the allow-list, and each is proved equal to the matching function.
- `properties.dfy` (module `RoleValidationProperties`) holds the lemmas about those functions.

The order of the steps is the code's: for a non-empty role, the namespace is fetched, then the requested role's ARN is looked up (validator.go:43), and only then is the annotation decoded (validator.go:49). So a failed lookup of the requested role is reported even when the annotation is malformed.

The collaborators are modelled as total functions that return either a value or an `Error`:
- the IAM ARN lookup: `ArnGetter`;
- the namespace cache: `NamespaceGetter`;
- the JSON decoder behind `json.Unmarshal`: `Unmarshal`.

The Go pair `(bool, error)` is modelled as `Outcome(allowed, err)`, where `err == None` means a nil error. The message that `errors.WithMessagef` adds is modelled as the structured value `ResolveErr(roleName, cause)`.


## Model

| member | source | states |
|---|---|---|
| `RoleValidation.ScanAllowList` | pkg/rolevalidator/validator.go:53-64 | the scan never pairs "allowed" with an error; any error it reports is a `ResolveErr` naming one of the allow-list entries; it allows only if some entry resolves to exactly the role's ARN |
| `RoleValidation.RoleAllowed` | pkg/rolevalidator/validator.go:42-65 | the result of `isRoleAllowed` is never "allowed" together with an error |
| `RoleValidation.Whitelisted` | pkg/rolevalidator/validator.go:24-40 | the result of `IsWhitelisted` is never "allowed" together with an error |
| `RoleValidation.AnnotationName` | pkg/rolevalidator/validator.go:10 | the allow-list is read from the annotation key `iam.amazonaws.com/allowed-roles`, the same constant as in the source |
| `RoleValidation.Calls` | pkg/rolevalidator/validator.go:24-40 | the calls `IsWhitelisted` makes, in order: none for an empty role; otherwise the namespace lookup (line 29) first, with further calls only when the namespace was found and carries the annotation, and the next of them is the role's ARN lookup |
| `RoleValidation.RoleAllowedCalls` | pkg/rolevalidator/validator.go:42-62 | the calls `isRoleAllowed` makes, in order: the role's ARN lookup (line 43) always comes first; the decode (line 49) is the second call exactly when that lookup succeeded; entries are looked up (line 54) only after a successful decode, and every call after the decode is the ARN lookup of a decoded entry |
| `RoleValidation.ScanResolved` | pkg/rolevalidator/validator.go:53-62 | the entries the loop looks up, in order, form a prefix of the decoded list, and that prefix is empty only when the list is empty |
| `RoleValidation.RoleValidator.constructor` | pkg/rolevalidator/validator.go:17-22 | the new validator holds exactly the ARN getter and the namespace cache it was given; both are const fields, so nothing can change them later |
| `RoleValidation.RoleValidator.IsWhitelisted` | pkg/rolevalidator/validator.go:24-40 | the method's answer is the decision `Whitelisted` makes with the validator's own collaborators |
| `RoleValidation.RoleValidator.IsRoleAllowed` | pkg/rolevalidator/validator.go:42-65 | the method's answer, which comes from a loop with early returns over the decoded list, equals `RoleAllowed` (and so the recursive `ScanAllowList`) |
| `RoleValidationProperties.EmptyRoleAllowed` | pkg/rolevalidator/validator.go:25-27 | an empty role gives (true, nil) for every namespace and every collaborator behaviour, and no collaborator is called |
| `RoleValidationProperties.NamespaceFailurePropagated` | pkg/rolevalidator/validator.go:29-32 | for a non-empty role, a failed namespace lookup gives false with that same error unchanged, and nothing else is called |
| `RoleValidationProperties.MissingAnnotationDenies` | pkg/rolevalidator/validator.go:34-37 | for a non-empty role, a namespace without the allow-list annotation gives (false, nil): a deny, not an error |
| `RoleValidationProperties.RoleArnFailureWins` | pkg/rolevalidator/validator.go:43-46 | a failed ARN lookup of the requested role gives false with `ResolveErr(role, cause)`; the only calls made are the namespace lookup and that one ARN lookup, so the annotation is never decoded |
| `RoleValidationProperties.DecodeFailurePropagated` | pkg/rolevalidator/validator.go:48-51 | once the role resolves, an annotation that does not decode gives false with the decoder's error unchanged, and no allow-list entry is looked up |
| `RoleValidationProperties.EmptyAllowListDenies` | pkg/rolevalidator/validator.go:53-64 | an annotation that decodes to the empty list gives (false, nil) |
| `RoleValidationProperties.ScanMatchesIffSomeArnEqual` | pkg/rolevalidator/validator.go:53-64 | when every entry resolves, the scan gives no error, and it allows if and only if some entry's ARN equals the role's ARN |
| `RoleValidationProperties.FirstMatchAllows` | pkg/rolevalidator/validator.go:53-61 | if entry k is the first match and every earlier entry resolved to another ARN, the answer is (true, nil), and entries 0..k are the only ones looked up |
| `RoleValidationProperties.FirstFailureReported` | pkg/rolevalidator/validator.go:53-58 | if entry k fails to resolve and no earlier entry matched, the answer is false with `ResolveErr(entry k, cause)`, and entries 0..k are the only ones looked up |
| `RoleValidationProperties.ScanStopsAtFirstFailureOrMatch` | pkg/rolevalidator/validator.go:53-64 | the entries looked up form a prefix of the list; all but the last resolved to other ARNs; the last one alone decides the answer (its failure, its match, or a deny when the list ran out); the scan stops early only on a failure or a match |
| `RoleValidationProperties.AllowedIffSomeEntrySameArn` | pkg/rolevalidator/validator.go:24-64 | when every lookup succeeds, a non-empty role is allowed if and only if some allow-list entry has the same ARN as the role, even under a different name, and there is no error |
| `RoleValidationProperties.RoleAllowedStopsAtFailure` | pkg/rolevalidator/validator.go:42-65 | `isRoleAllowed` stops at its first failing collaborator call, and the error it returns is exactly that failure |
| `RoleValidationProperties.NoErrorSwallowed` | pkg/rolevalidator/validator.go:24-65 | every collaborator call except the last one succeeded; the answer's error is exactly the last call's failure (wrapped with the role name for ARN lookups), or nil if that call succeeded |
| `RoleValidationProperties.ScanDependsOnlyOnResolved` | pkg/rolevalidator/validator.go:53-62 | two ARN lookups that agree on the entries the scan resolves give the same answer and resolve the same entries, so entries after the stopping point are never consulted |
| `RoleValidationProperties.OnlyTracedCallsMatter` | pkg/rolevalidator/validator.go:24-65 | two sets of collaborators that answer every traced call alike give the same answer and the same calls: the decision depends on nothing but the calls it makes |
| `RoleValidationProperties.AliasExample` | pkg/rolevalidator/validator.go:53-61 | for the allow-list ["roleA","roleB"] with roleB at arn:2, roleC, another name for arn:2, is allowed; roleD at arn:3 is denied |
| `RoleValidationProperties.AnswersAreRepeatable` | pkg/rolevalidator/validator.go:12-22 | two calls with the same inputs on the same validator give the same answer: the validator has no state that changes between calls |

## Left out

- The Go `encoding/json` decoder (validator.go:49) is the abstract `Unmarshal` parameter. Its quirks, such as `null` decoding to an empty list, belong to that function.
- `Unmarshal` is passed to the validator's methods as a parameter. In Go it is a package function, not a field of the struct.
- The IAM ARN lookup (`iam.ARNGetter`) and the Kubernetes namespace cache (`k8snamespace.NamespaceGetter`) are foreign services. They appear only as abstract function values. What they do, including blocking, timeouts, caching and concurrency safety, is not modelled.
- The message text of `errors.WithMessagef` is not modelled. It is replaced by the structured `ResolveErr(roleName, cause)`.
- A Kubernetes namespace is reduced to its annotation map. No other field of the namespace is read.
- The collaborators are pure functions here. A collaborator whose answers change between calls is outside the model. `OnlyTracedCallsMatter` states exactly which answers the decision depends on.
