# Cymule: a verified model

This project models the decision procedures and protocols at the centre of the Cymule
repository and proves what they are for. Dafny 4.11 verifies the whole of it with
`dafny verify dfyconfig.toml`; there is nothing to run.

**Plans** (`crates/cymule-core`). `Plan` validates a plan candidate as the source does:
one set of sites threaded through all definitions, a scope checker over nested regions,
and the invocation graph. `InvocationGraph` is the explicit-stack search that refuses
recursion. `PlanRun` is a step machine for the engines that run a plan, answers of the
outside world included: the direct engine, which a wait suspends, the durable executor,
which goes on after a wait and stops at a bound effect that was not applied, and, for
comparison, an engine that goes on in either case. `PlanOutcome` says how every run of an
accepted plan ends, and `PlanMeaning` what it computes: the machine against the recursive
engine, and evaluation against the value an expression denotes.

**Numbers and canonical values** (`crates/cymule-core/src/canonical.rs`). `Decimal`,
`NumberLexeme` and `NumberMeaning` hold the digit-counting decision on one number lexeme
and its meaning as a rational. `JsonScan` is the byte scanner and `JsonDocument` the
grammar of RFC 8259 it is proved against. `SealedPlans` holds the three number checks,
the normal form, and sealing.

**Authenticated maps** (`crates/cymule-authenticated-collections`). `HashPrefix` is the
bit algebra over hexadecimal digests. `AuthMap`, `AuthMapHistory` and `AuthMapBuild` are
the compressed hash-keyed map: insertion, removal, lookup with rank, batches and the
bottom-up build. `AuthMapProof` proves and verifies that a root holds a key, or does not.
`Framing` is the length-framed hash preimage.

**The version registry** (`scripts/version_domains.py`). `CanonicalJson` is the encoder and
`CanonicalDocument` the JSON its text is. `RustMask` holds the two masks over Rust source
and `RustSource` the lexical grammar they are proved against. `Propagation` is the
dependency closure and the change propagation; the source snapshot is in `Framing`.

**Releases** (`scripts/`). `PublishOrder` is Kahn's algorithm with a rank heap.
`CratePublish` publishes a catalog to a registry, and `ReleaseInventory`,
`ReleaseVersion`, `ReleaseConvergence` and `ReleaseController` converge one GitHub
Release, both against a remote that loses or delays mutations, refuses reads and is
changed by others; crashes are refused reads. `CrateRuns` and `ReleaseRuns` say what holds
over chains of runs, wherever they are cut. `UploadBody` is the upload framing. `Der` and
`DerOid` read certificate extensions, and `CertificateExtensions` writes the certificates
they are proved on.

`Graphs`, `Sorting`, `Numerals`, `ByteStrings`, `Utf8` and `Wrappers` are shared helpers.

## What the proofs found

Four behaviours of the code differ from what its surroundings suggest. Each is kept as
the code has it, with its exact condition proved and a concrete input.

- A number's exponent is clamped at 10^9 while the lexeme may be longer. The class
  (fraction, safe integer, too large) is right if and only if the clamp moves the scale
  across neither of the two scales at which the digits change class; this covers every
  lexeme with fewer than 10^9 - 16 digits. `NumberMeaning.ClassifiedExactly`,
  `NumberMeaning.ClampCanMisclassify`.
- In the direct engine an eager effect that settles without a value binds nothing, although
  validation has admitted later reads of its name. A plan is never stopped by this if and
  only if nothing reached from its entry before the first wait reads a name that depends on
  an effect's value; for an engine that goes on after its waits the same holds with the
  waits disregarded. The durable executor is never stopped so: it ends at the effect.
  `PlanOutcome.NeverStoppedExactly`, `PlanOutcome.AcceptedCanBeStopped`,
  `PlanOutcome.WaitComesBetween`, `PlanOutcome.DurableIsNeverStopped`.
- The identifier decoder takes the first octet for a whole subidentifier. It agrees with
  section 8.19 of ITU-T X.690 if and only if that octet is below 128; 2.999 decodes as
  2.56.55. `DerOid.StandardExactly`, `DerOid.LargeSecondArcIsMisread`.
- The masks read an escaped Rust character literal whole if and only if the escaped
  character is neither a quote nor a backslash, and so refuse a valid array of two
  character literals. `RustMask.EscapeReadExactly`, `RustMask.EscapedQuoteIsRefused`.

Besides, some checks of the code can never fail: the repeated stable version in a release
inventory (`ReleaseVersion.VersionTellsTagsApart`), the empty partition and the count of
a map build (`AuthMapBuild.BuildMap`), the integrity checks on a root that represents a
map (`AuthMapHistory.Lookup`, `AuthMapHistory.ApplyMutations`) and the comparison of two
canonical texts after the number probe (`SealedPlans.ProbeDecides`).

## Model

| member | source | states |
|---|---|---|
| InvocationGraph.ValidateAcyclicGraph | crates/cymule-core/src/ir.rs:531-571 | the explicit-stack search ends and accepts exactly the graphs without a cycle, self-loops included; a definition it names reaches itself |
| InvocationGraph.VisitFrom | crates/cymule-core/src/ir.rs:544-568 | one root's search either finishes everything reachable from it, successors first, or exhibits a cycle |
| InvocationGraph.PushTargets | crates/cymule-core/src/ir.rs:556-561 | opening a definition leaves its exit below exactly its incomplete targets |
| InvocationGraph.StaleEnter | crates/cymule-core/src/ir.rs:547-550 | dropping an entry that has been completed meanwhile keeps the stack invariant, so it never causes a refusal |
| InvocationGraph.OpenEnter | crates/cymule-core/src/ir.rs:551-555 | an entry for an open definition really closes a cycle |
| InvocationGraph.FreshEnter | crates/cymule-core/src/ir.rs:556-561 | opening a definition keeps the stack invariant |
| InvocationGraph.ExitCompletes | crates/cymule-core/src/ir.rs:563-566 | when an exit is popped everything the definition invokes is complete |
| Plan.Validate | crates/cymule-core/src/ir.rs:281-349 | accepts exactly the closed, executable candidates: versions, unique identifiers, contracts, scopes, sites and an acyclic invocation graph |
| Plan.ValidateDefinitions | crates/cymule-core/src/ir.rs:334-346 | checks every definition with one set of sites threaded through all of them |
| Plan.ValidateRegion | crates/cymule-core/src/ir.rs:413-505 | succeeds exactly when the region is scoped and its sites are new and distinct, and returns the sites with the region's added |
| Plan.ValidateStep | crates/cymule-core/src/ir.rs:421-499 | one step: its own site, its references, its nested region, its binding |
| Plan.ValidateSemanticId | crates/cymule-core/src/ir.rs:663-676 | accepts exactly one to 160 ASCII letters, digits and marks |
| Plan.ValidateWait | crates/cymule-core/src/ir.rs:573-585 | accepts a wait exactly when the name it waits on is well formed and the schema of an input passes |
| Plan.UniqueExactly | crates/cymule-core/src/ir.rs:289-325 | the identifiers listed are fresh exactly when those of the contracts and definitions are well formed and no two of a kind share one |
| Plan.KnownExactly | crates/cymule-core/src/ir.rs:289-332 | a region may refer to just the components, effects and definitions there are, and an effect has its own profile |
| Plan.UniqueContractIds | crates/cymule-core/src/ir.rs:399-411 | refuses exactly malformed or repeated identifiers, and collects the others |
| Plan.CollectInvocations | crates/cymule-core/src/ir.rs:519-529 | adds exactly the definitions invoked anywhere in the region |
| Plan.ValidateInvocationGraph | crates/cymule-core/src/ir.rs:507-517 | accepts exactly when the graph of all invocations is acyclic |
| PlanRun.StepKeepsScope | crates/cymule-runtime/src/engine.rs:495-551 | every step of an accepted plan keeps the scope discipline; it never rebinds a name or misses a reference, and a read fails only for a name whose effect settled without a value |
| PlanRun.RunStaysScoped | crates/cymule-runtime/src/engine.rs:495-701 | the same for every run, whatever the world answers |
| PlanRun.EvaluateNeeds | crates/cymule-runtime/src/engine.rs:1308-1332 | evaluation succeeds exactly when all names read have values, and otherwise names one that has none |
| PlanRun.KnownBody | crates/cymule-runtime/src/engine.rs:617-627 | an invoked definition is always found, and its body is scoped on its own |
| PlanMeaning.EvaluateExactly | crates/cymule-runtime/src/engine.rs:1308-1332 | evaluation gives exactly the value denoted: a name its own value, objects and arrays those of their parts, in order and under their keys |
| PlanMeaning.QuoteEvaluates | crates/cymule-runtime/src/engine.rs:1308-1332 | a value written out in literals, arrays and objects evaluates to itself |
| PlanMeaning.SubstituteEvaluates | crates/cymule-runtime/src/engine.rs:1308-1332 | replacing each name and the input by the literal of its value changes nothing |
| PlanMeaning.RunsAsWritten | crates/cymule-runtime/src/engine.rs:495-701 | every run of the step machine is the run of the recursive engine: busy until that ends, then in its end; an invoked body runs on its evaluated input and what it returns is what is bound |
| PlanMeaning.AcceptedRunsAsWritten | crates/cymule-runtime/src/engine.rs:495-701 | the same for every accepted candidate and whatever the answers |
| PlanMeaning.RegionRuns | crates/cymule-runtime/src/engine.rs:495-560 | the machine does to a frame, whatever its callers, what the recursive engine does to its region |
| PlanOutcome.AcceptedRunsFinish | crates/cymule-core/src/ir.rs:281-349 | every run of an accepted candidate ends within a bound the candidate fixes, whatever the answers, and is never stopped but by a value an effect withheld |
| PlanOutcome.NeverStoppedExactly | crates/cymule-runtime/src/engine.rs:495-551 | for each engine, no run of an accepted candidate is ever stopped if and only if nothing it gets to from the entry, through scopes and invocations, reads a name whose value an effect may withhold; for the direct engine nothing counts after the wait that suspends it |
| PlanOutcome.DurableIsNeverStopped | crates/cymule-durable/src/executor.rs:1269-1330 | an engine that stops at a bound effect that was not applied never misses a name, on any accepted candidate and whatever the answers |
| PlanOutcome.WaitComesBetween | crates/cymule-runtime/src/engine.rs:515-525 | an accepted candidate with a wait between effect and read: the direct engine and the durable executor are never stopped on it, an engine that goes on is |
| PlanOutcome.AcceptedCanBeStopped | crates/cymule-runtime/src/engine.rs:690-695 | a concrete accepted candidate that an effect without a value stops |
| PlanOutcome.AcceptedIsOrdered | crates/cymule-core/src/ir.rs:507-571 | an accepted candidate's definitions can be listed so that each follows all it invokes |
| NumberLexeme.ValidateNumberLexeme | crates/cymule-core/src/canonical.rs:182-236 | the decision on one lexeme, stated by its class and by the double check of fractions |
| NumberLexeme.DecimalIntegerIsSafe | crates/cymule-core/src/canonical.rs:252-278 | compares with 2^53 - 1 by length and then bytes; the write into the sixteen-byte buffer stays inside it |
| NumberMeaning.ClassExactly | crates/cymule-core/src/canonical.rs:182-222 | counting digits classifies the rational `D * 10^scale` exactly as a fraction, a safe integer or too large |
| NumberMeaning.IntegerExactly | crates/cymule-core/src/canonical.rs:203-213 | the number is an integer exactly when it has enough trailing zeros |
| NumberMeaning.SafeExactly | crates/cymule-core/src/canonical.rs:252-278 | an integer is at most 2^53 - 1 exactly when its written length and then its bytes say so |
| NumberMeaning.ClassByScale | crates/cymule-core/src/canonical.rs:189-213 | as the scale grows a nonzero number changes class at exactly two scales its digits fix |
| NumberMeaning.LexemeMeasures | crates/cymule-core/src/canonical.rs:183-213 | what the code reads off a lexeme are its digits, its fraction length and its clamped exponent |
| NumberMeaning.ClassifiedExactly | crates/cymule-core/src/canonical.rs:238-250 | a lexeme is classified right if and only if the exponent clamp is harmless to it |
| NumberMeaning.ShortLexemesAreExact | crates/cymule-core/src/canonical.rs:238-250 | the clamp is harmless to every lexeme with fewer than 10^9 - 16 digits |
| NumberMeaning.ClampCanMisclassify | crates/cymule-core/src/canonical.rs:238-250 | a concrete lexeme that denotes one and is taken for a fraction |
| JsonScan.ValidateNumberLexemes | crates/cymule-core/src/canonical.rs:125-180 | the scan ends, reads nothing past the end, and refuses at the first refused lexeme outside strings |
| JsonScan.SkipUnsigned | crates/cymule-core/src/canonical.rs:153-174 | finds where a number lexeme ends |
| JsonDocument.DocumentLexemes | crates/cymule-core/src/canonical.rs:125-180 | in every JSON text, whatever its whitespace and escapes, the scanner meets exactly the value's numbers in order and none inside a string |
| JsonDocument.DocumentAdmittedExactly | crates/cymule-core/src/canonical.rs:125-180 | a JSON text passes exactly when every number in it is admissible |
| JsonDocument.StringSkips | crates/cymule-core/src/canonical.rs:128-141 | a string is passed over whole, whatever its escapes |
| JsonDocument.NumberIsMet | crates/cymule-core/src/canonical.rs:146-177 | a printed number followed by anything that cannot continue it is met whole |
| SealedPlans.NumberChecksAgree | crates/cymule-core/src/canonical.rs:390-480 | the probe, the normalizer and the decoder accept the same numbers and rewrite them alike |
| SealedPlans.RewritingKeepsValue | crates/cymule-core/src/canonical.rs:280-345 | the normalizer, the decoder and the printer each leave a number the real number it stands for |
| SealedPlans.AcceptedNumbers | crates/cymule-core/src/canonical.rs:280-345 | the numbers accepted are exactly the finite ones, integers beyond 2^53 - 1 apart |
| SealedPlans.ProbeMeetsNormalizer | crates/cymule-core/src/canonical.rs:24-45 | at every depth the probe passes exactly what the normalizer accepts |
| SealedPlans.NormalizeNumbers | crates/cymule-core/src/canonical.rs:280-319 | the rewriting place by place computes the normal form or refuses |
| SealedPlans.NormalizeIsIdempotent | crates/cymule-core/src/canonical.rs:280-319 | normalizing twice is normalizing once |
| SealedPlans.NormalizeKeepsValue | crates/cymule-core/src/canonical.rs:280-319 | at any depth normalizing changes the writing of numbers and nothing else |
| SealedPlans.SameFormExactly | crates/cymule-core/src/canonical.rs:280-319 | two values have one normal form exactly when they are the same but for the writing of numbers |
| SealedPlans.VisitText | crates/cymule-core/src/canonical.rs:707-815 | the decoding loops compute the visit of a text |
| SealedPlans.DecodesExactly | crates/cymule-core/src/canonical.rs:707-815 | a text decodes exactly when no object at any depth repeats a key and every number passes, and decodes to normal form |
| SealedPlans.VisitSays | crates/cymule-core/src/canonical.rs:707-815 | what a text decodes to is what its tokens say, numbers by their real value, items in order, each member under its key |
| SealedPlans.ReadsBack | crates/cymule-core/src/canonical.rs:113-123 | decoding the canonical text of a normal value, the scan of its number lexemes first, gives the value back, where a double that is no integer is written as a fraction and read as one |
| SealedPlans.IntegerLexeme | crates/cymule-core/src/canonical.rs:182-236 | every integer within 2^53 - 1, as it is written, is taken for a safe integer by the digit count |
| SealedPlans.CanonicalPasses | crates/cymule-core/src/canonical.rs:113-114 | no number lexeme of the canonical text of a normal value is refused |
| SealedPlans.PrintIgnoresForm | crates/cymule-core/src/canonical.rs:31-43 | the direct and the normalized canonical texts are equal |
| SealedPlans.PrintSays | crates/cymule-core/src/canonical.rs:24-45 | the canonical text of a value says that value |
| SealedPlans.PrintWritesLexemes | crates/cymule-core/src/canonical.rs:24-45 | an integer token is written as its numeral with its sign |
| SealedPlans.PrintedInOrder | crates/cymule-core/src/canonical.rs:24-45 | members stand in the order of their keys' UTF-16 code units, each once |
| SealedPlans.ProbeDecides | crates/cymule-core/src/canonical.rs:24-45 | after the probe neither the normalizer, nor the text comparison, nor the decoder with its lexeme scan ever refuses, on the same terms about doubles |
| SealedPlans.FormIsFixed | crates/cymule-core/src/ir.rs:395-397 | the canonical form of a canonical form is itself |
| SealedPlans.VerifiedExactly | crates/cymule-core/src/ir.rs:358-393 | a plan verifies if and only if it is the seal of its own candidate, if and only if it is a seal |
| SealedPlans.SealedVerifies | crates/cymule-core/src/ir.rs:358-393 | every sealed plan verifies |
| SealedPlans.SealKeepsValue | crates/cymule-core/src/ir.rs:358-393 | a seal holds the value it was asked to seal, in normal form, and the identity of the text that says it |
| SealedPlans.OneIdentityOnePlan | crates/cymule-core/src/canonical.rs:63-70 | where the identities of their two texts do not collide, two seals have one identity exactly when the candidates are the same but for the writing of numbers, and then they are one plan |
| HashPrefix.CommonPrefixBits | crates/cymule-authenticated-collections/src/hash.rs:89-98 | the number of leading bits two digests share, and nothing for other strings |
| HashPrefix.NormalizedHashPrefix | crates/cymule-authenticated-collections/src/hash.rs:100-118 | the in-place edit yields the normalized prefix |
| HashPrefix.MatchesExactly | crates/cymule-authenticated-collections/src/hash.rs:120-122 | a digest matches another's normalized prefix exactly when their common prefix reaches the depth |
| HashPrefix.PrefixBits | crates/cymule-authenticated-collections/src/hash.rs:100-118 | normalizing keeps the bits below the depth and clears the rest |
| HashPrefix.PrefixNests | crates/cymule-authenticated-collections/src/hash.rs:100-118 | normalizing twice is normalizing at the smaller depth |
| HashPrefix.Ultrametric | crates/cymule-authenticated-collections/src/hash.rs:89-98 | of three common-prefix lengths the two least are equal |
| HashPrefix.OrderByBit | crates/cymule-authenticated-collections/src/hash.rs:73-98 | the first differing bit decides the string order |
| HashPrefix.DigestByBits | crates/cymule-authenticated-collections/src/hash.rs:73-87 | a digest is its bits |
| AuthMap.ValidateKey | crates/cymule-authenticated-collections/src/map.rs:393-410 | accepts exactly the keys that are not empty, have few enough UTF-8 bytes and hold no control character |
| AuthMap.ValidateContentId | crates/cymule-authenticated-collections/src/hash.rs:49-69 | accepts exactly the prefix followed by a lower-case hexadecimal digest |
| Utf8.TextDecodes | crates/cymule-authenticated-collections/src/map.rs:399 | the UTF-8 form of a text: its bytes decode to its characters |
| Utf8.LengthCounts | crates/cymule-authenticated-collections/src/map.rs:399 | the length a key is measured by is the number of those bytes |
| AuthMap.InsertExactly | crates/cymule-authenticated-collections/src/map.rs:2224-2326 | insertion fails only on a collision of distinct keys; else the tree stays canonical, holds exactly the updated entries and says whether the key was new |
| AuthMap.RemoveExactly | crates/cymule-authenticated-collections/src/map.rs:2368-2460 | removal fails only for an absent key; else the tree stays canonical and loses exactly that entry |
| AuthMap.CanonicalIsUnique | crates/cymule-authenticated-collections/src/map.rs:2461-2500 | two canonical trees with the same entries are the same tree |
| AuthMap.BranchPasses | crates/cymule-authenticated-collections/src/map.rs:443-455 | the constraint and depth checks on the way down never fail on a canonical tree |
| AuthMapHistory.Lookup | crates/cymule-authenticated-collections/src/map.rs:854-946 | on a root that represents a map: the value and the key's rank in hash order, absence, or a collision; never an integrity error |
| AuthMapHistory.PutExactly | crates/cymule-authenticated-collections/src/map.rs:2183-2222 | a put collides, overflows the count, or makes the root of the updated map |
| AuthMapHistory.RemoveFromRootExactly | crates/cymule-authenticated-collections/src/map.rs:2328-2366 | a removal conflicts exactly when the key is absent, else makes the root of the map without it |
| AuthMapHistory.ApplyMutation | crates/cymule-authenticated-collections/src/map.rs:2056-2085 | one mutation with its expected former value: a malformed key, collision, conflict, malformed value or overflow, in that order, or the changed map's root |
| AuthMapHistory.ApplyMutations | crates/cymule-authenticated-collections/src/map.rs:2049-2089 | a batch ends at its first refusal or at the root of the map it makes |
| AuthMapHistory.BatchMeans | crates/cymule-authenticated-collections/src/map.rs:2049-2089 | a batch that gets through has made the map its mutations make and kept its keys and values well formed; a conflict, a collision and a malformed mutation are real |
| AuthMapHistory.RootIsContents | crates/cymule-authenticated-collections/src/map.rs:2049-2089 | two roots that represent one map are equal |
| AuthMapHistory.HistoryIndependence | crates/cymule-authenticated-collections/src/map.rs:2049-2089 | two batches that get through from roots of one map and make the same map end at the same root |
| AuthMapHistory.EmptiedIsEmpty | crates/cymule-authenticated-collections/src/map.rs:2328-2366 | a batch that leaves no entry ends at the empty root, wherever it began |
| AuthMapBuild.BuildMap | crates/cymule-authenticated-collections/src/map.rs:1919-1967 | refuses exactly too many pairs, the first malformed or repeated pair, or colliding hashes, else makes the root of the listed map |
| AuthMapBuild.BuildSubtree | crates/cymule-authenticated-collections/src/map.rs:1976-2025 | fails exactly on a shared hash, never on an empty partition, and yields the canonical tree of its range |
| AuthMapBuild.RangeParts | crates/cymule-authenticated-collections/src/map.rs:2001-2019 | in a sorted range the bits at the parting depth are zeros, then ones, and both occur |
| AuthMapBuild.RebuildMeetsHistory | crates/cymule-authenticated-collections/src/map.rs:1914-1967 | a rebuild and any batch that makes the same map arrive at one root |
| AuthMapProof.VerifyMapExact | crates/cymule-authenticated-collections/src/map.rs:819-846 | where no carried node has the identity of another node on the key's path: what verifies against a root is true of the map the root represents, value, rank or absence; a proof is accepted exactly when it is bound to the root and a well-formed key and lists the key's path, once each and nothing else, and no other key has the key's hash |
| AuthMapProof.ProveMapExact | crates/cymule-authenticated-collections/src/map.rs:795-812 | a store that holds the path proves every well-formed key, present or absent, unless its hash collides, and the proof is one that verifies |
| AuthMapProof.LookupLoaded | crates/cymule-authenticated-collections/src/map.rs:854-966 | the lookup over nodes loaded by identity: what it answers is true, it then has asked for exactly the path, and it refuses only a collision or a missing node |
| AuthMapProof.FileNodes | crates/cymule-authenticated-collections/src/map.rs:1004-1033 | the nodes of a proof are filed unless they are too many or too big, one is bad or one repeats |
| AuthMapProof.VerifyNode | crates/cymule-authenticated-collections/src/map.rs:215-283 | accepts exactly the nodes of the current version whose fields are well formed, whose counts fit and whose identity is that of their body |
| AuthMapProof.VerifyRoot | crates/cymule-authenticated-collections/src/map.rs:84-95 | accepts exactly the roots that have a node just when they have entries, and not too many of them |
| AuthMapProof.UsedUpExactly | crates/cymule-authenticated-collections/src/map.rs:1035-1044 | every filed node has been used exactly when the nodes are those of the path |
| AuthMapProof.ListingIsFiled | crates/cymule-authenticated-collections/src/map.rs:1004-1033 | the path of a key of a valid map is never too long and all its nodes pass their checks |
| AuthMapProof.NodeBytesCount | crates/cymule-authenticated-collections/src/map.rs:318-345 | a node counts as the UTF-8 bytes of all its texts, and thirty-two more for a branch |
| AuthMapProof.ListingFits | crates/cymule-authenticated-collections/src/map.rs:2559-2571 | the nodes of a path, one leaf at most, never exceed the bound on a proof's bytes |
| AuthMapProof.VerifyProofBytes | crates/cymule-authenticated-collections/src/map.rs:2559-2571 | the loop refuses exactly when the nodes together exceed the bound |
| Framing.HashIdentifier | crates/cymule-authenticated-collections/src/hash.rs:8-38 | feeds exactly the framed preimage |
| Framing.PreimageApart | crates/cymule-authenticated-collections/src/hash.rs:8-38 | equal preimages are of equal domains and equal field lists |
| Framing.SourceSnapshotDigest | scripts/version_domains.py:416-441 | refuses exactly repeated paths and unsupported entries, else feeds the snapshot stream |
| Framing.EntryStream | scripts/version_domains.py:433-440 | an entry feeds its path, the text of its mode, `blob` and its bytes, each after its length in eight bytes |
| Framing.SnapshotOfOrdered | scripts/version_domains.py:416-441 | entries in the order of their paths are fed in that order, after the version and their number |
| Framing.SnapshotExactly | scripts/version_domains.py:416-441 | two valid entry lists have one snapshot exactly when they are rearrangements of each other |
| CanonicalJson.CanonicalExactly | scripts/version_domains.py:132-168 | two values are written alike exactly when they are equal up to the order of members, at every depth |
| CanonicalJson.EncodesExactly | scripts/version_domains.py:141-149 | a value is refused exactly for a float or an integer beyond 2^53 - 1, at any depth |
| CanonicalDocument.CanonicalIsJson | scripts/version_domains.py:132-168 | whatever is encoded is a JSON text by the grammar of RFC 8259, without whitespace and with the shortest escapes, and it says the value |
| CanonicalJson.EncodingsApart | scripts/version_domains.py:132-168 | equal texts, whatever may follow them, are of equal values |
| CanonicalJson.EqualValues | scripts/version_domains.py:132-168 | the text does not depend on the order members were inserted in |
| CanonicalJson.MembersInOrder | scripts/version_domains.py:127-129 | members are written once each in UTF-16 code-unit order |
| CanonicalJson.QuoteApart | scripts/version_domains.py:150-154 | a written string determines the string and where it ends |
| CanonicalJson.Utf16Apart | scripts/version_domains.py:127-129 | the sort key tells keys apart |
| CanonicalJson.Utf16Joins | scripts/version_domains.py:127-129 | the code units of a string are sixteen bits wide and its surrogate pairs, joined, are its characters |
| CanonicalJson.UnitsLeExactly | scripts/version_domains.py:127-129 | one key stands before another when it is its beginning or less at the first unit where they differ |
| RustMask.RustCodeMask | scripts/version_domains.py:601-683 | the in-place walk yields the code mask or fails with the walk |
| RustMask.RustCommentMask | scripts/version_domains.py:687-764 | the in-place walk yields the comment mask or fails with the walk |
| RustMask.NextToken | scripts/version_domains.py:613-682 | the code mask's loops find the token at an offset |
| RustMask.SkipToken | scripts/version_domains.py:698-763 | the comment mask's own loops find the same token |
| RustMask.MaskKeepsPlace | scripts/version_domains.py:601-764 | length and line breaks are kept and every other offset is unchanged or blank |
| RustMask.MasksWalkTogether | scripts/version_domains.py:601-764 | the two masks, each with its own loops, fail on the same texts and differ exactly in the visible characters of literals |
| RustMask.MaskOfMask | scripts/version_domains.py:601-764 | masking twice is masking once by the stronger mask; both masks are idempotent |
| RustMask.CodeMaskIsClean | scripts/version_domains.py:601-683 | masked code holds no comment opener, no double quote, no raw opener and no character literal |
| RustMask.MarksOfMask | scripts/version_domains.py:601-764 | walking a masked text meets the same tokens, the erased ones apart |
| RustSource.SourceIsMarked | scripts/version_domains.py:601-764 | in the print of any list of code characters, line comments, nested block comments, strings with escapes, raw strings and character literals that nothing around them continues, the walk meets exactly those items, each with its own kind |
| RustSource.PartsSkip | scripts/version_domains.py:622-635 | the inside of a block comment, nested to any depth, leaves the depth as it was |
| RustSource.RawIsMet | scripts/version_domains.py:637-651 | a raw string is met up to the first delimiter with its number of hashes |
| RustMask.EscapeReadExactly | scripts/version_domains.py:667-681 | an escaped character literal is read whole exactly when the escaped character is neither a quote nor a backslash |
| RustMask.EscapedQuoteIsRefused | scripts/version_domains.py:653-681 | a valid array of two character literals is refused as an unterminated string |
| Propagation.TransitiveDependencies | scripts/version_domains.py:1487-1496 | exactly the nodes reachable in one or more steps, on any graph |
| Propagation.Propagate | scripts/version_domains.py:2226-2244 | ends on every graph, cyclic or not, and marks exactly the versions that have changed or can reach one that has, in any order |
| Propagation.Pass | scripts/version_domains.py:2235-2244 | one pass marks only affected versions, and a pass that marks none leaves none to mark |
| PublishOrder.DeterministicPublishOrder | scripts/crates_release.py:111-149 | each error exactly when due, the cycle report exactly the names that depend on a cycle, else the least dependency-first order, equal to the preference exactly when that will do |
| PublishOrder.GreedyIsLeast | scripts/version_domains.py:1119-1153 | always taking the best-ranked ready name gives the lexicographically least order |
| PublishOrder.LeftoverDependsOnCycle | scripts/crates_release.py:146-148 | where nothing more is ready, the names left over are exactly those that depend on a cycle |
| PublishOrder.PlaceAll | scripts/crates_release.py:128-145 | the heap loop places names greedily until none is ready |
| CratePublish.Publish | scripts/crates_release.py:1258-1327 | uploads only in dependency order, only what is missing and at most three times a crate; while nobody else publishes, nothing but closed bytes is accepted; completes only with all bytes exact; undisturbed and without a fault exactly when no version holds other bytes; a completed run has downloaded each crate's closed bytes |
| CratePublish.PublishCrate | scripts/crates_release.py:1195-1255 | at most three uploads of the closed bytes, each while nothing is shown, all but the first after the new-name limit; success is a wait that confirms the bytes, and failure a refused authority check, or a last wait that does not confirm them and, if nothing was shown in all its looks, an answer that allows no other attempt or a third upload |
| CratePublish.WaitForChecksum | scripts/crates_release.py:842-873 | at most one look more than there are polls: the first look that is listed or malformed decides, and only after the last look, none of them so, is it missing or ambiguous |
| CratePublish.PublishOne | scripts/crates_release.py:1293-1314 | one crate is looked up, uploaded if missing and downloaded; its outcome says which, and comes only with a download of the closed bytes |
| CratePublish.DependenciesComeFirst | scripts/crates_release.py:1258-1327 | every upload goes out after all the crate's dependencies are shown with their closed bytes |
| CratePublish.RerunUploadsOnlyMissing | scripts/crates_release.py:1295-1327 | a run uploads only crates missing at its start; after a completed run, none |
| CratePublish.CatalogOrder | scripts/crates_release.py:274-284 | the catalog check passes exactly on dependency-first catalogs |
| CrateRuns.ShownIsSettled | scripts/crates_release.py:1258-1327 | over any chain of runs, cut or not and whatever others publish, a crate shown stays shown with the same bytes and no later upload is of it |
| CrateRuns.ChainsKeepOrder | scripts/crates_release.py:1258-1327 | every upload of a chain is of the closed bytes and goes out after all the crate's dependencies are shown with theirs |
| CrateRuns.RestartsComplete | scripts/crates_release.py:1258-1327 | after any number of runs cut short, met by faults or losing uploads, if nobody else has published, a run without a fault completes exactly when the first could have |
| CrateRuns.RunsCompose | scripts/crates_release.py:1258-1327 | runs that follow one another keep together what one run keeps |
| UploadBody.InspectUploadBody | scripts/crates_release.py:571-597 | a body is accepted exactly when it is under the size limit, is the body that would be written, and its metadata states the crate and version |
| UploadBody.Splits | scripts/crates_release.py:556-597 | a byte string is the framing of the archive exactly when each of its parts is |
| ReleaseVersion.VersionTellsTagsApart | scripts/finalize_release.py:865-874 | two stable tags with one version are one tag |
| ReleaseVersion.LessByNumber | scripts/finalize_release.py:873-874 | versions are ordered as the numbers their components are the digits of, the major first, to any base above the components |
| ReleaseVersion.TagReadsBack | scripts/finalize_release.py:865-874 | three numerals make a stable tag that denotes their values |
| ReleaseInventory.ValidateReleaseInventory | scripts/finalize_release.py:877-920 | accepts exactly distinct well-formed inventories with one stable Latest at most, and at the end exactly those whose Latest is the highest: no published stable release has a greater number |
| ReleaseInventory.HighestIsHighest | scripts/finalize_release.py:1045-1065 | the record selected is a published stable release, and no other has a greater number, to any base above the components |
| ReleaseInventory.HighestByNumber | scripts/finalize_release.py:918-920 | a release is the highest exactly when no published stable release has a greater number |
| ReleaseInventory.HighestIsUnique | scripts/finalize_release.py:1045-1065 | there is one such release |
| ReleaseConvergence.ExamineExactly | scripts/finalize_release.py:1115-1276 | the metadata, scope and asset checks together find exactly the planned asset, its absence, or a refusal |
| ReleaseConvergence.TargetFields | scripts/finalize_release.py:1115-1276 | the releases a run takes for its target are exactly those with the plan's tag, title, notes, asset name and content, field by field |
| ReleaseConvergence.WarrantedKeeps | scripts/finalize_release.py:1338-1342 | a warranted mutation keeps every release: no asset is replaced, only drafts are published, other tags change in Latest alone |
| ReleaseConvergence.NothingLeftToDo | scripts/finalize_release.py:1319-1550 | the terminal state warrants no mutation |
| ReleaseConvergence.LatestOnlyToHighest | scripts/finalize_release.py:1452-1524 | a mutation that grants Latest grants it to the highest stable release, the one just published included |
| ReleaseConvergence.MutationProgresses | scripts/finalize_release.py:1338-1342 | a mutation, applied, lost or incomplete, keeps what a run keeps and ties its log to the remote's states |
| ReleaseConvergence.KeepsFinish | scripts/finalize_release.py:1319-1550 | a complete warranted mutation leaves the remote as able to finish as it was |
| ReleaseRuns.FinishesExactly | scripts/finalize_release.py:1319-1550 | a run that nobody disturbs and that meets no fault finishes exactly when its inputs and the remote allow it |
| ReleaseRuns.RestartsConverge | scripts/finalize_release.py:1319-1550 | after any number of undisturbed runs cut short, losing mutations or refused reads, an incomplete upload apart, a run without a fault finishes if the first could have |
| ReleaseRuns.RerunMutatesNothing | scripts/finalize_release.py:1319-1550 | once a run has left the terminal state, no later undisturbed run of any chain mutates anything |
| ReleaseRuns.PublishedStays | scripts/finalize_release.py:1319-1550 | a release published at any point of a chain of undisturbed runs, cut or not, keeps its assets |
| ReleaseRuns.RunIsSafe | scripts/finalize_release.py:1319-1550 | in every state of an undisturbed run, wherever it is cut: releases are kept, what was published since its start carries exactly the planned metadata and asset, and what became Latest since is the highest stable release |
| ReleaseRuns.RunsAreSafe | scripts/finalize_release.py:1319-1550 | the same in every state of any chain of undisturbed runs |
| ReleaseRuns.StepIsSafe | scripts/finalize_release.py:1338-1342 | every warranted mutation keeps that safety |
| ReleaseRuns.PublishedCarriesPlan | scripts/finalize_release.py:1440-1502 | a release published since the start carries the plan's title, notes, asset name and content |
| ReleaseRuns.RunsCompose | scripts/finalize_release.py:1319-1550 | runs that follow one another, cut or not, keep together what one run keeps |
| ReleaseRuns.LatestMovesToHighest | scripts/finalize_release.py:1452-1524 | in any state of a chain of undisturbed runs in which Latest is with a release that was not Latest at the start, that release is the one Latest and the one highest |
| ReleaseRuns.GrantsGoToHighest | scripts/finalize_release.py:1440-1524 | in a chain of undisturbed runs every mutation that grants Latest leaves its grantee the one Latest and the one highest release, and no other mutation lets a release gain it |
| ReleaseRuns.IncompleteNeverFinishes | scripts/finalize_release.py:1367-1438 | once the target has an asset whose upload stayed incomplete, no later undisturbed run reaches the terminal state |
| ReleaseRuns.DraftCreatedOnce | scripts/finalize_release.py:1344-1366 | a chain of undisturbed runs creates the draft at most once |
| ReleaseConvergence.ConvergedIsPublished | scripts/finalize_release.py:1525-1550 | the terminal state: the target published, immutable and with exactly its asset, and one Latest, the highest |
| ReleaseController.Converge | scripts/finalize_release.py:1319-1550 | whatever is lost, refused or changed by others, only warranted mutations are issued, the draft is created at most once and success means the terminal state: a release with the plan's fields, and Latest with the greatest number; undisturbed, however the run ends, what it published carries the plan and a finished remote is untouched, and without a fault the run finishes exactly when it can |
| ReleaseController.EnsureDraft | scripts/finalize_release.py:1344-1366 | the draft is created at most once and read back |
| ReleaseController.EnsureAsset | scripts/finalize_release.py:1367-1438 | the asset is uploaded only to an empty draft and read back exact |
| ReleaseController.EnsurePublished | scripts/finalize_release.py:1440-1502 | publication carries the exact asset and an explicit Latest flag that says whether the target is the highest |
| ReleaseController.EnsureLatest | scripts/finalize_release.py:1504-1550 | a stale Latest is moved to the highest stable release, then the terminal state is checked |
| ReleaseController.HighestVersionIsTarget | scripts/finalize_release.py:1045-1065 | the selected version is the target's exactly when no published stable release is above it |
| Der.DerChildren | scripts/npm_release.py:642-648 | the children are the one list of elements whose encodings make up the input; a refusal says there is none |
| Der.ReadsBack | scripts/npm_release.py:611-639 | encoding and then reading, anywhere in a buffer, gives back the element and its end |
| Der.ReadIsEncoding | scripts/npm_release.py:611-639 | what is read re-encodes to exactly the bytes consumed |
| Der.AcceptsExactly | scripts/npm_release.py:611-639 | the reader accepts exactly the canonical encodings |
| Der.FourOctets | scripts/npm_release.py:626-637 | the length field holds exactly the lengths below 2^32 |
| DerOid.DecodeDerOid | scripts/npm_release.py:651-668 | the arcs are the only ones whose bytes are the input; a refusal says there are none |
| DerOid.OidTellsApart | scripts/npm_release.py:651-668 | different accepted bytes never decode to the same arcs |
| DerOid.DottedTellsApart | scripts/npm_release.py:668-668 | the dotted text keeps the arcs apart |
| DerOid.StandardExactly | scripts/npm_release.py:654-656 | the arcs are the standard's exactly when the first octet is a whole subidentifier |
| DerOid.LargeSecondArcIsMisread | scripts/npm_release.py:654-656 | the bytes of 2.999 decode as 2.56.55 |
| DerOid.FulcioExtensions | scripts/npm_release.py:671-704 | refused exactly for another shape or repeated identifier bytes; else one entry for each extension sequence |
| DerOid.DottedSplits | scripts/npm_release.py:668-668 | dotted text is the arcs' numerals between dots, in order |
| CertificateExtensions.ExtractsWhatIsStated | scripts/npm_release.py:671-704 | reading a certificate written with any extensions, critical or not, among any other fields gives each value under its dotted identifier and no more, or a refusal exactly when two have one identifier |
| CertificateExtensions.CertificateFields | scripts/npm_release.py:671-687 | the extension sequences found in a written certificate are those written, in order |
| CertificateExtensions.ExtensionReads | scripts/npm_release.py:688-703 | a written extension reads back, with and without its flag |

## Left out

- The hash function, Sigstore, the f64 parser and the JCS and JSON Schema libraries: hashes stand for what they hash, identities of map nodes for whole subtrees, and the others are parameters or specified by what they print.
- Files, processes, the network, Git, tar and clocks: a remote is state with a nondeterministic environment, and time is a number of polls.
- Error messages and their texts: errors that the source does not tell apart by kind are one refusal; the count overflow of a map put, which the source reports as an integrity error, has a kind of its own.
- Unpaired surrogates, object keys that are not strings and unsupported Python types in the canonical encoder: characters are Unicode scalar values and objects have string keys.
- The typed decoding of a plan candidate: candidates are their JSON trees, and validation is a parameter of `SealedPlans`; `Plan` models that validation on its own tree.
- The bytes of a canonical text in `SealedPlans`: texts there are token trees whose number tokens carry their lexemes, and `NumberMeaning` and `JsonDocument` treat the bytes. How a double is written and read is a parameter: a finite double that is no integer is taken to be written as a fraction and read as one.
- Order of iteration over maps and sets: where the source's order is fixed by a tree map the model proves its results for every order.
- One read of a release inventory, with its views and its assets, is atomic, so the races the source detects within a read do not arise; others may change the remote between any two steps.
- The second byte comparison of a downloaded asset: equal digests stand for equal bytes.
- The states GitHub itself keeps: the model's remote refuses a second release for a tag, a second asset of one name and any asset on a published release, and moves Latest as asked.
- Release drafts whose upload stays incomplete: every safety property holds of them too (`ReleaseRuns.RunsAreSafe`), but no later run of the controller finishes on them (`ReleaseRuns.IncompleteNeverFinishes`).
- Persistence, the batch, range and rank proofs and the audits of authenticated maps, the log and the machine: the model covers the map's contents, its roots and the proofs of one key.
- AuthMapHistory.ApplyMutations: takes the batch as it is applied; the size limits and the canonical order the source asks of a batch before that are not part of this model.
- Attempts, leases, commands, contracts on values and reconciliation in the engine: `PlanRun` keeps the control flow, the bindings and the answers of the outside world.
- Argument parsing, receipts, manifests, workflow checks and documentation checks: long and without a deep invariant.
- Python's test of letters and digits in the masks, the schema compiler and the artifact-kind check in plan validation, and the conversion of a fractional lexeme to a double: parameters.
- Wall-clock limits and the length of a rate-limit delay: any usable delay is waited out.
