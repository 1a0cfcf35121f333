# m1nd release evidence: a verified model

m1nd publishes a Rust workspace together with release tooling written in Python. The two halves
must agree byte for byte on what a document, a UI tree or an action catalogue *is*, because every
release decision is taken on digests of those bytes. This project models that evidence path and
proves what the code relies on:

* **Canonical JSON and digest framing** (`utf8`, `json_value`, `json_text`, `json_roundtrip`,
  `json_grammar`, `canonical`, `canonical_rs`, `json_laws`, `framing`). The strict reader accepts exactly the
  texts that RFC 8259 lets spell integer data without repeated keys or unpaired surrogates. The Rust
  writer and the Python writer print the same bytes although one sorts keys by UTF-8 bytes and the
  other by code points; the strict reader undoes the writer; two values have the same bytes exactly
  when they are the same data; the files accepted as canonical are exactly the image of the writer;
  no text of the same data is shorter than the canonical one; the digest frame is injective.
* **Tree identities** (`ui_tree`, `path_order`, `framed_tree`). Both framings of a file tree are
  uniquely decodable and depend only on the path-to-bytes map. The release script sorts paths
  component by component and refuses names it cannot encode; the build walks the disk, turns
  backslashes into slashes and sorts strings; the binary sorts the names it embeds. When these hash
  one stream is stated exactly, and two concrete trees show that they can differ.
* **Byte-stream machines** (`output_monitor`, `mcp_frames`, `mcp_client`, `mcp_laws`). The leak monitor keeps
  only a tail of the output and still reports what a search of the whole output would. The MCP stdio
  client returns the bodies of a Content-Length stream in order for every way the stream is cut into
  reads. Each read is capped as in the script, less than one read stays buffered between messages,
  and the answer is independent of the cutting *exactly* when no negative length precedes more data
  than that.
* **CI scoping** (`ci_diff`, `ci_paths`, `ci_scope`, `ci_gate`). The NUL-record parser is the exact inverse of
  the record printer, path classification is a join homomorphism with a least dependency closure,
  and the gate passes exactly when every job has the result that the classes of the changed paths
  call for.
* **Evidence and candidate validators** (`release_contract`, `convergence`, `contract_laws`,
  `source_guard`, `crate_packages`, `crate_laws`, `runtime_bindings`, `operational_documents`,
  `document_laws`, `upload_body`, `action_json`, `action_names`, `action_catalog`). Sealing validates,
  digests bind cores, convergence accepts exactly the permutations of the eleven gates, scanning only
  survivors loses nothing, every prefix of the publish order is dependency-closed, prepared
  operational documents pass their own validators exactly under a stated condition, and the action
  catalogue separates sovereign from safety authority.

Code that works by updating state is modelled by classes and methods with loops (writers, hashers,
monitor, client, classifier, gate, validators); each is proved equal to a function or a declarative
predicate about which the theorems are then stated. Definitions that a specification and a program share (escapes, octet order, field names, path classes,
which dependencies count) are pinned by laws in literals that name neither of the two; most of
these members end in `Law`. SHA-256 is an arbitrary function `h`; a binding
lemma assumes only that `h` does not collide on the two inputs it compares (`Separates`), never
global collision-freeness, which no function with 32-byte results has.

## Results worth knowing

* `scripts/m1nd10_ui_bundle.py:4` says that its framing mirrors `m1nd-mcp/ui_bundle_support.rs`. Against
  the walk that a release build checks its digest with (`m1nd-mcp/build.rs:138-158`) that holds exactly
  for trees with a start page, only UTF-8 names, no conflict between a directory and a sibling, and no
  backslash in a name (`PathOrder.WalksAgree`); against the names embedded in the binary the last
  condition drops out (`PathOrder.StreamsAgree`). Counterexamples: `a/x` beside `a-b`
  (`PathOrder.StreamsCanDiffer`), and a file named `a\b` (`PathOrder.BackslashDiffers`).
* `_read_exact` with a negative length slices from the end of whatever happens to be buffered, so
  the outcome can depend on how reads were cut. It does exactly if more bytes follow the header than
  the length takes away, counting at most 4095 of them, which is all that can be buffered there
  (`McpFrames.ChunkingFreeExactly`); `McpFrames.WithData` and `McpFrames.HeaderAlone` are the two
  diverging runs of a fresh client.
* `prepare_canonical_operational` accepts a Windows `.tar.gz` (or a Unix `.zip`) when binding
  archives and refuses it only in the rollback validator (`OperationalDocuments.TarballBoundNotPrepared`);
  `OperationalDocuments.PreparedExactly` states exactly when the prepared documents pass.

## Model

| member | source | states |
|---|---|---|
| Utf8.EncodePreservesOrder | m1nd-control/src/canonical.rs:53-54 | UTF-8 bytes compare exactly as code points do, for all texts |
| Utf8.EncodeInjective | m1nd-control/src/canonical.rs:53-54 | different texts have different UTF-8 bytes |
| Utf8.DecodeExact | scripts/m1nd10_release_contract.py:105-113 | the strict decoder returns a text exactly for that text's own encoding (surrogates, overlong and out-of-range forms refused) |
| Utf8.EncodeLaw | m1nd-control/src/canonical.rs:53-54 | the octets of one character by ranges: how many there are, their lead and trail marks, and the code they carry |
| JsonValue.OrdersAgree | scripts/m1nd10_release_contract.py:131-141 | sorting every object at every depth by UTF-8 bytes or by code points gives the same value |
| JsonValue.NormalExact | scripts/m1nd10_release_contract.py:131-141 | sorted forms coincide exactly for equal data (same keys, equal values, any key order) |
| JsonText.ObjectWithoutDuplicateKeys | scripts/m1nd10_release_contract.py:69-75 | the loop refuses exactly the pair lists with a repeated key and otherwise keeps the pairs in order |
| JsonGrammar.LoadsExactly | scripts/m1nd10_release_contract.py:78-128 | the strict reader returns a value exactly for the texts that spell it by the grammar, in any spacing and escaping, and exactly if the value has distinct keys everywhere and no unpaired surrogate |
| JsonGrammar.Unambiguous | scripts/m1nd10_release_contract.py:78-91 | no text spells two values |
| JsonGrammar.ValueRead | scripts/m1nd10_release_contract.py:78-91 | what the scanner reads off the front of a text is spelled there, and the rest is what follows |
| JsonGrammar.ValueSpelled | scripts/m1nd10_release_contract.py:78-91 | a value spelled at the front of a text is read, in front of anything that cannot lengthen a number |
| JsonLaws.CodeEscapeRead | scripts/m1nd10_release_contract.py:82 | a backslash, u and the four base-16 digits of a code, most significant first and each in either case, is read as that character |
| JsonLaws.PairEscapeRead | scripts/m1nd10_release_contract.py:82 | the escapes of a high and a low surrogate are read as the one character above U+FFFF they stand for |
| JsonLaws.ShortEscapeRead | scripts/m1nd10_release_contract.py:82 | the eight short escapes stand for their characters; a backslash before any other character except u is refused |
| JsonRoundTrip.EscapeRoundTrip | scripts/m1nd10_release_contract.py:131-141 | scanning an escaped string in front of anything returns the string and the rest |
| JsonRoundTrip.IntegerRoundTrip | scripts/m1nd10_release_contract.py:131-141 | every integer, of any size and sign, is read back from its digits |
| JsonRoundTrip.ValueRoundTrip | scripts/m1nd10_release_contract.py:78-91 | every value with distinct keys is read back from its compact text, in front of anything that cannot extend a number |
| JsonRoundTrip.ItemsRoundTrip | scripts/m1nd10_release_contract.py:78-91 | the same for array items up to the closing bracket |
| JsonRoundTrip.MembersRoundTrip | scripts/m1nd10_release_contract.py:78-91 | the same for object members up to the closing brace |
| Canonical.CanonicalTextRoundTrip | scripts/m1nd10_release_contract.py:131-141 | the strict reader applied to canonical text returns the value with its keys sorted |
| Canonical.CanonicalFileRoundTrip | scripts/m1nd10_release_contract.py:94-98 | the same through UTF-8 and a file read in text mode with newline translation |
| Canonical.CanonicalExact | scripts/m1nd10_release_contract.py:131-141 | two values have equal canonical bytes if and only if they are the same data |
| JsonLaws.EscapeLaw | scripts/m1nd10_release_contract.py:135-141 | the escape of a character, in literals: five short forms, quote and backslash behind a backslash, other controls as u00 and two lower-case digits, every other character as itself |
| JsonLaws.PlainIsItself | scripts/m1nd10_release_contract.py:135-141 | a string without controls, quotes and backslashes is its own escape, so a path is written with plain slashes |
| JsonLaws.WrittenLaw | scripts/m1nd10_release_contract.py:135-141 | words, quotes, brackets, commas and colons of compact text, without spaces |
| JsonLaws.IntegerLaw | scripts/m1nd10_release_contract.py:135-141 | an integer is written in the one way the grammar allows, but for the sign of zero |
| JsonLaws.KeysAscend | scripts/m1nd10_release_contract.py:135-141 | written keys ascend: at the first difference the smaller code point, or the end, comes first |
| JsonLaws.CanonicalShortest | scripts/m1nd10_release_contract.py:131-141 | among all texts that the grammar lets spell the same data, in any spacing, escaping and key order, none is shorter than the canonical one |
| JsonLaws.SortedShortest | scripts/m1nd10_release_contract.py:131-141 | in particular no text of the key-sorted value is shorter |
| Canonical.NewlinesLaw | scripts/m1nd10_release_contract.py:94-98 | CR LF, CR and LF are each read as LF, all else stays, and a text translates piece by piece |
| Canonical.NormalIdempotent | scripts/m1nd10_release_contract.py:131-141 | sorting keys twice changes nothing, so printing a read-back value is stable |
| Canonical.ExactFileIsImage | scripts/m1nd10_release_candidate.py:1036-1040 | a file equals the canonical bytes of what it loads to if and only if it is the canonical encoding of some value |
| Canonical.ExactFilesDiffer | scripts/m1nd10_release_candidate.py:1036-1040 | two accepted files are equal exactly when they carry the same data |
| CanonicalRs.EscapeCommutes | m1nd-control/src/canonical.rs:40 | escaping byte by byte, as the Rust writer does, is escaping code points and then encoding |
| CanonicalRs.SortedKeys | m1nd-control/src/canonical.rs:53-54 | the Rust key list in byte order is the key list of the Python form |
| CanonicalRs.ObjectTurn | m1nd-control/src/canonical.rs:55-62 | one turn of the member loop appends exactly the next sorted member, looked up by key |
| CanonicalRs.WriteString | m1nd-control/src/canonical.rs:40 | the string writer appends the UTF-8 of the quoted text to the buffer |
| CanonicalRs.WriteValue | m1nd-control/src/canonical.rs:35-67 | the recursive Rust writer appends to its buffer exactly the bytes of the Python canonical form of any nested value |
| CanonicalRs.WriteArray | m1nd-control/src/canonical.rs:41-50 | the same for arrays, comma placement included |
| CanonicalRs.WriteObject | m1nd-control/src/canonical.rs:51-64 | the same for objects: keys sorted by bytes, values looked up |
| Framing.BigEndianInjective | m1nd-control/src/canonical.rs:73-75 | fixed-width lengths are injective below the width |
| Framing.BigEndianReads | m1nd-control/src/canonical.rs:73-75 | folding the octets with 256, most significant first, gives the number back |
| Framing.BigEndianOctets | m1nd-control/src/canonical.rs:73-75 | the four and eight octets written out, most significant first |
| Framing.FieldSplit | m1nd-control/src/canonical.rs:73-76 | a length-delimited field splits off the front of any stream in one way only |
| Framing.DigestFrameInjective | m1nd-control/src/canonical.rs:70-78 | the hashed frame determines domain and payload |
| Framing.DigestFrameLaw | m1nd-control/src/canonical.rs:70-78 | the frame is the eight length octets of the domain, the domain, the eight length octets of the payload, the payload |
| Framing.HexLaw | m1nd-control/src/canonical.rs:87-95 | digit by digit: the letters for the high and the low half of every byte |
| Framing.HexInjective | m1nd-control/src/canonical.rs:87-95 | lower-case hexadecimal loses nothing |
| Framing.HexLower | m1nd-mcp/ui_bundle_support.rs:142-150 | the loop outputs two digits per byte, high nibble first |
| Framing.DigestDomainBytes | scripts/m1nd10_release_contract.py:144-155 | the hasher fed piece by piece hashes exactly the frame; the digest is the hexadecimal of the hash of the octets written out |
| Framing.DigestBinds | scripts/m1nd10_release_contract.py:144-155 | equal digests mean equal domain and payload unless the hash collides on the two frames |
| UiTree.RowsDecodable | m1nd-mcp/ui_bundle_support.rs:91-94 | the row stream, without an entry count, determines the entry list |
| UiTree.StreamDecodable | m1nd-mcp/ui_bundle_support.rs:78-95 | two hash inputs are equal exactly when the listed entries are |
| UiTree.RowLaw | m1nd-mcp/ui_bundle_support.rs:91-94 | a row is length octets and path, then length octets and content |
| UiTree.StreamLaw | m1nd-mcp/ui_bundle_support.rs:83-95 | the stream is the tag of the format, a zero byte and the rows in order |
| UiTree.PathsAscend | m1nd-mcp/ui_bundle_support.rs:78-82 | the rows come in ascending order of the octets of their paths |
| UiTree.FeedRow | m1nd-mcp/ui_bundle_support.rs:91-94 | the four updates feed one row and nothing else |
| UiTree.UiTreeIdentityFromEntries | m1nd-mcp/ui_bundle_support.rs:78-100 | the in-place sort and loop give the digest of the sorted rows and a placeholder flag that holds exactly if some index.html contains the marker |
| UiTree.OrderIrrelevant | m1nd-mcp/ui_bundle_support.rs:78-100 | any order of the same entries with distinct paths has the same identity |
| UiTree.IdentityBinds | m1nd-mcp/ui_bundle_support.rs:78-100 | equal digests mean the same path-to-bytes map unless the hash collides on the two streams |
| PathOrder.ConflictMeaning | scripts/m1nd10_ui_bundle.py:52 | a conflict is a directory name that is a proper prefix of a sibling name continuing below '/' |
| PathOrder.ShadowsLaw | scripts/m1nd10_ui_bundle.py:52 | a name shadows another exactly if that is the name, a character below a slash, and something more |
| PathOrder.JoinLaw | scripts/m1nd10_ui_bundle.py:63 | the joined path is its names with slashes between them |
| PathOrder.SlashesLaw | m1nd-mcp/ui_bundle_support.rs:67 | every backslash of a walked name becomes a slash and nothing else changes |
| PathOrder.ConflictReverses | scripts/m1nd10_ui_bundle.py:52 | on a conflict the two path orders disagree |
| PathOrder.NoConflictAgrees | scripts/m1nd10_ui_bundle.py:52 | without one they agree |
| PathOrder.ListingsAgree | scripts/m1nd10_ui_bundle.py:52-70 | component order and string order list a tree identically if and only if it has no conflict |
| PathOrder.JoinInjective | scripts/m1nd10_ui_bundle.py:63 | joining path components with '/' loses nothing |
| PathOrder.StreamsAgree | scripts/m1nd10_ui_bundle.py:49-71 | the release script accepts a tree and hashes the stream of the binary's embedded names if and only if the tree has its start page, only UTF-8 names and no conflict |
| PathOrder.WalksAgree | m1nd-mcp/ui_bundle_support.rs:48-72 | the release script accepts a tree and hashes the stream of the walk on disk if and only if, besides, no name contains a backslash |
| PathOrder.WalkIsBinary | m1nd-mcp/ui_bundle_support.rs:48-100 | without backslashes the walk hashes what the binary hashes over its embedded names |
| PathOrder.InspectorAgrees | scripts/m1nd10_crates_io_upload.py:298-322 | the crate inspector, which sorts full names, hashes the stream of the binary or refuses the tree |
| PathOrder.StreamsCanDiffer | scripts/m1nd10_ui_bundle.py:4 | a concrete accepted tree on which script and binary differ |
| PathOrder.BackslashDiffers | m1nd-mcp/ui_bundle_support.rs:67 | a concrete tree without conflict on which script and walk differ |
| FramedTree.RowsDecodable | scripts/m1nd10_g7_live_orchestrator.py:148-214 | rows of path, mode, kind and payload are uniquely decodable |
| FramedTree.RowLaw | scripts/m1nd10_g7_live_orchestrator.py:148-210 | a row is length octets and path, four mode octets, L for a link or F for a file, length octets and payload |
| FramedTree.PathsAscend | scripts/m1nd10_g7_live_orchestrator.py:148 | the rows come in ascending order of their paths |
| FramedTree.FramedTreeIdentity | scripts/m1nd10_g7_live_orchestrator.py:148-224 | the loop refuses exactly if some entry has a name that does not encode, an absolute link or an unsteady file, and otherwise hashes the domain and the rows in path order and counts entries and payload bytes |
| FramedTree.FramedTreeBinds | scripts/m1nd10_g7_live_orchestrator.py:148-214 | equal digests mean the same set of entries unless the hash collides on the two streams |
| OutputMonitor.BoundaryComplete | scripts/m1nd10_g7_live_orchestrator.py:1305-1306 | a secret occurs in output plus chunk exactly when it occurred before or occurs in kept tail plus chunk |
| OutputMonitor.DetectionLaw | scripts/m1nd10_g7_live_orchestrator.py:1305-1306 | a secret is contained in an output exactly if the output is something, the secret, and something |
| OutputMonitor.TailUpdate | scripts/m1nd10_g7_live_orchestrator.py:1308-1309 | the kept tail is always the last secret-length-minus-one bytes received |
| OutputMonitor.OutputDigestMonitor.constructor | scripts/m1nd10_g7_live_orchestrator.py:1292-1299 | a fresh monitor has received nothing |
| OutputMonitor.OutputDigestMonitor.Absorb | scripts/m1nd10_g7_live_orchestrator.py:1303-1309 | one chunk keeps hash, count, flag and tail equal to those of everything received |
| OutputMonitor.OutputDigestMonitor.Read | scripts/m1nd10_g7_live_orchestrator.py:1301-1309 | the loop absorbs every chunk before the first empty one |
| OutputMonitor.OutputDigestMonitor.GetReceipt | scripts/m1nd10_g7_live_orchestrator.py:1323-1328 | the receipt is that of the whole received stream |
| OutputMonitor.Monitor | scripts/m1nd10_g7_live_orchestrator.py:1289-1328 | for every secret and every chunking, the receipt has the length and hash of the whole output and reports the secret exactly if it is a contiguous part of it |
| McpFrames.ReadUntilWhole | scripts/mcp_agent_smoke.py:170-189 | for every chunking, the capped reads end at the first marker of the whole stream and leave the bytes after it, or fail as the stream ends |
| McpFrames.ReadExactWhole | scripts/mcp_agent_smoke.py:191-209 | for every chunking, a read of n bytes takes the first n of the whole stream or fails as the stream ends |
| McpFrames.UntilOvershoot | scripts/mcp_agent_smoke.py:175-188 | behind a header less than one full read is buffered |
| McpFrames.IdleRun | scripts/mcp_agent_smoke.py:156-209 | over any run of messages whose waits succeed, less than one full read stays buffered |
| McpFrames.WholeDecides | scripts/mcp_agent_smoke.py:156-168 | between messages and outside the negative-length case, one message is a function of the whole stream |
| McpFrames.ChunkingFreeExactly | scripts/mcp_agent_smoke.py:156-209 | between messages, the outcome is the same for all chunkings of a stream if and only if no negative length precedes more bytes than can be buffered behind the header, at most 4095 |
| McpFrames.WithData | scripts/mcp_agent_smoke.py:207 | in that case a fresh client that reads the end of the header together with data does not return an empty body |
| McpFrames.HeaderAlone | scripts/mcp_agent_smoke.py:207 | and one that reads the header alone does |
| McpFrames.HeaderRoundTrip | scripts/mcp_agent_smoke.py:152-163 | the length written into a header is the length parsed from it |
| McpLaws.FrameLaw | scripts/mcp_agent_smoke.py:148-154 | a frame is Content-Length, the decimal length of the body, a blank line and the body |
| McpLaws.HeaderLaw | scripts/mcp_agent_smoke.py:160-166 | of any header lines the first that starts with content-length and a colon, in any case, gives the length, whatever stands around it |
| McpLaws.NoLength | scripts/mcp_agent_smoke.py:165-166 | without such a line there is no length |
| McpLaws.LengthLaw | scripts/mcp_agent_smoke.py:163 | a decimal with or without a sign, between blanks, is read as the number it spells |
| McpFrames.FrameRead | scripts/mcp_agent_smoke.py:148-168 | reading a written frame returns its body and leaves exactly what followed, even if the body contains the marker |
| McpFrames.FramesInOrder | scripts/mcp_agent_smoke.py:156-209 | for every list of bodies and every chunking of their frames, successive reads return the bodies in order and leave the rest |
| McpClient.McpStdioClient.WriteMessage | scripts/mcp_agent_smoke.py:148-154 | one frame is appended to what was sent |
| McpClient.McpStdioClient.Fill | scripts/mcp_agent_smoke.py:178-185 | one capped read moves bytes from the pipe to the buffer; nothing is lost |
| McpClient.McpStdioClient.ReadUntil | scripts/mcp_agent_smoke.py:170-189 | the loop refines the whole-stream function; consumed plus buffered equals received |
| McpClient.McpStdioClient.ReadExact | scripts/mcp_agent_smoke.py:191-209 | the same for exact reads |
| McpClient.McpStdioClient.ReadMessage | scripts/mcp_agent_smoke.py:156-167 | the same for whole messages up to the body text; bytes received and still to come are conserved |
| CiDiff.ParseNameStatus | scripts/ci_scope.py:131-162 | the cursor loop computes the parse of the payload |
| CiDiff.ParseExact | scripts/ci_scope.py:131-162 | a payload parses to a record list if and only if the list is well formed and the payload is its NUL-terminated print: round trip both ways, renames and copies included |
| CiDiff.ParseOneExact | scripts/ci_scope.py:139-161 | one record is accepted exactly when the fields ahead are those of a well-formed record |
| CiDiff.WidthLaw | scripts/ci_scope.py:139-155 | A, M, D and T carry one path; R and C with at most three digits carry two; nothing else is a status |
| CiDiff.ValidPathLaw | scripts/ci_scope.py:139-161 | a path is not empty, not absolute, without NUL and without surrogates |
| CiDiff.RecordPrintLaw | scripts/ci_scope.py:131-162 | a record prints as its status and its one or two paths, each ended by NUL |
| CiDiff.PrintAppend | scripts/ci_scope.py:131-162 | record lists print one after the other |
| CiDiff.PrintFieldsInjective | scripts/ci_scope.py:133 | NUL-terminated fields are uniquely decodable |
| CiScope.JoinAllLeast | scripts/ci_scope.py:188-216 | the classification of a path list is below everything that covers each path |
| CiScope.JoinAllBounds | scripts/ci_scope.py:188-216 | and covers each of its paths |
| CiScope.ClosureIsLeast | scripts/ci_scope.py:232-238 | the explicit updates compute the least set closed under the affects relation; a fixed point that distributes over union |
| CiScope.MakeScopeObject | scripts/ci_scope.py:54-68 | the scope lists each set sorted without repetition |
| CiScope.Full | scripts/ci_scope.py:71-82 | the full scope turns everything on |
| CiScope.Turn | scripts/ci_scope.py:188-216 | one turn of the path loop joins what the path owes, or reports it unowned |
| CiScope.Close | scripts/ci_scope.py:232-238 | the three updates in order give the closure |
| CiScope.ClassifyPaths | scripts/ci_scope.py:179-241 | the classifier with its early returns gives the scope of the joined debts; in plain path classes: full exactly if the list is empty or some path is global, unowned or of the retrobuilder, and otherwise each of rust, ui, host, cache, python, every crate and the transplant family is on exactly if some path of its class is there |
| CiScope.OwedLaw | scripts/ci_scope.py:187-221 | what one path owes, area by area and crate by crate, in path classes that do not mention the branches |
| CiScope.ScopeLaw | scripts/ci_scope.py:179-241 | what the scope of a path list says, flag by flag and crate by crate, in the same classes |
| CiScope.ValidScopeLaw | scripts/ci_scope.py:85-116 | the closed schema of a scope in literals: commit id, modes, sorted names, and which combinations of flags are allowed |
| CiScope.ClassifiedIsValid | scripts/ci_scope.py:85-116 | the result satisfies the closed schema if and only if the candidate is a full commit id |
| CiScope.ClassifyIsHomomorphism | scripts/ci_scope.py:179-241 | the scope of two path lists together is the join of their scopes |
| CiScope.ClassifyOfSet | scripts/ci_scope.py:179-241 | order and repetition of paths do not matter |
| CiScope.AddingPathsNeverDrops | scripts/ci_scope.py:179-241 | adding paths never drops a flag, crate or heavy family |
| CiScope.ScopedCratesClosed | scripts/ci_scope.py:228-238 | the crates of every result are a fixed point of the dependency closure |
| CiGate.Select | scripts/ci_gate_status.py:43-54 | the loop builds the required and skipped job sets |
| CiGate.JobsPartitioned | scripts/ci_gate_status.py:43-54 | required and skipped jobs partition the closed job set for every scope |
| CiGate.Evaluate | scripts/ci_gate_status.py:27-62 | code 0 exactly when the scope is valid, the jobs are the closed set, required ones succeeded and all others were skipped |
| CiGate.EndToEnd | scripts/ci_gate_status.py:27-62 | if the gate passes on the scope of changed paths, a job succeeded exactly if some path owes it and was skipped exactly if none does; one Rust job counts for both |
| CiGate.PassesExactly | scripts/ci_gate_status.py:27-62 | for every diff, empty ones included: the gate passes if and only if the candidate is a commit id, the jobs are these nine, the three invariant jobs succeeded, and each of the other six succeeded or was skipped exactly as the classes of the changed paths call for |
| CiGate.RequiredLaw | scripts/ci_gate_status.py:16-54 | which jobs a scope requires, by name |
| CiGate.DiffPassesExactly | scripts/ci_scope.py:277-283 | the gate passes on the scope of printed diff bytes exactly if it passes on that of the paths of its records |
| CiGate.AllPathsLaw | scripts/ci_scope.py:280-283 | those are the paths of all records, both ends of renames and copies included |
| CiGate.JobsOfPaths | scripts/ci_scope.py:187-216 | a job is owed to a path list exactly when it is owed to one of its paths |
| CiGate.FullRustWhenUnsure | scripts/ci_scope.py:182-183 | the full Rust job succeeded exactly when no path was given or some path owes everything |
| CiGate.ClassifyDiff | scripts/ci_scope.py:280-283 | classification of a raw diff payload, full when it does not parse |
| CiGate.DiffEndToEnd | scripts/ci_scope.py:277-283 | from the raw diff bytes: a passing gate ran every job owed to either path of any record |
| CiGate.MalformedDiffRunsAll | scripts/ci_scope.py:280-282 | a payload that prints no record list selects everything |
| ReleaseContract.CheckFindings | scripts/m1nd10_release_contract.py:262-275 | the loop accepts exactly arrays of well-formed findings without a repeated id |
| Alphabets.WhiteLaw | scripts/m1nd10_release_contract.py:181-185 | the characters that do not count as text, one by one |
| ReleaseContract.SealedFields | scripts/m1nd10_release_contract.py:345-355 | a sealed record has exactly the required fields with core, digest, id and signature in place |
| ContractLaws.SealedLaw | scripts/m1nd10_release_contract.py:345-518 | the three sealed records written out: schema, core, digest over the framed canonical core, prefixed id and signature |
| ContractLaws.CandidateLaw | scripts/m1nd10_release_contract.py:296-324 | a candidate core is accepted exactly if it has the fifteen fields, each of its shape |
| ContractLaws.GateLaw | scripts/m1nd10_release_contract.py:399-428 | a gate core is accepted exactly if it has the seventeen fields, each of its shape, in time order, with exit code 0 on a pass and none when not run |
| ContractLaws.ReviewLaw | scripts/m1nd10_release_contract.py:483-503 | the same for the eleven fields of a review core |
| ContractLaws.FindingLaw | scripts/m1nd10_release_contract.py:245-259 | a finding is accepted exactly if its five fields have their shapes |
| ContractLaws.RecordLaw | scripts/m1nd10_release_contract.py:358-540 | the three validators accept exactly records with these fields, an accepted core, and digest and id that fit it |
| ReleaseContract.SealValidates | scripts/m1nd10_release_contract.py:431-465 | sealing any valid core of any of the three kinds gives a record that validates and carries that core |
| ReleaseContract.DomainsDistinct | scripts/m1nd10_release_contract.py:21-35 | no two record kinds share a digest domain |
| ReleaseContract.DigestBindsCore | scripts/m1nd10_release_contract.py:358-375 | two validated records of any kinds have equal digests exactly when kind and core are the same, unless the hash collides on their frames |
| Convergence.CheckReceipts | scripts/m1nd10_release_contract.py:585-602 | the loop with its set of seen gates accepts exactly complete receipt lists |
| Convergence.ElevenReceipts | scripts/m1nd10_release_contract.py:585-602 | a complete list has eleven receipts |
| Convergence.ValidateConvergence | scripts/m1nd10_release_contract.py:566-603 | accepts exactly converged evidence |
| Convergence.EvidenceAccepted | scripts/m1nd10_release_contract.py:550-603 | evidence built from its parts converges exactly when candidate and endorsing review validate and the receipts are a permutation of G0 to G10, each valid, PASS, bound and without open P0 or P1 |
| ContractLaws.ConvergedLaw | scripts/m1nd10_release_contract.py:543-603 | in literals: candidate, review and receipts are accepted records, review and receipts name the candidate, pass and have no open P0 or P1, and the gates are G0 to G10 once each |
| Convergence.OrderIrrelevant | scripts/m1nd10_release_contract.py:585-602 | receipt order does not matter |
| SourceGuard.CollectRejections | scripts/m1nd10_candidate_source_guard.py:127-132 | each collecting loop reports exactly the last rejection per path, rows sorted by path |
| SourceGuard.SetDefaults | scripts/m1nd10_candidate_source_guard.py:255-258 | the inner loop keeps an earlier reason and adds new paths |
| SourceGuard.MergedViolations | scripts/m1nd10_candidate_source_guard.py:254-259 | the merged rows are those of the groups, earlier groups first |
| SourceGuard.RowsFaithful | scripts/m1nd10_candidate_source_guard.py:254-259 | rows are strictly sorted by path, one per rejected path, with its reason |
| SourceGuard.UnrowOfRows | scripts/m1nd10_candidate_source_guard.py:254-259 | rows lose nothing of the rejections they list |
| SourceGuard.RejectedExactly | scripts/m1nd10_candidate_source_guard.py:221-233 | a path is rejected exactly when some entry with that path fails the check |
| SourceGuard.MetadataLaw | scripts/m1nd10_candidate_source_guard.py:221-233 | regular blobs of mode 100644 or 100755 and at most 8388608 bytes pass; the reasons for the others, in order |
| SourceGuard.ContentLaw | scripts/m1nd10_candidate_source_guard.py:265-300 | unreadable content and personal paths are refused, but for the one document pinned by path and SHA-256 |
| SourceGuard.CleanLaw | scripts/m1nd10_candidate_source_guard.py:323-337 | an entry is clean exactly if no check has a reason against it |
| SourceGuard.SurvivorScanRefines | scripts/m1nd10_candidate_source_guard.py:323-337 | scanning only survivors gives the report of scanning everything |
| SourceGuard.EarliestReason | scripts/m1nd10_candidate_source_guard.py:254-259 | each reported path carries the reason of the first check that rejects it |
| SourceGuard.PassExactly | scripts/m1nd10_candidate_source_guard.py:323-347 | the report is empty exactly when all three checks accept every entry |
| SourceGuard.InspectCandidate | scripts/m1nd10_candidate_source_guard.py:323-347 | the whole inspection: full report, count, and a pass exactly if every entry is clean |
| CratePackages.FillByName | scripts/m1nd10_release_candidate.py:366-372 | the loop refuses exactly unnamed or repeated packages |
| CratePackages.CheckLock | scripts/m1nd10_release_candidate.py:428-458 | the loop over lock rows accepts exactly locks that pin packages of the candidate, each once |
| CratePackages.OrderPackages | scripts/m1nd10_release_candidate.py:380-407 | the first loop accepts exactly packages bound to their position, commit and earlier dependencies, in publish order |
| CratePackages.CheckEdges | scripts/m1nd10_release_candidate.py:415-458 | the second loop accepts exactly packages with the fixed edges and pinning locks |
| CratePackages.BindCratePackages | scripts/m1nd10_release_candidate.py:359-470 | accepts exactly bound artifact lists and returns the packages in publish order |
| CrateLaws.BoundExactly | scripts/m1nd10_release_candidate.py:359-470 | a list is accepted exactly if its crate packages are the four by name, each with the fields, the dependency rows, the fixed edges and the lock rows that the release demands, in literals |
| CrateLaws.DependencyEarlier | scripts/m1nd10_release_candidate.py:396-407 | on an accepted list every dependency row of the k-th package whose kind is not dev names a package before k |
| CrateLaws.ExampleAccepted | scripts/m1nd10_release_candidate.py:415-427 | four packages with normal rows on exactly the fixed edges, pinned locks and a dev row back to front are accepted |
| CratePackages.NeedsEarlier | scripts/m1nd10_release_candidate.py:359-470 | in a bound list every workspace dependency whose row is not of kind dev is published earlier |
| CratePackages.PrefixClosed | scripts/m1nd10_release_candidate.py:359-470 | every prefix of the publish order is closed under dependency chains of any length |
| CratePackages.Acyclic | scripts/m1nd10_release_candidate.py:359-470 | no dependency chain returns to its start |
| CratePackages.LocksPinned | scripts/m1nd10_release_candidate.py:359-470 | every lock row pins version and digest of the one package of that name in the same candidate |
| RuntimeBindings.UniqueTargetMap | scripts/m1nd10_release_candidate.py:473-484 | refuses exactly lists with two entries of the kind for one target, otherwise maps each target to its entry |
| RuntimeBindings.BindRuntimeArtifacts | scripts/m1nd10_release_candidate.py:487-565 | accepts exactly when the three kinds have the expected targets once each and agree on the bytes; one binding per target, in order |
| DocumentLaws.BoundLaw | scripts/m1nd10_release_candidate.py:487-565 | binding succeeds exactly if each target has one archive, one binary and one receipt that agree on digest and size, and no runtime file belongs to another target |
| DocumentLaws.ReceiptLaw | scripts/m1nd10_release_candidate.py:530-550 | a smoke receipt counts exactly if it names commit, version and embedded UI of the release and its version output has the version and seven digits of the commit |
| RuntimeBindings.OrderIrrelevant | scripts/m1nd10_release_candidate.py:487-565 | acceptance and bindings do not depend on the order of the collected files |
| OperationalDocuments.ValidateCompatibility | scripts/m1nd10_release_candidate.py:890-930 | on any JSON value: accepts exactly manifests of the exact schema, fields and types with well-formed rows and no repeated target, and returns what was read |
| OperationalDocuments.ValidateRollback | scripts/m1nd10_release_candidate.py:933-1007 | on any JSON value: the same for rollback plans, with explicit activation and rollback |
| OperationalDocuments.CompatibilityReads | scripts/m1nd10_release_candidate.py:1083-1097 | the manifest as written reads back as itself and as nothing else |
| OperationalDocuments.RollbackReads | scripts/m1nd10_release_candidate.py:1098-1111 | the rollback plan as written reads back as itself and as nothing else |
| DocumentLaws.ManifestLaw | scripts/m1nd10_release_candidate.py:890-930 | an accepted manifest is exactly a JSON value of this schema, in literals: version, commit, tag, and per target the name of its binary, digest and size |
| DocumentLaws.PlanLaw | scripts/m1nd10_release_candidate.py:933-1007 | the same for the rollback plan: per target the names of archive, member, receipt and binary, and the two explicit commands |
| OperationalDocuments.ValidatePair | scripts/m1nd10_release_candidate.py:1010-1033 | accepts exactly documents of one release that list the same set of runtimes |
| OperationalDocuments.PreparedExactly | scripts/m1nd10_release_candidate.py:1073-1114 | documents prepared from bound files pass their validators exactly when there is a target, every archive has its platform's extension and sizes fit 64 bits; the pair check then never refuses |
| OperationalDocuments.Prepare | scripts/m1nd10_release_candidate.py:1073-1114 | binding and the three validators together succeed exactly under that condition, with the JSON written |
| OperationalDocuments.TarballBoundNotPrepared | scripts/m1nd10_release_candidate.py:144-186 | a Windows target with a tarball that is bound and not preparable |
| UploadBody.UploadRoundTrip | scripts/m1nd10_crates_io_upload.py:496-511 | a reader of the body gets back the metadata, keys in order, and the package bytes |
| UploadBody.BodyLaw | scripts/m1nd10_crates_io_upload.py:506-511 | the body written out: each part behind its four length octets, least significant first |
| UploadBody.UploadBinds | scripts/m1nd10_crates_io_upload.py:496-511 | two bodies are equal exactly when metadata and package are |
| ActionCatalog.AuthorityExactly | m1nd-control/src/action_catalog.rs:195-298 | the chain of checks accepts an entry exactly when sovereign mutation goes with the positive floor, negative safety with the safety floor, critical risk with those two floors, and elevated effects with an elevated floor |
| ActionCatalog.SafetyLaw | m1nd-control/src/policy.rs:147-159 | which seven effects are negative safety |
| ActionCatalog.ElevatedLaw | m1nd-control/src/action_catalog.rs:300-311 | which seven effects need elevated authority |
| ActionCatalog.SemanticIdLaw | m1nd-control/src/policy.rs:41-52 | an action id is two or more non-empty segments of lower-case letters, digits and underscores with dots between them |
| ActionCatalog.SortedLaw | m1nd-control/src/action_catalog.rs:139-167 | the order of the entries, octet by octet |
| ActionCatalog.RustWhiteLaw | m1nd-control/src/action_catalog.rs:313-318 | the white space that makes a required text empty is that of the Python half without four control characters |
| ActionCatalog.EntriesExactly | m1nd-control/src/action_catalog.rs:139-167 | the walk accepts exactly well-formed, separated entries that increase strictly over all index pairs |
| ActionCatalog.ActionCatalogV1.WalkEntries | m1nd-control/src/action_catalog.rs:136-167 | the loop with its map, set and previous id reports the first error or the counts |
| ActionCatalog.ActionCatalogV1.Seal | m1nd-control/src/action_catalog.rs:117-120 | writes the digest field and nothing else |
| ActionCatalog.ActionCatalogV1.Validate | m1nd-control/src/action_catalog.rs:124-183 | valid exactly for valid catalogues; otherwise the first error in the order of the code |
| ActionCatalog.ValidExactly | m1nd-control/src/action_catalog.rs:124-183 | no error in that order exactly when every requirement holds |
| ActionCatalog.DigestIgnoresItself | m1nd-control/src/action_catalog.rs:108-115 | the digest does not depend on the digest field |
| ActionCatalog.UnsignedMembers | m1nd-control/src/action_catalog.rs:108-115 | what is hashed has the members schema, catalog_version and entries, in that order |
| ActionCatalog.ComputeDigestLaw | m1nd-control/src/action_catalog.rs:108-115 | the digest written out: domain, framing and canonical bytes of the value without its digest field |
| ActionCatalog.SealIdempotent | m1nd-control/src/action_catalog.rs:108-120 | sealing twice, or over any prior digest, gives the same catalogue |
| ActionCatalog.SealedValidates | m1nd-control/src/action_catalog.rs:117-183 | a sealed catalogue validates exactly when schema, version and entries are good: the digest check never fails |
| ActionJson.EntryJsonExact | m1nd-control/src/action_catalog.rs:32-40 | the serialized entry loses nothing: two entries are written as the same data exactly if they are equal |
| ActionJson.EntryJsonLaw | m1nd-control/src/action_catalog.rs:32-40 | the five members of a serialized entry, their names and their order |
| ActionNames.EffectNameLaw | m1nd-control/src/policy.rs:115-145 | each effect is written as its identifier in upper snake case, by the rule serde applies |
| ActionNames.IngressNameLaw | m1nd-control/src/policy.rs:12-22 | the same for ingresses |
| ActionNames.RiskNameLaw | m1nd-control/src/policy.rs:93-100 | the same for risk classes |
| ActionNames.FloorNameLaw | m1nd-control/src/action_catalog.rs:18-26 | the same for authority floors |
| ActionCatalog.CatalogDigestBinds | m1nd-control/src/action_catalog.rs:108-115 | equal digests mean equal schema, version and entries, unless the hash collides |

## Left out

- Processes, sockets, clocks, HTTP, git, signing and file metadata races: the models take byte
  strings, entry lists and chunk lists. A pipe that stays silent is `TimedOut`, a closed one `Closed`.
- SHA-256 internals; tar, zip and TOML decoding; regex engines beyond the character classes used.
- Floating-point JSON: the reader refuses it and so does the model. Refusals keep a kind, not the
  message. Python's recursion and integer-digit limits are not modelled. The Rust writer is proved for
  integers of every size, which includes the 64-bit ones it can hold.
- `str.lower` is modelled on ASCII only; no other character lowers to a letter of the two family names
  in a way that changes the substring test.
- McpClient.McpStdioClient.ReadMessage: stops at the body text; the parse of it by plain `json.loads`, which
  unlike the strict reader takes floats and repeated keys, is not part of this model. `int()` accepts ASCII
  digits only. After a failed wait for a body the client is in the middle of a message, and the bound on
  what is buffered does not apply.
- The file walks on disk (symbolic links, Windows paths, unreadable files) and the double observation around
  the tree identities. What `to_string_lossy` makes of a name that is no UTF-8 is a parameter, as the script
  refuses such a tree. `ui_tree_identity` and `domain_digest` of `scripts/m1nd10_g7_live_orchestrator.py`
  repeat the framings proved here.
- FramedTree.FramedTreeIdentity: entries are given; whether a link resolves inside the root and a file stayed
  as it was is a parameter (`steady`).
- CiGate.Evaluate: a scope that is no JSON object of the right shape is an absent scope; event and git
  handling in `classify` and `dependency_change` are not part of this model.
- ReleaseContract.SealValidates: `verify_vectors`, `validate_operational_artifact_keys` and messages are
  left out; a core with values Python cannot hash counts as refused.
- SourceGuard.InspectCandidate: the path rule, the personal-path scanner and blob reading are parameters
  (`World`); the worktree variant repeats the same composition.
- CratePackages.BindCratePackages: a dependency row without a name, or a lock row naming no package of
  the candidate, makes `scripts/m1nd10_release_candidate.py` raise `KeyError` and is a refusal here.
- OperationalDocuments.Prepare: the SBOM, provenance, npm and crate checks before the binding and the digest
  descriptor after the validators.
- ActionCatalog.ActionCatalogV1.Validate: the literal list of entries is data, and error payloads keep the
  action only.
