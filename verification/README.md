# ironrun: a verified model

ironrun runs commands for coding agents without letting them see secret values. This project models the parts of it
that have to be right for that: what is redacted from output, which commands an agent may run and why, and where the
values are kept. `dafny verify dfyconfig.toml` checks all of it.

Code that updates state is modelled by classes and loops with the same fields and branches, proved against
specification functions; the promises are then proved of those functions, for all inputs, runs or schedules.

**The streaming redactor** (`Scanning`, `Overlaps`, `RedactSpec`, `RedactWriter`, `CapWriter`, `RedactTheorems`, `Matching`).
`RedactSpec` defines what one scan of a whole stream replaces: an exact secret, longest first; a secret interleaved with gap
bytes; 12 or more bytes of a long secret. `RedactWriters.Writer` is the rolling buffer with its first-byte index, fragment
index,
hold-back and cap. Its indexed, chunked scan is shown equal to the reference scan, and the reference scan is shown to
let nothing sensitive through and to replace nothing else. `Matching` says what one match is without the functions that
search for it. Secrets that cannot overlap the placeholder are absent from the output as a whole.

**Encodings** (`Base64`, `Base64Tables`, `Encodings`, `EncodingForms`, `Registration`, `EndToEnd`). Which forms are registered
is characterised kind by kind, and each kind by the tables of its standard or by reading it back. The core of a secret is the
part of a base64 text that depends on the secret alone (sections 4 and 5 of RFC 4648). It is shown to occur in the base64 of
every message that contains the secret, and to be registered; together with the redactor this gives one theorem from secret to
output.

**The trie matcher** (`Needles`, `Scrub`, `ScrubShown`, `ScrubTheorems`) and what rests on it: purging shell history (`Lines`,
`History`) and scanning the added lines of a git diff (`GitDiff`). The mutable trie is shown to denote a dictionary, and its
scan to be leftmost-longest replacement over that dictionary, which tells nothing of a value but its alias and short hash.

**Requests, leases and grants** (`AccessSpec`, `AccessManager`, `AccessRuns`, `AccessRequests`, `AccessGrants`,
`AccessOutcomes`, `AccessTheorems`). `AccessSpec.Next` is the transition system and the class refines it. Over every run with fresh
identifiers, authorization is characterised by what the log of the run says, in both directions. Lifetimes are compared
with the times of the steps; no order of the clock is assumed.

**Proposals and approval** (`KeyedLists`, `PendingStore`, `Approval`, `ApprovalTheorems`, `ApprovalStory`,
`PolicyText`). Any number of processes interleave the single steps of proposing, rejecting, reviewing and approving; each may
crash at any step, and an operator may free the lock of a crashed owner. The review digest is taken to be injective, and the base policy to parse.

**Environment sets and the vault** (`Names`, `Vault`, `EnvSpec`, `EnvLaws`, `EnvManager`). The vault works over an abstract `Crypto`
whose opening undoes its sealing. Every method of the manager keeps metadata and vault in agreement: a set's scope holds
exactly its entries, variables as texts and files as blobs; targets are unique; keys are the sorted names; and some set is
active whenever there is one.

**Three small cores**: the seccomp filter against a classic BPF interpreter (`Seccomp`), the audit chain with its tail
reader (`Audit`), and the spelling distance of command suggestions (`EditDistance`).

## Where code and documentation disagree

The model follows the code.

- `Redact` is documented as idempotent: redacting redacted text changes nothing (internal/scrub/matcher.go:174). For managed
  values without brackets this holds exactly when no placeholder contains a needle (`ScrubTheorems.PromiseHoldsWhen`). It
  fails for the value REDACTED (`ScrubTheorems.PlaceholderFeedsMatcher`). With brackets in values it can also fail
  where a placeholder ends (`ScrubTheorems.BracketsFeedMatcher`). For any needles and replacements it holds when none can overlap
  (`Needles.RedactingApart`).
- `Needles` is documented as the number of distinct match strings (internal/scrub/matcher.go:166). It is exactly when no two
  values share a variant (`ScrubTheorems.NeedlesAreDistinct`), and larger for a value and its base64 text
  (`ScrubTheorems.Base64OfAnother`).
- `lowerPctEscapes` is documented to lower the digits of %XX escapes and nothing else. It also lowers letters after a percent
  sign that starts no escape, as in `%AZ`, and skips an escape right after one, as in `%%2F`
  (`Encodings.LoweredTouchesNonEscapes`, `Encodings.LoweredMissesEscapes`; `Encodings.LoweredAsPromised` has the exact
  condition). Its callers pass only texts in which every percent sign starts an escape, where it does as documented
  (`Encodings.WellEscapedAsPromised`).
- An audit log that only this code has written can be reported as tampered. A record with bytes that are not UTF-8, such as
  the name of a working directory, is read back with other bytes, so that its hash no longer fits; the log is broken from then
  on, and is refused when it is opened again. It verifies exactly when every record is UTF-8 and every line is below the 8 MiB
  limit of the scanner (`Audit.AppendsVerify`, `Audit.ChainBreaks`, `Audit.OneAppendBreaks`). When the last line with its
  newline exceeds the 64 KiB window, later appends fail and leave the log as it is (`Audit.AppendExtends`).
- `capWriter` is documented to record whether it dropped anything. An empty write to a sink that is exactly full sets the
  flag too; the redactor makes no empty writes (`CapWriters.CapWriter.Write`, `RedactTheorems.ForwardThroughCap`).
- A text secret that is not valid UTF-8 is stored as JSON has it, so that what is read differs from what was stored
  (`Vault.StoredIsRead`); file secrets are exact.
- `Clone` of an expired set with entries fails after the new set was created, which stays behind empty
  (`EnvManagers.Manager.Clone`).

## Model

| member | source | states |
|---|---|---|
| Scanning.ChunkingIrrelevant | internal/redact/redact.go:117-164 | For every matcher that decides within its hold-back, feeding chunks one by one and scanning what is left gives the tokens of one scan of the whole stream |
| Scanning.TokensConserve | internal/redact/redact.go:117-164 | The tokens account for every input byte in order, each in exactly one token |
| Scanning.LiteralsAreUnmatched | internal/redact/redact.go:117-164 | A byte that is passed on as it is stands where the matcher finds nothing |
| Scanning.LiteralMeans | internal/redact/redact.go:117-164 | A byte is passed on as it is exactly when one of the tokens is that byte at that place |
| Scanning.RedsMean | internal/redact/redact.go:144-153 | The redaction count is the number of replaced spans |
| Scanning.RedsAreMatches | internal/redact/redact.go:117-164 | Every replaced span is what the matcher found at some place of the input |
| Overlaps.RenderedIsClean | internal/redact/redact.go:117-164 | For every matcher and replacement: a text that the matcher finds and that no replacement can overlap occurs nowhere in the output |
| RedactSpec.EndOfIsLeast | internal/redact/redact.go:255-281 | The end used by the tolerant tier is the least one whose prefix strips to the projection |
| RedactSpec.MatchLocal | internal/redact/redact.go:169-233 | Locality: the three tiers decide by the first maxSpan bytes, whatever follows |
| RedactSpec.HoldSuffices | internal/redact/redact.go:117-164 | Holding back maxSpan - 1 bytes is enough for every decision to be final |
| RedactWriters.MatchFlex | internal/redact/redact.go:255-281 | The index loop succeeds exactly when the projection of the secret is a prefix of the projection of the first maxSpan bytes, and returns the least such end |
| RedactWriters.SortLongestFirst | internal/redact/redact.go:330-358 | A permutation of the secrets, longest first |
| RedactWriters.BuildIndexes | internal/redact/redact.go:330-358 | byFirst lists exactly the secrets that can begin with a byte in either tier, fragments maps exactly the 12-byte windows of the long secrets to their last registered place, and maxSpan is the largest span |
| RedactWriters.MatchExact | internal/redact/redact.go:169-186 | Searching only the candidates of the first byte finds what a search of all secrets finds, the longest verbatim secret first |
| RedactWriters.MatchTolerant | internal/redact/redact.go:186-197 | The same for the gap-tolerant tier |
| RedactWriters.NextKey | internal/redact/redact.go:207-222 | Collects the first 12 non-gap bytes of the window, or reports that there are fewer |
| RedactWriters.ExtendFragment | internal/redact/redact.go:222-233 | Extends a fragment as far as window and secret agree, and ends at the least index that shows it |
| RedactWriters.Writer.MatchFragment | internal/redact/redact.go:207-233 | The lookup in the fragment index finds what the definition over all secrets finds |
| RedactWriters.Writer.MatchAt | internal/redact/redact.go:169-197 | The indexed three-tier matcher is the reference matcher, for every buffer and position |
| RedactWriters.Writer.Emit | internal/redact/redact.go:284-300 | The sink holds exactly the first maxOut bytes of what was rendered, in nonempty writes, and written counts them |
| RedactWriters.Writer.Scan | internal/redact/redact.go:117-164 | The scan of the buffer passes on exactly the tokens of the reference scan short of the hold-back, and keeps exactly the rest |
| RedactWriters.Writer.Write | internal/redact/redact.go:95-109 | Accepts every byte, keeps the invariant (at most maxSpan - 1 bytes are held back) and advances the reference scan |
| RedactWriters.Writer.Flush | internal/redact/redact.go:111-115 | Leaves nothing in the buffer and completes the reference scan |
| RedactWriters.Writer.AddSecret | internal/redact/redact.go:318-328 | Registers the secret, unless empty, without touching output or buffer; maxSpan never falls |
| RedactWriters.Writer.constructor | internal/redact/redact.go:80-93 | Starts with the nonempty secrets registered and indexed |
| RedactTheorems.ChunkInvariance | internal/redact/redact.go:95-164 | Any chunking of any stream, then a flush, gives one reference scan of buffer and stream |
| RedactTheorems.SameStreamSameOutput | internal/redact/redact.go:95-164 | Two chunkings of one stream give the sink the same bytes |
| RedactTheorems.CopyThrough | internal/redact/redact.go:95-164 | Driving the real writer with any chunks and a flush: the sink receives the reference rendering of the whole stream up to the cap, and redactions counts the spans |
| RedactTheorems.SensitiveMatches | internal/redact/redact.go:169-233 | Completeness: text that starts with a secret, a gap-spread secret or 12 projected bytes of a long secret is matched |
| RedactTheorems.NoLeak | internal/redact/redact.go:117-233 | No byte passed on as it is starts any of these, for every secret list and stream |
| RedactTheorems.LiteralRunsAreClean | internal/redact/redact.go:117-164 | No run of bytes passed on as they are contains a registered secret |
| RedactTheorems.LiteralRunsAreHarmless | internal/redact/redact.go:117-233 | Nor does such a run contain a gap-spread secret or 12 projected bytes of a long one |
| RedactTheorems.OutputIsClean | internal/redact/redact.go:117-233 | A secret that cannot overlap the placeholder occurs nowhere in the output, not even across placeholders |
| RedactTheorems.SinkIsClean | internal/redact/redact.go:95-164 | The same of what the sink has received, for every chunking and cap |
| RedactTheorems.LateSecretsAreCovered | internal/redact/redact.go:318-358 | After a secret is added in mid-stream, every occurrence that starts in the buffer or later is covered, under any chunking |
| RedactTheorems.MatchesAreSecrets | internal/redact/redact.go:169-233 | Whatever is replaced is a secret, strips to the projection of one, or strips to at least 12 bytes of a long one |
| RedactTheorems.Precision | internal/redact/redact.go:117-233 | Tokens spell the input, and every replaced span of a whole scan is such a span |
| RedactTheorems.LongestSecretWins | internal/redact/redact.go:169-186 | Where secrets stand verbatim, the longest of them is replaced |
| Matching.SpreadMeans | internal/redact/redact.go:236-241 | The projection of a text is the one sequence that the text spreads out by putting bytes up to 0x20 or DEL in |
| Matching.ReachMeans | internal/redact/redact.go:243-249 | A match reaches at most twice the length of the longest secret and 32 bytes more, and exactly that far |
| Matching.MatchMeans | internal/redact/redact.go:169-233 | What is replaced at a place is determined: the first secret there verbatim; else the first one there spread out, up to its last byte; else the last registered fragment, up to the last byte in reach that continues it; else nothing |
| Matching.FragmentsReachFar | internal/redact/redact.go:199-233 | Where only a fragment matches, no further end in reach shows one more byte of that secret |
| Matching.SpreadIsCovered | internal/redact/redact.go:186-197 | A secret spread over at most twice its length and 32 bytes never has its first byte passed on |
| Matching.LongestSpreadWins | internal/redact/redact.go:186-197 | Where secrets stand spread out, the one replaced is at least as long as the others |
| Matching.ShownMeans | internal/redact/redact.go:117-164 | The output shows literal bytes and [REDACTED], and does not depend on what was replaced |
| CapWriters.CapWriter.Write | internal/runner/runner.go:739-760 | The sink has exactly the first max of all offered bytes; dropped tells whether there were more, but for an empty write to a full sink |
| RedactTheorems.ForwardThroughCap | internal/runner/runner.go:739-760 | Of all that the redactor writes, exactly the first max bytes arrive, and dropped holds if and only if there were more |
| Base64Tables.EncodeIsBitwise | internal/redact/encodings.go:48-53 | Every character of the encoder is the one that the tables of RFC 4648 have for six bits of the data, zero after its end; after them there is padding only |
| Base64Tables.CharsAreTabled | internal/redact/encodings.go:48-53 | The encoder's characters are those of tables 1 and 2 of RFC 4648, written out |
| Base64Tables.DecodeUndoesEncode | internal/redact/encodings.go:48-53 | A decoder that reads those tables gives the data back, in both alphabets, padded or raw |
| Base64.CoreIsWhole | internal/redact/encodings.go:161-179 | A character belongs to the core exactly when all its six bits are the secret's |
| Base64.EncodedLength | internal/redact/encodings.go:168-179 | The number of data characters of an encoding |
| Base64.CoreInRange | internal/redact/encodings.go:168-179 | The slice that cuts the core out is always in range, and a secret of 8 bytes or more has cores of at least 8 characters |
| Base64.CoreIsAligned | internal/redact/encodings.go:168-179 | For every prefix, nonempty secret and suffix, both alphabets, padded or raw, the base64 text contains the core for |prefix| mod 3 at an offset that depends only on |prefix| |
| Encodings.Base64Cores | internal/redact/encodings.go:168-183 | Lists the cores of all three alignments in both alphabets |
| Encodings.PercentEncode | internal/redact/encodings.go:204-218 | Percent-encodes byte by byte |
| Encodings.PercentRoundTrip | internal/redact/encodings.go:204-218 | Decoding a percent-encoded text gives the original, for every safe set and letter case |
| EncodingForms.PercentMeans | internal/redact/encodings.go:202-218 | A text is the percent encoding exactly when it spells the secret byte by byte: unreserved and safe bytes by themselves, others by a percent sign and two digits of the table |
| Encodings.LowerPctEscapes | internal/redact/encodings.go:120-141 | The in-place edit of the byte slice computes Lowered of its old contents |
| Encodings.LoweredDecodesAlike | internal/redact/encodings.go:120-141 | Lowering the escapes of a well-escaped text does not change what it decodes to |
| Encodings.LoweredAsPromised | internal/redact/encodings.go:118-137 | For every text: exactly the digits of its escapes are lowercased if and only if, for each upper-case digit, it is within two bytes after a percent sign at which the scan stops exactly when it is in an escape |
| Encodings.WellEscapedAsPromised | internal/redact/encodings.go:118-137 | That is always so for a text in which every percent sign starts an escape, as in all texts the callers pass |
| Encodings.EveryEscapeIsRead | internal/redact/encodings.go:118-137 | The escapes of a text are those that decoding reads: they do not overlap |
| Encodings.LoweredTouchesNonEscapes | internal/redact/encodings.go:118-137 | On %AZ a sequence that is no escape is changed |
| Encodings.LoweredMissesEscapes | internal/redact/encodings.go:118-137 | On %%2F the escape is not lowercased |
| Encodings.EscapedFormsDecode | internal/redact/encodings.go:43-141 | Both letter cases of a percent-encoded form decode to the secret, and lowercasing it changes the digits of its escapes alone |
| Encodings.WrapLines | internal/redact/encodings.go:143-159 | Inserts a newline after every width bytes |
| Encodings.WrappedProjectsBack | internal/redact/encodings.go:143-159 | Line wrapping adds gap bytes only, so the projection is unchanged |
| EncodingForms.WrappedLayout | internal/redact/encodings.go:143-159 | A wrapped text is its lines joined by newlines, all but the last of the full width, with no newline at the end |
| Encodings.Dedupe | internal/redact/encodings.go:43-102 | Keeps each candidate once, in order, when it is long enough and not known |
| Encodings.EncodingsWithDepth | internal/redact/encodings.go:43-102 | The fresh, long enough forms of the secret in order of derivation |
| EncodingForms.HexIsTabled | internal/redact/encodings.go:54-57 | Each byte is its two hexadecimal digits, lower or upper case, from the digits written out |
| EncodingForms.HexReadsBack | internal/redact/encodings.go:54-57 | The digits read back are the secret |
| EncodingForms.RegisteredFormsMean | internal/redact/encodings.go:43-114 | The results are exactly the forms of every kind that are long enough and not the secret, each once: base64, cores, hex, percent encodings in both cases, JSON, nested from depth 2 on, wrapped at 64 and 76 |
| Encodings.CoresAreRegistered | internal/redact/encodings.go:43-102 | Every core of a long enough secret is among its encodings, at every depth |
| Registration.RegisterSecrets | internal/runner/runner.go:170-194 | Registered are exactly the values of at least 4 bytes and the encodings of those of at least 8 |
| Registration.RegisteredMeans | internal/runner/runner.go:170-194 | Registered are values of at least 4 bytes, and those forms of at least 8 bytes that belong to values of at least 8 |
| Registration.NothingShort | internal/runner/runner.go:170-194 | Nothing empty or shorter than 4 bytes is ever registered |
| EndToEnd.EncodedSecretsStayHidden | internal/redact/redact.go:247-281 | For every registered secret of 8 bytes or more: if any message with it is base64-encoded, spread by gap bytes within its span cap and streamed in any chunks amid other output, the first character of its core is not emitted |
| Scrub.Matcher.Insert | internal/scrub/matcher.go:143-161 | Inserting into the trie adds the needle to the map it denotes; on a collision the first replacement stays |
| Scrub.Matcher.LongestAt | internal/scrub/matcher.go:175-204 | Walking the trie finds the longest needle of the denoted map at a place |
| Scrub.Matcher.Redact | internal/scrub/matcher.go:175-208 | The trie scan equals naive leftmost-longest replacement over the denoted map, with the right count |
| Scrub.Matcher.Contains | internal/scrub/matcher.go:211-214 | True if and only if some nonempty needle occurs in the text |
| Scrub.NewMatcher | internal/scrub/matcher.go:121-141 | The trie denotes the dictionary of all variants of all long enough secrets, first owner first; the contributing secrets are the long ones, each value once; skipped counts the short ones, and needles the variants of the contributing ones |
| Scrub.Variants | internal/scrub/matcher.go:50-75 | The distinct variants of a value that are long enough |
| Scrub.FirstSecretOwns | internal/scrub/matcher.go:121-161 | A needle is replaced by the placeholder of the first secret that has it as a variant |
| ScrubShown.PlaceholderShows | internal/scrub/matcher.go:34-44 | The alias stands right after [REDACTED:, a colon after it, and the short hash right before the final bracket |
| ScrubShown.OnlyTheHashShows | internal/scrub/matcher.go:34-44 | A placeholder depends on the value through its short hash alone |
| ScrubShown.RedactedTextHidesValues | internal/scrub/matcher.go:175-208 | Two texts that differ only in which values with the same alias and short hash stand in them are redacted to the same text |
| ScrubShown.SameNeedlesShowAlike | internal/scrub/matcher.go:121-208 | Two secret lists with the same aliases, short hashes and needles show every text alike |
| ScrubShown.VariantsMean | internal/scrub/matcher.go:46-73 | The variants are exactly the value, its base64 and percent forms, and those cores and JSON forms that have 8 bytes or more, each once |
| ScrubShown.NeedlesMean | internal/scrub/matcher.go:118-161 | A needle is looked for exactly when it is the value of a secret of 8 bytes or more or a spelling of it, and the first such secret's placeholder is shown |
| ScrubShown.ContributorsMean | internal/scrub/matcher.go:118-141 | A matcher keeps the first secret of each long enough value, in order, and counts the short ones |
| Scrub.EncodedSecretIsFound | internal/scrub/matcher.go:50-75 | A text with a managed value, or with the base64 of any message around it, is found to hold a needle |
| Needles.NoNeedleSurvives | internal/scrub/matcher.go:175-208 | No byte that is kept starts a needle |
| Needles.OnlyNeedlesAreReplaced | internal/scrub/matcher.go:175-208 | Every replaced span is a needle |
| Needles.RedactsIffHolds | internal/scrub/matcher.go:211-214 | Something is replaced exactly when the text contains a needle |
| Needles.CleanTextUnchanged | internal/scrub/matcher.go:175-208 | A text without needles comes back unchanged |
| Needles.RedactingApart | internal/scrub/matcher.go:172-208 | For every dictionary: when no needle can overlap a replacement, redacting twice replaces nothing the second time, for all texts; when a replacement contains a needle, some text shows the contrary |
| Needles.BracketsKeepApart | internal/scrub/matcher.go:172-208 | With bracketed replacements and needles without brackets, no needle can overlap a replacement if and only if no replacement contains a needle |
| Needles.RedactingTwice | internal/scrub/matcher.go:172-208 | With bracketed replacements and needles without brackets, redacting twice changes and replaces nothing the second time, for all texts, if and only if no replacement contains a needle |
| ScrubTheorems.PromiseHoldsWhen | internal/scrub/matcher.go:172-208 | For managed values without brackets, redacting redacted text changes nothing, for every text, if and only if no placeholder contains a needle |
| ScrubTheorems.PlaceholderFeedsMatcher | internal/scrub/matcher.go:172-208 | The promised idempotence fails for the managed value REDACTED: its own placeholder is redacted again |
| ScrubTheorems.BracketsFeedMatcher | internal/scrub/matcher.go:172-208 | It also fails for two managed values, eight spaces and a closing bracket with seven spaces |
| ScrubTheorems.NeedlesAreDistinct | internal/scrub/matcher.go:121-141 | The needle count is the number of distinct needles, as documented, if and only if no two contributing values share a variant; otherwise it is larger |
| ScrubTheorems.Base64OfAnother | internal/scrub/matcher.go:121-141 | It is larger for a value and its base64 text, both managed |
| History.PurgeLines | internal/shellguard/history.go:100-121 | The index loop over lines computes the purge, with its count |
| History.PurgeFile | internal/shellguard/history.go:88-130 | A dry run only counts, a file without matches is not rewritten, a missing file stays missing |
| History.KeptIsClean | internal/shellguard/history.go:100-121 | The kept lines are a subsequence of the original ones, and none holds a needle |
| History.CleanLineKept | internal/shellguard/history.go:100-121 | A line without a needle is kept, unless it is the timestamp of a dropped fish command |
| History.PurgedMeans | internal/shellguard/history.go:100-114 | Line by line: dropped are the lines with needles, which are counted, and the fish timestamps right after such lines, which are not |
| History.PurgingTwice | internal/shellguard/history.go:88-130 | Purging a purged history drops no line and changes nothing, for every text and shell |
| History.PurgedTextIsClean | internal/shellguard/history.go:88-130 | No one-line needle occurs anywhere in a purged history |
| GitDiff.AddedContent | cmd/ironrun/gitcmd.go:224-243 | The line loop with its hunk flag computes the content function |
| GitDiff.ScanUndoesPrint | cmd/ironrun/gitcmd.go:224-243 | For every well-formed printed diff the result is exactly the added lines in order, each with a newline |
| GitDiff.AddedValueReappears | cmd/ironrun/gitcmd.go:224-243 | A value spread over consecutive added lines reappears verbatim, and the matcher then finds it |
| Lines.JoinSplit | internal/shellguard/history.go:96-127 | Joining split lines gives the text back |
| AccessSpec.Next | internal/access/access.go:200-530 | One step of the access state; a refused operation changes nothing |
| AccessManagers.Manager.CreateRequest | internal/access/access.go:200-231 | One pass over the requests counts the pending ones of the session and finds a duplicate; the new state and result are those of the transition system |
| AccessManagers.Manager.ExpireAll | internal/access/access.go:635-643 | Marks exactly the stale pending requests |
| AccessManagers.Manager.FindPending | internal/access/access.go:357-383 | Finds the request with the identifier and tells missing, settled and wrong kind apart |
| AccessManagers.Manager.FulfillSecretWith | internal/access/access.go:273-288 | Refines the transition system; a failed commit changes nothing |
| AccessManagers.Manager.Approve | internal/access/access.go:290-320 | Refines the transition system; a lease lives for the time the approver chose, if any, and never more than a day |
| AccessManagers.Manager.ApproveWorkspaceRequest | internal/access/access.go:325-351 | Refines the transition system; the same of grants |
| AccessManagers.Manager.DenyRequest | internal/access/access.go:353-355 | Refines the transition system |
| AccessManagers.Manager.Requests | internal/access/access.go:250-264 | Expires stale requests and lists all, newest first |
| AccessManagers.Manager.Authorize | internal/access/access.go:385-400 | True if and only if some stored lease of that session and environment lists the command and is unexpired and unrevoked |
| AccessManagers.Manager.RevokeLease | internal/access/access.go:417-438 | Refines the transition system; the first revocation time stays |
| AccessManagers.Manager.AuthorizeWorkspace | internal/access/access.go:440-452 | Returns a stored grant of that session, project and environment that is unexpired, not paused and unrevoked, if and only if there is one |
| AccessManagers.Manager.PauseWorkspace | internal/access/access.go:469-489 | Refines the transition system |
| AccessManagers.Manager.ExtendWorkspace | internal/access/access.go:491-513 | Refines the transition system |
| AccessManagers.Manager.RevokeWorkspaceGrant | internal/access/access.go:515-530 | Refines the transition system |
| AccessRuns.LeasesMatchTheLog | internal/access/access.go:290-320 | Over every run, the stored leases are exactly the issued ones, distinct, and revoked exactly when the log has a successful revocation |
| AccessRuns.AuthorizedMeansPermitted | internal/access/access.go:385-400 | Over every run, a session may run a command if and only if some earlier step issued it an unexpired lease that no step revoked |
| AccessOutcomes.RevokedByOwner | internal/access/access.go:417-438 | Over every run, a session revokes only leases that were issued to it |
| AccessOutcomes.RevokedSince | internal/access/access.go:417-438 | Over every run, a lease is marked with the time of the first step that revoked it |
| AccessOutcomes.RevokingMeans | internal/access/access.go:417-438 | A session that is not the lease's is refused; revoking twice changes nothing |
| AccessRequests.RequestsMatchTheLog | internal/access/access.go:200-383 | Over every run, the stored requests are exactly the opened ones, and settled exactly when a step resolved them |
| AccessRequests.ResolvedOnce | internal/access/access.go:357-383 | A request is resolved at most once: it yields at most one lease, grant or commit |
| AccessRequests.AnswersARequest | internal/access/access.go:357-383 | A resolving step answers an earlier opening step before its deadline, with the session, environment and commands asked for, and for the lifetime chosen, else the one asked for, else the default one, at most 24 hours |
| AccessRequests.SettledForGood | internal/access/access.go:357-383 | A request that is no longer pending never changes again, and none disappears |
| AccessOutcomes.StatusIsLogged | internal/access/access.go:357-383 | Over every run, a stored request reads as the step that resolved it left it, in status, time and resulting lease; or as lapsed by a step at its deadline or later; or as pending, and then nothing resolved it |
| AccessOutcomes.StaysPending | internal/access/access.go:635-643 | Until its deadline a request stays pending, unless a step resolves it |
| AccessOutcomes.ApprovingMeans | internal/access/access.go:290-351 | Approval succeeds exactly for a pending request of its kind before the deadline, when the lifetime that was chosen, else asked for, else the default is at most a day; the lease or grant lives that long; each refusal has its error |
| AccessOutcomes.AnsweringMeans | internal/access/access.go:266-288 | When denying and fulfilling succeed, and the error otherwise |
| AccessOutcomes.UnknownRequest | internal/access/access.go:357-383 | Nothing is resolved under an identifier that no request has |
| AccessOutcomes.OpeningMeans | internal/access/access.go:200-231 | Opening answers with the first pending request of the session that asks alike; else it is refused if the session has 32 pending ones; else it opens one that asks for what was asked, for 15 minutes |
| AccessRequests.LimitsAlwaysHold | internal/access/access.go:200-231 | In every reachable state a session has at most 32 pending requests, no two of them the same |
| AccessOutcomes.NoTwins | internal/access/access.go:200-231 | In every reachable state a session has at most 32 pending requests, counted one by one, no two of which ask alike |
| AccessOutcomes.JoinedAlike | internal/access/access.go:645-648 | Joined by NUL bytes, lists of nonempty commands without such bytes are alike only if equal |
| AccessOutcomes.JoiningByteMisleads | internal/access/access.go:645-648 | A command with a NUL byte is taken for two |
| AccessGrants.GrantsMatchTheLog | internal/access/access.go:325-530 | Over every run, a stored grant is revoked, paused and timed as the last steps about it say |
| AccessGrants.AuthorizedMeansPermitted | internal/access/access.go:440-452 | Over every run, a session may work in an environment if and only if some step granted it, no step revoked the grant, its last pause or resume is not a pause, and its last approval or extension has not run out |
| AccessOutcomes.GrantAnswers | internal/access/access.go:469-530 | When pausing, extending and revoking a grant succeed, what then changes, and the error otherwise |
| AccessTheorems.LeaseStory | internal/access/access.go:290-400 | Behind every lease authorization: a request of that session and environment listing the command, approved in time, less than 24 hours ago, never revoked |
| AccessTheorems.WorkspaceStory | internal/access/access.go:325-530 | Behind every workspace authorization: a request approved in time, no revoking step, no pause as the last word, and a last approval or extension less than 24 hours ago |
| AccessTheorems.PausedMeansLastPause | internal/access/access.go:469-489 | The recursive reading of the log is the plain one: the last successful pause or resume decides |
| AccessTheorems.RevokedMeansOnce | internal/access/access.go:515-530 | A grant counts as revoked exactly when some step revoked it |
| PendingStore.Store.Upsert | internal/pending/pending.go:99-109 | Replaces in place, or appends and sorts all, whatever the store; a store in order gets the proposal in its place and stays in order |
| PendingStore.Store.Remove | internal/pending/pending.go:111-121 | Takes out the first proposal with the identifier and returns it; order is kept |
| PendingStore.Store.Lookup | internal/pending/pending.go:88-96 | Finds the proposal with the identifier |
| PendingStore.Store.Create | internal/pending/pending.go:136-151 | Identical repeats keep the original; another argument list, environment or reason under a taken identifier is refused and changes nothing; a free identifier is added; a success has the identifier, argument list, environment and reason of the proposal |
| KeyedLists.UpsertMeans | internal/pending/pending.go:99-109 | Upsert keeps the order, changes what is found under one key and nothing else |
| KeyedLists.RemoveMeans | internal/pending/pending.go:111-121 | Remove keeps the order, takes out one key and nothing else |
| KeyedLists.SortedIsInserted | internal/pending/pending.go:99-109 | Appending and sorting puts a new key in its place; no other order is possible |
| KeyedLists.LessIsLexicographic | internal/pending/pending.go:99-109 | Keys are ordered by the first character in which they differ, and a beginning comes first |
| ApprovalTheorems.StepKeeps | cmd/ironrun/review.go:97-185 | Every step of every process keeps the invariant of the approval protocol |
| ApprovalTheorems.AlwaysInv | cmd/ironrun/review.go:97-185 | The invariant holds after every schedule of any number of processes, with crashes anywhere |
| ApprovalTheorems.MutualExclusion | internal/pending/pending.go:153-184 | At most one process is inside a transaction, and it owns the lock |
| ApprovalTheorems.OnlyApprovedCommands | cmd/ironrun/review.go:97-225 | Every command beyond the original policy has the identifier, argument list and environment (or the names of its secrets) of a proposal that a human confirmed, two minutes to run, no network, and is no shell |
| ApprovalTheorems.PromotedAsSeen | cmd/ironrun/review.go:182-211 | Approving adds exactly one such command, at the end of the policy |
| ApprovalStory.ConfirmedWasAnswered | cmd/ironrun/review.go:133-141 | A proposal counts as confirmed only because a human to whom it was shown said yes |
| ApprovalStory.CommandStory | cmd/ironrun/review.go:97-225 | Behind every added command: a process looked up the pending proposal (with the expected digest, if one was given), then its human said yes, then it was written while still pending unchanged |
| ApprovalTheorems.PolicyChanges | cmd/ironrun/review.go:182-225 | The policy changes only by the lock owner adding the pending proposal its human was shown, or taking that back when the result does not parse |
| ApprovalTheorems.PolicyStaysValid | cmd/ironrun/review.go:212-225 | Command identifiers stay unique and the policy parses, but for the window between a write and its check |
| ApprovalTheorems.StoreRefinesAtomic | internal/pending/pending.go:153-184 | Seen from the store, transactions happen at once: each change is one whole creation, rejection or approval; approval removes a proposal only once its command is in a policy that parses |
| ApprovalTheorems.PendingIsImmutable | internal/pending/pending.go:134-151 | While an identifier stays pending, over any stretch of any schedule, its content stays the same |
| ApprovalTheorems.ApprovalSucceeds | cmd/ironrun/review.go:97-147 | Undisturbed, approving a promotable proposal adds its command, removes it from the store and frees the lock |
| ApprovalStory.ProposingSucceeds | internal/pending/pending.go:136-184 | Undisturbed, proposing under a free identifier makes the proposal pending, under a taken one it changes nothing; every other proposal stays |
| ApprovalStory.RejectingSucceeds | cmd/ironrun/review.go:155-175 | Undisturbed, rejecting takes the proposal out of the store, and nothing else |
| PolicyText.InsertCommandBlock | cmd/ironrun/review.go:227-255 | The line loop with running offsets inserts at the end of the commands section, or reports that there is none |
| PolicyText.Sectioned | cmd/ironrun/review.go:227-255 | Every such text is a section and a rest, and the block goes between them, with nothing at the margin after the header and nothing else changed |
| PolicyText.BlockGoesLast | cmd/ironrun/review.go:227-255 | Below a commands: line and all that is indented or empty below it, above the first line that is not |
| PolicyText.ApprovalsGather | cmd/ironrun/review.go:227-255 | Two insertions put the second block right after the first, and the rest of the text stays |
| Vault.Store.Set | internal/vault/store.go:180-211 | Stores one text, takes a file of that name away, changes no other scope or key, and raises the revision |
| Vault.Store.SetBytes | internal/vault/store.go:213-243 | The same for files |
| Vault.Store.Get | internal/vault/store.go:245-269 | Reads texts only |
| Vault.Store.GetBytes | internal/vault/store.go:271-302 | Reads files first, then texts |
| Vault.Store.Delete | internal/vault/store.go:304-343 | Deletes a key, and an empty scope with it; the revision rises if and only if something changed |
| Vault.Store.DeleteScope | internal/vault/store.go:345-363 | Deletes a scope; the revision rises if and only if something changed |
| Vault.Store.Replace | internal/vault/store.go:365-390 | Adopts a document if and only if it authenticates and is newer (or is the same); a refusal changes nothing, and the revision never falls |
| Vault.StoredIsRead | internal/vault/store.go:180-302 | What was stored is read back, files exactly and texts as JSON has them; nothing else changes |
| Vault.DeletedIsMissing | internal/vault/store.go:304-343 | A deleted key is missing, and nothing else changes |
| EnvManagers.Manager.Create | internal/envset/manager.go:217-242 | Adds an empty set, active if it is the first; metadata and vault agree |
| EnvManagers.Manager.Use | internal/envset/manager.go:249-257 | Activates an existing set only |
| EnvManagers.Manager.PutEntry | internal/envset/manager.go:276-337 | Stores the value and describes it; every refusal changes nothing; metadata and vault agree |
| EnvManagers.Manager.Describe | internal/envset/manager.go:314-336 | The loops and sorts over entries and keys compute an upsert of both lists; the creation time is kept |
| EnvManagers.Manager.DeleteKey | internal/envset/manager.go:378-399 | Takes an entry out of metadata and vault; they agree |
| EnvManagers.Manager.Remove | internal/envset/manager.go:421-444 | Erases all values of a set and its scope, then the set; the least remaining name becomes active if it was |
| EnvManagers.Manager.Clone | internal/envset/manager.go:445-481 | The copy has the same entries and values, the source is untouched; a clone of an expired set with entries fails and leaves an empty set |
| EnvManagers.Manager.Prune | internal/envset/manager.go:498-509 | Removes exactly the expired temporary sets; count and active set do not depend on the order of removal |
| EnvManagers.Manager.Names | internal/envset/manager.go:510-517 | Exactly the names of the sets, sorted |
| EnvSpec.PutAgrees | internal/envset/manager.go:280-337 | Storing a valid entry with its own target keeps entries, keys, targets and scope contents in agreement |
| EnvSpec.DeleteAgrees | internal/envset/manager.go:382-399 | So does deleting one |
| EnvSpec.CreateAgrees | internal/envset/manager.go:217-242 | So does creating a set: nothing is stored under its scope |
| EnvSpec.RemoveAgrees | internal/envset/manager.go:425-444 | When all entries of a set are gone its scope is gone, and the set can go |
| EnvLaws.NewSetLives | internal/envset/manager.go:217-242 | A temporary set expires when the time asked for, or a day, has passed since its creation; a permanent one never does |
| EnvLaws.PuttingMeans | internal/envset/manager.go:276-337 | Storing changes one entry, which keeps the time it was first stored; other entries, and the set's times, stay |
| EnvLaws.DeletingMeans | internal/envset/manager.go:378-399 | Deleting takes one entry away and changes nothing else |
| EnvLaws.PuttingSucceedsWhen | internal/envset/manager.go:280-306 | An entry can be stored exactly in a set that is there and alive, when it is valid and no other entry has its target |
| EnvLaws.PruningMeans | internal/envset/manager.go:498-509 | Pruning keeps exactly the sets that are permanent or alive, as they are |
| EnvLaws.CloningMeans | internal/envset/manager.go:445-481 | A clone is permanent and has the same entries, stored now |
| Names.ValidNamesAreStorable | internal/envset/store.go:35-46 | Every name that the manager accepts is one that the vault accepts |
| Names.ValidNameMeans | internal/envset/store.go:35-46 | Accepted is exactly a nonempty text of letters, digits, hyphens, underscores and dots, with any white space around it |
| Seccomp.BuildFilter | internal/sealedexec/seccomp_linux.go:62-108 | There is a program exactly for amd64 and arm64; for every system call it returns the verdict of that architecture, with the kernel's numbers written out and the x32 guard on amd64 only |
| Seccomp.FilterIsCorrect | internal/sealedexec/seccomp_linux.go:75-108 | For every denied list and every architecture and number, the program halts inside itself with kill on a wrong architecture, kill on guarded x32 numbers, EPERM if and only if the number is denied, else allow |
| Seccomp.VerdictsDiffer | internal/sealedexec/seccomp_linux.go:18-36 | The possible verdicts are distinct |
| Audit.Verify | internal/audit/audit.go:190-220 | The loop finds the first record that does not continue the chain, or none |
| Audit.Logger.Append | internal/audit/audit.go:141-178 | Appends one record linked to the last hash, or fails and changes nothing |
| Audit.AppendsVerify | internal/audit/audit.go:141-220 | Any sequence of appends from an empty log writes a chain, which verifies as intact exactly when every line is within the limit of the scanner and every record is text |
| Audit.EntriesAreWritten | internal/audit/audit.go:141-178 | The log has the entries in order, each with its own content, schema 1, the hash of the record before it (64 zeros for the first) and its own; it stops growing only behind a line beyond the 64 KiB window |
| Audit.OneAppendBreaks | internal/audit/audit.go:141-220 | One append of a record that is not text makes a new log report its first line as broken |
| Audit.ChainBreaks | internal/audit/audit.go:190-220 | Within the limit of the scanner, a written chain is reported as broken at its first record that is not text |
| Audit.BrokenMeans | internal/audit/audit.go:190-220 | A log is broken at line n if and only if the lines before it are an intact log and those up to it are not |
| Audit.AppendExtends | internal/audit/audit.go:141-178 | Appending to a written chain extends it by the linked record when the last line fits the window, and otherwise leaves it alone |
| Audit.ChainVerifies | internal/audit/audit.go:190-220 | A written chain verifies as intact exactly when every line is within the limit of the scanner and every record is text |
| Audit.IntactMeansChain | internal/audit/audit.go:190-220 | An intact log is a chain of records |
| Audit.HistoryIsUnique | internal/audit/audit.go:224-229 | With an injective hash that never yields the genesis value, two chains with the same last hash are read back equal, record by record |
| Audit.IntactLogsAgree | internal/audit/audit.go:190-229 | Two logs that verify and end in the same hash hold the same records |
| Audit.TailReaderIsExact | internal/audit/audit.go:288-315 | The 64 KiB tail reader returns the hash of the last record if the last line with its newline fits the window, and fails otherwise |
| EditDistance.Levenshtein | cmd/ironrun/errors.go:81-104 | The matrix loops compute the recursive optimal-string-alignment distance |
| EditDistance.MinimumOverScripts | cmd/ironrun/errors.go:81-104 | That distance is the least cost of all edit scripts with non-overlapping adjacent swaps |
| EditDistance.DistanceIsSymmetric | cmd/ironrun/errors.go:81-104 | The distance is symmetric |
| EditDistance.DistanceBounds | cmd/ironrun/errors.go:81-104 | It lies between the difference of the lengths and the longer length |
| EditDistance.ZeroMeansEqual | cmd/ironrun/errors.go:81-104 | It is zero if and only if the words are equal |

## Left out

- Process control, namespaces, resource limits, signals and the re-execution of sealed children: operating-system behaviour.
- Real cryptography, hashes, random numbers, JSON and YAML: abstract functions (`Crypto`, `Codec`, `Outside`, `Escapers`, `Config`) with the laws they are used for; random identifiers are taken to be fresh.
- Errors of files and sinks: writes succeed whole. A write of the policy file is one step, although it is not atomic on disk.
- RedactWriters.Writer.Write: errors of the sink are not modelled, and calls from several threads are the atomic steps that its mutex makes them.
- RedactWriters.SortLongestFirst: the order of secrets of one length is left open, as the sort is unstable.
- CapWriters.CapWriter.Write: the 64-bit width of byte counters is not modelled; none comes near it in a run.
- Encodings.EncodingsWithDepth: URL and JSON escapers are parameters; their alphabets are not part of this model.
- Scrub.NewMatcher: the placeholder's short hash and JSON escapes are parameters.
- ScrubTheorems.PromiseHoldsWhen: when values hold brackets, a sufficient condition is proved (`Needles.RedactingApart`) and a failing pair of values, not an exact condition.
- GitDiff.ScanUndoesPrint: for diffs whose first header line of each file ends hunk mode; git prints no others.
- Audit.Verify: white space beyond ASCII is not trimmed from lines; records hold none at their ends.
- Audit.Logger.Append: scrubbing of secret values from the recorded arguments, whose sequential replacements have no clean absence property, and the owner-only file mode.
- AccessManagers.Manager.CreateRequest: the wrappers that validate identities and sort commands before it.
- AccessRuns.LeasesMatchTheLog: stealing of the state lock after 30 seconds; every mutation is one step.
- Approval.Next: hand edits of the policy file while a command is being approved, and the checks of the agent-side tool before a proposal reaches the store.
- ApprovalTheorems.OnlyApprovedCommands: that the rendered YAML block parses as the command it was rendered from.
- Vault.Store.Replace: MACs are compared as values, not as base64 texts; the vault's own lock is taken to work.
- EnvManagers.Manager.PutEntry: one process at a time; migration of version-1 metadata, the legacy value store and dotenv parsing are not modelled.
- EnvManagers.Manager.Clone: the clock stands still during a call.
- PolicyText.InsertCommandBlock: offsets count characters, not bytes.
- Shannon entropy warnings, the terminal interface, HTTP and MCP handlers, cobra commands, the daemon, Google Drive sync and the npm launcher: plumbing.
- Simple predicates such as `IsShellString` and `EffectiveNoNetwork`: one reading settles them.
