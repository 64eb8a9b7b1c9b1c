# Attestation policy criteria of `gh attestation verify`

This project models the policy layer of the GitHub CLI's attestation
verifier (`pkg/cmd/attestation/verification/policy.go`). It covers three
things.

1. **Digest policy** (`BuildDigestPolicyOption`). The artifact's hex digest
   is decoded with Go's `hex.DecodeString` and paired with the artifact's
   digest algorithm. Decoding fails exactly on text that is not valid hex:
   an odd length, or a character that is not a hex digit. Either case of
   digit is accepted.
2. **Criteria validation** (`EnforcementCriteria.Valid`). Five guard clauses
   run in a fixed order, and the first one that fails decides the error:
   - the issuer is set;
   - the runner environment is `""` or `"github-hosted"`;
   - the source-repository owner URI is set;
   - the predicate type is set;
   - the SAN or the SAN regex is set.
3. **Policy rendering** (`EnforcementCriteria.BuildPolicyInformation`). The
   text opens with a line break. Next come an intro line and three mandatory
   bullets: predicate type, issuer and owner URI. After those come the
   repository-URI bullet when that URI is set, the hosted-runner bullet when
   the runner environment is `github-hosted`, and one SAN bullet. The exact
   SAN takes precedence over the SAN regex.

Files:
- `wrappers.dfy`: the `Result` type.
- `hex.dfy`: module `Hex`, which decodes and encodes hex.
- `text.dfy`: module `Text`, which joins lines with `"\n"` and splits text at `"\n"`, as Go's `strings.Split` does.
- `policy.dfy`: module `Verification`, the three operations above.

The rendering has a second, structured definition: a list of `Bullet`
values, chosen by the predicate `Applies` and kept in rendering order. The
lemmas show that:
- the Go-style concatenation equals the structured lines joined with `"\n"`;
- when no echoed field contains a line break, cutting the text at its line breaks gives back exactly those lines.

A bullet's line can be told from every other line of the rendering by the
function `LineKind`, so "this bullet's line appears" is an
if-and-only-if statement about the rendered text.

The hosted runner's identifier is the constant `GitHubRunner`, `"github-hosted"`
(`policy.go:14`). The error texts are those of `policy.go:36-48`, word for
word (`Message`).
The rendering of the usual valid criteria has four bullet lines: predicate
type, issuer, owner URI and SAN. It has six lines in all, because the text
opens with a line break and then carries the intro line (`AcmeExample`).

## Model

| member | source | states |
|---|---|---|
| Verification.BuildDigestPolicyOption | pkg/cmd/attestation/verification/policy.go:18-25 | Fails exactly when the digest is not valid hex. On success the algorithm passes through unchanged, the policy holds half as many bytes as the digest has characters, and re-encoding the bytes gives the digest lower-cased. |
| Verification.DigestPolicyOfEncoding | pkg/cmd/attestation/verification/policy.go:18-25 | The hex encoding of any byte string yields a policy that carries exactly those bytes and the given algorithm. |
| Verification.DigestPolicyExamples | pkg/cmd/attestation/verification/policy.go:20-24 | "deadbeef" decodes to the four bytes de ad be ef. "abc" (odd length) fails. |
| Hex.Decode | pkg/cmd/attestation/verification/policy.go:20-23 | Decoding succeeds iff the text has even length and all of its characters are hex digits. The result has half as many bytes as the text has characters. |
| Hex.DecodeAt | pkg/cmd/attestation/verification/policy.go:20 | Byte i of the decoded digest is 16 × (the digit at 2i) + (the digit at 2i+1), so the high nibble comes first. |
| Hex.Encode | pkg/cmd/attestation/verification/policy.go:20 | The reference encoder writes two characters per byte. |
| Hex.EncodeAt | pkg/cmd/attestation/verification/policy.go:20 | The encoder writes byte i as the lower-case digits of its high and low nibble, at positions 2i and 2i+1. |
| Hex.DecodeEncode | pkg/cmd/attestation/verification/policy.go:20 | Round trip: decoding the encoding of any bytes gives those bytes back. |
| Hex.EncodeDecode | pkg/cmd/attestation/verification/policy.go:20 | Round trip: valid hex decodes, and re-encoding the bytes gives the text lower-cased. |
| Hex.DigitValue | pkg/cmd/attestation/verification/policy.go:20 | Each lower-case digit is a hex digit whose value is its position in "0123456789abcdef". |
| Hex.DigitLowered | pkg/cmd/attestation/verification/policy.go:20 | Writing back the value of a hex digit of either case gives that digit lower-cased. |
| Verification.Message | pkg/cmd/attestation/verification/policy.go:36-48 | The error texts, word for word. Each names the failed requirement. The runner-environment text ends with "github-hosted", and every other text ends with "must be set". |
| Verification.MessagesDistinct | pkg/cmd/attestation/verification/policy.go:36-48 | Different failed requirements give different error texts. |
| Verification.Valid | pkg/cmd/attestation/verification/policy.go:34-51 | `Valid` reports no error iff all five requirements hold. |
| Verification.Rules | pkg/cmd/attestation/verification/policy.go:35-49 | The five requirements come in the order they are checked, and none of them reports "no error" as its failure. |
| Verification.FirstFailureAt | pkg/cmd/attestation/verification/policy.go:34-51 | In a fail-fast check of ordered rules, the first rule that does not hold decides the outcome. |
| Verification.FirstFailureOk | pkg/cmd/attestation/verification/policy.go:50 | A fail-fast check reports no error iff every rule holds. |
| Verification.ValidIsFirstFailure | pkg/cmd/attestation/verification/policy.go:34-51 | `Valid` equals the fail-fast check of the five rules in source order. |
| Verification.ValidOkIff | pkg/cmd/attestation/verification/policy.go:34-51 | No error iff every rule holds, in both directions. |
| Verification.FirstViolationReported | pkg/cmd/attestation/verification/policy.go:34-51 | The error reported is the first violated requirement's, whatever later requirements do. |
| Verification.OnlyViolationReported | pkg/cmd/attestation/verification/policy.go:34-51 | When exactly one requirement is violated, its error is reported and no other requirement's error is. |
| Verification.RunnerEnvironmentCheck | pkg/cmd/attestation/verification/policy.go:38-40 | Once the issuer is set, the runner-environment error is reported iff the environment is neither "" nor "github-hosted". |
| Verification.BuildPolicyInformation | pkg/cmd/attestation/verification/policy.go:53-78 | The Go concatenation, guard for guard. The text starts with the filled-in template and therefore with "\n". `PolicyInformationIsJoin` shows that the whole text is `Join(PolicyLines(c))`. |
| Verification.Template | pkg/cmd/attestation/verification/policy.go:54-61 | The template is filled with predicate type, issuer and owner URI, and opens with "\n". `TemplateIsJoin` shows that it is those five lines joined. |
| Verification.BulletLines | pkg/cmd/attestation/verification/policy.go:53-78 | Each bullet renders as exactly one line. |
| Verification.SelectMembers | pkg/cmd/attestation/verification/policy.go:63-75 | A bullet is selected iff it is a candidate and the criteria call for it. |
| Verification.SelectInKindOrder | pkg/cmd/attestation/verification/policy.go:63-75 | Selecting from candidates in rendering order keeps that order. |
| Verification.SelectAppend | pkg/cmd/attestation/verification/policy.go:63-75 | Selecting from two runs of candidates selects from each run in turn. |
| Verification.SelectOne | pkg/cmd/attestation/verification/policy.go:63-75 | A single candidate is selected iff the criteria call for it. |
| Verification.BulletsApply | pkg/cmd/attestation/verification/policy.go:53-78 | A bullet is rendered iff the criteria call for it. Examples: the repository bullet iff the URI is set; the hosted-runner bullet iff the environment is "github-hosted"; the regex bullet only without a SAN. |
| Verification.BulletsInKindOrder | pkg/cmd/attestation/verification/policy.go:53-78 | Bullets appear in the fixed order (mandatory, repository, hosted runner, SAN), and no kind appears twice. |
| Verification.BulletsShape | pkg/cmd/attestation/verification/policy.go:53-75 | The bullets are the three mandatory ones, then the repository, hosted-runner and SAN bullets that apply. |
| Verification.MandatoryBulletsFirst | pkg/cmd/attestation/verification/policy.go:54-61 | There are always at least three bullets: predicate type, issuer and owner URI come first. |
| Verification.AtMostOneSANBullet | pkg/cmd/attestation/verification/policy.go:71-75 | Whatever the criteria, at most one SAN or SAN-regex bullet is rendered. |
| Verification.ValidRendersOneSANBullet | pkg/cmd/attestation/verification/policy.go:47-75 | Valid criteria render exactly one SAN bullet. |
| Verification.PolicyInformationIsJoin | pkg/cmd/attestation/verification/policy.go:53-78 | The rendered text is the empty line, the intro and the bullet lines, joined with "\n". |
| Verification.RenderingIsJoinOfParts | pkg/cmd/attestation/verification/policy.go:61-75 | Each conditional `info +=` appends one more joined line to the template. |
| Verification.PolicyLinesParts | pkg/cmd/attestation/verification/policy.go:53-78 | The rendered lines are the header followed by the mandatory, repository, hosted-runner and SAN runs, in that order. |
| Verification.TemplateIsJoin | pkg/cmd/attestation/verification/policy.go:54-61 | The filled-in template is a leading line break, then the intro and the three mandatory bullets joined with "\n". |
| Verification.JoinStep | pkg/cmd/attestation/verification/policy.go:63-75 | Appending "\n" and a line to joined text is the same as joining one more line. |
| Verification.PhrasesSingleLine | pkg/cmd/attestation/verification/policy.go:55-74 | None of the fixed phrases contains a line break. |
| Verification.BulletLinesSingle | pkg/cmd/attestation/verification/policy.go:53-78 | When the echoed fields contain no line break, no rendered line does. |
| Verification.PolicyInformationLines | pkg/cmd/attestation/verification/policy.go:53-78 | For fields without line breaks, splitting the rendering at "\n" gives exactly the empty line, the intro and one line per bullet that applies. |
| Verification.PolicyInformationHeader | pkg/cmd/attestation/verification/policy.go:54-61 | For fields without line breaks, the first five lines are "", the intro and the predicate-type, issuer and owner-URI bullets. |
| Verification.PolicyLinesHeader | pkg/cmd/attestation/verification/policy.go:54-61 | For every input, the first five structured lines are "", the intro and the predicate-type, issuer and owner-URI bullets. |
| Verification.LineKindOfBullet | pkg/cmd/attestation/verification/policy.go:55-74 | Every bullet line is classified as its own kind. The empty line and the intro are classified as non-bullets. |
| Verification.BulletLineInjective | pkg/cmd/attestation/verification/policy.go:57-74 | Distinct bullets render as distinct lines. |
| Verification.BulletLinesMembers | pkg/cmd/attestation/verification/policy.go:53-78 | A bullet's line is among the lines of some bullets iff the bullet is among them. |
| Verification.NotHeaderLine | pkg/cmd/attestation/verification/policy.go:55-56 | No bullet line is the empty line or the intro. |
| Verification.PolicyLineIffApplies | pkg/cmd/attestation/verification/policy.go:53-78 | A bullet's line is among the rendered lines iff the criteria call for the bullet. |
| Verification.RenderedLineIffApplies | pkg/cmd/attestation/verification/policy.go:53-78 | For fields without line breaks, a bullet's line appears in the rendered text, cut at "\n", iff the criteria call for the bullet. |
| Verification.RepositoryLineIffURISet | pkg/cmd/attestation/verification/policy.go:63-65 | The repository bullet line appears iff the source repository URI is set. |
| Verification.HostedRunnerLineIffHosted | pkg/cmd/attestation/verification/policy.go:67-69 | The hosted-runner line appears iff the runner environment is "github-hosted". |
| Verification.SANPrecedence | pkg/cmd/attestation/verification/policy.go:71-75 | The exact-SAN line appears iff a SAN is set. The regex line appears iff no SAN is set and a regex is. |
| Verification.AcmeExample | pkg/cmd/attestation/verification/policy.go:34-78 | Criteria with issuer, owner URI, predicate type and an exact SAN are valid. Their rendered text, cut at "\n", is six lines: the empty line, the intro, and the predicate-type, issuer, owner-URI and SAN bullets. The same criteria without SAN and regex fail with the SAN error. |
| Text.Split | pkg/cmd/attestation/verification/policy.go:53-78 | Splitting at "\n" always gives at least one line, and exactly one iff the text has no line break. |
| Text.JoinCons | pkg/cmd/attestation/verification/policy.go:54-59 | A line followed by more lines joins as that line, "\n", and the rest joined. |
| Text.JoinSnoc | pkg/cmd/attestation/verification/policy.go:63-75 | Joining one more line appends "\n" and that line. |
| Text.SplitAfterSingleLine | pkg/cmd/attestation/verification/policy.go:53-78 | A leading piece without line breaks joins onto the first line of what follows. |
| Text.SplitJoin | pkg/cmd/attestation/verification/policy.go:53-78 | Round trip: splitting lines that contain no "\n", once joined, gives the lines back. |
| Text.SingleLineAppend | pkg/cmd/attestation/verification/policy.go:57-74 | Two texts without line breaks concatenate to a text without line breaks. |

## Left out

- `verify.WithArtifactDigest`: sigstore-go's policy option is abstracted as the record `DigestPolicy(algorithm, digest)`. Nothing else about it is modelled.
- `BuildDigestPolicyOption`: Go tells `hex.ErrLength` apart from `hex.InvalidByteError`. The model has one failure, `MalformedHex`, because the caller only propagates the error.
- `Hex.Decode`: Go decodes the digest's UTF-8 bytes, and the model decodes characters. Any non-ASCII character is rejected in both, so the verdict is the same.
- `certificate.Summary` has many more fields. Only the four that `Valid` and `BuildPolicyInformation` read are modelled.
- The artifact's digest and algorithm come from hashing or fetching the artifact. That I/O is not part of this model: `DigestedArtifact` holds the two strings as given.
- `Valid`: the error is returned as a `Validity` tag, and `Message` gives its Go text word for word. The Go error value itself is not modelled.
- `BuildPolicyInformation`: `fmt.Sprintf` with `%s` is modelled as plain concatenation, which is what it does for string arguments.
- The SAN regex is only echoed into the text. Regex matching happens elsewhere and is not part of this model.
- The line-level lemmas (`PolicyInformationLines`, `PolicyInformationHeader`, `RenderedLineIffApplies` and its corollaries) require that no echoed field contains a line break. Otherwise the text cannot be cut back into its bullets. The text-level lemma `PolicyInformationIsJoin` holds without that condition.
