/**
  The attestation-policy layer of `gh attestation verify`: turning an
  artifact's hex digest into the digest policy handed to the verification
  engine, checking that the enforcement criteria are well formed, and
  rendering those criteria as text for the operator.
 */
module Verification {
  import opened Wrappers
  import Hex
  import opened Text

  /** The hosted runner's value in the certificate's RunnerEnvironment extension. */
  const GitHubRunner: string := "github-hosted"

  /** The four fields of the engine's certificate summary that this layer reads. */
  datatype Summary = Summary(
    issuer: string,
    runnerEnvironment: string,
    sourceRepositoryOwnerURI: string,
    sourceRepositoryURI: string)

  /** An artifact as seen through its `Digest()` (hex text) and `Algorithm()`. */
  datatype DigestedArtifact = DigestedArtifact(digest: string, algorithm: string)

  /** The engine's artifact-digest policy option: an algorithm and the raw digest. */
  datatype DigestPolicy = DigestPolicy(algorithm: string, digest: seq<Hex.byte>)

  // ---------------------------------------------------------------------------
  // Digest policy
  // ---------------------------------------------------------------------------

  /**
    Decodes the artifact's hex digest and pairs the bytes with its algorithm.
    Fails exactly when the digest is not valid hex; otherwise the algorithm is
    passed through unchanged and the bytes are the digest, two characters per
    byte, re-encoding to the digest lower-cased.
   */
  function BuildDigestPolicyOption(a: DigestedArtifact): (r: Result<DigestPolicy, Hex.DecodeError>)
    ensures r.Failure? <==> !Hex.IsHex(a.digest)
    ensures r.Success? ==> r.value.algorithm == a.algorithm
    ensures r.Success? ==> |r.value.digest| == |a.digest| / 2
    ensures r.Success? ==> Hex.Encode(r.value.digest) == Hex.ToLower(a.digest)
  {
    match Hex.Decode(a.digest)
    case Failure(e) => Failure(e)
    case Success(decoded) =>
      Hex.EncodeDecode(a.digest);
      Success(DigestPolicy(a.algorithm, decoded))
  }

  /** The hex encoding of any digest yields a policy carrying exactly that digest. */
  lemma DigestPolicyOfEncoding(algorithm: string, digest: seq<Hex.byte>)
    ensures BuildDigestPolicyOption(DigestedArtifact(Hex.Encode(digest), algorithm))
         == Success(DigestPolicy(algorithm, digest))
  {
    Hex.DecodeEncode(digest);
  }

  /** "deadbeef" gives four bytes; "abc" has odd length and fails. */
  lemma DigestPolicyExamples()
    ensures BuildDigestPolicyOption(DigestedArtifact("deadbeef", "sha256"))
         == Success(DigestPolicy("sha256", [0xde, 0xad, 0xbe, 0xef]))
    ensures BuildDigestPolicyOption(DigestedArtifact("abc", "sha256")).Failure?
  {
    var b: seq<Hex.byte> := [0xde, 0xad, 0xbe, 0xef];
    assert Hex.Encode(b) == "deadbeef";
    DigestPolicyOfEncoding("sha256", b);
  }

  // ---------------------------------------------------------------------------
  // Enforcement criteria and their validation
  // ---------------------------------------------------------------------------

  /** What a verified certificate and attestation must additionally satisfy. */
  datatype EnforcementCriteria = EnforcementCriteria(
    certificate: Summary,
    predicateType: string,
    sanRegex: string,
    san: string)

  /** The outcome of `Valid`: no error, or which requirement failed. */
  datatype Validity =
    | Ok
    | IssuerNotSet
    | RunnerEnvironmentInvalid
    | SourceRepositoryOwnerURINotSet
    | PredicateTypeNotSet
    | SANNotSet

  /**
    The text of the error `Valid` returns, word for word: each names the
    requirement, and all but the runner-environment one say the field must be set.
   */
  function Message(v: Validity): (m: string)
    requires v != Ok
    ensures v != RunnerEnvironmentInvalid ==> |m| > |MustBeSet| && m[|m| - |MustBeSet|..] == MustBeSet
    ensures v == RunnerEnvironmentInvalid ==> |m| > |GitHubRunner| && m[|m| - |GitHubRunner|..] == GitHubRunner
  {
    match v
    case IssuerNotSet => "Issuer" + MustBeSet
    case RunnerEnvironmentInvalid => "RunnerEnvironment must be set to either \"\" or " + GitHubRunner
    case SourceRepositoryOwnerURINotSet => "SourceRepositoryOwnerURI" + MustBeSet
    case PredicateTypeNotSet => "PredicateType" + MustBeSet
    case SANNotSet => "SANRegex or SAN" + MustBeSet
  }

  /** The common ending of the errors for a field that is not set. */
  const MustBeSet: string := " must be set"

  /** Different errors have different texts, so the text tells which requirement failed. */
  lemma MessagesDistinct(v: Validity, w: Validity)
    requires v != Ok && w != Ok && v != w
    ensures Message(v) != Message(w)
  {
    assert |Message(v)| != |Message(w)|;
  }

  /** The runner environments a criteria may expect: none, or the hosted runner. */
  predicate RunnerEnvironmentAccepted(env: string) {
    env == "" || env == GitHubRunner
  }

  /** All five requirements on the criteria hold. */
  predicate WellFormed(c: EnforcementCriteria) {
    && c.certificate.issuer != ""
    && RunnerEnvironmentAccepted(c.certificate.runnerEnvironment)
    && c.certificate.sourceRepositoryOwnerURI != ""
    && c.predicateType != ""
    && (c.san != "" || c.sanRegex != "")
  }

  /**
    `EnforcementCriteria.Valid`: the guard clauses in order, the first one
    that fails deciding the error. No error exactly when the criteria are
    well formed.
   */
  function Valid(c: EnforcementCriteria): (r: Validity)
    ensures r == Ok <==> WellFormed(c)
  {
    if c.certificate.issuer == "" then IssuerNotSet
    else if c.certificate.runnerEnvironment != "" && c.certificate.runnerEnvironment != GitHubRunner then
      RunnerEnvironmentInvalid
    else if c.certificate.sourceRepositoryOwnerURI == "" then SourceRepositoryOwnerURINotSet
    else if c.predicateType == "" then PredicateTypeNotSet
    else if c.sanRegex == "" && c.san == "" then SANNotSet
    else Ok
  }

  /** One requirement: whether it holds, and the error reported when it does not. */
  datatype Rule = Rule(holds: bool, failure: Validity)

  /** The five requirements, in the order they are checked. */
  function Rules(c: EnforcementCriteria): (rules: seq<Rule>)
    ensures |rules| == 5
    ensures forall k :: 0 <= k < |rules| ==> rules[k].failure != Ok
  {
    [ Rule(c.certificate.issuer != "", IssuerNotSet),
      Rule(RunnerEnvironmentAccepted(c.certificate.runnerEnvironment), RunnerEnvironmentInvalid),
      Rule(c.certificate.sourceRepositoryOwnerURI != "", SourceRepositoryOwnerURINotSet),
      Rule(c.predicateType != "", PredicateTypeNotSet),
      Rule(c.san != "" || c.sanRegex != "", SANNotSet) ]
  }

  /** Fail-fast checking of an ordered rule list: the first rule that does not hold. */
  function FirstFailure(rules: seq<Rule>): Validity {
    if rules == [] then Ok
    else if !rules[0].holds then rules[0].failure
    else FirstFailure(rules[1..])
  }

  /** The first rule that does not hold decides the outcome. */
  lemma {:induction false} FirstFailureAt(rules: seq<Rule>, k: nat)
    requires k < |rules| && !rules[k].holds
    requires forall j :: 0 <= j < k ==> rules[j].holds
    ensures FirstFailure(rules) == rules[k].failure
  {
    if k > 0 {
      FirstFailureAt(rules[1..], k - 1);
    }
  }

  /** When no rule reports `Ok` as its error, there is no error iff every rule holds. */
  lemma {:induction false} FirstFailureOk(rules: seq<Rule>)
    requires forall k :: 0 <= k < |rules| ==> rules[k].failure != Ok
    ensures FirstFailure(rules) == Ok <==> forall k :: 0 <= k < |rules| ==> rules[k].holds
  {
    if rules != [] {
      FirstFailureOk(rules[1..]);
      assert forall k :: 0 < k < |rules| ==> rules[k] == rules[1..][k - 1];
    }
  }

  /** `Valid` is fail-fast checking of the five rules, in order. */
  lemma ValidIsFirstFailure(c: EnforcementCriteria)
    ensures Valid(c) == FirstFailure(Rules(c))
  {
    var rules := Rules(c);
    FirstFailureOk(rules);
    match Valid(c)
    case Ok =>
    case IssuerNotSet => FirstFailureAt(rules, 0);
    case RunnerEnvironmentInvalid => FirstFailureAt(rules, 1);
    case SourceRepositoryOwnerURINotSet => FirstFailureAt(rules, 2);
    case PredicateTypeNotSet => FirstFailureAt(rules, 3);
    case SANNotSet => FirstFailureAt(rules, 4);
  }

  /** No error iff every rule holds. */
  lemma ValidOkIff(c: EnforcementCriteria)
    ensures Valid(c) == Ok <==> forall k :: 0 <= k < |Rules(c)| ==> Rules(c)[k].holds
  {
    ValidIsFirstFailure(c);
    FirstFailureOk(Rules(c));
  }

  /** The first requirement the criteria violate is the one reported, whatever follows it. */
  lemma FirstViolationReported(c: EnforcementCriteria, k: nat)
    requires k < |Rules(c)| && !Rules(c)[k].holds
    requires forall j :: 0 <= j < k ==> Rules(c)[j].holds
    ensures Valid(c) == Rules(c)[k].failure
  {
    ValidIsFirstFailure(c);
    FirstFailureAt(Rules(c), k);
  }

  /** Criteria that violate requirement `k` and no other report exactly error `k`. */
  lemma OnlyViolationReported(c: EnforcementCriteria, k: nat)
    requires k < |Rules(c)| && !Rules(c)[k].holds
    requires forall j :: 0 <= j < |Rules(c)| && j != k ==> Rules(c)[j].holds
    ensures Valid(c) == Rules(c)[k].failure
    ensures forall j :: 0 <= j < |Rules(c)| && j != k ==> Valid(c) != Rules(c)[j].failure
  {
    FirstViolationReported(c, k);
  }

  /**
    Once the issuer is set, the runner environment is rejected exactly when it
    is neither empty nor the hosted runner.
   */
  lemma RunnerEnvironmentCheck(c: EnforcementCriteria)
    requires c.certificate.issuer != ""
    ensures Valid(c) == RunnerEnvironmentInvalid <==> !RunnerEnvironmentAccepted(c.certificate.runnerEnvironment)
  {
  }

  // ---------------------------------------------------------------------------
  // Rendering the policy
  // ---------------------------------------------------------------------------

  /*
    The fixed phrases of the rendering. Each is the Go text verbatim, written
    as a concatenation of short pieces so that the verifier can look at its
    characters one piece at a time.
   */
  const Intro: string :=
    "The following policy "
    + "criteria will be "
    + "enforced against all "
    + "attestations:"
  const PredicateTypeLine: string :=
    "- Attestation predicate "
    + "type must match "
  const IssuerLine: string :=
    "- Attestation must be "
    + "signed by a certificate "
    + "whose OIDC issuer "
    + "matches "
  const OwnerURILine: string :=
    "- Attestation must be "
    + "associated with an "
    + "artifact built in an "
    + "organization whose URI "
    + "is "
  const RepositoryURILine: string :=
    "- Attestation must be "
    + "associated with an "
    + "artifact built in a "
    + "repository whose URI is "
  const HostedRunnerLine: string :=
    "- Attestation's signing "
    + "certificate must be "
    + "generated by an Action "
    + "workflow executed in a "
    + "GitHub hosted runner"
  const SANLine: string :=
    "- Attestation's signing "
    + "certificate must have a "
    + "Subject Alternative "
    + "Name matching the exact "
    + "value "
  const SANRegexLine: string :=
    "- Attestation's signing "
    + "certificate must have a "
    + "Subject Alternative "
    + "Name matching the regex "

  /**
    `EnforcementCriteria.BuildPolicyInformation`: the header and the three
    mandatory bullets, then the repository, hosted-runner and SAN bullets when
    they apply. The text opens with a line break.
   */
  function BuildPolicyInformation(c: EnforcementCriteria): (r: string)
    ensures Template(c) <= r
    ensures |r| > 0 && r[0] == '\n'
  {
    var info := Template(c);
    var info := if c.certificate.sourceRepositoryURI != "" then
      info + ("\n" + (RepositoryURILine + c.certificate.sourceRepositoryURI))
    else info;
    var info := if c.certificate.runnerEnvironment == GitHubRunner then
      info + ("\n" + HostedRunnerLine)
    else info;
    if c.san != "" then info + ("\n" + (SANLine + c.san))
    else if c.sanRegex != "" then info + ("\n" + (SANRegexLine + c.sanRegex))
    else info
  }

  /** The template filled in: a line break, the intro and the three mandatory bullets. */
  function Template(c: EnforcementCriteria): (t: string)
    ensures |t| > 0 && t[0] == '\n'
  {
    "\n" + Intro
    + "\n" + (PredicateTypeLine + c.predicateType)
    + "\n" + (IssuerLine + c.certificate.issuer)
    + "\n" + (OwnerURILine + c.certificate.sourceRepositoryOwnerURI)
  }

  /** One bullet of the rendered policy. */
  datatype Bullet =
    | PredicateTypeBullet(predicateType: string)
    | IssuerBullet(issuer: string)
    | OwnerURIBullet(ownerURI: string)
    | RepositoryURIBullet(repositoryURI: string)
    | HostedRunnerBullet
    | SANBullet(san: string)
    | SANRegexBullet(sanRegex: string)

  /** The position of a bullet kind in the rendering order. */
  function Kind(b: Bullet): nat {
    match b
    case PredicateTypeBullet(_) => 0
    case IssuerBullet(_) => 1
    case OwnerURIBullet(_) => 2
    case RepositoryURIBullet(_) => 3
    case HostedRunnerBullet => 4
    case SANBullet(_) => 5
    case SANRegexBullet(_) => 6
  }

  predicate IsSANBullet(b: Bullet) {
    b.SANBullet? || b.SANRegexBullet?
  }

  /** The text line of a bullet. */
  function BulletLine(b: Bullet): string {
    match b
    case PredicateTypeBullet(t) => PredicateTypeLine + t
    case IssuerBullet(i) => IssuerLine + i
    case OwnerURIBullet(u) => OwnerURILine + u
    case RepositoryURIBullet(u) => RepositoryURILine + u
    case HostedRunnerBullet => HostedRunnerLine
    case SANBullet(s) => SANLine + s
    case SANRegexBullet(r) => SANRegexLine + r
  }

  function BulletLines(bs: seq<Bullet>): (lines: seq<string>)
    ensures |lines| == |bs|
  {
    seq(|bs|, i requires 0 <= i < |bs| => BulletLine(bs[i]))
  }

  /** Whether the criteria call for bullet `b`. */
  predicate Applies(c: EnforcementCriteria, b: Bullet) {
    match b
    case PredicateTypeBullet(t) => t == c.predicateType
    case IssuerBullet(i) => i == c.certificate.issuer
    case OwnerURIBullet(u) => u == c.certificate.sourceRepositoryOwnerURI
    case RepositoryURIBullet(u) => c.certificate.sourceRepositoryURI != "" && u == c.certificate.sourceRepositoryURI
    case HostedRunnerBullet => c.certificate.runnerEnvironment == GitHubRunner
    case SANBullet(s) => c.san != "" && s == c.san
    case SANRegexBullet(r) => c.san == "" && c.sanRegex != "" && r == c.sanRegex
  }

  /** Each bullet kind in rendering order, filled in from the criteria. */
  function Candidates(c: EnforcementCriteria): seq<Bullet> {
    [ PredicateTypeBullet(c.predicateType), IssuerBullet(c.certificate.issuer),
      OwnerURIBullet(c.certificate.sourceRepositoryOwnerURI),
      RepositoryURIBullet(c.certificate.sourceRepositoryURI), HostedRunnerBullet,
      SANBullet(c.san), SANRegexBullet(c.sanRegex) ]
  }

  /** Bullets of strictly increasing kind: in rendering order, each kind at most once. */
  predicate InKindOrder(bs: seq<Bullet>) {
    forall i, j :: 0 <= i < j < |bs| ==> Kind(bs[i]) < Kind(bs[j])
  }

  /** The bullets of `bs` that the criteria call for, in their order. */
  ghost function Select(c: EnforcementCriteria, bs: seq<Bullet>): seq<Bullet> {
    if bs == [] then []
    else (if Applies(c, bs[0]) then [bs[0]] else []) + Select(c, bs[1..])
  }

  /** A bullet is selected iff it is a candidate and applies. */
  lemma {:induction false} SelectMembers(c: EnforcementCriteria, bs: seq<Bullet>)
    ensures forall b :: b in Select(c, bs) <==> b in bs && Applies(c, b)
  {
    if bs != [] {
      SelectMembers(c, bs[1..]);
      assert bs == [bs[0]] + bs[1..];
    }
  }

  /** Selecting keeps the order of the candidates. */
  lemma {:induction false} SelectInKindOrder(c: EnforcementCriteria, bs: seq<Bullet>)
    requires InKindOrder(bs)
    ensures InKindOrder(Select(c, bs))
  {
    if bs != [] {
      var rest := Select(c, bs[1..]);
      assert InKindOrder(bs[1..]);
      SelectInKindOrder(c, bs[1..]);
      SelectMembers(c, bs[1..]);
      forall b | b in rest ensures Kind(bs[0]) < Kind(b) {
        var k :| 0 <= k < |bs[1..]| && bs[1..][k] == b;
        assert bs[k + 1] == b;
      }
    }
  }

  /** The bullets the criteria call for, in rendering order. */
  ghost function Bullets(c: EnforcementCriteria): seq<Bullet> {
    Select(c, Candidates(c))
  }

  /** A bullet is rendered exactly when the criteria call for it. */
  lemma BulletsApply(c: EnforcementCriteria)
    ensures forall b :: b in Bullets(c) <==> Applies(c, b)
  {
    SelectMembers(c, Candidates(c));
  }

  /** The bullets come in rendering order, no kind twice. */
  lemma BulletsInKindOrder(c: EnforcementCriteria)
    ensures InKindOrder(Bullets(c))
  {
    SelectInKindOrder(c, Candidates(c));
  }

  /** The lines of the rendering: an empty line, the intro, then one line per bullet. */
  ghost function PolicyLines(c: EnforcementCriteria): seq<string> {
    ["", Intro] + BulletLines(Bullets(c))
  }

  /** The mandatory bullets: predicate type, issuer, owner URI. */
  function MandatoryBullets(c: EnforcementCriteria): seq<Bullet> {
    [ PredicateTypeBullet(c.predicateType), IssuerBullet(c.certificate.issuer),
      OwnerURIBullet(c.certificate.sourceRepositoryOwnerURI) ]
  }

  function RepositoryBullets(c: EnforcementCriteria): seq<Bullet> {
    if c.certificate.sourceRepositoryURI != "" then [RepositoryURIBullet(c.certificate.sourceRepositoryURI)] else []
  }

  function HostedRunnerBullets(c: EnforcementCriteria): seq<Bullet> {
    if c.certificate.runnerEnvironment == GitHubRunner then [HostedRunnerBullet] else []
  }

  function SANBullets(c: EnforcementCriteria): seq<Bullet> {
    if c.san != "" then [SANBullet(c.san)]
    else if c.sanRegex != "" then [SANRegexBullet(c.sanRegex)]
    else []
  }

  /** The bullets, spelled out: the mandatory three, then each optional one that applies. */
  lemma BulletsShape(c: EnforcementCriteria)
    ensures Bullets(c) == MandatoryBullets(c) + RepositoryBullets(c) + HostedRunnerBullets(c) + SANBullets(c)
  {
    var mandatory := MandatoryBullets(c);
    var repo := [RepositoryURIBullet(c.certificate.sourceRepositoryURI)];
    var hosted := [HostedRunnerBullet];
    var san := [SANBullet(c.san), SANRegexBullet(c.sanRegex)];
    assert Candidates(c) == mandatory + repo + hosted + san;
    SelectAppend(c, mandatory + repo + hosted, san);
    SelectAppend(c, mandatory + repo, hosted);
    SelectAppend(c, mandatory, repo);
    assert Select(c, mandatory) == mandatory by {
      SelectAppend(c, mandatory[..2], mandatory[2..]);
      SelectAppend(c, mandatory[..1], mandatory[1..2]);
      SelectOne(c, mandatory[0]);
      SelectOne(c, mandatory[1]);
      SelectOne(c, mandatory[2]);
      assert mandatory[..1] + mandatory[1..2] == mandatory[..2];
      assert mandatory[..2] + mandatory[2..] == mandatory;
    }
    assert Select(c, san) == SANBullets(c) by {
      var exact, regex := SANBullet(c.san), SANRegexBullet(c.sanRegex);
      assert san == [exact] + [regex];
      SelectAppend(c, [exact], [regex]);
      SelectOne(c, exact);
      SelectOne(c, regex);
      if c.san == "" {
        assert Select(c, [exact]) == [];
        assert Select(c, san) == Select(c, [regex]);
      }
    }
    assert Select(c, repo) == RepositoryBullets(c) by {
      SelectOne(c, repo[0]);
    }
    assert Select(c, hosted) == HostedRunnerBullets(c) by {
      SelectOne(c, hosted[0]);
    }
  }

  /** Selecting from a single candidate. */
  lemma SelectOne(c: EnforcementCriteria, b: Bullet)
    ensures Select(c, [b]) == if Applies(c, b) then [b] else []
  {
    assert [b][1..] == [];
  }

  /** Selecting from two lists one after the other. */
  lemma {:induction false} SelectAppend(c: EnforcementCriteria, xs: seq<Bullet>, ys: seq<Bullet>)
    ensures Select(c, xs + ys) == Select(c, xs) + Select(c, ys)
  {
    if xs != [] {
      SelectAppend(c, xs[1..], ys);
      assert (xs + ys)[1..] == xs[1..] + ys;
    } else {
      assert xs + ys == ys;
    }
  }

  /** The three mandatory bullets always come first, in this order. */
  lemma MandatoryBulletsFirst(c: EnforcementCriteria)
    ensures |Bullets(c)| >= 3
    ensures Bullets(c)[..3] == [ PredicateTypeBullet(c.predicateType), IssuerBullet(c.certificate.issuer),
                                 OwnerURIBullet(c.certificate.sourceRepositoryOwnerURI) ]
  {
    BulletsShape(c);
  }

  /** At most one SAN bullet is rendered, whatever the criteria. */
  lemma AtMostOneSANBullet(c: EnforcementCriteria)
    ensures forall i, j :: 0 <= i < j < |Bullets(c)| ==> !(IsSANBullet(Bullets(c)[i]) && IsSANBullet(Bullets(c)[j]))
  {
    var bs := Bullets(c);
    BulletsApply(c);
    BulletsInKindOrder(c);
    forall i, j | 0 <= i < j < |bs| && IsSANBullet(bs[i]) ensures !IsSANBullet(bs[j]) {
      assert bs[i] in bs && bs[j] in bs;
    }
  }

  /** Well-formed criteria render exactly one SAN bullet. */
  lemma ValidRendersOneSANBullet(c: EnforcementCriteria)
    requires Valid(c) == Ok
    ensures exists i :: 0 <= i < |Bullets(c)| && IsSANBullet(Bullets(c)[i])
    ensures forall i, j :: 0 <= i < j < |Bullets(c)| ==> !(IsSANBullet(Bullets(c)[i]) && IsSANBullet(Bullets(c)[j]))
  {
    var bs := Bullets(c);
    AtMostOneSANBullet(c);
    BulletsApply(c);
    var b := if c.san != "" then SANBullet(c.san) else SANRegexBullet(c.sanRegex);
    assert Applies(c, b);
    var i :| 0 <= i < |bs| && bs[i] == b;
  }

  /** The rendering is its lines joined with line breaks. */
  lemma PolicyInformationIsJoin(c: EnforcementCriteria)
    ensures BuildPolicyInformation(c) == Join(PolicyLines(c))
  {
    var (lm, lr, lh, ls) := BulletRunLines(c);
    RenderingIsJoinOfParts(c);
    PolicyLinesParts(c);
    assert ["", Intro] + lm + lr + lh + ls == ["", Intro] + (lm + lr + lh + ls);
  }

  /** The lines of the four runs of bullets: first the mandatory run, then the repository, hosted-runner and SAN runs. */
  function BulletRunLines(c: EnforcementCriteria): (seq<string>, seq<string>, seq<string>, seq<string>) {
    (BulletLines(MandatoryBullets(c)), BulletLines(RepositoryBullets(c)),
     BulletLines(HostedRunnerBullets(c)), BulletLines(SANBullets(c)))
  }

  /** The rendering, step by step, is the join of the header and the four runs of lines. */
  lemma RenderingIsJoinOfParts(c: EnforcementCriteria)
    ensures var (lm, lr, lh, ls) := BulletRunLines(c);
      BuildPolicyInformation(c) == Join(["", Intro] + lm + lr + lh + ls)
  {
    var cert := c.certificate;
    var (lm, lr, lh, ls) := BulletRunLines(c);
    var l0 := ["", Intro] + lm;
    var l1 := l0 + lr;
    var l2 := l1 + lh;
    TemplateIsJoin(c);
    if cert.sourceRepositoryURI != "" {
      assert lr == [RepositoryURILine + cert.sourceRepositoryURI];
    }
    if cert.runnerEnvironment == GitHubRunner {
      assert lh == [HostedRunnerLine];
    }
    if c.san != "" {
      assert ls == [SANLine + c.san];
    } else if c.sanRegex != "" {
      assert ls == [SANRegexLine + c.sanRegex];
    }
    var t1 := JoinStep(l0, lr, Template(c));
    var t2 := JoinStep(l1, lh, t1);
    var t3 := JoinStep(l2, ls, t2);
  }

  /** The lines of the bullets are the four runs, one after the other. */
  lemma PolicyLinesParts(c: EnforcementCriteria)
    ensures var (lm, lr, lh, ls) := BulletRunLines(c);
      PolicyLines(c) == ["", Intro] + (lm + lr + lh + ls)
  {
    var m, r, h, s := MandatoryBullets(c), RepositoryBullets(c), HostedRunnerBullets(c), SANBullets(c);
    BulletsShape(c);
    assert BulletLines(m + r + h + s) == BulletLines(m + r + h) + BulletLines(s);
    assert BulletLines(m + r + h) == BulletLines(m + r) + BulletLines(h);
    assert BulletLines(m + r) == BulletLines(m) + BulletLines(r);
  }

  /** Joining a list with at most one more line appended: the text gains that line, if any. */
  lemma JoinStep(lines: seq<string>, more: seq<string>, text: string) returns (text': string)
    requires |lines| > 0 && |more| <= 1 && Join(lines) == text
    ensures Join(lines + more) == text'
    ensures text' == if more == [] then text else text + ("\n" + more[0])
  {
    if more == [] {
      assert lines + more == lines;
      text' := text;
    } else {
      assert more == [more[0]];
      JoinSnoc(lines, more[0]);
      text' := text + ("\n" + more[0]);
    }
  }

  /** The filled-in template is its five lines joined with line breaks. */
  lemma TemplateIsJoin(c: EnforcementCriteria)
    ensures Template(c) == Join(["", Intro] + BulletLines(MandatoryBullets(c)))
  {
    assert ["", Intro] + BulletLines(MandatoryBullets(c))
        == ["", Intro, PredicateTypeLine + c.predicateType, IssuerLine + c.certificate.issuer,
            OwnerURILine + c.certificate.sourceRepositoryOwnerURI];
    JoinOfFive(Intro, PredicateTypeLine + c.predicateType, IssuerLine + c.certificate.issuer,
               OwnerURILine + c.certificate.sourceRepositoryOwnerURI);
  }

  /** Five lines, the first empty, joined with line breaks. */
  lemma JoinOfFive(l1: string, l2: string, l3: string, l4: string)
    ensures Join(["", l1, l2, l3, l4]) == "\n" + l1 + "\n" + l2 + "\n" + l3 + "\n" + l4
  {
    JoinCons(l3, [l4]);
    assert [l3] + [l4] == [l3, l4];
    JoinCons(l2, [l3, l4]);
    assert [l2] + [l3, l4] == [l2, l3, l4];
    JoinCons(l1, [l2, l3, l4]);
    assert [l1] + [l2, l3, l4] == [l1, l2, l3, l4];
    JoinCons("", [l1, l2, l3, l4]);
    assert [""] + [l1, l2, l3, l4] == ["", l1, l2, l3, l4];
  }

  // ---------------------------------------------------------------------------
  // The rendering, line by line
  // ---------------------------------------------------------------------------

  /** No field that is echoed into the rendering contains a line break. */
  predicate SingleLineCriteria(c: EnforcementCriteria) {
    && SingleLine(c.predicateType)
    && SingleLine(c.certificate.issuer)
    && SingleLine(c.certificate.sourceRepositoryOwnerURI)
    && SingleLine(c.certificate.sourceRepositoryURI)
    && SingleLine(c.san)
    && SingleLine(c.sanRegex)
  }

  /** The fixed phrases of the rendering contain no line break. */
  lemma PhrasesSingleLine()
    ensures SingleLine(Intro) && SingleLine(PredicateTypeLine) && SingleLine(IssuerLine)
    ensures SingleLine(OwnerURILine) && SingleLine(RepositoryURILine) && SingleLine(HostedRunnerLine)
    ensures SingleLine(SANLine) && SingleLine(SANRegexLine)
  {
    IntroSingleLine();
    PredicateTypeLineSingleLine();
    IssuerLineSingleLine();
    OwnerURILineSingleLine();
    RepositoryURILineSingleLine();
    HostedRunnerLineSingleLine();
    SANLineSingleLine();
    SANRegexLineSingleLine();
  }

  lemma IntroSingleLine() ensures SingleLine(Intro) { }

  lemma PredicateTypeLineSingleLine() ensures SingleLine(PredicateTypeLine) { }

  lemma IssuerLineSingleLine() ensures SingleLine(IssuerLine) { }

  lemma OwnerURILineSingleLine() ensures SingleLine(OwnerURILine) { }

  lemma RepositoryURILineSingleLine() ensures SingleLine(RepositoryURILine) { }

  lemma HostedRunnerLineSingleLine() ensures SingleLine(HostedRunnerLine) { }

  lemma SANLineSingleLine() ensures SingleLine(SANLine) { }

  lemma SANRegexLineSingleLine() ensures SingleLine(SANRegexLine) { }

  /** The bullet lines of single-line criteria are single lines. */
  lemma BulletLinesSingle(c: EnforcementCriteria)
    requires SingleLineCriteria(c)
    ensures forall k :: 0 <= k < |PolicyLines(c)| ==> SingleLine(PolicyLines(c)[k])
  {
    PhrasesSingleLine();
    BulletsApply(c);
    var bs := Bullets(c);
    forall k | 0 <= k < |bs| ensures SingleLine(BulletLine(bs[k])) {
      assert Applies(c, bs[k]) by { assert bs[k] in bs; }
      match bs[k]
      case PredicateTypeBullet(t) => SingleLineAppend(PredicateTypeLine, t);
      case IssuerBullet(i) => SingleLineAppend(IssuerLine, i);
      case OwnerURIBullet(u) => SingleLineAppend(OwnerURILine, u);
      case RepositoryURIBullet(u) => SingleLineAppend(RepositoryURILine, u);
      case HostedRunnerBullet =>
      case SANBullet(x) => SingleLineAppend(SANLine, x);
      case SANRegexBullet(r) => SingleLineAppend(SANRegexLine, r);
    }
    assert SingleLine("");
  }

  /**
    Cut at its line breaks, the rendering of single-line criteria is exactly
    an empty line, the intro, and one line per bullet that applies.
   */
  lemma PolicyInformationLines(c: EnforcementCriteria)
    requires SingleLineCriteria(c)
    ensures Split(BuildPolicyInformation(c)) == PolicyLines(c)
  {
    PolicyInformationIsJoin(c);
    BulletLinesSingle(c);
    SplitJoin(PolicyLines(c));
  }

  /**
    For single-line criteria, the first five lines of the rendering are the
    empty line, the intro and the three mandatory bullets.
   */
  lemma PolicyInformationHeader(c: EnforcementCriteria)
    requires SingleLineCriteria(c)
    ensures |Split(BuildPolicyInformation(c))| >= 5
    ensures Split(BuildPolicyInformation(c))[..5] ==
      [ "", Intro, PredicateTypeLine + c.predicateType, IssuerLine + c.certificate.issuer,
        OwnerURILine + c.certificate.sourceRepositoryOwnerURI ]
  {
    PolicyInformationLines(c);
    PolicyLinesHeader(c);
  }

  /** The first five structured lines: the empty line, the intro and the three mandatory bullets. */
  lemma PolicyLinesHeader(c: EnforcementCriteria)
    ensures |PolicyLines(c)| >= 5
    ensures PolicyLines(c)[..5] ==
      [ "", Intro, PredicateTypeLine + c.predicateType, IssuerLine + c.certificate.issuer,
        OwnerURILine + c.certificate.sourceRepositoryOwnerURI ]
  {
    var (lm, lr, lh, ls) := BulletRunLines(c);
    PolicyLinesParts(c);
    var rest := lr + lh + ls;
    assert lm + lr + lh + ls == lm + rest;
    var lines := PolicyLines(c);
    assert lines == ["", Intro] + (lm + rest);
    assert lm == [ PredicateTypeLine + c.predicateType, IssuerLine + c.certificate.issuer,
                   OwnerURILine + c.certificate.sourceRepositoryOwnerURI ];
    assert lines[..5] == ["", Intro] + lm;
  }

  // ---------------------------------------------------------------------------
  // Telling the rendered lines apart
  // ---------------------------------------------------------------------------

  /**
    The kind of bullet a rendered line is, read off a few of its characters
    where the fixed phrases differ; -1 for a line that is not a bullet. Bullets
    start with '-'. Offset 13 parts "Attestation " from "Attestation's"; in the
    first group offset 14 picks "predicate", offset 22 "signed" and offset 60
    "an organization" (against "a repository"); in the second group offset 41
    picks "must be" (hosted runner) against "must have", and offset 86 "exact"
    against "regex".
   */
  ghost function LineKind(line: string): int {
    if |line| < 15 || line[0] != '-' then -1
    else if line[13] == ' ' then
      if line[14] == 'p' then 0
      else if |line| > 22 && line[22] == 's' then 1
      else if |line| > 60 && line[60] == 'n' then 2
      else 3
    else if |line| > 41 && line[41] == 'b' then 4
    else if |line| > 86 && line[86] == 'e' then 5
    else 6
  }

  /** Every bullet line is classified as its own kind; the empty line and the intro are not bullets. */
  lemma LineKindOfBullet(b: Bullet)
    ensures LineKind(BulletLine(b)) == Kind(b)
    ensures LineKind("") == -1 && LineKind(Intro) == -1
  {
  }

  /** Distinct bullets render as distinct lines. */
  lemma BulletLineInjective(a: Bullet, b: Bullet)
    requires BulletLine(a) == BulletLine(b)
    ensures a == b
  {
    LineKindOfBullet(a);
    LineKindOfBullet(b);
    match a
    case PredicateTypeBullet(x) => PrefixCancel(PredicateTypeLine, x, b.predicateType);
    case IssuerBullet(x) => PrefixCancel(IssuerLine, x, b.issuer);
    case OwnerURIBullet(x) => PrefixCancel(OwnerURILine, x, b.ownerURI);
    case RepositoryURIBullet(x) => PrefixCancel(RepositoryURILine, x, b.repositoryURI);
    case HostedRunnerBullet =>
    case SANBullet(x) => PrefixCancel(SANLine, x, b.san);
    case SANRegexBullet(x) => PrefixCancel(SANRegexLine, x, b.sanRegex);
  }

  /** Two lines with the same phrase in front are equal only if what follows is. */
  lemma PrefixCancel(phrase: string, x: string, y: string)
    requires phrase + x == phrase + y
    ensures x == y
  {
    assert x == (phrase + x)[|phrase|..];
    assert y == (phrase + y)[|phrase|..];
  }

  /** A bullet's line is among the lines of the rendering exactly when the criteria call for it. */
  lemma PolicyLineIffApplies(c: EnforcementCriteria, b: Bullet)
    ensures BulletLine(b) in PolicyLines(c) <==> Applies(c, b)
  {
    BulletsApply(c);
    NotHeaderLine(b);
    BulletLinesMembers(Bullets(c), b);
    var head, body := ["", Intro], BulletLines(Bullets(c));
    assert BulletLine(b) in head + body <==> BulletLine(b) in head || BulletLine(b) in body;
  }

  /** No bullet renders as the empty line or as the intro. */
  lemma NotHeaderLine(b: Bullet)
    ensures BulletLine(b) !in ["", Intro]
  {
    LineKindOfBullet(b);
  }

  /** A bullet's line is among the lines of some bullets exactly when the bullet is among them. */
  lemma BulletLinesMembers(bs: seq<Bullet>, b: Bullet)
    ensures BulletLine(b) in BulletLines(bs) <==> b in bs
  {
    var lines := BulletLines(bs);
    if BulletLine(b) in lines {
      var k :| 0 <= k < |lines| && lines[k] == BulletLine(b);
      BulletLineInjective(bs[k], b);
    }
    if b in bs {
      var k :| 0 <= k < |bs| && bs[k] == b;
      assert lines[k] == BulletLine(b);
    }
  }

  /**
    For single-line criteria, cutting the rendering at its line breaks yields
    a bullet's line exactly when the criteria call for that bullet.
   */
  lemma RenderedLineIffApplies(c: EnforcementCriteria, b: Bullet)
    requires SingleLineCriteria(c)
    ensures BulletLine(b) in Split(BuildPolicyInformation(c)) <==> Applies(c, b)
  {
    PolicyInformationLines(c);
    PolicyLineIffApplies(c, b);
  }

  /** The repository bullet is rendered exactly when the source repository URI is set. */
  lemma RepositoryLineIffURISet(c: EnforcementCriteria)
    requires SingleLineCriteria(c)
    ensures RepositoryURILine + c.certificate.sourceRepositoryURI in Split(BuildPolicyInformation(c))
        <==> c.certificate.sourceRepositoryURI != ""
  {
    RenderedLineIffApplies(c, RepositoryURIBullet(c.certificate.sourceRepositoryURI));
  }

  /** The hosted-runner bullet is rendered exactly when the runner environment is "github-hosted". */
  lemma HostedRunnerLineIffHosted(c: EnforcementCriteria)
    requires SingleLineCriteria(c)
    ensures HostedRunnerLine in Split(BuildPolicyInformation(c)) <==> c.certificate.runnerEnvironment == GitHubRunner
  {
    RenderedLineIffApplies(c, HostedRunnerBullet);
  }

  /** The SAN value wins: the regex line is rendered only when no SAN value is set. */
  lemma SANPrecedence(c: EnforcementCriteria)
    requires SingleLineCriteria(c)
    ensures SANLine + c.san in Split(BuildPolicyInformation(c)) <==> c.san != ""
    ensures SANRegexLine + c.sanRegex in Split(BuildPolicyInformation(c)) <==> c.san == "" && c.sanRegex != ""
  {
    RenderedLineIffApplies(c, SANBullet(c.san));
    RenderedLineIffApplies(c, SANRegexBullet(c.sanRegex));
  }

  // ---------------------------------------------------------------------------
  // A worked example
  // ---------------------------------------------------------------------------

  /** Criteria for a workflow of the acme organisation, with the given SAN settings. */
  function AcmeCriteria(san: string, sanRegex: string): EnforcementCriteria {
    EnforcementCriteria(
      Summary("https://issuer.example", "", "https://github.com/acme", ""),
      "https://slsa.dev/provenance/v1", sanRegex, san)
  }

  /** The SAN of acme's build workflow on its main branch. */
  const AcmeSAN: string :=
    "https://github.com/"
    + "acme/repo/.github/"
    + "workflows/build.yml"
    + "@refs/heads/main"

  /**
    With an exact SAN the criteria are valid and render, after the empty line
    and the intro, four bullets (predicate type, issuer, owner URI, SAN): six
    lines of text. Without SAN or regex they fail on the SAN check.
   */
  lemma AcmeExample()
    ensures var c := AcmeCriteria(AcmeSAN, "");
      && Valid(c) == Ok
      && Bullets(c) == MandatoryBullets(c) + [SANBullet(c.san)]
      && Split(BuildPolicyInformation(c)) == PolicyLines(c)
      && |Split(BuildPolicyInformation(c))| == 6
    ensures Valid(AcmeCriteria("", "")) == SANNotSet
  {
    var c := AcmeCriteria(AcmeSAN, "");
    BulletsShape(c);
    assert RepositoryBullets(c) == [] && HostedRunnerBullets(c) == [];
    assert SANBullets(c) == [SANBullet(c.san)];
    AcmeSingleLine();
    PolicyInformationLines(c);
  }

  /** None of the acme criteria's fields contains a line break. */
  lemma AcmeSingleLine()
    ensures SingleLineCriteria(AcmeCriteria(AcmeSAN, ""))
  {
    AcmeSANSingleLine();
    assert SingleLine("https://issuer.example");
    assert SingleLine("https://github.com/acme");
    assert SingleLine("https://slsa.dev/provenance/v1");
    assert SingleLine("");
  }

  /** The acme SAN contains no line break, piece by piece. */
  lemma AcmeSANSingleLine()
    ensures SingleLine(AcmeSAN)
  {
    var a, b, c, d := "https://github.com/", "acme/repo/.github/", "workflows/build.yml", "@refs/heads/main";
    SingleLineAppend(a, b);
    SingleLineAppend(a + b, c);
    SingleLineAppend(a + b + c, d);
  }
}
