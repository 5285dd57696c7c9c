/** Certbot argument vectors (internal/certs): a request is checked, and turned into arguments and a report. */
module Certbot {
  import opened Options
  import opened Text
  import opened Domains
  import opened Paths

  const LIVE_DIR := "/etc/letsencrypt/live"
  const STANDALONE := "standalone"
  const WEBROOT := "webroot"

  datatype Request = Request(
    domain: string,
    domains: seq<string>,
    action: string,
    challenge: string,
    email: string,
    webrootPath: string,
    staging: bool,
    forceRenewal: bool,
    revokeReason: string)

  datatype Report = Report(
    action: string,
    domain: string,
    domains: seq<string>,
    challenge: string,
    staging: bool,
    certificateDir: string,
    fullchainPath: string,
    privateKeyPath: string)

  datatype CertError =
    | BadDomain(error: DomainError)
    | BadExtraDomain(error: DomainError)
    | EmailRequired
    | WebrootNeedsMethod
    | WebrootRequired
    | WebrootRelative
    | UnsupportedMethod
    | UnsupportedReason
    | UnsupportedAction

  datatype Result<T> = Ok(value: T) | Err(error: CertError)

  // ---- Reading an argument vector back -----------------------------------------------------------------------

  datatype Invocation = Invocation(
    command: string,
    nonInteractive: bool := false,
    agreeTos: bool := false,
    certName: Option<string> := None,
    email: Option<string> := None,
    challenge: Option<string> := None,
    webrootPath: Option<string> := None,
    staging: bool := false,
    force: bool := false,
    deleteAfter: bool := false,
    reason: Option<string> := None,
    domains: seq<string> := [])

  /** An option without a value. */
  function WithFlag(inv: Invocation, name: string): Option<Invocation> {
    if name == "--non-interactive" then Some(inv.(nonInteractive := true))
    else if name == "--agree-tos" then Some(inv.(agreeTos := true))
    else if name == "--standalone" then Some(inv.(challenge := Some(STANDALONE)))
    else if name == "--webroot" then Some(inv.(challenge := Some(WEBROOT)))
    else if name == "--test-cert" then Some(inv.(staging := true))
    else if name == "--force-renewal" then Some(inv.(force := true))
    else if name == "--delete-after-revoke" then Some(inv.(deleteAfter := true))
    else None
  }

  /** An option that takes the next argument as its value. */
  function WithValue(inv: Invocation, name: string, value: string): Option<Invocation> {
    if name == "--cert-name" then Some(inv.(certName := Some(value)))
    else if name == "--email" then Some(inv.(email := Some(value)))
    else if name == "--webroot-path" then Some(inv.(webrootPath := Some(value)))
    else if name == "--reason" then Some(inv.(reason := Some(value)))
    else if name == "-d" then Some(inv.(domains := inv.domains + [value]))
    else None
  }

  function ReadOptions(args: seq<string>, inv: Invocation): Option<Invocation> {
    if args == [] then
      Some(inv)
    else
      var flag := WithFlag(inv, args[0]);
      if flag.Some? then
        ReadOptions(args[1..], flag.value)
      else if |args| < 2 then
        None
      else
        var option := WithValue(inv, args[0], args[1]);
        if option.Some? then ReadOptions(args[2..], option.value) else None
  }

  function ReadCommand(args: seq<string>): Option<Invocation> {
    if args == [] then None else ReadOptions(args[1..], Invocation(args[0]))
  }

  lemma {:induction false} ReadOptionsAppend(xs: seq<string>, ys: seq<string>, inv: Invocation)
    requires ReadOptions(xs, inv).Some?
    ensures ReadOptions(xs + ys, inv) == ReadOptions(ys, ReadOptions(xs, inv).value)
    decreases |xs|
  {
    hide WithFlag, WithValue;
    if xs == [] {
      assert xs + ys == ys;
    } else if WithFlag(inv, xs[0]).Some? {
      assert (xs + ys)[1..] == xs[1..] + ys;
      ReadOptionsAppend(xs[1..], ys, WithFlag(inv, xs[0]).value);
    } else {
      assert (xs + ys)[2..] == xs[2..] + ys;
      ReadOptionsAppend(xs[2..], ys, WithValue(inv, xs[0], xs[1]).value);
    }
  }

  /** Appending a flag to arguments that read as inv adds what the flag says. */
  lemma AppendFlag(args: seq<string>, inv: Invocation, name: string)
    requires ReadCommand(args) == Some(inv) && WithFlag(inv, name).Some?
    ensures ReadCommand(args + [name]) == WithFlag(inv, name)
  {
    hide WithFlag, WithValue;
    ReadOptionsAppend(args[1..], [name], Invocation(args[0]));
    assert (args + [name])[1..] == args[1..] + [name];
    assert [name][1..] == [];
  }

  lemma AppendValue(args: seq<string>, inv: Invocation, name: string, value: string)
    requires ReadCommand(args) == Some(inv) && WithFlag(inv, name).None? && WithValue(inv, name, value).Some?
    ensures ReadCommand(args + [name, value]) == WithValue(inv, name, value)
  {
    hide WithFlag, WithValue;
    ReadOptionsAppend(args[1..], [name, value], Invocation(args[0]));
    assert (args + [name, value])[1..] == args[1..] + [name, value];
    assert [name, value][2..] == [];
  }

  // ---- What a request asks for -------------------------------------------------------------------------------

  predicate KnownChallenge(challenge: string) { challenge == "" || challenge == STANDALONE || challenge == WEBROOT }

  function Chosen(challenge: string): string { if challenge == "" then STANDALONE else challenge }

  /** A webroot challenge has an absolute webroot path, a standalone one has none. */
  predicate ChallengeFits(challenge: string, webrootPath: string) {
    if Chosen(challenge) == STANDALONE then webrootPath == ""
    else Chosen(challenge) == WEBROOT && IsAbs(webrootPath)
  }

  function IssueInvocation(req: Request, domain: string, domains: seq<string>): Invocation {
    Invocation("certonly",
      nonInteractive := true, agreeTos := true, certName := Some(domain), email := Some(TrimSpace(req.email)),
      challenge := Some(Chosen(req.challenge)),
      webrootPath := if Chosen(req.challenge) == WEBROOT then Some(req.webrootPath) else None,
      staging := req.staging, force := req.forceRenewal, domains := domains)
  }

  function RenewInvocation(req: Request, domain: string): Invocation {
    Invocation("renew",
      nonInteractive := true, certName := Some(domain),
      webrootPath := if req.webrootPath == "" then None else Some(req.webrootPath),
      staging := req.staging, force := req.forceRenewal)
  }

  function RevokeInvocation(req: Request, domain: string): Invocation {
    Invocation("revoke",
      nonInteractive := true, certName := Some(domain), deleteAfter := true,
      reason := if req.revokeReason == "" then None else Some(req.revokeReason))
  }

  predicate ValidRevokeReason(reason: string) {
    || reason == "keycompromise" || reason == "affiliationchanged"
    || reason == "superseded" || reason == "cessationofoperation"
  }

  // ---- Building the arguments --------------------------------------------------------------------------------

  /** The arguments of an accepted issue request, up to its domains. */
  function IssueVector(req: Request, domain: string): seq<string> {
    ["certonly", "--non-interactive", "--agree-tos", "--cert-name", domain, "--email", TrimSpace(req.email)]
    + (if req.challenge == "webroot" then ["--webroot", "--webroot-path", req.webrootPath] else ["--standalone"])
    + Switches(req.staging, req.forceRenewal)
  }

  lemma IssueVectorIs(req: Request, domain: string)
    requires ChallengeArgs(req.challenge, req.webrootPath).Ok?
    ensures IssueVector(req, domain)
         == ["certonly", "--non-interactive", "--agree-tos", "--cert-name", domain, "--email", TrimSpace(req.email)]
            + ChallengeArgs(req.challenge, req.webrootPath).value.0 + Switches(req.staging, req.forceRenewal)
  {
    hide TrimSpace, Switches;
  }

  /** The arguments that name the domains of a certificate. */
  function DomainArgs(domains: seq<string>): seq<string> {
    if domains == [] then [] else DomainArgs(domains[..|domains| - 1]) + ["-d", domains[|domains| - 1]]
  }

  lemma NoDomainArgs()
    ensures DomainArgs([]) == []
  {}

  lemma DomainArgsOneMore(domains: seq<string>, i: nat)
    requires i < |domains|
    ensures DomainArgs(domains[..i + 1]) == DomainArgs(domains[..i]) + ["-d", domains[i]]
  {
    assert domains[..i + 1][..i] == domains[..i];
  }

  function Switches(staging: bool, force: bool): seq<string> {
    (if staging then ["--test-cert"] else []) + (if force then ["--force-renewal"] else [])
  }

  function ChallengeArgs(challenge: string, webrootPath: string): Result<(seq<string>, string)> {
    var m := if challenge == "" then STANDALONE else challenge;
    if m == STANDALONE then
      if webrootPath != "" then Err(WebrootNeedsMethod) else Ok((["--standalone"], m))
    else if m == WEBROOT then
      if webrootPath == "" then Err(WebrootRequired)
      else if !IsAbs(webrootPath) then Err(WebrootRelative)
      else Ok((["--webroot", "--webroot-path", webrootPath], m))
    else
      Err(UnsupportedMethod)
  }

  lemma ChallengeIsRead(args: seq<string>, inv: Invocation, challenge: string, webrootPath: string)
    requires ReadCommand(args) == Some(inv) && inv.webrootPath == None
    requires ChallengeArgs(challenge, webrootPath).Ok?
    ensures ChallengeFits(challenge, webrootPath) && ChallengeArgs(challenge, webrootPath).value.1 == Chosen(challenge)
    ensures ReadCommand(args + ChallengeArgs(challenge, webrootPath).value.0) == Some(inv.(
        challenge := Some(Chosen(challenge)),
        webrootPath := if Chosen(challenge) == WEBROOT then Some(webrootPath) else None))
  {
    hide ReadCommand;
    if Chosen(challenge) == STANDALONE {
      AppendFlag(args, inv, "--standalone");
    } else {
      AppendFlag(args, inv, "--webroot");
      var inv' := inv.(challenge := Some(WEBROOT));
      AppendValue(args + ["--webroot"], inv', "--webroot-path", webrootPath);
      assert args + ["--webroot"] + ["--webroot-path", webrootPath]
          == args + ["--webroot", "--webroot-path", webrootPath];
    }
  }

  lemma IssueHead(domain: string, email: string)
    ensures ReadCommand(["certonly", "--non-interactive", "--agree-tos", "--cert-name", domain, "--email", email])
         == Some(Invocation("certonly",
              nonInteractive := true, agreeTos := true, certName := Some(domain), email := Some(email)))
  {
    var inv := Invocation("certonly");
    var args := ["certonly"];
    assert ReadCommand(args) == Some(inv);
    AppendFlag(args, inv, "--non-interactive");
    AppendFlag(args + ["--non-interactive"], inv.(nonInteractive := true), "--agree-tos");
    inv, args := inv.(nonInteractive := true, agreeTos := true), args + ["--non-interactive"] + ["--agree-tos"];
    hide ReadCommand;
    AppendValue(args, inv, "--cert-name", domain);
    AppendValue(args + ["--cert-name", domain], inv.(certName := Some(domain)), "--email", email);
    assert args + ["--cert-name", domain] + ["--email", email]
        == ["certonly", "--non-interactive", "--agree-tos", "--cert-name", domain, "--email", email];
  }

  /** The flags that issuing and renewing share. */
  method AppendSwitches(args: seq<string>, staging: bool, force: bool, ghost inv: Invocation) returns (r: seq<string>)
    requires ReadCommand(args) == Some(inv) && !inv.staging && !inv.force
    ensures ReadCommand(r) == Some(inv.(staging := staging, force := force))
    ensures r == args + Switches(staging, force)
  {
    hide ReadCommand;
    r := args;
    ghost var now := inv;
    if staging {
      AppendFlag(r, now, "--test-cert");
      r, now := r + ["--test-cert"], now.(staging := true);
    }
    if force {
      AppendFlag(r, now, "--force-renewal");
      r, now := r + ["--force-renewal"], now.(force := true);
    }
  }

  /** issueArgs: the arguments read back as what the request asks for. */
  method IssueArgs(req: Request, domain: string, domains: seq<string>) returns (r: Result<(seq<string>, string)>)
    ensures match r
      case Ok((args, challenge)) =>
        && !Blank(req.email) && ChallengeFits(req.challenge, req.webrootPath) && challenge == Chosen(req.challenge)
        && ReadCommand(args) == Some(IssueInvocation(req, domain, domains))
        && args == IssueVector(req, domain) + DomainArgs(domains)
      case Err(e) =>
        if Blank(req.email) then e == EmailRequired else ChallengeRefused(req.challenge, req.webrootPath, e)
  {
    hide ReadCommand, TrimSpace, IssueVector, Switches, DomainArgs, Blank;
    TrimSpaceEmpty(req.email);
    if TrimSpace(req.email) == "" { return Err(EmailRequired); }
    var email := TrimSpace(req.email);
    var args := ["certonly", "--non-interactive", "--agree-tos", "--cert-name", domain, "--email", email];
    IssueHead(domain, email);
    ghost var inv := Invocation("certonly",
      nonInteractive := true, agreeTos := true, certName := Some(domain), email := Some(email));
    assert DomainArgs(domains[..0]) == [] by { NoDomainArgs(); }
    var challengeArgs := ChallengeArgs(req.challenge, req.webrootPath);
    if challengeArgs.Err? { return Err(challengeArgs.error); }
    ChallengeIsRead(args, inv, req.challenge, req.webrootPath);
    IssueVectorIs(req, domain);
    args := args + challengeArgs.value.0;
    inv := ReadCommand(args).value;
    args := AppendSwitches(args, req.staging, req.forceRenewal, inv);
    inv := ReadCommand(args).value;
    for i := 0 to |domains|
      invariant ReadCommand(args) == Some(inv.(domains := domains[..i]))
      invariant args == IssueVector(req, domain) + DomainArgs(domains[..i])
    {
      DomainArgsOneMore(domains, i);
      AppendValue(args, inv.(domains := domains[..i]), "-d", domains[i]);
      args := args + ["-d", domains[i]];
      assert domains[..i + 1] == domains[..i] + [domains[i]];
    }
    assert domains[..|domains|] == domains;
    return Ok((args, challengeArgs.value.1));
  }

  predicate ChallengeRefused(challenge: string, webrootPath: string, e: CertError) {
    && !ChallengeFits(challenge, webrootPath)
    && match e
       case WebrootNeedsMethod => Chosen(challenge) == STANDALONE
       case WebrootRequired => Chosen(challenge) == WEBROOT && webrootPath == ""
       case WebrootRelative => Chosen(challenge) == WEBROOT && webrootPath != ""
       case UnsupportedMethod => !KnownChallenge(challenge)
       case _ => false
  }

  lemma RenewHead(domain: string)
    ensures ReadCommand(["renew", "--non-interactive", "--cert-name", domain])
         == Some(Invocation("renew", nonInteractive := true, certName := Some(domain)))
  {
    var inv := Invocation("renew");
    assert ReadCommand(["renew"]) == Some(inv);
    AppendFlag(["renew"], inv, "--non-interactive");
    AppendValue(["renew"] + ["--non-interactive"], inv.(nonInteractive := true), "--cert-name", domain);
    assert ["renew"] + ["--non-interactive"] + ["--cert-name", domain]
        == ["renew", "--non-interactive", "--cert-name", domain];
  }

  /** renewArgs: a webroot path may be given, and is then absolute. */
  method RenewArgs(req: Request, domain: string) returns (r: Result<seq<string>>)
    ensures match r
      case Ok(args) =>
        && (req.webrootPath == "" || IsAbs(req.webrootPath))
        && ReadCommand(args) == Some(RenewInvocation(req, domain))
        && args == ["renew", "--non-interactive", "--cert-name", domain]
           + (if req.webrootPath == "" then [] else ["--webroot-path", req.webrootPath])
           + Switches(req.staging, req.forceRenewal)
      case Err(e) => e == WebrootRelative && req.webrootPath != "" && !IsAbs(req.webrootPath)
  {
    hide ReadCommand;
    var args := ["renew", "--non-interactive", "--cert-name", domain];
    RenewHead(domain);
    ghost var inv := ReadCommand(args).value;
    if req.webrootPath != "" {
      if !IsAbs(req.webrootPath) { return Err(WebrootRelative); }
      AppendValue(args, inv, "--webroot-path", req.webrootPath);
      args, inv := args + ["--webroot-path", req.webrootPath], inv.(webrootPath := Some(req.webrootPath));
    }
    args := AppendSwitches(args, req.staging, req.forceRenewal, inv);
    return Ok(args);
  }

  lemma RevokeHead(domain: string)
    ensures ReadCommand(["revoke", "--non-interactive", "--cert-name", domain, "--delete-after-revoke"])
         == Some(Invocation("revoke", nonInteractive := true, certName := Some(domain), deleteAfter := true))
  {
    var inv := Invocation("revoke");
    assert ReadCommand(["revoke"]) == Some(inv);
    AppendFlag(["revoke"], inv, "--non-interactive");
    inv := inv.(nonInteractive := true);
    var args := ["revoke"] + ["--non-interactive"];
    AppendValue(args, inv, "--cert-name", domain);
    AppendFlag(args + ["--cert-name", domain], inv.(certName := Some(domain)), "--delete-after-revoke");
    assert args + ["--cert-name", domain] + ["--delete-after-revoke"]
        == ["revoke", "--non-interactive", "--cert-name", domain, "--delete-after-revoke"];
  }

  method RevokeArgs(req: Request, domain: string) returns (r: Result<seq<string>>)
    ensures match r
      case Ok(args) =>
        && (req.revokeReason == "" || ValidRevokeReason(req.revokeReason))
        && ReadCommand(args) == Some(RevokeInvocation(req, domain))
        && args == ["revoke", "--non-interactive", "--cert-name", domain, "--delete-after-revoke"]
           + (if req.revokeReason == "" then [] else ["--reason", req.revokeReason])
      case Err(e) => e == UnsupportedReason && req.revokeReason != "" && !ValidRevokeReason(req.revokeReason)
  {
    hide ReadCommand;
    var args := ["revoke", "--non-interactive", "--cert-name", domain, "--delete-after-revoke"];
    RevokeHead(domain);
    ghost var inv := ReadCommand(args).value;
    if req.revokeReason != "" {
      if !ValidRevokeReason(req.revokeReason) { return Err(UnsupportedReason); }
      AppendValue(args, inv, "--reason", req.revokeReason);
      args := args + ["--reason", req.revokeReason];
    }
    return Ok(args);
  }

  // ---- The whole command -------------------------------------------------------------------------------------

  /** The normalised names of a request, the primary one first and none twice; None if one is refused. */
  function Names(req: Request): Option<seq<string>> {
    match (Normalized(req.domain), AllNormalized(req.domains))
    case (Some(d), Some(ds)) => Some(FirstOccurrences([d] + ds))
    case _ => None
  }

  /** x is what one of the given names normalises to. */
  ghost predicate IsInput(req: Request, x: string) {
    Normalized(req.domain) == Some(x) || exists k: nat | k < |req.domains| :: Normalized(req.domains[k]) == Some(x)
  }

  /** The names of a certificate: the primary one first, none twice, and together the normalised inputs. */
  lemma NamesAreTheInputs(req: Request)
    requires Names(req).Some?
    ensures Names(req).value != [] && Normalized(req.domain) == Some(Names(req).value[0])
    ensures forall i, j | 0 <= i < j < |Names(req).value| :: Names(req).value[i] != Names(req).value[j]
    ensures forall x :: x in Names(req).value <==> IsInput(req, x)
  {
    var d, ds := Normalized(req.domain).value, AllNormalized(req.domains).value;
    var names := Names(req).value;
    FirstStaysFirst([d] + ds);
    forall i, j | 0 <= i < j < |names| ensures names[i] != names[j] { NamesAreDistinct([d] + ds, i, j); }
    forall x ensures x in names <==> IsInput(req, x) { NameIsInput(req, x); }
  }

  lemma NameIsInput(req: Request, x: string)
    requires Names(req).Some?
    ensures x in Names(req).value <==> IsInput(req, x)
  {
    var d, ds := Normalized(req.domain).value, AllNormalized(req.domains).value;
    SameNames([d] + ds, x);
    ListedIsInput(req.domains, x);
    hide Normalized, AllNormalized, FirstOccurrences;
    assert x in [d] + ds <==> x == d || x in ds;
  }

  lemma ListedIsInput(raws: seq<string>, x: string)
    requires AllNormalized(raws).Some?
    ensures x in AllNormalized(raws).value <==> exists k: nat | k < |raws| :: Normalized(raws[k]) == Some(x)
  {
    EachNormalized(raws);
    hide Normalized, AllNormalized;
    var ds := AllNormalized(raws).value;
    if x in ds {
      var k :| 0 <= k < |ds| && ds[k] == x;
      assert Normalized(raws[k]) == Some(x);
    }
  }

  /** What the arguments say, or nothing for a request that is refused. */
  function Intended(req: Request): Option<Invocation> {
    if Names(req).None? then
      None
    else if req.action == "issue" then
      if !Blank(req.email) && ChallengeFits(req.challenge, req.webrootPath)
      then Some(IssueInvocation(req, Normalized(req.domain).value, Names(req).value)) else None
    else if req.action == "renew" then
      if req.webrootPath == "" || IsAbs(req.webrootPath)
      then Some(RenewInvocation(req, Normalized(req.domain).value)) else None
    else if req.action == "revoke" then
      if req.revokeReason == "" || ValidRevokeReason(req.revokeReason)
      then Some(RevokeInvocation(req, Normalized(req.domain).value)) else None
    else
      None
  }

  /** The requests that are accepted, field by field. */
  lemma AcceptedExactly(req: Request)
    ensures Intended(req).Some? <==>
      && Normalized(req.domain).Some? && (forall i | 0 <= i < |req.domains| :: Normalized(req.domains[i]).Some?)
      && (|| (req.action == "issue" && !Blank(req.email)
              && (|| ((req.challenge == "" || req.challenge == "standalone") && req.webrootPath == "")
                  || (req.challenge == "webroot" && req.webrootPath != "" && req.webrootPath[0] == '/')))
          || (req.action == "renew" && (req.webrootPath == "" || req.webrootPath[0] == '/'))
          || (req.action == "revoke"
              && (|| req.revokeReason == "" || req.revokeReason == "keycompromise"
                  || req.revokeReason == "affiliationchanged" || req.revokeReason == "superseded"
                  || req.revokeReason == "cessationofoperation")))
  {
    NamesExactly(req);
    hide Names, Normalized, Blank;
  }

  lemma NamesExactly(req: Request)
    ensures Names(req).Some? <==>
      Normalized(req.domain).Some? && forall i | 0 <= i < |req.domains| :: Normalized(req.domains[i]).Some?
  {
    hide Normalized, FirstOccurrences;
    AllOrNone(req.domains);
  }

  lemma {:induction false} AllOrNone(raws: seq<string>)
    ensures AllNormalized(raws).Some? <==> forall i | 0 <= i < |raws| :: Normalized(raws[i]).Some?
  {
    hide Normalized;
    if raws != [] {
      var n := |raws| - 1;
      AllOrNone(raws[..n]);
      assert forall i | 0 <= i < n :: raws[..n][i] == raws[i];
    }
  }

  /** Why a request is refused: its names come first, its action last. */
  ghost predicate Reason(req: Request, e: CertError) {
    match e
    case BadDomain(error) => Normalized(req.domain).None? && Explains(Canonical(req.domain), error)
    case BadExtraDomain(error) => Normalized(req.domain).Some? && exists k: nat :: RefusedAt(req.domains, k, error)
    case EmailRequired => Names(req).Some? && req.action == "issue" && Blank(req.email)
    case UnsupportedReason => Names(req).Some? && req.action == "revoke"
    case UnsupportedAction =>
      Names(req).Some? && req.action != "issue" && req.action != "renew" && req.action != "revoke"
    case _ =>
      Names(req).Some? &&
      if req.action == "issue" then !Blank(req.email) && ChallengeRefused(req.challenge, req.webrootPath, e)
      else req.action == "renew" && e == WebrootRelative
  }

  const LIVE := ["etc", "letsencrypt", "live"]

  lemma LiveParts()
    ensures AllComponents(LIVE)
    ensures IsComponent("fullchain.pem") && IsComponent("privkey.pem")
  {
    assert IsComponent("etc") && IsComponent("letsencrypt") && IsComponent("live");
  }

  lemma LiveText()
    ensures "letsencrypt" + ['/'] + "live" == "letsencrypt/live"
  {}

  lemma LiveDirText()
    ensures LIVE_DIR == "/" + ("etc" + ['/'] + "letsencrypt/live")
  {}

  lemma LiveDir()
    ensures LIVE_DIR == Rooted(LIVE)
  {
    JoinThree("etc", "letsencrypt", "live");
    hide Join;
    assert Join(LIVE, '/') == "etc" + ['/'] + "letsencrypt/live" by { LiveText(); }
    LiveDirText();
  }

  lemma JoinThree(x: string, y: string, z: string)
    ensures Join([x, y, z], '/') == x + ['/'] + (y + ['/'] + z)
  {
    JoinFirst(x, [y, z], '/');
    JoinFirst(y, [z], '/');
    assert [x] + [y, z] == [x, y, z] && [y] + [z] == [y, z];
  }

  /** An accepted domain is one directory entry: neither empty, nor a dot name, nor with a slash. */
  lemma DomainIsComponent(d: string)
    requires ValidDomain(d)
    ensures IsComponent(d)
  {
    LabelRunes(d);
    var labels := Split(d, '.');
    assert ValidLabel(labels[0]);
    var n := IndexOf(d, '.');
    assert labels[0] == d[..n];
    assert d[0] == labels[0][0];
  }

  /** A path joined from the live directory and some plain names has exactly these components. */
  lemma PathBelowLive(names: seq<string>)
    requires names != [] && AllComponents(names)
    ensures PathJoin([LIVE_DIR] + names) == Rooted(LIVE + names)
    ensures Split(Rooted(LIVE + names), '/') == [""] + LIVE + names
  {
    LiveDir();
    LiveParts();
    hide PathJoin, Rooted, Split, IsComponent;
    PathJoinAppends(LIVE, names);
  }

  /** The three paths of a report: the live directory, the domain as one component, at most one fixed file name. */
  lemma ReportedPaths(d: string)
    requires ValidDomain(d)
    ensures PathJoin([LIVE_DIR, d]) == Rooted(LIVE + [d])
    ensures PathJoin([LIVE_DIR, d, "fullchain.pem"]) == Rooted(LIVE + [d, "fullchain.pem"])
    ensures PathJoin([LIVE_DIR, d, "privkey.pem"]) == Rooted(LIVE + [d, "privkey.pem"])
    ensures Split(Rooted(LIVE + [d]), '/') == [""] + LIVE + [d]
  {
    DomainIsComponent(d);
    LiveParts();
    hide PathJoin, Rooted, ValidDomain, Split, IsComponent;
    PathBelowLive([d]);
    PathBelowLive([d, "fullchain.pem"]);
    PathBelowLive([d, "privkey.pem"]);
    ListOf(LIVE_DIR, d, "fullchain.pem");
    ListOf(LIVE_DIR, d, "privkey.pem");
  }

  /** The method as named or by default, and the paths as text. */
  predicate IsPlain(req: Request, report: Report) {
    && report.challenge ==
       (if req.action != "issue" then "" else if req.challenge == "webroot" then "webroot" else "standalone")
    && report.certificateDir == "/etc/letsencrypt/live" + "/" + report.domain
    && report.fullchainPath == "/etc/letsencrypt/live" + "/" + report.domain + "/" + "fullchain.pem"
    && report.privateKeyPath == "/etc/letsencrypt/live" + "/" + report.domain + "/" + "privkey.pem"
  }

  lemma ReportIsPlain(req: Request, report: Report)
    requires report.certificateDir == Rooted(LIVE + [report.domain])
    requires report.fullchainPath == Rooted(LIVE + [report.domain, "fullchain.pem"])
    requires report.privateKeyPath == Rooted(LIVE + [report.domain, "privkey.pem"])
    requires req.action == "issue" ==>
      ChallengeFits(req.challenge, req.webrootPath) && report.challenge == Chosen(req.challenge)
    requires req.action != "issue" ==> report.challenge == ""
    ensures IsPlain(req, report)
  {
    PathTexts(report.domain);
    hide Rooted;
  }

  /** The paths as text. */
  lemma PathTexts(d: string)
    ensures Rooted(LIVE + [d]) == "/etc/letsencrypt/live" + "/" + d
    ensures Rooted(LIVE + [d, "fullchain.pem"]) == "/etc/letsencrypt/live" + "/" + d + "/" + "fullchain.pem"
    ensures Rooted(LIVE + [d, "privkey.pem"]) == "/etc/letsencrypt/live" + "/" + d + "/" + "privkey.pem"
  {
    LiveDir();
    assert LIVE_DIR == "/etc/letsencrypt/live";
    hide Rooted;
    RootedMore(LIVE, [d]);
    RootedMore(LIVE + [d], ["fullchain.pem"]);
    RootedMore(LIVE + [d], ["privkey.pem"]);
    assert LIVE + [d] + ["fullchain.pem"] == LIVE + [d, "fullchain.pem"];
    assert LIVE + [d] + ["privkey.pem"] == LIVE + [d, "privkey.pem"];
  }

  lemma RootedMore(dir: seq<string>, names: seq<string>)
    requires dir != [] && |names| == 1
    ensures Rooted(dir + names) == Rooted(dir) + "/" + names[0]
  {
    JoinJoin(dir, names, '/');
    hide Join;
    assert Join(names, '/') == names[0] by { assert names == [names[0]]; JoinFirst(names[0], names, '/'); }
    var a := Join(dir, '/');
    assert "/" + (a + ['/'] + names[0]) == ("/" + a) + "/" + names[0];
  }

  lemma ListOf(x: string, y: string, z: string)
    ensures [x] + [y] == [x, y] && [x] + [y, z] == [x, y, z]
  {}

  /** buildCertbotCommand: it accepts exactly the requests that ask for something, its arguments read back as
      that, and the reported paths stay below the live directory. */
  method BuildCertbotCommand(req: Request) returns (r: Result<(seq<string>, Report)>)
    ensures r.Ok? <==> Intended(req).Some?
    ensures match r
      case Ok((args, report)) =>
        && ReadCommand(args) == Intended(req)
        && report.action == req.action && report.staging == req.staging
        && Normalized(req.domain) == Some(report.domain) && Names(req) == Some(report.domains)
        && report.challenge == (if req.action == "issue" then Chosen(req.challenge) else "")
        && IsPlain(req, report)
        && report.certificateDir == Rooted(LIVE + [report.domain])
        && report.fullchainPath == Rooted(LIVE + [report.domain, "fullchain.pem"])
        && report.privateKeyPath == Rooted(LIVE + [report.domain, "privkey.pem"])
      case Err(e) => Reason(req, e)
  {
    hide ReadCommand, Normalized, AllNormalized, FirstOccurrences, Explains, Canonical, Rooted, PathJoin, ChallengeFits,
      IssueInvocation, RenewInvocation, RevokeInvocation, Blank, ValidRevokeReason, ValidDomain, Chosen,
      KnownChallenge, IsPlain;
    var checked := NormalizeDomain(req.domain);
    if checked.Refused? { return Err(BadDomain(checked.error)); }
    var domain := checked.domain;
    NormalizedIsValid(req.domain);
    var list := NormalizeDomains(domain, req.domains);
    if list.RefusedList? { return Err(BadExtraDomain(list.error)); }
    ReportedPaths(domain);
    var report := Report(
      req.action, domain, list.domains, "", req.staging,
      PathJoin([LIVE_DIR, domain]),
      PathJoin([LIVE_DIR, domain, "fullchain.pem"]),
      PathJoin([LIVE_DIR, domain, "privkey.pem"]));
    if req.action == "issue" {
      var issued := IssueArgs(req, domain, list.domains);
      if issued.Err? { return Err(issued.error); }
      report := report.(challenge := issued.value.1);
      ReportIsPlain(req, report);
      return Ok((issued.value.0, report));
    } else if req.action == "renew" {
      var renewed := RenewArgs(req, domain);
      if renewed.Err? { return Err(renewed.error); }
      ReportIsPlain(req, report);
      return Ok((renewed.value, report));
    } else if req.action == "revoke" {
      var revoked := RevokeArgs(req, domain);
      if revoked.Err? { return Err(revoked.error); }
      ReportIsPlain(req, report);
      return Ok((revoked.value, report));
    } else {
      return Err(UnsupportedAction);
    }
  }

  lemma NormalizedIsValid(raw: string)
    requires Normalized(raw).Some?
    ensures ValidDomain(Normalized(raw).value)
  {}
}
