/** Step 0 of the workspace job: the scrub of the environment, the approval check and the
    one `execve` (images/workspace-apply/entry.py). Regexes, hashes, JSON, the metadata
    server and Firestore are the World; everything decided from their answers is here. */
module ApprovalGate {
  import opened Common
  import opened ModArith
  import opened Curve
  import opened Der
  import opened Ecdsa

  // ----- records ------------------------------------------------------------------------

  /** A Firestore value as Python has it; Other is a number, a boolean or a list. */
  datatype Value =
    | Null
    | Text(text: string)
    | Map(fields: map<string, Value>, printed: string)
    | Other(printed: string, truthy: bool)
  {
    predicate Truthy()
      ensures Truthy() <==> !(this == Null || this == Text("") || (Map? && fields == map[]) || (Other? && !truthy))
    {
      match this
      case Null => false
      case Text(t) => t != ""
      case Map(f, _) => f != map[]
      case Other(_, t) => t
    }

    /** `str(...)`. */
    function Shown(): string {
      match this
      case Null => "None"
      case Text(t) => t
      case Map(_, p) => p
      case Other(p, _) => p
    }

    /** `str(... or "")`. */
    function ShownOrEmpty(): string {
      if Truthy() then Shown() else ""
    }
  }

  type Record = map<string, Value>

  function Get(r: Record, key: string): Value {
    if key in r then r[key] else Null
  }

  /** `x if isinstance(x, Mapping) else {}`. */
  function SubRecord(r: Record, key: string): Record {
    if Get(r, key).Map? then Get(r, key).fields else map[]
  }

  function KindOf(r: Record): string {
    if Get(r, "kind").Null? then "personal" else Get(r, "kind").Shown()
  }

  datatype Pin = Pin(workspaceId: string, tenantId: string, kind: string, principal: string, verified: bool)

  function PinOf(r: Record, verified: bool): Pin {
    Pin(Get(r, "workspace_id").ShownOrEmpty(), Get(r, "tenant_id").ShownOrEmpty(), KindOf(r),
        Get(r, "principal").ShownOrEmpty(), verified)
  }

  // ----- everything outside -------------------------------------------------------------

  datatype Document = Document(name: string, updateTime: string, fields: Record)

  datatype Answer = Unanswered | Documents(docs: seq<Document>)

  datatype World = World(
    domain: Domain,
    normal: string -> string,                         // .strip().lower()
    base64: string -> Option<seq<byte>>,
    trusts: (string, string) -> bool,                 // trusted_version
    canonical: Payload -> Option<seq<byte>>,          // canonical_approval
    digest: seq<byte> -> seq<byte>,                   // specsign.spec_digest
    pemDer: string -> Option<seq<byte>>,              // the PEM armour, undone
    isKeysPin: string -> bool,
    signing: string -> Option<(string, string)>,      // SIGNING_KEY_RE: (key, its project)
    isWorkspace: string -> bool,
    isExecution: string -> bool,
    isProject: string -> bool,
    isRegion: string -> bool,
    keysPin: string -> string,                        // verify_keys_pin
    parseKeys: string -> Option<map<string, string>>, // parse_verify_keys
    lastSegment: string -> string,
    metadata: string -> Option<string>,               // None: it did not answer
    query: (string, string) -> Answer,                // project, workspace id
    commits: Write -> bool,                           // false: Firestore did not answer
    now: string,
    encodePin: Pin -> string)

  // ----- the approval -------------------------------------------------------------------

  datatype Payload = Payload(workspaceId: string, tenantId: string, kind: string, principal: string,
                             decidedBy: string, decidedAt: string, requestId: string)

  datatype Reason =
    | NoApproval | OtherApprover | OtherRequest | NotCovered | NoSignature | NotBase64
    | UntrustedKey | VersionNotGiven | NotCanonical | NotAKey | DoesNotVerify

  datatype Signed = Signed(payload: Payload, keyVersion: string, der: seq<byte>) | Unsigned(why: Reason)

  /** The approvers the record itself names, normalised. */
  function Deciders(w: World, r: Record): set<string> {
    var first, again := Get(SubRecord(r, "decision"), "by"), Get(SubRecord(r, "retry"), "by");
    (if first.Truthy() then {w.normal(first.Shown())} else {})
    + (if again.Truthy() then {w.normal(again.Shown())} else {})
  }

  predicate NonEmptyText(v: Value) {
    v.Text? && v.text != ""
  }

  /** `approval_payload`. */
  function ApprovalPayload(w: World, r: Record): Signed {
    if !Get(r, "approval").Map? then Unsigned(NoApproval) else
    var approval := Get(r, "approval").fields;
    var decidedBy := Get(approval, "decided_by").ShownOrEmpty();
    if decidedBy == "" || decidedBy !in Deciders(w, r) then Unsigned(OtherApprover)
    else if Get(approval, "request_id") != Get(r, "request_id") then Unsigned(OtherRequest)
    else if !NonEmptyText(Get(r, "workspace_id")) || !NonEmptyText(Get(r, "tenant_id")) || KindOf(r) == ""
         || !NonEmptyText(Get(r, "principal")) || !NonEmptyText(Get(approval, "decided_at"))
         || !NonEmptyText(Get(r, "request_id")) then Unsigned(NotCovered)
    else if !Get(approval, "key_version").Text? || !NonEmptyText(Get(approval, "signature")) then Unsigned(NoSignature)
    else
      match w.base64(Get(approval, "signature").text)
      case None => Unsigned(NotBase64)
      case Some(der) =>
        Signed(Payload(Get(r, "workspace_id").text, Get(r, "tenant_id").text, KindOf(r), Get(r, "principal").text,
                       decidedBy, Get(approval, "decided_at").text, Get(r, "request_id").text),
               Get(approval, "key_version").text, der)
  }

  datatype Verdict = Verified | Rejected(why: Reason)

  /** `verify_approval`. */
  function Verify(w: World, r: Record, signingKey: string, keys: map<string, string>): Verdict
    requires Good(w.domain)
  {
    match ApprovalPayload(w, r)
    case Unsigned(why) => Rejected(why)
    case Signed(payload, keyVersion, der) =>
      if !w.trusts(signingKey, keyVersion) then Rejected(UntrustedKey)
      else if keyVersion !in keys then Rejected(VersionNotGiven)
      else
        match w.canonical(payload)
        case None => Rejected(NotCanonical)
        case Some(bytes) =>
          match KeyOf(w, keys[keyVersion])
          case None => Rejected(NotAKey)
          case Some(key) =>
            if Accepts(w.domain, key, w.digest(bytes), der) then Verified else Rejected(DoesNotVerify)
  }

  /** `p256_public_key`. */
  function KeyOf(w: World, pem: string): (r: Option<Point>)
    requires Good(w.domain)
    ensures r.Some? ==> OnCurve(w.domain.curve, r.value)
  {
    match w.pemDer(pem)
    case None => None
    case Some(der) => PublicKey(w.domain.curve, der)
  }

  // ----- effects ------------------------------------------------------------------------

  /** The one write of a refused approval: conditional on the record being the one read. */
  datatype Write = Write(
    name: string, state: string, step: string, code: string, retryable: bool, at: string,
    admitted: bool, reason: Reason, kind: string, requestId: string, execution: string, mode: string,
    onlyIfUpdatedAt: string)

  function UnsignedWrite(w: World, doc: Document, execution: string, mode: string, why: Reason): Write {
    Write(doc.name, "needs_owner", "A1", "APPROVAL_UNSIGNED", false, w.now,
          false, why, KindOf(doc.fields), Get(doc.fields, "request_id").ShownOrEmpty(), execution, mode,
          doc.updateTime)
  }

  datatype Effect =
    | Commit(write: Write)
    | Exec(program: string, args: seq<string>, env: map<string, string>)

  datatype Refusal =
    | ArgumentCount | NotAKeysPin | NotASigningKey | NotAWorkspace | NotAMode | TaskCount | TaskIndex
    | NotAnExecution | KeysNotPinned | KeysNotParsed | NoMetadata | NotAProject | NotARegion
    | KeyOfAnotherProject | NoCloud | NotOneRecord | RecordOfAnother

  datatype Outcome<+T> = Ok(value: T) | Refused(why: Refusal)

  // ----- the plan -----------------------------------------------------------------------

  const TIMEOUT := "/usr/bin/timeout"
  const APPROVAL_PIN := "SWARM_APPROVAL_PIN"

  /** The four names step 0 reads; nothing else of the environment is looked at. */
  const FOUR_NAMES: set<string> :=
    {"CLOUD_RUN_EXECUTION", "CLOUD_RUN_TASK_COUNT", "CLOUD_RUN_TASK_INDEX", "SPEC_VERIFY_KEYS"}

  datatype Planned = Planned(args: seq<string>, env: map<string, string>, workspaceId: string, mode: string,
                             project: string, region: string, execution: string, keys: map<string, string>,
                             signingKey: string)

  /** Step 1's fixed environment. */
  function FixedEnvironment(project: string, region: string, work: string, execution: string): map<string, string> {
    map["PATH" := "/usr/local/sbin:/usr/local/bin:/usr/sbin:/usr/bin:/sbin:/bin:/usr/lib/google-cloud-sdk/bin",
        "HOME" := work + "/home",
        "PROJECT_ID" := project,
        "REGION" := region,
        "SWARM_ENV_FILE" := work + "/no-env-file",
        "SWARM_CALL_GUARD" := work + "/guard/expect.json",
        "SWARM_CALL_GUARD_ENFORCE" := "1",
        "SWARM_KUBECTL" := "/usr/local/bin/kubectl",
        "CLOUDSDK_PYTHON" := "/usr/bin/python3",
        "BUILD_ID" := execution,
        "NO_COLOR" := "1"]
  }

  /** The names whose values live under the run's scratch directory. */
  const SCRATCH_NAMES: set<string> := {"HOME", "SWARM_ENV_FILE", "SWARM_CALL_GUARD"}

  /** `plan`, on the environment as it was before it was emptied. */
  function PlanOf(w: World, argv: seq<string>, environ: map<string, string>, work: string): Outcome<Planned> {
    PlanFrom(w, argv, Lookup(environ, "CLOUD_RUN_EXECUTION"), Lookup(environ, "CLOUD_RUN_TASK_COUNT"),
             Lookup(environ, "CLOUD_RUN_TASK_INDEX"), Lookup(environ, "SPEC_VERIFY_KEYS"), work)
  }

  function PlanFrom(w: World, argv: seq<string>, execution: Option<string>, taskCount: Option<string>,
                    taskIndex: Option<string>, rawKeys: Option<string>, work: string): Outcome<Planned> {
    if |argv| != 4 then Refused(ArgumentCount)
    else if !w.isKeysPin(argv[0]) then Refused(NotAKeysPin)
    else if w.signing(argv[1]).None? then Refused(NotASigningKey)
    else if !w.isWorkspace(argv[2]) then Refused(NotAWorkspace)
    else if argv[3] !in {"create", "limits"} then Refused(NotAMode)
    else if taskCount != Some("1") then Refused(TaskCount)
    else if taskIndex != Some("0") then Refused(TaskIndex)
    else if execution.None? || !w.isExecution(execution.value) then Refused(NotAnExecution)
    else if rawKeys.None? || w.keysPin(rawKeys.value) != argv[0] then Refused(KeysNotPinned)
    else if w.parseKeys(rawKeys.value).None? then Refused(KeysNotParsed)
    else PlanInProject(w, argv[1], argv[2], argv[3], execution.value, w.parseKeys(rawKeys.value).value, work)
  }

  function PlanInProject(w: World, signingArg: string, workspaceId: string, mode: string, execution: string,
                         keys: map<string, string>, work: string): Outcome<Planned>
    requires w.signing(signingArg).Some?
  {
    match ProjectRefusal(w, signingArg)
    case Some(why) => Refused(why)
    case None =>
      var project, region := w.metadata("project/project-id").value, w.lastSegment(w.metadata("instance/region").value);
      Ok(Planned(
        [TIMEOUT, "--kill-after=30s", "1800s", "/bin/bash", "/opt/swarm/scripts/workspace-apply.sh", workspaceId, mode],
        FixedEnvironment(project, region, work, execution),
        workspaceId, mode, project, region, execution, keys, w.signing(signingArg).value.0))
  }

  /** What the metadata server's answers refuse, if anything. */
  function ProjectRefusal(w: World, signingArg: string): (r: Option<Refusal>)
    requires w.signing(signingArg).Some?
    ensures r.None? ==> w.metadata("project/project-id").Some? && w.metadata("instance/region").Some?
  {
    var project, zone := w.metadata("project/project-id"), w.metadata("instance/region");
    if project.None? || zone.None? then Some(NoMetadata)
    else if !w.isProject(project.value) then Some(NotAProject)
    else if !w.isRegion(w.lastSegment(zone.value)) then Some(NotARegion)
    else if w.signing(signingArg).value.1 != project.value then Some(KeyOfAnotherProject)
    else None
  }

  // ----- the gate -----------------------------------------------------------------------

  /** The records whose approval is verified: an approved group or service. */
  predicate Gated(r: Record) {
    KindOf(r) in {"group", "service"} && Get(SubRecord(r, "decision"), "verdict") == Text("approved")
  }

  /** `Cloud.record` and the check that the record found is the one asked for. */
  function RecordOf(w: World, p: Planned): Outcome<Document> {
    match w.query(p.project, p.workspaceId)
    case Unanswered => Refused(NoCloud)
    case Documents(docs) =>
      if |docs| != 1 then Refused(NotOneRecord)
      else if Get(docs[0].fields, "workspace_id") != Text(p.workspaceId) then Refused(RecordOfAnother)
      else Ok(docs[0])
  }

  /** `approval_gate`: the pin, or None when the run stopped for the owner; and its writes. */
  function GateOf(w: World, p: Planned): (Outcome<Option<Pin>>, seq<Effect>)
    requires Good(w.domain)
  {
    match RecordOf(w, p)
    case Refused(why) => (Refused(why), [])
    case Ok(doc) =>
      if !Gated(doc.fields) then (Ok(Some(PinOf(doc.fields, false))), [])
      else
        match Verify(w, doc.fields, p.signingKey, p.keys)
        case Verified => (Ok(Some(PinOf(doc.fields, true))), [])
        case Rejected(why) =>
          var write := UnsignedWrite(w, doc, p.execution, p.mode, why);
          (if w.commits(write) then Ok(None) else Refused(NoCloud), [Commit(write)])
  }

  /** `main` once planned: the exit code and everything it did. */
  function Proceed(w: World, p: Planned): (int, seq<Effect>)
    requires Good(w.domain)
  {
    match GateOf(w, p)
    case (Refused(_), effects) => (1, effects)
    case (Ok(None), effects) => (0, effects)
    case (Ok(Some(pin)), effects) =>
      (0, effects + [Exec(TIMEOUT, p.args, p.env[APPROVAL_PIN := w.encodePin(pin)])])
  }

  /** `main`. */
  function RunOf(w: World, argv: seq<string>, environ: map<string, string>, work: string): (int, seq<Effect>)
    requires Good(w.domain)
  {
    match PlanOf(w, argv, environ, work)
    case Refused(_) => (1, [])
    case Ok(p) => Proceed(w, p)
  }

  /** The process: its environment, emptied first, and what it has done. */
  class Process {
    var environ: map<string, string>
    var effects: seq<Effect>

    constructor (environ: map<string, string>)
      ensures this.environ == environ && effects == []
    {
      this.environ := environ;
      effects := [];
    }

    /** `plan`: the environment is empty afterwards, refused or not. */
    method Plan(w: World, argv: seq<string>, work: string) returns (r: Outcome<Planned>)
      modifies this`environ
      ensures environ == map[]
      ensures r == PlanOf(w, argv, old(environ), work)
    {
      var execution := Lookup(environ, "CLOUD_RUN_EXECUTION");
      var taskCount := Lookup(environ, "CLOUD_RUN_TASK_COUNT");
      var taskIndex := Lookup(environ, "CLOUD_RUN_TASK_INDEX");
      var rawKeys := Lookup(environ, "SPEC_VERIFY_KEYS");
      environ := map[];
      if |argv| != 4 { return Refused(ArgumentCount); }
      if !w.isKeysPin(argv[0]) { return Refused(NotAKeysPin); }
      if w.signing(argv[1]).None? { return Refused(NotASigningKey); }
      if !w.isWorkspace(argv[2]) { return Refused(NotAWorkspace); }
      if argv[3] !in {"create", "limits"} { return Refused(NotAMode); }
      if taskCount != Some("1") { return Refused(TaskCount); }
      if taskIndex != Some("0") { return Refused(TaskIndex); }
      if execution.None? || !w.isExecution(execution.value) { return Refused(NotAnExecution); }
      if rawKeys.None? || w.keysPin(rawKeys.value) != argv[0] { return Refused(KeysNotPinned); }
      var keys := w.parseKeys(rawKeys.value);
      if keys.None? { return Refused(KeysNotParsed); }
      r := PlanInProject(w, argv[1], argv[2], argv[3], execution.value, keys.value, work);
    }

    /** `approval_gate`. */
    method Gate(w: World, p: Planned) returns (r: Outcome<Option<Pin>>)
      requires Good(w.domain)
      modifies this`effects
      ensures r == GateOf(w, p).0
      ensures effects == old(effects) + GateOf(w, p).1
    {
      var found := RecordOf(w, p);
      if found.Refused? {
        return Refused(found.why);
      }
      var doc := found.value;
      if !Gated(doc.fields) {
        return Ok(Some(PinOf(doc.fields, false)));
      }
      var verdict := Verify(w, doc.fields, p.signingKey, p.keys);
      if verdict.Rejected? {
        var write := UnsignedWrite(w, doc, p.execution, p.mode, verdict.why);
        effects := effects + [Commit(write)];
        return if w.commits(write) then Ok(None) else Refused(NoCloud);
      }
      return Ok(Some(PinOf(doc.fields, true)));
    }

    /** `main`. */
    method Run(w: World, argv: seq<string>, work: string) returns (code: int)
      requires Good(w.domain)
      modifies this
      ensures environ == map[]
      ensures code == RunOf(w, argv, old(environ), work).0
      ensures effects == old(effects) + RunOf(w, argv, old(environ), work).1
    {
      var planned := Plan(w, argv, work);
      if planned.Refused? {
        return 1;
      }
      var p := planned.value;
      var pin := Gate(w, p);
      if pin.Refused? {
        return 1;
      }
      if pin.value.None? {
        return 0;
      }
      effects := effects + [Exec(TIMEOUT, p.args, p.env[APPROVAL_PIN := w.encodePin(pin.value.value)])];
      return 0;
    }
  }

  // ----- what a run does ----------------------------------------------------------------

  /** The value prints as this name; a missing one prints as none. */
  predicate Prints(v: Value, name: string) {
    match v
    case Null => false
    case Text(t) => t == name
    case Map(_, p) => p == name
    case Other(p, _) => p == name
  }

  /** The record is a group's or a service's, and its decision approves it. */
  predicate MustBeSigned(r: Record) {
    "kind" in r && (Prints(r["kind"], "group") || Prints(r["kind"], "service"))
    && "decision" in r && r["decision"].Map?
    && "verdict" in r["decision"].fields && r["decision"].fields["verdict"] == Text("approved")
  }

  lemma {:induction false} GatedExactly(r: Record)
    ensures Gated(r) <==> MustBeSigned(r)
  {
    assert Get(r, "kind").Null? ==> KindOf(r) == "personal";
  }

  /** Firestore answers with this one document, and it names the workspace asked for. */
  predicate Found(w: World, p: Planned, doc: Document) {
    w.query(p.project, p.workspaceId) == Documents([doc])
    && "workspace_id" in doc.fields && doc.fields["workspace_id"] == Text(p.workspaceId)
  }

  lemma {:induction false} FoundExactly(w: World, p: Planned, doc: Document)
    ensures RecordOf(w, p) == Ok(doc) <==> Found(w, p, doc)
  {
    var answer := w.query(p.project, p.workspaceId);
    if answer.Documents? && |answer.docs| == 1 {
      assert answer.docs == [answer.docs[0]];
    }
  }

  /** The record found may be acted on: if it must be signed, it verifies. */
  predicate Cleared(w: World, p: Planned, doc: Document)
    requires Good(w.domain)
  {
    Found(w, p, doc) && (MustBeSigned(doc.fields) ==> Verify(w, doc.fields, p.signingKey, p.keys).Verified?)
  }

  /** The one execution a cleared plan leads to; its pin says which record was read and
      whether that record was verified. */
  ghost predicate Executes(w: World, p: Planned, doc: Document, e: Effect) {
    exists pin: Pin ::
      e == Exec("/usr/bin/timeout", p.args, p.env["SWARM_APPROVAL_PIN" := w.encodePin(pin)])
      && Pins(p, doc, pin)
  }

  predicate Pins(p: Planned, doc: Document, pin: Pin) {
    pin.workspaceId == p.workspaceId && pin.tenantId == Get(doc.fields, "tenant_id").ShownOrEmpty()
    && pin.principal == Get(doc.fields, "principal").ShownOrEmpty()
    && (if Get(doc.fields, "kind") == Null then pin.kind == "personal" else Prints(Get(doc.fields, "kind"), pin.kind))
    && pin.verified == MustBeSigned(doc.fields)
  }

  lemma {:induction false} PinPins(p: Planned, doc: Document, verified: bool)
    requires Get(doc.fields, "workspace_id") == Text(p.workspaceId) && verified == MustBeSigned(doc.fields)
    ensures Pins(p, doc, PinOf(doc.fields, verified))
  {
  }

  /** A planned run with its record found. */
  lemma {:induction false} ProceedsExactly(w: World, p: Planned, doc: Document)
    requires Good(w.domain) && Found(w, p, doc)
    ensures var (code, effects) := Proceed(w, p);
            if Cleared(w, p, doc) then code == 0 && |effects| == 1 && Executes(w, p, doc, effects[0])
            else |effects| == 1 && effects[0].Commit? && AsksOwner(w, p, effects[0].write, doc)
                 && code == (if w.commits(effects[0].write) then 0 else 1)
  {
    FoundExactly(w, p, doc);
    GatedExactly(doc.fields);
    PinPins(p, doc, MustBeSigned(doc.fields));
  }

  lemma {:induction false} StopsUnfound(w: World, p: Planned)
    requires Good(w.domain) && forall doc :: !Found(w, p, doc)
    ensures Proceed(w, p) == (1, [])
  {
    if RecordOf(w, p).Ok? {
      FoundExactly(w, p, RecordOf(w, p).value);
    }
  }

  ghost predicate FoundAny(w: World, p: Planned) {
    exists doc :: Found(w, p, doc)
  }

  /** A run executes the next program exactly when the plan holds and the record is cleared;
      an approved group or service record is cleared only by its own verified approval. The
      run then does nothing else. */
  lemma {:induction false} ExecutesExactly(w: World, argv: seq<string>, environ: map<string, string>, work: string, doc: Document)
    requires Good(w.domain)
    ensures var (code, effects) := RunOf(w, argv, environ, work);
            var plan := PlanOf(w, argv, environ, work);
            && (plan.Ok? && Cleared(w, plan.value, doc) ==>
                  code == 0 && |effects| == 1 && Executes(w, plan.value, doc, effects[0]))
            && (plan.Ok? && Found(w, plan.value, doc) && !Cleared(w, plan.value, doc) ==> forall e :: e in effects ==> e.Commit?)
            && (plan.Refused? || !FoundAny(w, plan.value) ==> code == 1 && effects == [])
  {
    var plan := PlanOf(w, argv, environ, work);
    if plan.Ok? {
      if Found(w, plan.value, doc) {
        ProceedsExactly(w, plan.value, doc);
      }
      if !FoundAny(w, plan.value) {
        StopsUnfound(w, plan.value);
      }
    }
  }

  /** Nothing of the caller's environment is left, and what could write does so under the run's
      scratch directory. */
  ghost predicate IsolatedEnvironment(env: map<string, string>, project: string, region: string, execution: string, work: string) {
    env.Keys == {"PATH", "HOME", "PROJECT_ID", "REGION", "SWARM_ENV_FILE", "SWARM_CALL_GUARD", "SWARM_CALL_GUARD_ENFORCE",
                 "SWARM_KUBECTL", "CLOUDSDK_PYTHON", "BUILD_ID", "NO_COLOR"}
    && env["PROJECT_ID"] == project && env["REGION"] == region && env["BUILD_ID"] == execution
    && env["HOME"] == work + "/home" && env["SWARM_ENV_FILE"] == work + "/no-env-file"
    && env["SWARM_CALL_GUARD"] == work + "/guard/expect.json" && env["SWARM_CALL_GUARD_ENFORCE"] == "1"
    && env["SWARM_KUBECTL"] == "/usr/local/bin/kubectl" && env["CLOUDSDK_PYTHON"] == "/usr/bin/python3"
    && env["PATH"] == "/usr/local/sbin:/usr/local/bin:/usr/sbin:/usr/bin:/sbin:/bin:/usr/lib/google-cloud-sdk/bin"
  }

  lemma {:induction false} EnvironmentIsolates(project: string, region: string, work: string, execution: string)
    ensures IsolatedEnvironment(FixedEnvironment(project, region, work, execution), project, region, execution, work)
  {
  }

  lemma {:induction false} PlannedFrom(w: World, argv: seq<string>, environ: map<string, string>, work: string, p: Planned)
    requires PlanOf(w, argv, environ, work) == Ok(p)
    ensures |argv| == 4 && p.workspaceId == argv[2] && p.mode == argv[3]
    ensures p.args == ["/usr/bin/timeout", "--kill-after=30s", "1800s", "/bin/bash", "/opt/swarm/scripts/workspace-apply.sh",
                       argv[2], argv[3]]
    ensures w.metadata("project/project-id") == Some(p.project)
    ensures w.metadata("instance/region").Some? && p.region == w.lastSegment(w.metadata("instance/region").value)
    ensures p.env == FixedEnvironment(p.project, p.region, work, p.execution)
    ensures w.signing(argv[1]) == Some((p.signingKey, p.project))
    ensures Lookup(environ, "CLOUD_RUN_EXECUTION") == Some(p.execution)
    ensures var raw := Lookup(environ, "SPEC_VERIFY_KEYS"); raw.Some? && w.parseKeys(raw.value) == Some(p.keys)
  {
  }

  /** What is executed names the workspace and mode that were asked for, for the project the
      metadata server names, and checks with the key and versions the command and the job gave. */
  lemma {:induction false} PlannedArguments(w: World, argv: seq<string>, environ: map<string, string>, work: string, p: Planned)
    requires PlanOf(w, argv, environ, work) == Ok(p)
    ensures |argv| == 4 && p.workspaceId == argv[2] && p.mode == argv[3]
    ensures p.args == ["/usr/bin/timeout", "--kill-after=30s", "1800s", "/bin/bash", "/opt/swarm/scripts/workspace-apply.sh",
                       argv[2], argv[3]]
    ensures w.metadata("project/project-id") == Some(p.project)
    ensures w.metadata("instance/region").Some? && p.region == w.lastSegment(w.metadata("instance/region").value)
    ensures IsolatedEnvironment(p.env, p.project, p.region, p.execution, work)
    ensures w.signing(argv[1]) == Some((p.signingKey, p.project))
    ensures "CLOUD_RUN_EXECUTION" in environ && environ["CLOUD_RUN_EXECUTION"] == p.execution
    ensures "SPEC_VERIFY_KEYS" in environ && w.parseKeys(environ["SPEC_VERIFY_KEYS"]) == Some(p.keys)
  {
    PlannedFrom(w, argv, environ, work, p);
    EnvironmentIsolates(p.project, p.region, work, p.execution);
  }

  /** What was verified is what is pinned: the payload's workspace, tenant, kind and principal. */
  lemma {:induction false} VerifiedIsPinned(w: World, r: Record, signingKey: string, keys: map<string, string>)
    requires Good(w.domain) && Verify(w, r, signingKey, keys).Verified?
    ensures var payload := ApprovalPayload(w, r).payload;
            PinOf(r, true) == Pin(payload.workspaceId, payload.tenantId, payload.kind, payload.principal, true)
  {
  }

  /** A plan is made exactly when everything a caller could have chosen passes its check: the
      verify keys are the ones the command pins, the execution is one task and its first, and
      the signing key is one of the project the metadata server names. */
  lemma {:induction false} PlansExactly(w: World, argv: seq<string>, environ: map<string, string>, work: string)
    ensures PlanOf(w, argv, environ, work).Ok?
       <==> |argv| == 4 && Acceptable(w, argv, Lookup(environ, "CLOUD_RUN_EXECUTION"), Lookup(environ, "CLOUD_RUN_TASK_COUNT"),
                                      Lookup(environ, "CLOUD_RUN_TASK_INDEX"), Lookup(environ, "SPEC_VERIFY_KEYS"))
            && InProject(w, argv[1])
  {
    var rawKeys := Lookup(environ, "SPEC_VERIFY_KEYS");
    PlansFromExactly(w, argv, Lookup(environ, "CLOUD_RUN_EXECUTION"), Lookup(environ, "CLOUD_RUN_TASK_COUNT"),
                     Lookup(environ, "CLOUD_RUN_TASK_INDEX"), rawKeys, work);
  }

  predicate Acceptable(w: World, argv: seq<string>, execution: Option<string>, taskCount: Option<string>,
                       taskIndex: Option<string>, rawKeys: Option<string>)
    requires |argv| == 4
  {
    w.isWorkspace(argv[2]) && argv[3] in {"create", "limits"}
    && rawKeys.Some? && w.isKeysPin(argv[0]) && w.keysPin(rawKeys.value) == argv[0] && w.parseKeys(rawKeys.value).Some?
    && taskCount == Some("1") && taskIndex == Some("0") && execution.Some? && w.isExecution(execution.value)
  }

  predicate InProject(w: World, signingArg: string) {
    var project, zone := w.metadata("project/project-id"), w.metadata("instance/region");
    project.Some? && w.isProject(project.value) && zone.Some? && w.isRegion(w.lastSegment(zone.value))
    && w.signing(signingArg).Some? && w.signing(signingArg).value.1 == project.value
  }

  lemma {:induction false} PlansFromExactly(w: World, argv: seq<string>, execution: Option<string>, taskCount: Option<string>,
                                            taskIndex: Option<string>, rawKeys: Option<string>, work: string)
    ensures PlanFrom(w, argv, execution, taskCount, taskIndex, rawKeys, work).Ok?
       <==> |argv| == 4 && Acceptable(w, argv, execution, taskCount, taskIndex, rawKeys) && InProject(w, argv[1])
  {
  }

  /** The owner is asked exactly when an approved group or service record does not verify:
      one conditional write, attempted once, and nothing is executed. */
  lemma {:induction false} StopsForOwnerExactly(w: World, argv: seq<string>, environ: map<string, string>, work: string, p: Planned, doc: Document)
    requires Good(w.domain) && PlanOf(w, argv, environ, work) == Ok(p) && Found(w, p, doc)
    ensures var (code, effects) := RunOf(w, argv, environ, work);
            if MustBeSigned(doc.fields) && !Verify(w, doc.fields, p.signingKey, p.keys).Verified? then
              |effects| == 1 && effects[0].Commit? && AsksOwner(w, p, effects[0].write, doc)
              && code == (if w.commits(effects[0].write) then 0 else 1)
            else forall e :: e in effects ==> e.Exec?
  {
    ProceedsExactly(w, p, doc);
  }

  /** The write stops the record read for its owner, admits nothing, says why, and holds only if
      the record is still the one read. */
  ghost predicate AsksOwner(w: World, p: Planned, write: Write, doc: Document)
    requires Good(w.domain)
  {
    write.name == doc.name && write.onlyIfUpdatedAt == doc.updateTime
    && write.state == "needs_owner" && write.step == "A1" && write.code == "APPROVAL_UNSIGNED"
    && !write.admitted && !write.retryable && write.at == w.now
    && Verify(w, doc.fields, p.signingKey, p.keys) == Rejected(write.reason)
    && Prints(Get(doc.fields, "kind"), write.kind) && write.requestId == Get(doc.fields, "request_id").ShownOrEmpty()
    && write.execution == p.execution && write.mode == p.mode
  }

  /** Who may have decided: the record's own approver, or whoever retried it. */
  predicate Decides(w: World, r: Record, who: string) {
    var first, again := Get(SubRecord(r, "decision"), "by"), Get(SubRecord(r, "retry"), "by");
    (first.Truthy() && who == w.normal(first.Shown())) || (again.Truthy() && who == w.normal(again.Shown()))
  }

  /** The payload a signature is checked over says what the record says, every part of it a text
      that is not empty, and the signature is the one the record carries. */
  ghost predicate PayloadIsTheRecords(w: World, p: Payload, keyVersion: string, der: seq<byte>, r: Record) {
    Get(r, "approval").Map?
    && var approval := Get(r, "approval").fields;
    p.decidedBy != "" && Get(approval, "decided_by").ShownOrEmpty() == p.decidedBy && Decides(w, r, p.decidedBy)
    && Get(approval, "decided_at") == Text(p.decidedAt) && p.decidedAt != ""
    && Get(approval, "request_id") == Text(p.requestId) && Get(r, "request_id") == Text(p.requestId) && p.requestId != ""
    && Get(r, "workspace_id") == Text(p.workspaceId) && p.workspaceId != ""
    && Get(r, "tenant_id") == Text(p.tenantId) && p.tenantId != ""
    && Get(r, "principal") == Text(p.principal) && p.principal != ""
    && (if Get(r, "kind") == Null then p.kind == "personal" else Prints(Get(r, "kind"), p.kind)) && p.kind != ""
    && Get(approval, "key_version") == Text(keyVersion)
    && Get(approval, "signature").Text? && Get(approval, "signature").text != ""
    && w.base64(Get(approval, "signature").text) == Some(der)
  }

  /** A payload is taken from a record exactly when it says what the record says. */
  lemma {:induction false} PayloadExactly(w: World, p: Payload, keyVersion: string, der: seq<byte>, r: Record)
    ensures ApprovalPayload(w, r) == Signed(p, keyVersion, der) <==> PayloadIsTheRecords(w, p, keyVersion, der, r)
  {
  }

  /** A trusted, given key accepts the signature over the payload, both as the record has them. */
  ghost predicate VerifiesWith(w: World, r: Record, signingKey: string, keys: map<string, string>, p: Payload,
                               keyVersion: string, der: seq<byte>)
    requires Good(w.domain)
  {
    PayloadIsTheRecords(w, p, keyVersion, der, r)
    && w.trusts(signingKey, keyVersion) && keyVersion in keys && w.canonical(p).Some? && KeyOf(w, keys[keyVersion]).Some?
    && Accepts(w.domain, KeyOf(w, keys[keyVersion]).value, w.digest(w.canonical(p).value), der)
  }

  lemma {:induction false} VerifiesExactly(w: World, r: Record, signingKey: string, keys: map<string, string>)
    requires Good(w.domain)
    ensures Verify(w, r, signingKey, keys).Verified?
       <==> exists p, keyVersion, der :: VerifiesWith(w, r, signingKey, keys, p, keyVersion, der)
  {
    var signed := ApprovalPayload(w, r);
    if signed.Signed? {
      PayloadExactly(w, signed.payload, signed.keyVersion, signed.der, r);
      assert Verify(w, r, signingKey, keys).Verified?
        ==> VerifiesWith(w, r, signingKey, keys, signed.payload, signed.keyVersion, signed.der);
    }
    if p, keyVersion, der :| VerifiesWith(w, r, signingKey, keys, p, keyVersion, der) {
      PayloadExactly(w, p, keyVersion, der, r);
    }
  }

  /** The reason written down is one that holds of the record. */
  lemma {:induction false} ReasonHolds(w: World, r: Record, signingKey: string, keys: map<string, string>)
    requires Good(w.domain) && Verify(w, r, signingKey, keys).Rejected?
    ensures var approval := SubRecord(r, "approval");
            var version := Get(approval, "key_version");
            match Verify(w, r, signingKey, keys).why
            case NoApproval => !Get(r, "approval").Map?
            case OtherApprover => var who := Get(approval, "decided_by").ShownOrEmpty(); who == "" || !Decides(w, r, who)
            case OtherRequest => Get(approval, "request_id") != Get(r, "request_id")
            case NotCovered =>
              exists v :: v in {Get(r, "workspace_id"), Get(r, "tenant_id"), Get(r, "principal"), Get(r, "request_id"),
                                Get(approval, "decided_at"), Get(r, "kind")}
                          && (v.Text? ==> v.text == "")
            case NoSignature => !version.Text? || !NonEmptyText(Get(approval, "signature"))
            case NotBase64 => w.base64(Get(approval, "signature").text).None?
            case UntrustedKey => !w.trusts(signingKey, version.text)
            case VersionNotGiven => version.text !in keys
            case NotCanonical => w.canonical(ApprovalPayload(w, r).payload).None?
            case NotAKey => KeyOf(w, keys[version.text]).None?
            case DoesNotVerify =>
              !Accepts(w.domain, KeyOf(w, keys[version.text]).value,
                       w.digest(w.canonical(ApprovalPayload(w, r).payload).value), ApprovalPayload(w, r).der)
  {
  }

  /** What verifying means: the holder of the private key behind a trusted, given version
      signed the digest of a payload that says what the record says. */
  lemma {:induction false} VerifiedWasSigned(w: World, r: Record, signingKey: string, keys: map<string, string>)
    returns (payload: Payload, keyVersion: string, der: seq<byte>)
    requires Good(w.domain) && Verify(w, r, signingKey, keys).Verified?
    ensures ApprovalPayload(w, r) == Signed(payload, keyVersion, der)
    ensures PayloadIsTheRecords(w, payload, keyVersion, der, r)
    ensures w.trusts(signingKey, keyVersion) && keyVersion in keys && w.canonical(payload).Some?
    ensures forall private: nat :: 0 < private < w.domain.n
              && KeyOf(w, keys[keyVersion]) == Some(Multiple(w.domain.curve, private, w.domain.g))
              ==> SignedBy(w, private, payload, der)
  {
    var signed := ApprovalPayload(w, r);
    payload, keyVersion, der := signed.payload, signed.keyVersion, signed.der;
    PayloadExactly(w, payload, keyVersion, der, r);
    var digest := w.digest(w.canonical(payload).value);
    forall private: nat | 0 < private < w.domain.n
      && KeyOf(w, keys[keyVersion]) == Some(Multiple(w.domain.curve, private, w.domain.g))
      ensures SignedBy(w, private, payload, der)
    {
      AcceptedExactly(w.domain, private, digest, der);
    }
  }

  /** The bytes are a signature over the payload's digest that the private key can make. */
  ghost predicate SignedBy(w: World, private: nat, payload: Payload, der: seq<byte>)
    requires Good(w.domain)
  {
    w.canonical(payload).Some? && ReadSignature(der).Some?
    && var (r, s) := ReadSignature(der).value;
    Signs(w.domain, private, FromBytes(w.digest(w.canonical(payload).value)), r, s)
  }

  /** A correctly signed approval of the record as it stands is verified. */
  lemma {:induction false} SignedIsVerified(w: World, r: Record, signingKey: string, keys: map<string, string>, private: nat)
    requires Good(w.domain) && 0 < private < w.domain.n
    requires ApprovalPayload(w, r).Signed?
    requires var s := ApprovalPayload(w, r);
             w.trusts(signingKey, s.keyVersion) && s.keyVersion in keys
             && KeyOf(w, keys[s.keyVersion]) == Some(Multiple(w.domain.curve, private, w.domain.g))
             && SignedBy(w, private, s.payload, s.der)
             && |w.digest(w.canonical(s.payload).value)| == 32
    ensures Verify(w, r, signingKey, keys).Verified?
  {
    var s := ApprovalPayload(w, r);
    AcceptedExactly(w.domain, private, w.digest(w.canonical(s.payload).value), s.der);
  }

  // ----- the scrub ----------------------------------------------------------------------

  ghost predicate AgreeOnFour(e1: map<string, string>, e2: map<string, string>) {
    forall name :: name in FOUR_NAMES ==> Lookup(e1, name) == Lookup(e2, name)
  }

  /** The same names and values, but for where the scratch directory is. */
  ghost predicate SameEnvironment(env1: map<string, string>, env2: map<string, string>) {
    env1.Keys == env2.Keys
    && forall name :: name in env1 && name !in SCRATCH_NAMES ==> env1[name] == env2[name]
  }

  ghost predicate SameUpToScratch(a: Effect, b: Effect) {
    if a.Exec? && b.Exec? then
      a.program == b.program && a.args == b.args && SameEnvironment(a.env, b.env)
    else a == b
  }

  ghost predicate SameEffects(a: seq<Effect>, b: seq<Effect>) {
    |a| == |b| && forall i :: 0 <= i < |a| ==> SameUpToScratch(a[i], b[i])
  }

  lemma {:induction false} SameLookups(e1: map<string, string>, e2: map<string, string>)
    requires AgreeOnFour(e1, e2)
    ensures Lookup(e1, "CLOUD_RUN_EXECUTION") == Lookup(e2, "CLOUD_RUN_EXECUTION")
    ensures Lookup(e1, "CLOUD_RUN_TASK_COUNT") == Lookup(e2, "CLOUD_RUN_TASK_COUNT")
    ensures Lookup(e1, "CLOUD_RUN_TASK_INDEX") == Lookup(e2, "CLOUD_RUN_TASK_INDEX")
    ensures Lookup(e1, "SPEC_VERIFY_KEYS") == Lookup(e2, "SPEC_VERIFY_KEYS")
  {
  }

  /** Moving the scratch directory changes nothing but the plan's environment. */
  lemma {:induction false} PlanMoves(w: World, argv: seq<string>, execution: Option<string>, taskCount: Option<string>,
                                     taskIndex: Option<string>, rawKeys: Option<string>, work1: string, work2: string)
    ensures var p1 := PlanFrom(w, argv, execution, taskCount, taskIndex, rawKeys, work1);
            var p2 := PlanFrom(w, argv, execution, taskCount, taskIndex, rawKeys, work2);
            if p1.Ok? && p2.Ok? then
              SameEnvironment(p1.value.env, p2.value.env) && p2.value == p1.value.(env := p2.value.env)
            else p1 == p2
  {
    var p1 := PlanFrom(w, argv, execution, taskCount, taskIndex, rawKeys, work1);
    if p1.Ok? {
      EnvironmentMoves(p1.value.project, p1.value.region, work1, work2, p1.value.execution);
    }
  }

  lemma {:induction false} EnvironmentMoves(project: string, region: string, work1: string, work2: string, execution: string)
    ensures SameEnvironment(FixedEnvironment(project, region, work1, execution),
                            FixedEnvironment(project, region, work2, execution))
  {
  }

  lemma {:induction false} PinnedAlike(env1: map<string, string>, env2: map<string, string>, pin: string)
    requires SameEnvironment(env1, env2)
    ensures SameEnvironment(env1[APPROVAL_PIN := pin], env2[APPROVAL_PIN := pin])
  {
  }

  lemma {:induction false} GateIgnoresEnvironment(w: World, p1: Planned, p2: Planned)
    requires Good(w.domain) && p2 == p1.(env := p2.env)
    ensures GateOf(w, p1) == GateOf(w, p2)
  {
  }

  lemma {:induction false} SamePlansSameRuns(w: World, p1: Planned, p2: Planned)
    requires Good(w.domain) && p2 == p1.(env := p2.env) && SameEnvironment(p1.env, p2.env)
    ensures Proceed(w, p1).0 == Proceed(w, p2).0 && SameEffects(Proceed(w, p1).1, Proceed(w, p2).1)
  {
    GateIgnoresEnvironment(w, p1, p2);
    var (outcome, effects) := GateOf(w, p1);
    if outcome.Ok? && outcome.value.Some? {
      PinnedAlike(p1.env, p2.env, w.encodePin(outcome.value.value));
    }
  }

  /** Two environments that agree on the four names lead to the same run, whatever else
      they hold: same exit code, same writes, same program, arguments and environment up to
      the scratch directory. */
  lemma {:induction false} OnlyFourNamesMatter(w: World, argv: seq<string>, e1: map<string, string>,
                                               e2: map<string, string>, work1: string, work2: string)
    requires Good(w.domain) && AgreeOnFour(e1, e2)
    ensures var (r1, r2) := (RunOf(w, argv, e1, work1), RunOf(w, argv, e2, work2));
            r1.0 == r2.0 && SameEffects(r1.1, r2.1)
  {
    SameLookups(e1, e2);
    PlanMoves(w, argv, Lookup(e1, "CLOUD_RUN_EXECUTION"), Lookup(e1, "CLOUD_RUN_TASK_COUNT"),
              Lookup(e1, "CLOUD_RUN_TASK_INDEX"), Lookup(e1, "SPEC_VERIFY_KEYS"), work1, work2);
    var p1, p2 := PlanOf(w, argv, e1, work1), PlanOf(w, argv, e2, work2);
    if p1.Ok? && p2.Ok? {
      SamePlansSameRuns(w, p1.value, p2.value);
    }
  }
}
