/**
 * The boot sequencer and connectivity monitor of the instance agent
 * (`InstanceSetup`, actors/lib/instance_setup.rb). Every remote call is a
 * request appended to `sent`; its response arrives later as a call of the
 * matching `On...` method, which is the request's continuation. `phase`
 * records which response is awaited. Audit sections and lines go to one
 * log tagged with the audit id they were written under.
 */
module Actors {
  import opened Common
  import opened RubyText
  import opened FrozenDate
  import opened BootBundle
  import opened Connectivity

  /** An `OperationResult`: success with its content, or failure with optional content. */
  datatype Reply<+T> = Ok(value: T) | Err(content: Option<string>)

  datatype AuditEntry =
    | Section(auditId: int, title: string)
    | Info(auditId: int, text: string)
    | Error(auditId: int, text: string)

  /** The remote calls the sequencer makes. */
  datatype Request =
    | SetVersion(agent: string, version: int)
    | GetLoginPolicy(agent: string)
    | GetRepositories(agent: string)
    | QueryTags(agent: string)
    | GetBootBundle(agent: string, auditId: int)
    | GetMissingAttributes(agent: string, scriptsIds: seq<int>, recipesIds: seq<int>)

  /** The login policy returned by the core site; only its audit id matters here. */
  datatype LoginPolicy = LoginPolicy(auditId: int)

  /** A repository descriptor; `text` is what `rep.to_s` prints. */
  datatype Repository = Repository(name: string, baseUrls: seq<string>, frozenDate: Option<string>, text: string)

  datatype RepositorySet = RepositorySet(repositories: seq<Repository>, auditId: int)

  /** `klass.generate("none", base_urls, fz)` for the configurator named by the repository. */
  datatype MirrorCall = MirrorCall(configurator: string, baseUrls: seq<string>, frozen: Option<string>)

  /** The continuation the sequencer is waiting on. */
  datatype Phase =
    | Idle
    | BootScheduled
    | AwaitingVersion
    | AwaitingLoginPolicy
    | AwaitingRepositories
    | AwaitingTags
    | AwaitingBootBundle
    | AwaitingMissingInputs
    | RunningBundle
    | Finished
  {
    /** Phases reached only after the repositories reply set `@auditor`. */
    predicate HasAuditor()
    {
      this == AwaitingTags || this == AwaitingBootBundle || this == AwaitingMissingInputs || this == RunningBundle
    }

    /** Phases before the repositories reply. */
    predicate BeforeRepositories()
    {
      this == Idle || this == BootScheduled || this == AwaitingVersion
      || this == AwaitingLoginPolicy || this == AwaitingRepositories
    }
  }

  const RsVersion: int := 6

  /** The persisted instance states the sequencer reads and writes. */
  const Booting: string := "booting"
  const Operational: string := "operational"
  const Stranded: string := "stranded"

  /** The messages the boot steps strand with. */
  const SetVersionFailure: string := "Failed to set_r_s_version"
  const RepositoriesFailure: string := "Failed to retrieve software repositories"
  const MissingInputsFailure: string := "Failed to retrieve missing inputs"
  const BootScriptsFailure: string := "Failed to retrieve boot scripts"
  const BootSequenceFailure: string := "Failed to run boot sequence"
  const BundleRunFailure: string := "Failed to run boot bundle"

  /** The section title audited once the repositories are known. */
  const RepositoriesSection: string := "Software repositories configured"

  // ---------------------------------------------------------------------
  // Messages

  /** The text `strand` audits: `msg`, followed by `": content"` when there is content. */
  function StrandText(msg: string, content: Option<string>): string
  {
    match content
    case None => msg
    case Some(c) => msg + ": " + c
  }

  /** The audited text always starts with the message, and any content can be read back after it. */
  lemma StrandTextSpec(msg: string, content: Option<string>)
    ensures msg <= StrandText(msg, content)
    ensures content.None? <==> |StrandText(msg, content)| == |msg|
    ensures content.Some? ==> StrandText(msg, content)[|msg|..] == ": " + content.value
  {
  }

  /**
   * What a failed boot-bundle fetch strands with: `prepare_boot_bundle`
   * wraps the content into its own message, which `boot` wraps again.
   */
  function BootScriptsFailureText(content: Option<string>): string
  {
    StrandText(MissingInputsFailure, Some(StrandText(BootScriptsFailure, content)))
  }

  /** The doubly wrapped text reads as both messages joined by ": ", then the content, if any. */
  lemma BootScriptsFailureTextSpec(content: Option<string>)
    ensures content.None? ==>
      BootScriptsFailureText(content) == MissingInputsFailure + ": " + BootScriptsFailure
    ensures content.Some? ==>
      BootScriptsFailureText(content)
        == (MissingInputsFailure + ": " + BootScriptsFailure) + (": " + content.value)
  {
  }

  /** The text a failed bundle run strands with. */
  const BundleRunFailureText: string := StrandText(BootSequenceFailure, Some(BundleRunFailure))

  /** The audit entries written under the login policy's own audit id. */
  function LoginAudit(auditId: int, applied: Result<string, string>): seq<AuditEntry>
  {
    match applied
    case Success(audit) => [Section(auditId, "Managed login enabled"), Info(auditId, audit)]
    case Failure(message) =>
      [Section(auditId, "Failed to enable managed login"), Error(auditId, "Error applying policy: " + message)]
  }

  /** The list of repositories audited before configuring them. */
  function RepositoriesAudit(repos: seq<Repository>): string
  {
    if repos == [] then "Using the following software repositories:\n"
    else RepositoriesAudit(repos[..|repos| - 1]) + "  - " + repos[|repos| - 1].text + "\n"
  }

  function MissingInputsText(titles: seq<string>): string
  {
    "Missing inputs for " + Join(titles, ", ") + ", waiting..."
  }

  /** The request `retrieve_missing_inputs` sends for the bundle's current executables. */
  function MissingAttributesRequest(agent: string, execs: seq<Executable>): Request
  {
    GetMissingAttributes(agent, NotReadyIds(execs, Script), NotReadyIds(execs, Recipe))
  }

  // ---------------------------------------------------------------------
  // Repository configuration

  /**
   * One iteration of `configure_repositories`: nothing when the name names no
   * configurator, nothing when the frozen date does not parse (the exception
   * is rescued and logged), otherwise the call to the configurator with the
   * stamp of the day before the frozen date.
   */
  function ConfigureOne(repo: Repository, known: set<string>): Option<MirrorCall>
  {
    if repo.name !in known then None
    else match repo.frozenDate
      case None => Some(MirrorCall(repo.name, repo.baseUrls, None))
      case Some(date) =>
        match FrozenStamp(date)
        case None => None
        case Some(stamp) => Some(MirrorCall(repo.name, repo.baseUrls, Some(stamp)))
  }

  function OptionToSeq<T>(o: Option<T>): seq<T>
  {
    match o
    case None => []
    case Some(x) => [x]
  }

  /** The values `f` yields over `xs`, in order, skipping the elements it yields nothing for. */
  function Collect<A, B>(xs: seq<A>, f: A -> Option<B>): seq<B>
  {
    if xs == [] then []
    else Collect(xs[..|xs| - 1], f) + OptionToSeq(f(xs[|xs| - 1]))
  }

  lemma {:induction false} CollectAppend<A, B>(a: seq<A>, b: seq<A>, f: A -> Option<B>)
    ensures Collect(a + b, f) == Collect(a, f) + Collect(b, f)
    decreases |b|
  {
    if b == [] {
      assert a + b == a;
    } else {
      var n := |b| - 1;
      assert (a + b)[..|a + b| - 1] == a + b[..n];
      CollectAppend(a, b[..n], f);
    }
  }

  /** The last step of `Collect`. */
  lemma CollectSnoc<A, B>(xs: seq<A>, f: A -> Option<B>, n: nat)
    requires n < |xs|
    ensures Collect(xs[..n + 1], f) == Collect(xs[..n], f) + OptionToSeq(f(xs[n]))
  {
    assert xs[..n + 1][..n] == xs[..n];
  }

  lemma {:induction false} CollectSpec<A, B>(xs: seq<A>, f: A -> Option<B>, y: B)
    ensures y in Collect(xs, f) <==> exists i :: 0 <= i < |xs| && f(xs[i]) == Some(y)
    decreases |xs|
  {
    if xs != [] {
      var n := |xs| - 1;
      var init := xs[..n];
      var tail := OptionToSeq(f(xs[n]));
      assert Collect(xs, f) == Collect(init, f) + tail;
      assert y in tail <==> f(xs[n]) == Some(y);
      CollectSpec(init, f, y);
      if y in Collect(init, f) {
        var i :| 0 <= i < n && f(init[i]) == Some(y);
        assert xs[i] == init[i];
      } else if y !in tail {
        forall i | 0 <= i < |xs| ensures f(xs[i]) != Some(y) {
          if i < n {
            assert xs[i] == init[i];
          }
        }
      }
    }
  }

  /** The configurator calls made for a list of repositories, in order. */
  function MirrorCalls(repos: seq<Repository>, known: set<string>): seq<MirrorCall>
  {
    Collect(repos, (repo: Repository) => ConfigureOne(repo, known))
  }

  /**
   * A call is made for a repository exactly when its name is a configurator
   * and its frozen date, if any, parses; the call carries its base URLs and
   * the previous-day stamp.
   */
  lemma ConfigureOneSpec(repo: Repository, known: set<string>)
    ensures ConfigureOne(repo, known).Some? <==>
      repo.name in known && (repo.frozenDate.None? || ParseIsoDate(repo.frozenDate.value).Some?)
    ensures ConfigureOne(repo, known).Some? ==>
      var call := ConfigureOne(repo, known).value;
      && call.configurator == repo.name && call.baseUrls == repo.baseUrls
      && (repo.frozenDate.None? ==> call.frozen.None?)
      && (repo.frozenDate.Some? ==> call.frozen == FrozenStamp(repo.frozenDate.value))
  {
    if repo.frozenDate.Some? && ParseIsoDate(repo.frozenDate.value).Some? {
      FrozenStampSpec(repo.frozenDate.value);
    }
  }

  /**
   * Repositories are configured independently and in order: the calls for a
   * concatenation are the calls for each part, so a repository that raises
   * does not stop the ones after it.
   */
  lemma MirrorCallsAppend(a: seq<Repository>, b: seq<Repository>, known: set<string>)
    ensures MirrorCalls(a + b, known) == MirrorCalls(a, known) + MirrorCalls(b, known)
  {
    CollectAppend(a, b, (repo: Repository) => ConfigureOne(repo, known));
  }

  /** Every call made comes from some repository, and every configurable repository gets its call. */
  lemma MirrorCallsSpec(repos: seq<Repository>, known: set<string>, call: MirrorCall)
    ensures call in MirrorCalls(repos, known) <==> exists i :: 0 <= i < |repos| && ConfigureOne(repos[i], known) == Some(call)
  {
    CollectSpec(repos, (repo: Repository) => ConfigureOne(repo, known), call);
  }

  // ---------------------------------------------------------------------
  // The actor

  class InstanceSetup {
    const agentIdentity: string
    /** The repository names `to_const` resolves to a configurator class. */
    const knownConfigurators: set<string>

    /** `InstanceState.value`. */
    var state: string
    /** `InstanceState.startup_tags`. */
    var startupTags: seq<string>
    /** The audit id of `@auditor`, nil until the repositories reply arrives. */
    var auditor: Option<int>
    /** Everything written to any auditor, in order. */
    var audits: seq<AuditEntry>
    /** `@offline_timer`. */
    var offlineTimer: Timer
    /** The request forwarder's offline mode. */
    var offlineMode: bool
    var phase: Phase
    /** Remote calls made, in order. */
    var sent: seq<Request>
    /** The boot bundle's executables. */
    var bundle: array<Executable>
    /** The bundle's `full_converge` flag. */
    var fullConverge: bool
    /** Calls made to repository configurators. */
    var mirrorCalls: seq<MirrorCall>

    ghost predicate Valid()
      reads this
    {
      && (phase.BeforeRepositories() ==> auditor.None?)
      && (phase.HasAuditor() ==> auditor.Some?)
      && (phase == RunningBundle ==> fullConverge)
    }

    /** `initialize`: the boot sequence is scheduled exactly when the persisted state is 'booting'. */
    constructor (agentIdentity: string, persistedState: string, knownConfigurators: set<string>)
      ensures Valid()
      ensures this.agentIdentity == agentIdentity && this.knownConfigurators == knownConfigurators
      ensures state == persistedState
      ensures phase == BootScheduled <==> persistedState == Booting
      ensures phase == (if persistedState == Booting then BootScheduled else Idle)
      ensures auditor == None && audits == [] && sent == [] && mirrorCalls == [] && startupTags == []
      ensures offlineTimer == NoTimer && !offlineMode && !fullConverge && bundle.Length == 0
    {
      this.agentIdentity := agentIdentity;
      this.knownConfigurators := knownConfigurators;
      state := persistedState;
      startupTags := [];
      auditor := None;
      audits := [];
      offlineTimer := NoTimer;
      offlineMode := false;
      phase := if persistedState == Booting then BootScheduled else Idle;
      sent := [];
      bundle := new Executable[0];
      fullConverge := false;
      mirrorCalls := [];
    }

    /** `connection_status`: always answers true; the timer and offline mode follow `OnStatus`. */
    method ConnectionStatus(status: Status) returns (r: bool)
      modifies this`offlineTimer, this`offlineMode
      ensures r
      ensures Monitor(offlineTimer, offlineMode) == OnStatus(old(Monitor(offlineTimer, offlineMode)), status)
    {
      if status == Deconnected {
        if offlineTimer == NoTimer {
          offlineTimer := Armed;
        }
      } else {
        if offlineTimer != NoTimer {
          offlineTimer := NoTimer;
        }
        offlineMode := false;
      }
      r := true;
    }

    /** The grace timer's block: offline mode goes on; the field keeps holding the fired timer. */
    method GraceExpires()
      requires offlineTimer == Armed
      modifies this`offlineTimer, this`offlineMode
      ensures Monitor(offlineTimer, offlineMode) == OnExpiry(old(Monitor(offlineTimer, offlineMode)))
      ensures offlineTimer == Fired && offlineMode
    {
      offlineTimer := Fired;
      offlineMode := true;
    }

    /** `strand`: state 'stranded'; the message is audited only when there is an auditor. */
    method Strand(msg: string, content: Option<string>)
      modifies this`state, this`audits
      ensures state == Stranded
      ensures audits == old(audits) + (if auditor.Some? then [Error(auditor.value, StrandText(msg, content))] else [])
    {
      state := Stranded;
      var text := StrandText(msg, content);
      if auditor.Some? {
        audits := audits + [Error(auditor.value, text)];
      }
    }

    /** `init_boot`: announce the agent's version. */
    method InitBoot()
      requires Valid() && phase == BootScheduled
      modifies this`phase, this`sent
      ensures Valid() && phase == AwaitingVersion
      ensures sent == old(sent) + [SetVersion(agentIdentity, RsVersion)]
    {
      sent := sent + [SetVersion(agentIdentity, RsVersion)];
      phase := AwaitingVersion;
    }

    /**
     * The `set_r_s_version` reply: a failure strands, yet the sequence goes on
     * to the login policy; nothing is audited because there is no auditor yet.
     */
    method OnSetVersion(reply: Reply<()>)
      requires Valid() && phase == AwaitingVersion
      modifies this`state, this`audits, this`phase, this`sent
      ensures Valid()
      ensures reply.Err? ==> state == Stranded
      ensures reply.Ok? ==> state == old(state)
      ensures audits == old(audits)
      ensures phase == AwaitingLoginPolicy && sent == old(sent) + [GetLoginPolicy(agentIdentity)]
    {
      if reply.Err? {
        Strand(SetVersionFailure, reply.content);
      }
      EnableManagedLogin();
    }

    /** `enable_managed_login`: fetch the login policy. */
    method EnableManagedLogin()
      requires Valid() && phase.BeforeRepositories()
      modifies this`phase, this`sent
      ensures Valid() && phase == AwaitingLoginPolicy
      ensures sent == old(sent) + [GetLoginPolicy(agentIdentity)]
    {
      sent := sent + [GetLoginPolicy(agentIdentity)];
      phase := AwaitingLoginPolicy;
    }

    /**
     * The login-policy reply. `applied` is what `update_policy` did: returned
     * its audit text, or raised with a message. Neither outcome, nor a failed
     * fetch, changes the instance state; the sequence always goes on to `boot`.
     */
    method OnLoginPolicy(reply: Reply<LoginPolicy>, applied: Result<string, string>)
      requires Valid() && phase == AwaitingLoginPolicy
      modifies this`audits, this`phase, this`sent
      ensures Valid()
      ensures reply.Ok? ==> audits == old(audits) + LoginAudit(reply.value.auditId, applied)
      ensures reply.Err? ==> audits == old(audits)
      ensures phase == AwaitingRepositories && sent == old(sent) + [GetRepositories(agentIdentity)]
    {
      if reply.Ok? {
        audits := audits + LoginAudit(reply.value.auditId, applied);
      }
      Boot();
    }

    /** `boot`: fetch the software repositories. */
    method Boot()
      requires Valid() && phase == AwaitingLoginPolicy
      modifies this`phase, this`sent
      ensures Valid() && phase == AwaitingRepositories
      ensures sent == old(sent) + [GetRepositories(agentIdentity)]
    {
      sent := sent + [GetRepositories(agentIdentity)];
      phase := AwaitingRepositories;
    }

    /**
     * The repositories reply. Failure strands (no auditor yet, so nothing is
     * audited) and ends the sequence. Success sets the auditor, audits the
     * list, configures every repository and asks for the startup tags.
     */
    method OnRepositories(reply: Reply<RepositorySet>)
      requires Valid() && phase == AwaitingRepositories
      modifies this`state, this`auditor, this`audits, this`phase, this`sent, this`mirrorCalls
      ensures Valid()
      ensures reply.Err? ==>
        && state == Stranded && auditor == None && audits == old(audits)
        && phase == Finished && sent == old(sent) && mirrorCalls == old(mirrorCalls)
      ensures reply.Ok? ==>
        var id := reply.value.auditId;
        && state == old(state) && auditor == Some(id)
        && audits == old(audits)
             + [Section(id, RepositoriesSection), Info(id, RepositoriesAudit(reply.value.repositories))]
        && mirrorCalls == old(mirrorCalls) + MirrorCalls(reply.value.repositories, knownConfigurators)
        && phase == AwaitingTags && sent == old(sent) + [QueryTags(agentIdentity)]
    {
      if reply.Err? {
        Strand(RepositoriesFailure, reply.content);
        phase := Finished;
        return;
      }
      var repos := reply.value.repositories;
      var id := reply.value.auditId;
      auditor := Some(id);
      audits := audits + [Section(id, RepositoriesSection), Info(id, RepositoriesAudit(repos))];
      ConfigureRepositories(repos);
      sent := sent + [QueryTags(agentIdentity)];
      phase := AwaitingTags;
    }

    /**
     * `configure_repositories`: each repository whose name is a configurator
     * gets a call; a frozen date that does not parse raises inside the
     * per-repository `begin`/`rescue`, which skips that repository only.
     */
    method ConfigureRepositories(repos: seq<Repository>)
      modifies this`mirrorCalls
      ensures mirrorCalls == old(mirrorCalls) + MirrorCalls(repos, knownConfigurators)
    {
      var i := 0;
      while i < |repos|
        invariant 0 <= i <= |repos|
        invariant mirrorCalls == old(mirrorCalls) + MirrorCalls(repos[..i], knownConfigurators)
      {
        var repo := repos[i];
        CollectSnoc(repos, (r: Repository) => ConfigureOne(r, knownConfigurators), i);
        ghost var expected := ConfigureOne(repo, knownConfigurators);
        assert MirrorCalls(repos[..i + 1], knownConfigurators)
          == MirrorCalls(repos[..i], knownConfigurators) + OptionToSeq(expected);
        if repo.name in knownConfigurators {
          var fz: Option<string> := None;
          var raised := false;
          if repo.frozenDate.Some? {
            var stamp := FrozenStamp(repo.frozenDate.value);
            if stamp.None? {
              raised := true;
            } else {
              fz := stamp;
            }
          }
          if !raised {
            assert expected == Some(MirrorCall(repo.name, repo.baseUrls, fz));
            mirrorCalls := mirrorCalls + [MirrorCall(repo.name, repo.baseUrls, fz)];
          } else {
            assert expected == None;
          }
        } else {
          assert expected == None;
        }
        i := i + 1;
      }
      assert repos[..i] == repos;
    }

    /** The `query_tags` reply: record the tags and fetch the boot bundle under the auditor's id. */
    method OnStartupTags(tags: seq<string>)
      requires Valid() && phase == AwaitingTags
      modifies this`startupTags, this`phase, this`sent
      ensures Valid() && startupTags == tags && phase == AwaitingBootBundle
      ensures sent == old(sent) + [GetBootBundle(agentIdentity, auditor.value)]
    {
      startupTags := tags;
      sent := sent + [GetBootBundle(agentIdentity, auditor.value)];
      phase := AwaitingBootBundle;
    }

    /**
     * The boot-bundle reply. Failure strands with the doubly wrapped message.
     * Success keeps the executables; when none is pending the bundle is run
     * at once, otherwise the missing inputs are requested.
     */
    method OnBootBundle(reply: Reply<seq<Executable>>)
      requires Valid() && phase == AwaitingBootBundle
      modifies this`state, this`audits, this`phase, this`sent, this`bundle, this`fullConverge
      ensures Valid() && auditor == old(auditor)
      ensures reply.Err? ==>
        && state == Stranded && phase == Finished && sent == old(sent)
        && bundle == old(bundle) && fullConverge == old(fullConverge)
        && audits == old(audits) + [Error(auditor.value, BootScriptsFailureText(reply.content))]
      ensures reply.Ok? ==>
        && fresh(bundle) && bundle[..] == reply.value
        && state == old(state) && audits == old(audits)
        && (Pending(reply.value) == [] ==> phase == RunningBundle && fullConverge && sent == old(sent))
        && (Pending(reply.value) != [] ==>
              && phase == AwaitingMissingInputs && fullConverge == old(fullConverge)
              && sent == old(sent) + [MissingAttributesRequest(agentIdentity, reply.value)])
    {
      if reply.Err? {
        var message := StrandText(BootScriptsFailure, reply.content);
        Strand(MissingInputsFailure, Some(message));
        phase := Finished;
        return;
      }
      var execs := reply.value;
      bundle := new Executable[|execs|](i requires 0 <= i < |execs| => execs[i]);
      var pending := AnyNotReady(bundle);
      if pending {
        RetrieveMissingInputs();
      } else {
        RunBootBundle();
      }
    }

    /** `retrieve_missing_inputs`, the request half: ask for the not-ready scripts' and recipes' ids. */
    method RetrieveMissingInputs()
      requires Valid() && phase.HasAuditor()
      modifies this`phase, this`sent
      ensures Valid() && phase == AwaitingMissingInputs
      ensures sent == old(sent) + [MissingAttributesRequest(agentIdentity, bundle[..])]
    {
      var scriptsIds := NotReadyIdsOf(bundle, Script);
      var recipesIds := NotReadyIdsOf(bundle, Recipe);
      sent := sent + [GetMissingAttributes(agentIdentity, scriptsIds, recipesIds)];
      phase := AwaitingMissingInputs;
    }

    /**
     * The missing-inputs reply. Failure strands and the continuation is never
     * called. Success merges the entries into the bundle in place; then the
     * bundle runs exactly when nothing is pending, otherwise the waiting
     * executables are audited and the request is sent again.
     */
    method OnMissingInputs(reply: Reply<seq<InputEntry>>)
      requires Valid() && phase == AwaitingMissingInputs
      modifies this`state, this`audits, this`phase, this`sent, this`fullConverge, bundle
      ensures Valid() && auditor == old(auditor) && bundle == old(bundle)
      ensures reply.Err? ==>
        && state == Stranded && phase == Finished && sent == old(sent)
        && bundle[..] == old(bundle[..]) && fullConverge == old(fullConverge)
        && audits == old(audits) + [Error(auditor.value, StrandText(MissingInputsFailure, reply.content))]
      ensures reply.Ok? ==>
        && bundle[..] == Merge(old(bundle[..]), reply.value)
        && state == old(state)
        && (Pending(bundle[..]) == [] ==>
              phase == RunningBundle && fullConverge && audits == old(audits) && sent == old(sent))
        && (Pending(bundle[..]) != [] ==>
              && phase == AwaitingMissingInputs && fullConverge == old(fullConverge)
              && audits == old(audits) + [Info(auditor.value, MissingInputsText(Titles(Pending(bundle[..]))))]
              && sent == old(sent) + [MissingAttributesRequest(agentIdentity, bundle[..])])
    {
      if reply.Err? {
        Strand(MissingInputsFailure, reply.content);
        phase := Finished;
        return;
      }
      MergeInPlace(bundle, reply.value);
      CheckPending();
    }

    /**
     * The merged bundle's check: with nothing pending the bundle runs;
     * otherwise the pending titles are audited and the inputs asked for again.
     */
    method CheckPending()
      requires Valid() && phase == AwaitingMissingInputs
      modifies this`audits, this`phase, this`sent, this`fullConverge
      ensures Valid()
      ensures Pending(bundle[..]) == [] ==>
        phase == RunningBundle && fullConverge && audits == old(audits) && sent == old(sent)
      ensures Pending(bundle[..]) != [] ==>
        && phase == AwaitingMissingInputs && fullConverge == old(fullConverge)
        && audits == old(audits) + [Info(auditor.value, MissingInputsText(Titles(Pending(bundle[..]))))]
        && sent == old(sent) + [MissingAttributesRequest(agentIdentity, bundle[..])]
    {
      var titles := PendingTitlesOf(bundle);
      assert titles == [] <==> Pending(bundle[..]) == [];
      if titles == [] {
        RunBootBundle();
      } else {
        audits := audits + [Info(auditor.value, MissingInputsText(titles))];
        RetrieveMissingInputs();
      }
    }

    /** `run_boot_bundle`: force a full converge and hand the bundle to the executor. */
    method RunBootBundle()
      requires Valid() && phase.HasAuditor()
      modifies this`fullConverge, this`phase
      ensures Valid() && fullConverge && phase == RunningBundle
    {
      fullConverge := true;
      phase := RunningBundle;
    }

    /**
     * The executor's verdict: success makes the instance 'operational',
     * whatever an earlier strand wrote; failure strands.
     */
    method OnBundleRun(succeeded: bool)
      requires Valid() && phase == RunningBundle
      modifies this`state, this`audits, this`phase
      ensures Valid() && phase == Finished && old(fullConverge)
      ensures succeeded ==> state == Operational && audits == old(audits)
      ensures !succeeded ==>
        state == Stranded && audits == old(audits) + [Error(auditor.value, BundleRunFailureText)]
    {
      if succeeded {
        state := Operational;
      } else {
        Strand(BootSequenceFailure, Some(BundleRunFailure));
      }
      phase := Finished;
    }
  }

  /** A lone repository whose frozen date does not parse gets no configurator call. */
  lemma UnparsableDateSkipped(repo: Repository, known: set<string>)
    requires repo.frozenDate.Some? && ParseIsoDate(repo.frozenDate.value).None?
    ensures MirrorCalls([repo], known) == []
  {
    assert ConfigureOne(repo, known) == None;
    CollectSnoc([repo], (r: Repository) => ConfigureOne(r, known), 0);
    assert [repo][..1] == [repo];
  }

  /** A pending script whose own entry comes back is ready afterwards, and nothing is pending. */
  lemma OneScriptCompleted(script: Executable, entry: InputEntry)
    requires !script.ready && entry.id == script.id && entry.kind == script.kind
    ensures Pending([script]) == [script]
    ensures Merge([script], [entry]) == [script.(ready := true, inputs := entry.inputs)]
    ensures Pending(Merge([script], [entry])) == []
  {
    assert [script][..0] == [];
    assert [entry][..0] == [];
    assert Merge([script], []) == [script];
    assert FirstWith([script], script.kind, script.id) == Some(0);
    var merged := [script.(ready := true, inputs := entry.inputs)];
    assert MergeEntry([script], entry) == merged;
    assert merged[..0] == [];
  }

  /**
   * The bundle fetch of a boot whose bundle holds one script waiting for an
   * input: the instance asks for the missing inputs.
   */
  method FetchOneScript(setup: InstanceSetup, script: Executable)
    requires setup.Valid() && setup.phase == AwaitingTags && !script.ready
    modifies setup
    ensures setup.Valid() && setup.phase == AwaitingMissingInputs
    ensures setup.mirrorCalls == old(setup.mirrorCalls)
    ensures fresh(setup.bundle) && setup.bundle[..] == [script]
  {
    setup.OnStartupTags([]);
    assert Pending([script]) == [script] by { assert [script][..0] == []; }
    setup.OnBootBundle(Ok([script]));
  }

  /**
   * The missing-inputs reply supplies the one waiting script's input: the
   * bundle runs and the instance becomes operational with the script ready.
   */
  method SupplyOneInput(setup: InstanceSetup, script: Executable, entry: InputEntry)
    requires setup.Valid() && setup.phase == AwaitingMissingInputs && setup.bundle[..] == [script]
    requires !script.ready && entry.id == script.id && entry.kind == script.kind
    modifies setup, setup.bundle
    ensures setup.state == Operational && setup.phase == Finished
    ensures setup.mirrorCalls == old(setup.mirrorCalls)
    ensures setup.bundle.Length == 1 && setup.bundle[0] == script.(ready := true, inputs := entry.inputs)
  {
    OneScriptCompleted(script, entry);
    var merged := [script.(ready := true, inputs := entry.inputs)];
    setup.OnMissingInputs(Ok([entry]));
    assert setup.bundle[..] == merged;
    assert setup.phase == RunningBundle;
    setup.OnBundleRun(true);
    assert setup.bundle[..] == merged;
  }

  /**
   * The bundle half of a boot: the bundle holds one script that waits for an
   * input, and the first missing-inputs reply supplies it. The bundle then
   * runs and the instance becomes operational, with the script ready; the
   * repository configuration is untouched.
   */
  method WaitForOneScript(setup: InstanceSetup, script: Executable, entry: InputEntry)
    requires setup.Valid() && setup.phase == AwaitingTags
    requires !script.ready && entry.id == script.id && entry.kind == script.kind
    modifies setup
    ensures setup.state == Operational && setup.phase == Finished
    ensures setup.mirrorCalls == old(setup.mirrorCalls)
    ensures setup.bundle.Length == 1 && setup.bundle[0] == script.(ready := true, inputs := entry.inputs)
  {
    FetchOneScript(setup, script);
    SupplyOneInput(setup, script, entry);
  }

  /**
   * A whole boot: the login policy cannot be fetched, the only repository
   * has a frozen date that does not parse, and the one script waits for an
   * input that the first missing-inputs reply supplies. The instance ends
   * operational, no configurator is called and the script is ready.
   */
  method BootScenario(agent: string, known: set<string>, repo: Repository, script: Executable, entry: InputEntry)
    returns (final: string, calls: seq<MirrorCall>, ready: bool)
    requires repo.frozenDate.Some? && ParseIsoDate(repo.frozenDate.value).None?
    requires !script.ready && entry.id == script.id && entry.kind == script.kind
    ensures final == Operational && calls == [] && ready
  {
    var setup := new InstanceSetup(agent, Booting, known);
    setup.InitBoot();
    setup.OnSetVersion(Ok(()));
    setup.OnLoginPolicy(Err(None), Success(""));
    UnparsableDateSkipped(repo, known);
    setup.OnRepositories(Ok(RepositorySet([repo], 7)));
    WaitForOneScript(setup, script, entry);
    final, calls, ready := setup.state, setup.mirrorCalls, setup.bundle[0].ready;
  }

  /**
   * A failed version announcement strands the instance, yet the sequence
   * carries on and a successful bundle run still leaves it operational.
   */
  method StrandedThenOperational() returns (afterVersion: string, final: string)
    ensures afterVersion == Stranded && final == Operational
  {
    var setup := new InstanceSetup("rs-instance-2", Booting, {});
    setup.InitBoot();
    setup.OnSetVersion(Err(Some("timeout")));
    afterVersion := setup.state;
    setup.OnLoginPolicy(Ok(LoginPolicy(3)), Failure("bad key"));
    setup.OnRepositories(Ok(RepositorySet([], 4)));
    setup.OnStartupTags([]);
    assert Pending([]) == [];
    setup.OnBootBundle(Ok([]));
    setup.OnBundleRun(true);
    final := setup.state;
  }
}
