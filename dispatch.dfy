/** The `__main__` block of `redshift.py`: the `purpose` argument is
    validated, the settings are read and the two clients created, then one
    of three modes runs. `create` creates the IAM role, attaches the S3
    read-only policy, fetches the role's ARN and requests the cluster with
    it; `check` describes the cluster and, only when its status is
    exactly `available`, fetches the ARN and the endpoint and writes them
    back into the configuration file; `clean` deletes the cluster and the
    role.

    The cloud calls are not modelled; what they answer is a parameter
    (`Provider`), and a run is the list of calls it makes, how it ends and
    the configuration file it leaves behind. */
module Dispatch {
  import ConfigSync
  import ClusterProps

  datatype Option<T> = None | Some(value: T)

  /** The purposes the script accepts. */
  const ValidPurposes: seq<string> := ["clean", "check", "create"]

  /** The settings read from the configuration file. */
  datatype Settings = Settings(
    key: string, secret: string,
    dbName: string, dbUser: string, dbPassword: string)

  /** What the provider answers to the calls whose failure is not caught
      by the script; `None` or `false` means the call raises. */
  datatype Provider = Provider(
    iamClientOk: bool,                           // boto3.client('iam', ...)
    redshiftClientOk: bool,                      // boto3.client('redshift', ...)
    attachOk: bool,                              // attach_role_policy
    roleArn: Option<string>,                     // get_role(...)['Role']['Arn']
    clusterProps: Option<seq<(string, string)>>, // describe_clusters(...)['Clusters'][0]
    clusterStatus: Option<string>,               // a second describe_clusters(...), its "ClusterStatus"
    endpoint: Option<string>,                    // describe_clusters(...), its ['Endpoint']['Address']
    cleanupOk: bool)                             // delete_cluster, detach_role_policy, delete_role

  /** One call the script makes, in the order it makes them. */
  datatype Action =
    | CreateIamClient(key: string, secret: string)
    | CreateRedshiftClient(key: string, secret: string)
    | CreateRole
    | AttachPolicy
    | GetArn
    | CreateCluster(dbName: string, dbUser: string, dbPassword: string, roleArn: string)
    // `check_status_of_cluster`: the first `describe_clusters` call, the
    // summary printed from it, and the second call, which reads the status
    | CheckStatus
    | ShowProps(rows: seq<(string, string)>)
    | ReadStatus
    | GetEndpoint
    | WriteConfig(arn: string, endpoint: string)
    | Cleanup

  /** How the process ends: normally, by `sys.exit(1)` on an invalid
      purpose, or by an exception nobody catches. */
  datatype Exit = Completed | InvalidPurpose | Raised

  /** The process's exit status; Python exits with 1 on an uncaught
      exception. */
  function ExitStatus(e: Exit): (status: int)
    ensures status == 0 <==> e == Completed
    ensures 0 <= status <= 1
  {
    match e
    case Completed => 0
    case InvalidPurpose => 1
    case Raised => 1
  }

  /** The calls made so far, whether one of them raised, and the content
      of the configuration file. */
  datatype Step = Step(actions: seq<Action>, raised: bool, config: string)

  /** A run of the script. */
  datatype Run = Run(actions: seq<Action>, exit: Exit, config: string)

  /** The `create` branch. Failures of `create_iam_role` and
      `create_redshift_cluster` are printed and ignored. */
  function CreateMode(st: Step, settings: Settings, provider: Provider): Step
  {
    var a := st.actions + [CreateRole, AttachPolicy];
    if !provider.attachOk then Step(a, true, st.config)
    else
      match provider.roleArn
      case None => Step(a + [GetArn], true, st.config)
      case Some(arn) =>
        Step(a + [GetArn, CreateCluster(settings.dbName, settings.dbUser, settings.dbPassword, arn)],
             false, st.config)
  }

  /** The `check` branch: the status summary from a first description of
      the cluster, the status from a second one, then the write-back when
      that status is `available`. */
  function CheckMode(st: Step, provider: Provider): Step
  {
    match provider.clusterProps
    case None => Step(st.actions + [CheckStatus], true, st.config)
    case Some(props) =>
      var a := st.actions + [CheckStatus, ShowProps(ClusterProps.ShownProps(props)), ReadStatus];
      match provider.clusterStatus
      case None => Step(a, true, st.config)
      case Some(status) =>
        if status != "available" then Step(a, false, st.config)
        else
          match provider.roleArn
          case None => Step(a + [GetArn], true, st.config)
          case Some(arn) =>
            match provider.endpoint
            case None => Step(a + [GetArn, GetEndpoint], true, st.config)
            case Some(endpoint) =>
              Step(a + [GetArn, GetEndpoint, WriteConfig(arn, endpoint)], false,
                   ConfigSync.WriteBack(st.config, arn, endpoint))
  }

  /** The `clean` branch. */
  function CleanMode(st: Step, provider: Provider): Step
  {
    Step(st.actions + [Cleanup], !provider.cleanupOk, st.config)
  }

  /** Both clients are created without an exception. */
  predicate ClientsOk(provider: Provider)
  {
    provider.iamClientOk && provider.redshiftClientOk
  }

  /** The two clients, created one after the other. */
  function CreateClients(settings: Settings, provider: Provider, cfgText: string): Step
  {
    var iam := CreateIamClient(settings.key, settings.secret);
    if !provider.iamClientOk then Step([iam], true, cfgText)
    else Step([iam, CreateRedshiftClient(settings.key, settings.secret)],
              !provider.redshiftClientOk, cfgText)
  }

  /** The whole script, run with argument `purpose` against a configuration
      file holding `cfgText`. The three mode tests are separate `if`s, as in
      the script; once a call has raised, nothing further runs. */
  function RunScript(purpose: string, settings: Settings, provider: Provider, cfgText: string): Run
  {
    if purpose !in ValidPurposes then Run([], InvalidPurpose, cfgText)
    else
      var s0 := CreateClients(settings, provider, cfgText);
      var s1 := if purpose == "create" && !s0.raised then CreateMode(s0, settings, provider) else s0;
      var s2 := if purpose == "check" && !s1.raised then CheckMode(s1, provider) else s1;
      var s3 := if purpose == "clean" && !s2.raised then CleanMode(s2, provider) else s2;
      Run(s3.actions, if s3.raised then Raised else Completed, s3.config)
  }

  /** A purpose other than `clean`, `check` or `create` ends the process
      with status 1 before the clients are created or any other call is
      made, and only such a purpose does. */
  lemma InvalidPurposeExits(purpose: string, settings: Settings, provider: Provider, cfgText: string)
    ensures var r := RunScript(purpose, settings, provider, cfgText);
      && (r.exit == InvalidPurpose <==> purpose !in ValidPurposes)
      && (purpose !in ValidPurposes ==>
            r.actions == [] && r.config == cfgText && ExitStatus(r.exit) == 1)
  {
  }

  /** A valid purpose first creates the IAM client and then the Redshift
      client, with the configured credentials; if either creation raises,
      the process ends there with the config untouched. */
  lemma ValidPurposeCreatesClients(purpose: string, settings: Settings, provider: Provider, cfgText: string)
    requires purpose in ValidPurposes
    ensures var r := RunScript(purpose, settings, provider, cfgText);
      && |r.actions| >= 1
      && r.actions[0] == CreateIamClient(settings.key, settings.secret)
      && (provider.iamClientOk ==>
            |r.actions| >= 2 && r.actions[1] == CreateRedshiftClient(settings.key, settings.secret))
      && (!ClientsOk(provider) ==>
            && r.exit == Raised && r.config == cfgText
            && |r.actions| == (if provider.iamClientOk then 2 else 1))
  {
  }

  /** The configuration file is rewritten exactly when the purpose is
      `check`, the clients are created, the cluster is described, its
      status is exactly `available` and the ARN and the endpoint are both
      found; it is then rewritten with those two values, and otherwise left
      as it was. */
  lemma WriteBackOnlyWhenAvailable(purpose: string, settings: Settings, provider: Provider, cfgText: string)
    ensures var r := RunScript(purpose, settings, provider, cfgText);
      var writes := purpose == "check" && ClientsOk(provider) && provider.clusterProps.Some?
        && provider.clusterStatus == Some("available")
        && provider.roleArn.Some? && provider.endpoint.Some?;
      && ((exists i :: 0 <= i < |r.actions| && r.actions[i].WriteConfig?) <==> writes)
      && r.config == (if writes
                      then ConfigSync.WriteBack(cfgText, provider.roleArn.value, provider.endpoint.value)
                      else cfgText)
  {
    var r := RunScript(purpose, settings, provider, cfgText);
    var writes := purpose == "check" && ClientsOk(provider) && provider.clusterProps.Some?
      && provider.clusterStatus == Some("available")
      && provider.roleArn.Some? && provider.endpoint.Some?;
    if writes {
      assert r.actions[|r.actions| - 1].WriteConfig?;
    }
  }

  /** In `create` mode, when the clients are created, the policy is
      attached and the role is found, the calls are: the two clients, create the role, attach the policy,
      fetch the ARN, create the cluster with that same ARN. */
  lemma CreateOrder(settings: Settings, provider: Provider, cfgText: string)
    requires ClientsOk(provider) && provider.attachOk && provider.roleArn.Some?
    ensures var r := RunScript("create", settings, provider, cfgText);
      && r.actions == [CreateIamClient(settings.key, settings.secret),
                       CreateRedshiftClient(settings.key, settings.secret),
                       CreateRole, AttachPolicy, GetArn,
                       CreateCluster(settings.dbName, settings.dbUser, settings.dbPassword,
                                     provider.roleArn.value)]
      && r.exit == Completed && r.config == cfgText
  {
  }

  /** Whatever the purpose and the answers, a cluster is only requested
      after the policy was attached and the ARN fetched, and with the ARN
      the provider returned. */
  lemma ClusterUsesFetchedArn(purpose: string, settings: Settings, provider: Provider, cfgText: string, i: nat)
    requires var r := RunScript(purpose, settings, provider, cfgText);
      i < |r.actions| && r.actions[i].CreateCluster?
    ensures var r := RunScript(purpose, settings, provider, cfgText);
      && purpose == "create"
      && provider.roleArn == Some(r.actions[i].roleArn)
      && i >= 3 && r.actions[i - 1] == GetArn && r.actions[i - 2] == AttachPolicy
      && r.actions[i - 3] == CreateRole
  {
  }

  /** Each mode's calls appear only under its own purpose. */
  lemma ModesAreExclusive(purpose: string, settings: Settings, provider: Provider, cfgText: string)
    ensures var r := RunScript(purpose, settings, provider, cfgText);
      && (CreateRole in r.actions ==> purpose == "create")
      && (CheckStatus in r.actions ==> purpose == "check")
      && (ReadStatus in r.actions ==> purpose == "check")
      && (Cleanup in r.actions ==> purpose == "clean")
  {
    var r := RunScript(purpose, settings, provider, cfgText);
    var s0 := CreateClients(settings, provider, cfgText);
    assert CreateRole !in s0.actions && CheckStatus !in s0.actions && ReadStatus !in s0.actions
      && Cleanup !in s0.actions;
    if purpose == "create" {
      CreateModeCalls(s0, settings, provider);
    } else if purpose == "check" {
      CheckModeCalls(s0, provider);
    } else if purpose == "clean" && !s0.raised {
      assert r.actions == s0.actions + [Cleanup];
    }
  }

  /** The `create` branch makes neither the status check nor the cleanup. */
  lemma CreateModeCalls(st: Step, settings: Settings, provider: Provider)
    ensures var a := CreateMode(st, settings, provider).actions;
      && (CheckStatus in a ==> CheckStatus in st.actions)
      && (ReadStatus in a ==> ReadStatus in st.actions)
      && (Cleanup in a ==> Cleanup in st.actions)
  {
  }

  /** The `check` branch neither creates the role nor cleans up. */
  lemma CheckModeCalls(st: Step, provider: Provider)
    ensures var a := CheckMode(st, provider).actions;
      && (CreateRole in a ==> CreateRole in st.actions)
      && (Cleanup in a ==> Cleanup in st.actions)
  {
  }

  /** The process exits with status 0 exactly when the purpose is valid and
      no uncaught call failed. */
  lemma ExitStatusZero(purpose: string, settings: Settings, provider: Provider, cfgText: string)
    ensures var r := RunScript(purpose, settings, provider, cfgText);
      ExitStatus(r.exit) == 0 <==>
        && purpose in ValidPurposes
        && ClientsOk(provider)
        && (purpose == "create" ==> provider.attachOk && provider.roleArn.Some?)
        && (purpose == "check" ==>
              && provider.clusterProps.Some?
              && provider.clusterStatus.Some?
              && (provider.clusterStatus.value == "available" ==>
                    provider.roleArn.Some? && provider.endpoint.Some?))
        && (purpose == "clean" ==> provider.cleanupOk)
  {
  }

  /** Once the clients are created, the status summary shows exactly the
      selected attributes of the first cluster description, in its order,
      and the second description follows it. */
  lemma CheckShowsSelectedProps(settings: Settings, provider: Provider, cfgText: string)
    requires ClientsOk(provider) && provider.clusterProps.Some?
    ensures var r := RunScript("check", settings, provider, cfgText);
      && |r.actions| >= 5
      && r.actions[2] == CheckStatus
      && r.actions[3] == ShowProps(ClusterProps.ShownProps(provider.clusterProps.value))
      && r.actions[4] == ReadStatus
  {
  }
}
