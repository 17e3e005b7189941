/** Task configuration and its validation: the ordered field checks of
    `validateTask` and the loop of `Load` that applies them to every task. */
module Config {
  import opened Types
  import opened Strings
  import WebDav

  datatype FromConf = FromConf(host: string, user: string, pass: string, mailbox: string)

  datatype ToConf = ToConf(baseUrl: string, user: string, pass: string, auth: string, token: string)

  /** `seen` is the optional seen-state requirement of the mailbox search. */
  datatype FilterConf = FilterConf(recipients: seq<string>, seen: Option<bool>, extensions: seq<string>)

  datatype Task = Task(
    name: string,
    from: FromConf,
    to: ToConf,
    path: string,
    tags: seq<string>,
    filter: FilterConf,
    interval: string,
    format: string,
    markSeen: bool)

  datatype ConfigError =
    | NameRequired
    | FromCredentialsRequired
    | MailboxRequired
    | BaseUrlRequired
    | BasicCredentialsRequired
    | TokenRequired
    | UnsupportedAuth
    | InvalidInterval
    | FormatRequired

  /** Number of checks `validateTask` runs. */
  const CheckCount: nat := 7

  /** The auth requirement: basic credentials for `""`/`basic`, a token for
      `bearer`; any other mode never passes. */
  predicate AuthSatisfied(to: ToConf) {
    var mode := Canonical(to.auth);
    || ((mode == "" || mode == "basic") && to.user != [] && to.pass != [])
    || (mode == "bearer" && to.token != [])
  }

  /** Check number `k`, in the order the validator runs them. The
      credential, mailbox and URL checks are exact-empty tests, not trimmed. */
  predicate Holds(t: Task, durationOk: string -> bool, k: nat) {
    match k
    case 0 => TrimSpace(t.name) != []
    case 1 => t.from.user != [] && t.from.pass != []
    case 2 => t.from.mailbox != []
    case 3 => t.to.baseUrl != []
    case 4 => AuthSatisfied(t.to)
    case 5 => durationOk(t.interval)
    case _ => TrimSpace(t.format) != []
  }

  /** The error a failing auth check reports depends on the mode. */
  function AuthError(to: ToConf): ConfigError {
    var mode := Canonical(to.auth);
    if mode == "" || mode == "basic" then BasicCredentialsRequired
    else if mode == "bearer" then TokenRequired
    else UnsupportedAuth
  }

  /** The error check number `k` reports when it fails. */
  function ErrorOf(t: Task, k: nat): ConfigError {
    match k
    case 0 => NameRequired
    case 1 => FromCredentialsRequired
    case 2 => MailboxRequired
    case 3 => BaseUrlRequired
    case 4 => AuthError(t.to)
    case 5 => InvalidInterval
    case _ => FormatRequired
  }

  /** Check `k` is the first one that fails. */
  predicate FirstFailing(t: Task, durationOk: string -> bool, k: nat) {
    && k < CheckCount
    && !Holds(t, durationOk, k)
    && forall j :: 0 <= j < k ==> Holds(t, durationOk, j)
  }

  /** `validateTask`: nil when every check passes, otherwise the error of the
      first failing check. `durationOk` stands for `time.ParseDuration`
      accepting the interval. */
  function ValidateTask(t: Task, durationOk: string -> bool): (r: Option<ConfigError>)
    ensures r == None <==> forall k :: 0 <= k < CheckCount ==> Holds(t, durationOk, k)
    ensures forall k :: FirstFailing(t, durationOk, k) ==> r == Some(ErrorOf(t, k))
  {
    assert Holds(t, durationOk, 0) <==> TrimSpace(t.name) != [];
    assert Holds(t, durationOk, 1) <==> t.from.user != [] && t.from.pass != [];
    assert Holds(t, durationOk, 2) <==> t.from.mailbox != [];
    assert Holds(t, durationOk, 3) <==> t.to.baseUrl != [];
    assert Holds(t, durationOk, 4) <==> AuthSatisfied(t.to);
    assert Holds(t, durationOk, 5) <==> durationOk(t.interval);
    assert Holds(t, durationOk, 6) <==> TrimSpace(t.format) != [];
    if TrimSpace(t.name) == [] then Some(NameRequired)
    else if t.from.user == [] || t.from.pass == [] then Some(FromCredentialsRequired)
    else if t.from.mailbox == [] then Some(MailboxRequired)
    else if t.to.baseUrl == [] then Some(BaseUrlRequired)
    else
      var mode := Canonical(t.to.auth);
      if mode == "" || mode == "basic" then
        if t.to.user == [] || t.to.pass == [] then Some(BasicCredentialsRequired)
        else ValidateSchedule(t, durationOk)
      else if mode == "bearer" then
        if t.to.token == [] then Some(TokenRequired)
        else ValidateSchedule(t, durationOk)
      else Some(UnsupportedAuth)
  }

  /** The two checks after the auth switch: interval, then format. */
  function ValidateSchedule(t: Task, durationOk: string -> bool): (r: Option<ConfigError>)
    ensures r == None <==> durationOk(t.interval) && TrimSpace(t.format) != []
    ensures !durationOk(t.interval) ==> r == Some(InvalidInterval)
    ensures durationOk(t.interval) && TrimSpace(t.format) == [] ==> r == Some(FormatRequired)
  {
    if !durationOk(t.interval) then Some(InvalidInterval)
    else if TrimSpace(t.format) == [] then Some(FormatRequired)
    else None
  }

  /** The first present verdict of a list: what a loop finds that stops at
      the first failing element. */
  function FirstSome<T(==)>(xs: seq<Option<T>>): (r: Option<T>)
    ensures r == None <==> forall i :: 0 <= i < |xs| ==> xs[i] == None
    ensures r.Some? ==> exists i :: 0 <= i < |xs| && xs[i] == r && forall j :: 0 <= j < i ==> xs[j] == None
    decreases |xs|
  {
    if xs == [] then None
    else if xs[0].Some? then xs[0]
    else
      var r := FirstSome(xs[1..]);
      assert forall i :: 1 <= i < |xs| ==> xs[i] == xs[1..][i - 1];
      if r.Some? then
        var i :| 0 <= i < |xs| - 1 && xs[1..][i] == r && forall j :: 0 <= j < i ==> xs[1..][j] == None;
        assert xs[i + 1] == r;
        r
      else r
  }

  /** The loop of `Load`, after the file has been read and decoded, for the
      validator `check` it is given: the tasks unchanged when every one
      passes, otherwise the error of the first task that fails. */
  function Load(tasks: seq<Task>, check: Task -> Option<ConfigError>): (r: Result<seq<Task>, ConfigError>)
    ensures r.Ok? <==> forall i :: 0 <= i < |tasks| ==> check(tasks[i]) == None
    ensures r.Ok? ==> r.value == tasks
    ensures r.Err? ==> exists i :: 0 <= i < |tasks| && check(tasks[i]) == Some(r.error)
                                  && forall j :: 0 <= j < i ==> check(tasks[j]) == None
  {
    var vs := seq(|tasks|, i requires 0 <= i < |tasks| => check(tasks[i]));
    assert |vs| == |tasks| && forall i :: 0 <= i < |tasks| ==> vs[i] == check(tasks[i]);
    match FirstSome(vs)
    case None => Ok(tasks)
    case Some(e) =>
      var i :| 0 <= i < |vs| && vs[i] == Some(e) && forall j :: 0 <= j < i ==> vs[j] == None;
      assert check(tasks[i]) == Some(e);
      Err(e)
  }

  /** `Load` with the program's validator: it succeeds exactly when every
      task validates, and otherwise reports the verdict of a task all of whose
      predecessors validate. */
  lemma LoadValidates(tasks: seq<Task>, durationOk: string -> bool)
    ensures var r := Load(tasks, t => ValidateTask(t, durationOk));
            && (r.Ok? <==> forall i :: 0 <= i < |tasks| ==> ValidateTask(tasks[i], durationOk) == None)
            && (r.Err? ==> exists i :: 0 <= i < |tasks| && ValidateTask(tasks[i], durationOk) == Some(r.error)
                                     && forall j :: 0 <= j < i ==> ValidateTask(tasks[j], durationOk) == None)
  {
  }

  /** The client options a task's destination settings are turned into. */
  function OptsOf(to: ToConf): WebDav.Opts {
    WebDav.Opts(to.baseUrl, to.auth, to.user, to.pass, to.token)
  }

  /** Every validated task carries an auth mode `New` accepts, and the
      credentials `New` picks for it are non-empty. */
  lemma ValidatedAuthAcceptedByNew(t: Task, durationOk: string -> bool, endpointOk: string -> bool)
    requires ValidateTask(t, durationOk) == None
    ensures WebDav.SupportedMode(Canonical(t.to.auth))
    ensures WebDav.New(OptsOf(t.to), endpointOk) != Err(WebDav.UnsupportedAuth)
    ensures WebDav.New(OptsOf(t.to), endpointOk).Ok? ==>
              match WebDav.New(OptsOf(t.to), endpointOk).value.credentials
              case BasicAuth(u, p) => u != [] && p != []
              case BearerAuth(tok) => tok != []
  {
    assert Holds(t, durationOk, 4);
  }

  /** The two auth switches agree: once the checks before it pass and the
      base URL is not blank, the validator refuses the mode exactly when
      `New` does. */
  lemma AuthSwitchesAgree(t: Task, durationOk: string -> bool, endpointOk: string -> bool)
    requires forall k :: 0 <= k < 4 ==> Holds(t, durationOk, k)
    requires TrimSpace(t.to.baseUrl) != []
    ensures ValidateTask(t, durationOk) == Some(UnsupportedAuth)
        <==> WebDav.New(OptsOf(t.to), endpointOk) == Err(WebDav.UnsupportedAuth)
  {
    AfterBaseUrl(t, durationOk);
  }

  /** Past the base URL check the validator's outcome is the auth switch's. */
  lemma AfterBaseUrl(t: Task, durationOk: string -> bool)
    requires forall k :: 0 <= k < 4 ==> Holds(t, durationOk, k)
    ensures ValidateTask(t, durationOk)
         == if AuthSatisfied(t.to) then ValidateSchedule(t, durationOk) else Some(AuthError(t.to))
  {
    assert Holds(t, durationOk, 0) && Holds(t, durationOk, 1) && Holds(t, durationOk, 2) && Holds(t, durationOk, 3);
  }

  /** Some check fails first whenever any check fails. */
  lemma FirstFailureExists(t: Task, durationOk: string -> bool, k: nat)
    requires k < CheckCount && !Holds(t, durationOk, k)
    ensures exists m: nat :: m <= k && FirstFailing(t, durationOk, m)
    decreases k
  {
    if forall j :: 0 <= j < k ==> Holds(t, durationOk, j) {
      assert FirstFailing(t, durationOk, k);
    } else {
      var j :| 0 <= j < k && !Holds(t, durationOk, j);
      FirstFailureExists(t, durationOk, j);
    }
  }

  /** The validator tests the base URL for exact emptiness while `New` trims
      it first, so a task whose base URL is only blanks validates and yet
      fails to build a client on every tick. */
  lemma BlankBaseUrlValidatesButNewRefuses()
    ensures var t := Task("invoices", FromConf("imap.example.com:143", "u", "p", "INBOX"),
                          ToConf(" ", "u", "p", "", ""), "", [], FilterConf([], None, []),
                          "5m", "{{.OrigBase}}", false);
            && ValidateTask(t, s => true) == None
            && WebDav.New(OptsOf(t.to), s => true) == Err(WebDav.EmptyBaseUrl)
  {
    var t := Task("invoices", FromConf("imap.example.com:143", "u", "p", "INBOX"),
                  ToConf(" ", "u", "p", "", ""), "", [], FilterConf([], None, []),
                  "5m", "{{.OrigBase}}", false);
    var d: string -> bool := s => true;
    assert !IsSpace(t.name[0]);
    assert Holds(t, d, 0);
    assert Holds(t, d, 1) && Holds(t, d, 2) && Holds(t, d, 3);
    assert Canonical(t.to.auth) == "";
    assert Holds(t, d, 4);
    assert Holds(t, d, 5);
    assert !IsSpace(t.format[0]);
    assert Holds(t, d, 6);
    assert forall k :: 0 <= k < CheckCount ==> Holds(t, d, k);
    assert IsSpace(t.to.baseUrl[0]);
  }
}
