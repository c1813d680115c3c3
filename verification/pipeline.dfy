/** One run of `loginAndFetchStats` (test.js:68-151) and its top-level
    `.catch` (test.js:153-156). The network is not modelled: every request
    the run makes is recorded as an `Effect`, and what each request would
    return is an input, either the response or a transport error. */
module Pipeline {
  import opened Wrappers
  import opened StatsTable
  import opened SheetTargets
  import opened Report

  /** What a request yields: its response, or a rejected promise. */
  datatype Fetch<T> = Received(body: T) | TransportError

  /** The entries of config.json the run reads; a missing entry is `None`. */
  datatype Config = Config(user: Option<string>, pass: Option<string>,
                           botToken: Option<string>, chatId: Option<string>)

  /** The world one run sees. The login page is reduced to the `value` of
      its `oa_cookiecheck` input (`None` when there is no such input or it
      has no value), the login response to its status, the stats page to the
      `td` cells of its table body rows, and the sheet to the rows of its
      `values` (an absent `values` field is the empty sheet). */
  datatype Environment = Environment(
    config: Config,
    loginPage: Fetch<Option<string>>,
    loginStatus: Fetch<int>,
    statsPage: Fetch<seq<Row>>,
    sheet: Fetch<seq<seq<string>>>,
    telegram: Fetch<()>)

  /** The requests a run makes, in order. */
  datatype Effect =
    | GetLoginPage
    | PostLogin(form: seq<(string, string)>)
    | GetStats
    | ReadSheet
    | SendMessage(url: string, chatId: string, text: string)

  /** Where the login leaves the run. */
  datatype Stage = Start | LoggedIn | Aborted | Failed

  /** `validateStatus`: the statuses the login POST resolves with. */
  predicate StatusAccepted(status: int) {
    status == 302 || status == 200
  }

  /** The login step of the run's state machine, from `Start`: 302 logs in,
      200 ("Login failed") stops the run quietly, and anything else, a
      transport error included, rejects the promise. */
  function LoginOutcome(response: Fetch<int>): (next: Stage)
    ensures next == LoggedIn <==> response == Received(302)
    ensures next == Aborted <==> response == Received(200)
    ensures next == Failed <==> response.TransportError? || !StatusAccepted(response.body)
    ensures next != Start
  {
    if response.TransportError? || !StatusAccepted(response.body) then Failed
    else if response.body == 302 then LoggedIn
    else Aborted
  }

  /** JavaScript truthiness of a config entry: missing and "" are falsy. */
  predicate Present(entry: Option<string>) {
    entry.Some? && entry.value != []
  }

  /** The text `URLSearchParams` writes for an `undefined` value. */
  const UndefinedText: string := "undefined"

  /** A form value as `URLSearchParams` writes it: `undefined` becomes the
      text "undefined". */
  function FormValue(entry: Option<string>): (v: string)
    ensures entry.Some? ==> v == entry.value
    ensures entry.None? ==> v == UndefinedText
  {
    match entry
    case Some(text) => text
    case None => UndefinedText
  }

  /** The login form, in the order its fields are written. */
  function LoginForm(config: Config, token: Option<string>): seq<(string, string)> {
    [("username", FormValue(config.user)), ("password", FormValue(config.pass)),
     ("oa_cookiecheck", FormValue(token)), ("login", "Login")]
  }

  /** `https://api.telegram.org/bot${TELEGRAM_BOT_TOKEN}/sendMessage`. */
  function SendUrl(botToken: string): string {
    "https://api.telegram.org/bot" + botToken + "/sendMessage"
  }

  /** The message a run that gets that far sends. */
  function RunMessage(env: Environment): string
    requires env.statsPage.Received? && env.sheet.Received? && env.sheet.body != []
  {
    Message(Extracted(env.statsPage.body), Targets(env.sheet.body).value)
  }

  /** How the promise returned by `loginAndFetchStats` settles. */
  datatype Outcome = Resolved | Rejected

  /** The top-level `.catch`: a rejected run exits the process with 1; a
      resolved one lets it end normally, with 0. */
  function ExitCode(outcome: Outcome): (code: int)
    ensures code == 1 <==> outcome == Rejected
    ensures code == 0 <==> outcome == Resolved
  {
    match outcome
    case Rejected => 1
    case Resolved => 0
  }

  /** The requests up to the login POST, for a login page that arrived. */
  function LoginTrace(env: Environment): seq<Effect>
    requires env.loginPage.Received?
  {
    [GetLoginPage, PostLogin(LoginForm(env.config, env.loginPage.body))]
  }

  /** `loginAndFetchStats`, case by case: the requests it makes, in order,
      and how its promise settles. */
  method LoginAndFetchStats(env: Environment) returns (effects: seq<Effect>, outcome: Outcome)
    // Step 1: a login page that does not arrive rejects the run.
    ensures env.loginPage.TransportError? ==> effects == [GetLoginPage] && outcome == Rejected
    // Step 2: the POST is rejected unless its status is 302 or 200, and 200
    // ends the run quietly; nothing further is requested in either case.
    ensures env.loginPage.Received? && LoginOutcome(env.loginStatus) == Failed ==>
              effects == LoginTrace(env) && outcome == Rejected
    ensures env.loginPage.Received? && LoginOutcome(env.loginStatus) == Aborted ==>
              effects == LoginTrace(env) && outcome == Resolved
    // Steps 3-7 run only after a 302 (the cases above cover every other
    // status); each failed request rejects the run with the requests made
    // so far, and so does a sheet without header row.
    ensures env.loginPage.Received? && LoginOutcome(env.loginStatus) == LoggedIn && env.statsPage.TransportError? ==>
              effects == LoginTrace(env) + [GetStats] && outcome == Rejected
    ensures env.loginPage.Received? && LoginOutcome(env.loginStatus) == LoggedIn && env.statsPage.Received? ==>
              && (env.sheet.TransportError? || env.sheet.body == [] ==>
                    effects == LoginTrace(env) + [GetStats, ReadSheet] && outcome == Rejected)
              // Step 7: the message is sent exactly when both the bot token
              // and the chat id are set, as the last request.
              && (env.sheet.Received? && env.sheet.body != [] && !(Present(env.config.botToken) && Present(env.config.chatId)) ==>
                    effects == LoginTrace(env) + [GetStats, ReadSheet] && outcome == Resolved)
              && (env.sheet.Received? && env.sheet.body != [] && Present(env.config.botToken) && Present(env.config.chatId) ==>
                    && effects == LoginTrace(env) + [GetStats, ReadSheet,
                         SendMessage(SendUrl(env.config.botToken.value), env.config.chatId.value, RunMessage(env))]
                    && (outcome == Rejected <==> env.telegram.TransportError?))
    // The top-level `.catch`: the process exits with 1 exactly when one of
    // the requests above fails, the login is refused, or the sheet is empty.
    ensures ExitCode(outcome) == 1 <==>
              || env.loginPage.TransportError?
              || LoginOutcome(env.loginStatus) == Failed
              || (&& LoginOutcome(env.loginStatus) == LoggedIn
                  && (|| env.statsPage.TransportError? || env.sheet.TransportError? || env.sheet.body == []
                      || (Present(env.config.botToken) && Present(env.config.chatId) && env.telegram.TransportError?)))
  {
    effects := [GetLoginPage];
    if env.loginPage.TransportError? {
      return effects, Rejected;
    }
    var token := env.loginPage.body;
    effects := effects + [PostLogin(LoginForm(env.config, token))];
    assert effects == LoginTrace(env);
    var stage := LoginOutcome(env.loginStatus);
    if stage == Failed {
      return effects, Rejected;
    }
    if stage != LoggedIn {
      return effects, Resolved;
    }
    effects := effects + [GetStats];
    assert effects == LoginTrace(env) + [GetStats];
    if env.statsPage.TransportError? {
      return effects, Rejected;
    }
    var advertisers := ExtractAdvertisers(env.statsPage.body);
    effects := effects + [ReadSheet];
    assert effects == LoginTrace(env) + [GetStats, ReadSheet];
    var sent;
    sent, outcome := ReportStage(advertisers, env);
    effects := effects + sent;
  }

  /** Steps 5-7 of the run, once the stats page arrived and its records
      were extracted: read the sheet, build the message and send it when
      the bot token and the chat id are both set. */
  method ReportStage(advertisers: seq<Advertiser>, env: Environment) returns (sent: seq<Effect>, outcome: Outcome)
    requires env.statsPage.Received? && advertisers == Extracted(env.statsPage.body)
    ensures env.sheet.TransportError? || env.sheet.body == [] ==> sent == [] && outcome == Rejected
    ensures env.sheet.Received? && env.sheet.body != [] && !(Present(env.config.botToken) && Present(env.config.chatId)) ==>
              sent == [] && outcome == Resolved
    ensures env.sheet.Received? && env.sheet.body != [] && Present(env.config.botToken) && Present(env.config.chatId) ==>
              && sent == [SendMessage(SendUrl(env.config.botToken.value), env.config.chatId.value, RunMessage(env))]
              && (outcome == Rejected <==> env.telegram.TransportError?)
  {
    sent := [];
    if env.sheet.TransportError? {
      return sent, Rejected;
    }
    var targets := GetTargetsFromSheet(env.sheet.body);
    if targets.Failure? {
      return sent, Rejected;
    }
    var message := BuildMessage(advertisers, targets.value);
    var botToken, chatId := env.config.botToken, env.config.chatId;
    if Present(botToken) && Present(chatId) {
      sent := [SendMessage(SendUrl(botToken.value), chatId.value, message)];
      if env.telegram.TransportError? {
        return sent, Rejected;
      }
    }
    outcome := Resolved;
  }
}
