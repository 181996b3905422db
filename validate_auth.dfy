/** The middleware factory of index.js: the settings it resolves from its
    configuration (lines 1-15) and the three request stages it hands out, the
    passphrase gate (lines 31-75), the e-mail check (lines 77-98) and the
    new-password check (lines 100-120).  Each stage is a function from the
    incoming body to an outcome and a new body, and a method that performs it
    on a request and a response. */
module ValidateAuth {
  import opened Wrappers
  import opened Text
  import opened Passphrase
  import opened Password
  import opened Email
  import opened Exchange

  // ---------------------------------------------------------------- the factory

  /** The `passphrase` section of the configuration. */
  datatype PassphraseConfig = PassphraseConfig(minWords: Option<int>)

  /** The factory's configuration; every key may be absent. */
  datatype Config = Config(
    emailLocation: Option<string>,
    passwordLocation: Option<string>,
    passphraseLocation: Option<string>,
    transformEmailLowerCase: Option<bool>,
    password: Option<PasswordConfig>,
    passphrase: Option<PassphraseConfig>)

  const NoConfig := Config(None, None, None, None, None, None)

  /** What every stage of one factory call shares. */
  datatype Settings = Settings(
    emailLocation: string,
    passwordLocation: string,
    passphraseLocation: string,
    lowerCaseEmail: bool,
    reqs: Requirements,
    minWords: int)

  /** Lines 4-15: each setting or its default. */
  function Configure(c: Config): (s: Settings)
    ensures s.emailLocation != "" && s.passwordLocation != "" && s.passphraseLocation != ""
    ensures s.minWords != 0 && s.reqs.minLength != 0
    ensures !s.lowerCaseEmail <==> c.transformEmailLowerCase == Some(false)
    ensures c.emailLocation.Some? && c.emailLocation.value != "" ==> s.emailLocation == c.emailLocation.value
    ensures c.emailLocation.None? || c.emailLocation == Some("") ==> s.emailLocation == "email"
    ensures c.passwordLocation.Some? && c.passwordLocation.value != "" ==> s.passwordLocation == c.passwordLocation.value
    ensures c.passwordLocation.None? || c.passwordLocation == Some("") ==> s.passwordLocation == "password"
    ensures c.passphraseLocation.Some? && c.passphraseLocation.value != "" ==> s.passphraseLocation == c.passphraseLocation.value
    ensures c.passphraseLocation.None? || c.passphraseLocation == Some("") ==> s.passphraseLocation == "passphrase"
    ensures s.reqs == PwdReqs(if c.password.Some? then c.password.value else NoPasswordConfig)
    ensures s.minWords == (if c.passphrase.None? || c.passphrase.value.minWords.None? || c.passphrase.value.minWords == Some(0) then 9
                           else c.passphrase.value.minWords.value)
  {
    Settings(
      StringOr(c.emailLocation, "email"),
      StringOr(c.passwordLocation, "password"),
      StringOr(c.passphraseLocation, "passphrase"),
      FlagOn(c.transformEmailLowerCase),
      PwdReqs(if c.password.Some? then c.password.value else NoPasswordConfig),
      IntOr(if c.passphrase.Some? then c.passphrase.value.minWords else None, 9))
  }

  /** With no configuration: the default field names, lower-casing on, the
      strictest password requirements and nine words. */
  lemma DefaultSettings()
    ensures Configure(NoConfig) == Settings("email", "password", "passphrase", true, Requirements(8, true, true, true, true), 9)
  {
  }

  // ---------------------------------------------------------------- stage results

  /** The outcome of a stage and the request body it leaves behind. */
  datatype Step = Step(outcome: Outcome, body: Option<Body>)

  function ErrorStatus(v: Option<int>): (r: int)
    ensures r != 0
    ensures v.Some? && v.value != 0 ==> r == v.value
    ensures v.None? || v == Some(0) ==> r == 400
  {
    IntOr(v, 400)
  }

  // ---------------------------------------------------------------- the passphrase gate

  /** The options of `allowNewPassphrase(config)`. */
  datatype GateConfig = GateConfig(
    haveNeitherMessage: Option<Msg>,
    haveBothMessage: Option<Msg>,
    shortPassphraseMessage: Option<Msg>,
    errorStatus: Option<int>)

  const NoGateConfig := GateConfig(None, None, None, None)

  /** `m || d` for a message: an object is always truthy, a string only when
      it is not empty (lines 35-36, 79, 102). */
  function MsgOr(m: Option<Msg>, d: string): (r: Msg)
    ensures m.Some? && m.value != Text("") ==> r == m.value
    ensures m.None? || m.value == Text("") ==> r == Text(d)
  {
    if m.Some? && (m.value.Structured? || m.value.text != "") then m.value else Text(d)
  }

  /** Line 35: the configured message, or a text naming both fields. */
  function NeitherMessage(st: Settings, cfg: GateConfig): (r: Msg)
    ensures cfg.haveNeitherMessage.Some? && cfg.haveNeitherMessage.value != Text("") ==> r == cfg.haveNeitherMessage.value
    ensures cfg.haveNeitherMessage.None? || cfg.haveNeitherMessage.value == Text("") ==>
      r == Text("Need req.body." + st.passwordLocation + " or req.body." + st.passphraseLocation)
  {
    MsgOr(cfg.haveNeitherMessage, "Need req.body." + st.passwordLocation + " or req.body." + st.passphraseLocation)
  }

  /** Line 36: the configured message, or a text naming both fields. */
  function BothMessage(st: Settings, cfg: GateConfig): (r: Msg)
    ensures cfg.haveBothMessage.Some? && cfg.haveBothMessage.value != Text("") ==> r == cfg.haveBothMessage.value
    ensures cfg.haveBothMessage.None? || cfg.haveBothMessage.value == Text("") ==>
      r == Text("Can't have both req.body." + st.passwordLocation + " and req.body." + st.passphraseLocation)
  {
    MsgOr(cfg.haveBothMessage, "Can't have both req.body." + st.passwordLocation + " and req.body." + st.passphraseLocation)
  }

  const Placeholder := "${minWords}"

  /** Lines 38-52: a non-empty string message, or every value of an object
      message, with its first placeholder replaced by the word count; otherwise
      the default text. */
  function ShortMessage(st: Settings, cfg: GateConfig): (m: Msg)
    ensures cfg.shortPassphraseMessage.Some? && cfg.shortPassphraseMessage.value.Structured? ==>
      m.Structured? && m.fields.Keys == cfg.shortPassphraseMessage.value.fields.Keys
    ensures cfg.shortPassphraseMessage.None? || cfg.shortPassphraseMessage == Some(Text("")) ==>
      m == Text("Normalized passphrase needs " + IntToString(st.minWords) + " unique words > 1 character")
  {
    var count := IntToString(st.minWords);
    match cfg.shortPassphraseMessage
    case Some(Text(t)) =>
      if t != "" then Text(ReplaceFirst(t, Placeholder, count))
      else Text("Normalized passphrase needs " + count + " unique words > 1 character")
    case Some(Structured(fields)) =>
      Structured(map k | k in fields :: ReplaceFirst(fields[k], Placeholder, count))
    case None =>
      Text("Normalized passphrase needs " + count + " unique words > 1 character")
  }

  /** The gate (lines 56-74) on the request body; `skipLengthCheck` is the
      second parameter of `allowNewPassphrase`, true for
      `allowExistingPassphrase`. */
  function Gate(st: Settings, cfg: GateConfig, skipLengthCheck: bool, body: Option<Body>): (r: Step)
    ensures !r.outcome.Throws?
    ensures r.outcome.Reply? ==> r.outcome.status == ErrorStatus(cfg.errorStatus) && r.body == body
    ensures r.body != body ==> r.outcome == Next
  {
    var status := ErrorStatus(cfg.errorStatus);
    match body
    case None => Step(Next, body)
    case Some(b) =>
      var pw, pp := st.passwordLocation, st.passphraseLocation;
      if !Present(b, pw) && !Present(b, pp) then Step(Reply(status, NeitherMessage(st, cfg)), body)
      else if Present(b, pw) && Present(b, pp) then Step(Reply(status, BothMessage(st, cfg)), body)
      else if !Present(b, pp) then Step(Next, body)
      else
        var candidate := Normalized(b[pp]);
        if skipLengthCheck || |Split(candidate, ' ')| >= st.minWords then Step(Next, Some(b[pw := candidate]))
        else Step(Reply(status, ShortMessage(st, cfg)), body)
  }

  /** The routes of the gate that do not depend on the passphrase. */
  lemma GateRoutes(st: Settings, cfg: GateConfig, skipLengthCheck: bool, b: Body)
    ensures var r := Gate(st, cfg, skipLengthCheck, Some(b));
      var pw, pp := st.passwordLocation, st.passphraseLocation;
      (!Present(b, pw) && !Present(b, pp) ==> r == Step(Reply(ErrorStatus(cfg.errorStatus), NeitherMessage(st, cfg)), Some(b)))
      && (Present(b, pw) && Present(b, pp) ==> r == Step(Reply(ErrorStatus(cfg.errorStatus), BothMessage(st, cfg)), Some(b)))
      && (Present(b, pw) && !Present(b, pp) ==> r == Step(Next, Some(b)))
    ensures Gate(st, cfg, skipLengthCheck, None) == Step(Next, None)
  {
  }

  /** With only a passphrase, the new-passphrase gate accepts exactly when the
      normalised passphrase has at least `minWords` distinct words of two or
      more characters, an empty one counting as one word; an accepted
      passphrase is written, normalised, into the password field, and a
      rejected one leaves the body alone. */
  lemma GateAcceptsIff(st: Settings, cfg: GateConfig, b: Body)
    requires !Present(b, st.passwordLocation) && Present(b, st.passphraseLocation)
    ensures var r := Gate(st, cfg, false, Some(b));
      var words := Dedup(Candidates(b[st.passphraseLocation]));
      (r.outcome == Next <==> (if words == [] then 1 else |words|) >= st.minWords)
      && (r.outcome == Next ==> r.body == Some(b[st.passwordLocation := Join(words, ' ')]))
      && (r.outcome != Next ==> r == Step(Reply(ErrorStatus(cfg.errorStatus), ShortMessage(st, cfg)), Some(b)))
  {
    WordCount(b[st.passphraseLocation]);
  }

  /** With only a passphrase, the existing-passphrase gate always writes it,
      normalised, into the password field and passes the request on. */
  lemma ExistingAlwaysWrites(st: Settings, cfg: GateConfig, b: Body)
    requires !Present(b, st.passwordLocation) && Present(b, st.passphraseLocation)
    ensures Gate(st, cfg, true, Some(b)) == Step(Next, Some(b[st.passwordLocation := Normalized(b[st.passphraseLocation])]))
  {
  }

  /** The existing-passphrase gate differs from the new-passphrase gate only
      where the latter rejects a short passphrase: it writes it instead.  On
      every other body the two gates agree. */
  lemma ExistingSkipsOnlyLength(st: Settings, cfg: GateConfig, body: Option<Body>)
    ensures var n, e := Gate(st, cfg, false, body), Gate(st, cfg, true, body);
      if body.Some? && !Present(body.value, st.passwordLocation) && Present(body.value, st.passphraseLocation) then
        e == Step(Next, Some(body.value[st.passwordLocation := Normalized(body.value[st.passphraseLocation])]))
        && (n == e || n == Step(Reply(ErrorStatus(cfg.errorStatus), ShortMessage(st, cfg)), body))
      else e == n
  {
  }

  /** Whatever the gate writes into the password field is a normalised
      passphrase: allowed characters, single spaces, distinct words. */
  lemma GateWritesNormalized(st: Settings, cfg: GateConfig, skipLengthCheck: bool, b: Body)
    requires Gate(st, cfg, skipLengthCheck, Some(b)).body != Some(b)
    ensures var nb := Gate(st, cfg, skipLengthCheck, Some(b)).body;
      nb.Some? && st.passwordLocation in nb.value
      && AllAllowed(nb.value[st.passwordLocation])
      && WellSeparated(nb.value[st.passwordLocation], ' ')
      && Distinct(Split(nb.value[st.passwordLocation], ' '))
      && nb.value == b[st.passwordLocation := Normalized(b[st.passphraseLocation])]
  {
    var input := b[st.passphraseLocation];
    NormalizedAlphabet(input);
    NormalizedSpacing(input);
    NormalizedWords(input);
  }

  /** `allowNewPassphrase(config, skipLengthCheck)` on a request: the marker is
      set before anything else, and a reply is sent exactly when the gate
      replies. */
  method AllowNewPassphrase(st: Settings, cfg: GateConfig, skipLengthCheck: bool, req: Request, res: Response) returns (o: Outcome)
    modifies req, res
    ensures req.passphraseAllowed
    ensures Step(o, req.body) == Gate(st, cfg, skipLengthCheck, old(req.body))
    ensures res.calls == old(res.calls) + OutcomeCalls(o)
  {
    req.passphraseAllowed := true;
    var status := ErrorStatus(cfg.errorStatus);
    if req.body.None? {
      return Next;
    }
    var b := req.body.value;
    var pw, pp := st.passwordLocation, st.passphraseLocation;
    if !Present(b, pw) && !Present(b, pp) {
      o := Reply(status, NeitherMessage(st, cfg));
      SendReply(res, status, o.msg);
      return;
    }
    if Present(b, pw) && Present(b, pp) {
      o := Reply(status, BothMessage(st, cfg));
      SendReply(res, status, o.msg);
      return;
    }
    if !Present(b, pp) {
      return Next;
    }
    var candidate := NormalizePassphrase(b[pp]);
    if skipLengthCheck || |Split(candidate, ' ')| >= st.minWords {
      req.body := Some(b[pw := candidate]);
      o := Next;
    } else {
      o := Reply(status, ShortMessage(st, cfg));
      SendReply(res, status, o.msg);
    }
  }

  /** `allowExistingPassphrase(config)`: the gate without the length check. */
  method AllowExistingPassphrase(st: Settings, cfg: GateConfig, req: Request, res: Response) returns (o: Outcome)
    modifies req, res
    ensures req.passphraseAllowed
    ensures Step(o, req.body) == Gate(st, cfg, true, old(req.body))
    ensures res.calls == old(res.calls) + OutcomeCalls(o)
  {
    o := AllowNewPassphrase(st, cfg, true, req, res);
  }

  // ---------------------------------------------------------------- the e-mail check

  /** The options of `validateEmail(config)`. */
  datatype EmailConfig = EmailConfig(invalidEmailMessage: Option<Msg>, errorStatus: Option<int>)

  /** Line 79: the configured message, or the default text. */
  function InvalidEmailMessage(cfg: EmailConfig): (r: Msg)
    ensures cfg.invalidEmailMessage.Some? && cfg.invalidEmailMessage.value != Text("") ==> r == cfg.invalidEmailMessage.value
    ensures cfg.invalidEmailMessage.None? || cfg.invalidEmailMessage.value == Text("") ==> r == Text("Invalid email address")
  {
    MsgOr(cfg.invalidEmailMessage, "Invalid email address")
  }

  /** The e-mail stage (lines 82-96) on the request body: a present address is
      rewritten to its prepared form, which is then matched. */
  function EmailStage(st: Settings, cfg: EmailConfig, body: Option<Body>): (r: Step)
    ensures !r.outcome.Throws?
    ensures var e := st.emailLocation;
      if body.Some? && Present(body.value, e) then
        var v := Prepare(body.value[e], st.lowerCaseEmail);
        r.body == Some(body.value[e := v])
        && (r.outcome.Reply? <==> !EmailShape(v))
      else r == Step(Next, body)
    ensures r.outcome.Reply? ==> r.outcome == Reply(ErrorStatus(cfg.errorStatus), InvalidEmailMessage(cfg))
  {
    match body
    case None => Step(Next, body)
    case Some(b) =>
      var e := st.emailLocation;
      if !Present(b, e) then Step(Next, body)
      else
        var v := Prepare(b[e], st.lowerCaseEmail);
        EmailAtLastAt(v);
        if !IsEmail(v) then
          Step(Reply(ErrorStatus(cfg.errorStatus), InvalidEmailMessage(cfg)), Some(b[e := v]))
        else Step(Next, Some(b[e := v]))
  }

  /** `validateEmail(config)` on a request. */
  method ValidateEmail(st: Settings, cfg: EmailConfig, req: Request, res: Response) returns (o: Outcome)
    modifies req, res
    ensures req.passphraseAllowed == old(req.passphraseAllowed)
    ensures Step(o, req.body) == EmailStage(st, cfg, old(req.body))
    ensures res.calls == old(res.calls) + OutcomeCalls(o)
  {
    if req.body.None? {
      return Next;
    }
    var b, e := req.body.value, st.emailLocation;
    if !Present(b, e) {
      return Next;
    }
    var v := Trim(b[e]);
    req.body := Some(b[e := v]);
    if st.lowerCaseEmail {
      v := LowerStr(v);
      req.body := Some(b[e := v]);
    }
    assert v == Prepare(b[e], st.lowerCaseEmail);
    if !IsEmail(v) {
      var status := ErrorStatus(cfg.errorStatus);
      o := Reply(status, InvalidEmailMessage(cfg));
      SendReply(res, status, o.msg);
    } else {
      o := Next;
    }
  }

  // ---------------------------------------------------------------- the new-password check

  /** The options of `validateNewPassword(config)`. */
  datatype PasswordStageConfig = PasswordStageConfig(invalidPasswordMessage: Option<Msg>, errorStatus: Option<int>)

  /** Line 102: the configured message, or the default text. */
  function InvalidPasswordMessage(cfg: PasswordStageConfig): (r: Msg)
    ensures cfg.invalidPasswordMessage.Some? && cfg.invalidPasswordMessage.value != Text("") ==> r == cfg.invalidPasswordMessage.value
    ensures cfg.invalidPasswordMessage.None? || cfg.invalidPasswordMessage.value == Text("") ==> r == Text("Password doesn't meet requirements")
  {
    MsgOr(cfg.invalidPasswordMessage, "Password doesn't meet requirements")
  }

  /** The new-password stage (lines 105-118): it refuses to run after the gate,
      passes requests without a password, and otherwise checks it. */
  function PasswordStage(st: Settings, cfg: PasswordStageConfig, passphraseAllowed: bool, body: Option<Body>): (o: Outcome)
    ensures o == Throws <==> passphraseAllowed
    ensures o.Reply? <==>
      !passphraseAllowed && body.Some? && Present(body.value, st.passwordLocation)
      && !ValidPassword(st.reqs, body.value[st.passwordLocation])
    ensures o.Reply? ==> o == Reply(ErrorStatus(cfg.errorStatus), InvalidPasswordMessage(cfg))
  {
    if passphraseAllowed then Throws
    else match body
      case None => Next
      case Some(b) =>
        if !Present(b, st.passwordLocation) then Next
        else if !ValidPassword(st.reqs, b[st.passwordLocation]) then
          Reply(ErrorStatus(cfg.errorStatus), InvalidPasswordMessage(cfg))
        else Next
  }

  /** `validateNewPassword(config)` on a request; the request is only read. */
  method ValidateNewPassword(st: Settings, cfg: PasswordStageConfig, req: Request, res: Response) returns (o: Outcome)
    modifies res
    ensures o == PasswordStage(st, cfg, req.passphraseAllowed, req.body)
    ensures res.calls == old(res.calls) + OutcomeCalls(o)
  {
    if req.passphraseAllowed {
      return Throws;
    }
    if req.body.None? || !Present(req.body.value, st.passwordLocation) {
      return Next;
    }
    if !ValidPassword(st.reqs, req.body.value[st.passwordLocation]) {
      var status := ErrorStatus(cfg.errorStatus);
      o := Reply(status, InvalidPasswordMessage(cfg));
      SendReply(res, status, o.msg);
      return;
    }
    o := Next;
  }

  // ---------------------------------------------------------------- stage order

  /** A request that has passed through either gate variant makes the
      new-password stage throw, whatever its body: the password check must run
      first. */
  method GateThenPasswordThrows(st: Settings, gcfg: GateConfig, skipLengthCheck: bool, pcfg: PasswordStageConfig, req: Request, res: Response)
    returns (first: Outcome, second: Outcome)
    modifies req, res
    ensures second == Throws
  {
    first := AllowNewPassphrase(st, gcfg, skipLengthCheck, req, res);
    second := ValidateNewPassword(st, pcfg, req, res);
  }

  /** A message whose first `$` starts the placeholder gets the count in its
      place; the rest of the message, further placeholders included, is
      kept. */
  lemma PlaceholderReplaced(pre: string, post: string, minWords: int)
    requires forall i :: 0 <= i < |pre| ==> pre[i] != '$'
    ensures ReplaceFirst(pre + Placeholder + post, Placeholder, IntToString(minWords)) == pre + IntToString(minWords) + post
  {
    var s := pre + Placeholder + post;
    forall j | 0 <= j < |pre| ensures !OccursAt(s, Placeholder, j) {
      assert s[j..j + |Placeholder|][0] == s[j] == pre[j];
    }
    ReplaceFirstAt(pre, Placeholder, IntToString(minWords), post);
  }

  /** Lines 40-47: a string message, and each value of an object message,
      gets the count in place of its first placeholder. */
  lemma ShortMessageSubstitutes(st: Settings, cfg: GateConfig, key: string, pre: string, post: string)
    requires forall i :: 0 <= i < |pre| ==> pre[i] != '$'
    ensures cfg.shortPassphraseMessage == Some(Text(pre + Placeholder + post)) ==>
      ShortMessage(st, cfg) == Text(pre + IntToString(st.minWords) + post)
    ensures (cfg.shortPassphraseMessage.Some? && cfg.shortPassphraseMessage.value.Structured?
             && key in cfg.shortPassphraseMessage.value.fields
             && cfg.shortPassphraseMessage.value.fields[key] == pre + Placeholder + post) ==>
      key in ShortMessage(st, cfg).fields && ShortMessage(st, cfg).fields[key] == pre + IntToString(st.minWords) + post
  {
    PlaceholderReplaced(pre, post, st.minWords);
  }

  /** Lines 40-47: a message without the placeholder is sent as it is, and so
      is each object value without one. */
  lemma ShortMessageWithoutPlaceholder(st: Settings, cfg: GateConfig, key: string)
    ensures (cfg.shortPassphraseMessage.Some? && cfg.shortPassphraseMessage.value.Text?
             && cfg.shortPassphraseMessage.value.text != ""
             && !Contains(cfg.shortPassphraseMessage.value.text, Placeholder)) ==>
      ShortMessage(st, cfg) == cfg.shortPassphraseMessage.value
    ensures (cfg.shortPassphraseMessage.Some? && cfg.shortPassphraseMessage.value.Structured?
             && key in cfg.shortPassphraseMessage.value.fields
             && !Contains(cfg.shortPassphraseMessage.value.fields[key], Placeholder)) ==>
      key in ShortMessage(st, cfg).fields && ShortMessage(st, cfg).fields[key] == cfg.shortPassphraseMessage.value.fields[key]
  {
  }

  // ---------------------------------------------------------------- examples

  // Literal inputs are parameters fixed by `requires` rather than literals in
  // the contract: the solver would otherwise unfold the recursive string
  // functions on them eagerly, which makes these proofs far more expensive.

  /** With no options, every stage replies with status 400, and the gate's
      messages name the default fields and the default nine words. */
  lemma DefaultGateMessages()
    ensures var st := Configure(NoConfig);
      ErrorStatus(NoGateConfig.errorStatus) == 400
      && NeitherMessage(st, NoGateConfig) == Text("Need req.body.password or req.body.passphrase")
      && BothMessage(st, NoGateConfig) == Text("Can't have both req.body.password and req.body.passphrase")
      && ShortMessage(st, NoGateConfig) == Text("Normalized passphrase needs 9 unique words > 1 character")
  {
    var st := Configure(NoConfig);
    DefaultSettings();
    NeitherText(st.passwordLocation, st.passphraseLocation);
    BothText(st.passwordLocation, st.passphraseLocation);
    ShortText(IntToString(st.minWords));
  }

  /** The default texts, with the default field names and count filled in. */
  lemma NeitherText(pw: string, pp: string)
    requires pw == "password" && pp == "passphrase"
    ensures "Need req.body." + pw + " or req.body." + pp == "Need req.body.password or req.body.passphrase"
  {
  }

  lemma BothText(pw: string, pp: string)
    requires pw == "password" && pp == "passphrase"
    ensures "Can't have both req.body." + pw + " and req.body." + pp == "Can't have both req.body.password and req.body.passphrase"
  {
  }

  lemma ShortText(count: string)
    requires count == "9"
    ensures "Normalized passphrase needs " + count + " unique words > 1 character" == "Normalized passphrase needs 9 unique words > 1 character"
  {
  }

  /** With no options, a malformed address gets `Invalid email address`. */
  lemma DefaultEmailReply(st: Settings, b: Body)
    requires Present(b, st.emailLocation) && !EmailShape(Prepare(b[st.emailLocation], st.lowerCaseEmail))
    ensures EmailStage(st, EmailConfig(None, None), Some(b)).outcome == Reply(400, Text("Invalid email address"))
  {
  }

  /** With no options, a password that fails the requirements gets
      `Password doesn't meet requirements`. */
  lemma DefaultPasswordReply(st: Settings, b: Body)
    requires Present(b, st.passwordLocation) && !ValidPassword(st.reqs, b[st.passwordLocation])
    ensures PasswordStage(st, PasswordStageConfig(None, None), false, Some(b)) == Reply(400, Text("Password doesn't meet requirements"))
  {
  }

  /** A factory configured with `passphrase: {minWords: 3}`. */
  const ThreeWordSettings := Configure(Config(None, None, None, None, None, Some(PassphraseConfig(Some(3)))))

  /** The existing-passphrase gate writes a two-word passphrase although three
      words are asked for. */
  lemma ExistingAcceptsShort(b: Body)
    requires b == map["passphrase" := "Abc Def"]
    ensures Gate(ThreeWordSettings, NoGateConfig, true, Some(b)) == Step(Next, Some(b["password" := "abc def"]))
  {
    ExampleCase(b["passphrase"]);
  }

  /** A passphrase-only body whose normalised passphrase has too few words
      gets the short-passphrase reply and is left alone. */
  lemma ShortRejected(st: Settings, cfg: GateConfig, b: Body)
    requires !Present(b, st.passwordLocation) && Present(b, st.passphraseLocation)
    requires |Split(Normalized(b[st.passphraseLocation]), ' ')| < st.minWords
    ensures Gate(st, cfg, false, Some(b)) == Step(Reply(ErrorStatus(cfg.errorStatus), ShortMessage(st, cfg)), Some(b))
  {
  }

  lemma FoldsToTwoWords(x: string)
    requires x == "Abc Def" || x == "abc def"
    ensures LowerStr(x) == Join(["abc", "def"], ' ')
  {
    CaseFolded();
    if x == "abc def" {
      assert LowerStr(x) == "abc def";
    }
  }

  /** `"Abc Def"` and `"abc def"` normalise to two words. */
  lemma TwoWords(x: string)
    requires x == "Abc Def" || x == "abc def"
    ensures |Split(Normalized(x), ' ')| == 2
  {
    var ws := ["abc", "def"];
    FoldsToTwoWords(x);
    ExampleWords();
    CandidatesFromLower(x, ws);
    DedupIdentity(ws);
    WordCount(x);
  }

  /** The new-passphrase gate rejects it, with the first placeholder of a
      custom message replaced by the count (`"need ${minWords}"` becomes
      `"need 3"`). */
  lemma NewRejectsShort(x: string, pre: string, post: string)
    requires x == "Abc Def" || x == "abc def"
    requires forall i :: 0 <= i < |pre| ==> pre[i] != '$'
    ensures Gate(ThreeWordSettings, GateConfig(None, None, Some(Text(pre + Placeholder + post)), None), false, Some(map["passphrase" := x]))
      == Step(Reply(400, Text(pre + "3" + post)), Some(map["passphrase" := x]))
  {
    var cfg := GateConfig(None, None, Some(Text(pre + Placeholder + post)), None);
    var b := map["passphrase" := x];
    assert ShortMessage(ThreeWordSettings, cfg) == Text(pre + "3" + post) by {
      PlaceholderReplaced(pre, post, 3);
    }
    TwoWords(x);
    ShortRejected(ThreeWordSettings, cfg, b);
  }

  /** The same with an object message: its value is substituted. */
  lemma NewRejectsShortObject(x: string, key: string, pre: string, post: string)
    requires x == "Abc Def" || x == "abc def"
    requires forall i :: 0 <= i < |pre| ==> pre[i] != '$'
    ensures Gate(ThreeWordSettings, GateConfig(None, None, Some(Structured(map[key := pre + Placeholder + post])), None), false, Some(map["passphrase" := x]))
      == Step(Reply(400, Structured(map[key := pre + "3" + post])), Some(map["passphrase" := x]))
  {
    var fields := map[key := pre + Placeholder + post];
    var cfg := GateConfig(None, None, Some(Structured(fields)), None);
    var b := map["passphrase" := x];
    assert ShortMessage(ThreeWordSettings, cfg) == Structured(map[key := pre + "3" + post]) by {
      PlaceholderReplaced(pre, post, 3);
      assert (map k | k in fields :: ReplaceFirst(fields[k], Placeholder, "3")) == map[key := pre + "3" + post];
    }
    TwoWords(x);
    ShortRejected(ThreeWordSettings, cfg, b);
  }

  /** Every occurrence of the placeholder starts with `$`. */
  lemma PlaceholderStartsWithDollar(m: string, k: int)
    requires OccursAt(m, Placeholder, k)
    ensures m[k] == '$'
  {
    assert m[k..k + |Placeholder|][0] == m[k];
  }

  /** A string without `$` holds no placeholder. */
  lemma NoDollarNoPlaceholder(m: string)
    requires forall i :: 0 <= i < |m| ==> m[i] != '$'
    ensures !Contains(m, Placeholder)
  {
    var k := IndexOf(m, Placeholder);
    if k != -1 {
      PlaceholderStartsWithDollar(m, k);
      assert false;
    }
  }

  /** A custom message without the placeholder, `"my custom string"` say, is
      sent back exactly, as a string and as an object value. */
  lemma NewRejectsShortVerbatim(x: string, m: string)
    requires x == "Abc Def" || x == "abc def"
    requires m == "my custom string"
    ensures Gate(ThreeWordSettings, GateConfig(None, None, Some(Text(m)), None), false, Some(map["passphrase" := x]))
      == Step(Reply(400, Text(m)), Some(map["passphrase" := x]))
    ensures Gate(ThreeWordSettings, GateConfig(None, None, Some(Structured(map["en" := m])), None), false, Some(map["passphrase" := x]))
      == Step(Reply(400, Structured(map["en" := m])), Some(map["passphrase" := x]))
  {
    var b := map["passphrase" := x];
    var fields := map["en" := m];
    var tc := GateConfig(None, None, Some(Text(m)), None);
    var oc := GateConfig(None, None, Some(Structured(fields)), None);
    NoDollarNoPlaceholder(m);
    ShortMessageWithoutPlaceholder(ThreeWordSettings, tc, "en");
    ShortMessageWithoutPlaceholder(ThreeWordSettings, oc, "en");
    assert ShortMessage(ThreeWordSettings, oc) == Structured(fields);
    TwoWords(x);
    ShortRejected(ThreeWordSettings, tc, b);
    ShortRejected(ThreeWordSettings, oc, b);
  }

  /** An address padded with white space is stored without the padding, in
      lower case when the flag is on; the stage then passes exactly the
      addresses of the right shape (so `"  TEST@SOME.NET  "` is stored as
      `"TEST@SOME.NET"` with the flag off, and accepted). */
  lemma PaddedAddress(st: Settings, cfg: EmailConfig, pre: string, v: string, post: string)
    requires forall i :: 0 <= i < |pre| ==> IsWhitespace(pre[i])
    requires forall i :: 0 <= i < |post| ==> IsWhitespace(post[i])
    requires v != [] && !IsWhitespace(v[0]) && !IsWhitespace(v[|v| - 1])
    ensures var stored := if st.lowerCaseEmail then LowerStr(v) else v;
      var r := EmailStage(st, cfg, Some(map[st.emailLocation := pre + v + post]));
      r.body == Some(map[st.emailLocation := stored])
      && (r.outcome == Next <==> EmailShape(stored))
  {
    var e := st.emailLocation;
    var b := map[e := pre + v + post];
    TrimPadded(pre, v, post);
    assert Present(b, e);
    assert b[e := Prepare(b[e], st.lowerCaseEmail)] == map[e := if st.lowerCaseEmail then LowerStr(v) else v];
  }
}
