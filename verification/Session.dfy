/** The SMTP command loop of src/smtp.rs and what it hands to deliver_mail. */
module Session {
  import opened Results
  import opened QueueFile
  import opened Retry
  import opened MailFlow

  datatype State =
    | Init
    | Greeted
    | MailFrom(from: string)
    | RcptTo(from: string, rcpts: seq<string>)

  /** What the connection and the configuration fix. */
  datatype Setup = Setup(isSubmission: bool, implicitTls: bool, tlsAvailable: bool, requireTlsForAuth: bool,
                         isOurs: string -> bool, resolve: string -> Option<string>)

  datatype AuthOutcome = LockedOut | NoMechanism | Malformed | Rejected | Passed(user: string)

  /** How a DATA block ends, as far as the checks before delivery go. */
  datatype DataOutcome = Oversized | MailLoop | Complete(raw: string, policyReject: bool)

  /** A command line after splitting; addresses are what extract_angle returns, "" for none. */
  datatype Command =
    | Ehlo
    | StartTls
    | Auth(outcome: AuthOutcome)
    | Mail(address: string)
    | Rcpt(address: string, throttled: bool, greylisted: bool)
    | Data(end: DataOutcome)
    | Rset
    | Noop
    | Verify
    | Quit
    | Unknown

  datatype Transaction = Transaction(from: string, rcpts: seq<string>, raw: string)

  /** The variables of the command loop. */
  datatype Vars = Vars(state: State, user: Option<string>, tls: bool, open: bool)

  /** One reply and, after DATA, the transaction passed to deliver_mail. */
  datatype Turn = Turn(vars: Vars, code: nat, tx: Option<Transaction>)

  const SYNTAX := 500

  function Reply(v: Vars, code: nat): Turn {
    Turn(v, code, None)
  }

  /** One round of the command loop; the arms and guards of its match, in order. */
  function Round(c: Setup, v: Vars, cmd: Command): Turn {
    match cmd
    case Ehlo =>
      if v.state == Init || v.state == Greeted then Reply(v.(state := Greeted), 250) else Reply(v, SYNTAX)
    case StartTls =>
      if c.tlsAvailable && !v.tls then Reply(v.(state := Init, user := None, tls := true), 220) else Reply(v, SYNTAX)
    case Auth(outcome) => AuthRound(c, v, outcome)
    case Mail(address) =>
      if v.state == Init then Reply(v, SYNTAX)
      else if c.isSubmission && v.user == None then Reply(v, 530)
      else if address == [] then Reply(v, 501)
      else Reply(v.(state := MailFrom(address)), 250)
    case Rcpt(address, throttled, greylisted) => RcptRound(c, v, address, throttled, greylisted)
    case Data(outcome) =>
      if !v.state.RcptTo? then Reply(v, SYNTAX) else DataRound(c, v, outcome)
    case Rset => Reply(v.(state := Greeted), 250)
    case Noop => Reply(v, 250)
    case Verify => Reply(v, 252)
    case Quit => Reply(v.(open := false), 221)
    case Unknown => Reply(v, SYNTAX)
  }

  function AuthRound(c: Setup, v: Vars, outcome: AuthOutcome): Turn {
    if v.user.Some? then Reply(v, SYNTAX)
    else if outcome == LockedOut then Reply(v.(open := false), 421)
    else if c.requireTlsForAuth && !v.tls then Reply(v, 538)
    else
      match outcome
      case LockedOut => Reply(v.(open := false), 421)
      case NoMechanism => Reply(v, 504)
      case Malformed => Reply(v, 501)
      case Rejected => Reply(v, 535)
      case Passed(user) => Reply(v.(user := Some(user)), 235)
  }

  /** Inbound, an address is taken only for a local domain and an existing mailbox. */
  predicate Allowed(c: Setup, address: string) {
    c.isSubmission || (c.isOurs(address) && c.resolve(address).Some?)
  }

  function RcptRound(c: Setup, v: Vars, address: string, throttled: bool, greylisted: bool): Turn {
    if v.state.Init? || v.state.Greeted? then Reply(v, SYNTAX)
    else if address == [] then Reply(v, 501)
    else if !Allowed(c, address) then Reply(v, 550)
    else if c.isSubmission && v.user.Some? && throttled then Reply(v, 452)
    else if !c.isSubmission && v.state.MailFrom? && greylisted then Reply(v, 451)
    else
      var rcpts := if v.state.MailFrom? then [address] else v.state.rcpts + [address];
      Reply(v.(state := RcptTo(v.state.from, rcpts)), 250)
  }

  /** Every end of DATA goes back to Greeted; only a complete, accepted one delivers. */
  function DataRound(c: Setup, v: Vars, outcome: DataOutcome): Turn
    requires v.state.RcptTo?
  {
    var done := v.(state := Greeted);
    match outcome
    case Oversized => Reply(done, 552)
    case MailLoop => Reply(done, 554)
    case Complete(raw, policyReject) =>
      if !c.isSubmission && policyReject then Reply(done, 550)
      else Turn(done, 250, Some(Transaction(v.state.from, v.state.rcpts, raw)))
  }

  /** What holds before every round: who may be in a transaction, and whom it may name. */
  predicate Sound(c: Setup, v: Vars) {
    (v.state.MailFrom? || v.state.RcptTo? ==> v.state.from != [] && (c.isSubmission ==> v.user.Some?))
    && (v.state.RcptTo? ==> v.state.rcpts != [] && forall i :: 0 <= i < |v.state.rcpts| ==>
                              v.state.rcpts[i] != [] && Allowed(c, v.state.rcpts[i]))
  }

  /** A new connection: under TLS from the first byte on the implicit-TLS listener, in the clear elsewhere. */
  function Start(c: Setup): Vars {
    Vars(Init, None, c.implicitTls, true)
  }

  /** Every round keeps the invariant; a transaction names allowed recipients, and a submission a user. */
  lemma RoundSound(c: Setup, v: Vars, cmd: Command)
    requires Sound(c, v)
    ensures Sound(c, Round(c, v, cmd).vars)
    ensures var tx := Round(c, v, cmd).tx;
            tx.Some? ==> v.state == RcptTo(tx.value.from, tx.value.rcpts)
                         && Round(c, v, cmd).vars == v.(state := Greeted)
                         && (c.isSubmission ==> v.user.Some?)
                         && (!c.isSubmission ==> forall i :: 0 <= i < |tx.value.rcpts| ==>
                           c.resolve(tx.value.rcpts[i]).Some?)
    ensures Sound(c, Start(c))
  {
  }

  function Play(c: Setup, v: Vars, cmds: seq<Command>): Vars {
    if cmds == [] then v else Round(c, Play(c, v, cmds[..|cmds| - 1]), cmds[|cmds| - 1]).vars
  }

  lemma {:induction false} PlaySound(c: Setup, cmds: seq<Command>)
    ensures Sound(c, Play(c, Start(c), cmds))
    decreases |cmds|
  {
    RoundSound(c, Start(c), Noop);
    if cmds == [] {
    } else {
      PlaySound(c, cmds[..|cmds| - 1]);
      RoundSound(c, Play(c, Start(c), cmds[..|cmds| - 1]), cmds[|cmds| - 1]);
    }
  }

  // ----- the protocol, by commands and replies alone -----

  /** A command and the code it was answered with. */
  datatype Exchange = Exchange(cmd: Command, code: nat)

  predicate Opens(e: Exchange) {
    e.cmd.Mail? && e.code == 250
  }

  predicate Takes(e: Exchange) {
    e.cmd.Rcpt? && e.code == 250
  }

  predicate Secures(e: Exchange) {
    e.cmd.StartTls? && e.code == 220
  }

  /** RSET, STARTTLS and every DATA that was carried out end what MAIL began. */
  predicate Closes(e: Exchange) {
    e.cmd.Rset? || Secures(e) || (e.cmd.Data? && e.code != 500)
  }

  predicate Greets(e: Exchange) {
    (e.cmd.Ehlo? && e.code == 250) || e.cmd.Rset?
  }

  predicate LogsIn(e: Exchange, user: string) {
    e.cmd == Auth(Passed(user)) && e.code == 235
  }

  /** Addresses of the RCPTs answered 250, in order. */
  function TakenIn(log: seq<Exchange>): seq<string> {
    if log == [] then [] else
      var e := log[|log| - 1];
      TakenIn(log[..|log| - 1]) + if Takes(e) then [e.cmd.address] else []
  }

  /** The address of the last MAIL answered 250. */
  function Sender(log: seq<Exchange>): string {
    if log == [] then [] else
      var e := log[|log| - 1];
      if Opens(e) then e.cmd.address else Sender(log[..|log| - 1])
  }

  /** The addresses of the RCPTs answered 250 since. */
  function Recipients(log: seq<Exchange>): seq<string> {
    if log == [] then [] else
      var e := log[|log| - 1];
      if Opens(e) then [] else Recipients(log[..|log| - 1]) + if Takes(e) then [e.cmd.address] else []
  }

  /** The MAIL at m was answered 250, and nothing since began another transaction or ended this one. */
  ghost predicate OpenAt(log: seq<Exchange>, m: nat) {
    m < |log| && Opens(log[m]) && forall j :: m < j < |log| ==> !Opens(log[j]) && !Closes(log[j])
  }

  ghost predicate InTransaction(log: seq<Exchange>) {
    exists m: nat :: OpenAt(log, m)
  }

  /** A transaction is open and some RCPT of it was answered 250. */
  ghost predicate HasRecipients(log: seq<Exchange>) {
    exists m: nat :: OpenAt(log, m) && TakenIn(log[m + 1..]) != []
  }

  /** A greeting, or a RSET, since the last STARTTLS. */
  ghost predicate IsGreeted(log: seq<Exchange>) {
    exists m: nat :: m < |log| && Greets(log[m]) && forall j :: m < j < |log| ==> !Secures(log[j])
  }

  /** The user's AUTH was answered 235, and no STARTTLS since. */
  ghost predicate LoggedIn(log: seq<Exchange>, user: string) {
    exists m: nat :: m < |log| && LogsIn(log[m], user) && forall j :: m < j < |log| ==> !Secures(log[j])
  }

  ghost predicate SomebodyLoggedIn(log: seq<Exchange>) {
    exists user :: LoggedIn(log, user)
  }

  ghost predicate Encrypted(c: Setup, log: seq<Exchange>) {
    c.implicitTls || exists m: nat :: m < |log| && Secures(log[m])
  }

  lemma EncryptedStep(c: Setup, log: seq<Exchange>, e: Exchange)
    ensures Encrypted(c, log + [e]) <==> Encrypted(c, log) || Secures(e)
  {
    assert (log + [e])[|log|] == e;
    forall m | 0 <= m < |log| ensures (log + [e])[m] == log[m] {
    }
  }

  lemma GreetedStep(log: seq<Exchange>, e: Exchange)
    ensures IsGreeted(log + [e]) <==> Greets(e) || (IsGreeted(log) && !Secures(e))
  {
    var all := log + [e];
    assert all[|log|] == e;
    forall m | 0 <= m < |log| ensures all[m] == log[m] {
    }
    if IsGreeted(log) && !Secures(e) {
      var m: nat :| m < |log| && Greets(log[m]) && forall j :: m < j < |log| ==> !Secures(log[j]);
      assert Greets(all[m]);
    }
    if IsGreeted(all) && !Greets(e) {
      var m: nat :| m < |all| && Greets(all[m]) && forall j :: m < j < |all| ==> !Secures(all[j]);
      assert Greets(log[m]) && !Secures(all[|log|]);
    }
  }

  lemma LoggedInStep(log: seq<Exchange>, e: Exchange, user: string)
    ensures LoggedIn(log + [e], user) <==> LogsIn(e, user) || (LoggedIn(log, user) && !Secures(e))
  {
    var all := log + [e];
    assert all[|log|] == e;
    forall m | 0 <= m < |log| ensures all[m] == log[m] {
    }
    if LoggedIn(log, user) && !Secures(e) {
      var m: nat :| m < |log| && LogsIn(log[m], user) && forall j :: m < j < |log| ==> !Secures(log[j]);
      assert LogsIn(all[m], user);
    }
    if LoggedIn(all, user) && !LogsIn(e, user) {
      var m: nat :| m < |all| && LogsIn(all[m], user) && forall j :: m < j < |all| ==> !Secures(all[j]);
      assert LogsIn(log[m], user) && !Secures(all[|log|]);
    }
  }

  lemma OpenStep(log: seq<Exchange>, e: Exchange, m: nat)
    ensures OpenAt(log + [e], m)
       <==> if m == |log| then Opens(e) else OpenAt(log, m) && !Opens(e) && !Closes(e)
    ensures m < |log|
      ==> TakenIn((log + [e])[m + 1..]) == TakenIn(log[m + 1..]) + if Takes(e) then [e.cmd.address] else []
    ensures m == |log| ==> TakenIn((log + [e])[m + 1..]) == []
  {
    hide Opens, Closes, Takes;
    var all := log + [e];
    assert all[|log|] == e;
    forall j | 0 <= j < |log| ensures all[j] == log[j] {
    }
    if m < |log| {
      assert all[m + 1..] == log[m + 1..] + [e];
      assert (log[m + 1..] + [e])[..|log[m + 1..]|] == log[m + 1..];
      if OpenAt(all, m) { assert !Opens(all[|log|]) && !Closes(all[|log|]); }
    } else if m == |log| {
      assert all[m + 1..] == [];
    }
  }

  lemma {:induction false} OpenIsLast(log: seq<Exchange>, m: nat)
    requires OpenAt(log, m)
    ensures Sender(log) == log[m].cmd.address && Recipients(log) == TakenIn(log[m + 1..])
    decreases |log|
  {
    var n := |log| - 1;
    var e := log[n];
    assert log == log[..n] + [e];
    OpenStep(log[..n], e, m);
    if m < n {
      assert !Opens(e);
      OpenIsLast(log[..n], m);
    }
  }

  function RcptsOf(s: State): seq<string> {
    if s.RcptTo? then s.rcpts else []
  }

  /** What the exchanges so far say about the loop's variables. */
  ghost predicate Tells(c: Setup, log: seq<Exchange>, v: Vars) {
    && (v.tls <==> Encrypted(c, log))
    && (v.state.Init? <==> !IsGreeted(log))
    && (forall user :: v.user == Some(user) <==> LoggedIn(log, user))
    && (v.state.MailFrom? || v.state.RcptTo? <==> InTransaction(log))
    && (forall m: nat :: OpenAt(log, m) ==>
          (v.state.MailFrom? || v.state.RcptTo?) && v.state.from == log[m].cmd.address
          && TakenIn(log[m + 1..]) == RcptsOf(v.state))
  }

  /** The code sent for a turn; after DATA, delivery decides between three. */
  predicate Sent(t: Turn, code: nat) {
    if t.tx.None? then code == t.code else code in {250, 451, 452}
  }

  /** What a round does to the transaction, the login and the connection. */
  lemma RoundEffect(c: Setup, v: Vars, cmd: Command, code: nat)
    requires Sound(c, v) && Sent(Round(c, v, cmd), code)
    ensures var e, w := Exchange(cmd, code), Round(c, v, cmd).vars;
            && (w.tls <==> v.tls || Secures(e))
            && (w.state.Init? <==> !Greets(e) && (v.state.Init? || Secures(e)))
            && (w.user == if Secures(e) then None
                          else if cmd.Auth? && cmd.outcome.Passed? && code == 235 then Some(cmd.outcome.user)
                          else v.user)
            && (cmd.Auth? && code == 235 ==> v.user == None)
            && (if Opens(e) then w.state == MailFrom(cmd.address)
                else if Closes(e) then !w.state.MailFrom? && !w.state.RcptTo?
                else if Takes(e) then (v.state.MailFrom? || v.state.RcptTo?)
                                      && w.state == RcptTo(v.state.from, RcptsOf(v.state) + [cmd.address])
                else w.state == v.state || (v.state.Init? && w.state.Greeted?))
  {
    hide Allowed;
  }

  lemma TellsStep(c: Setup, log: seq<Exchange>, v: Vars, cmd: Command, code: nat)
    requires Sound(c, v) && Tells(c, log, v) && Sent(Round(c, v, cmd), code)
    ensures Tells(c, log + [Exchange(cmd, code)], Round(c, v, cmd).vars)
  {
    var e, w := Exchange(cmd, code), Round(c, v, cmd).vars;
    RoundEffect(c, v, cmd, code);
    hide Round, Sound, Sent, IsGreeted, LoggedIn, OpenAt, Encrypted, TakenIn;
    EncryptedStep(c, log, e);
    GreetedStep(log, e);
    forall user ensures w.user == Some(user) <==> LoggedIn(log + [e], user) {
      LoggedInStep(log, e, user);
    }
    forall m: nat
      ensures OpenAt(log + [e], m) ==>
                (w.state.MailFrom? || w.state.RcptTo?) && w.state.from == (log + [e])[m].cmd.address
                && TakenIn((log + [e])[m + 1..]) == RcptsOf(w.state)
    {
      OpenStep(log, e, m);
      OpenInRange(log + [e], m);
    }
    OpenStep(log, e, |log|);
    if InTransaction(log) {
      var m: nat :| OpenAt(log, m);
      OpenInRange(log, m);
      OpenStep(log, e, m);
    }
    if InTransaction(log + [e]) {
      var m: nat :| OpenAt(log + [e], m);
      OpenInRange(log + [e], m);
      OpenStep(log, e, m);
    }
    assert w.state.MailFrom? || w.state.RcptTo? <==> InTransaction(log + [e]);
  }

  lemma OpenInRange(log: seq<Exchange>, m: nat)
    ensures OpenAt(log, m) ==> m < |log| && Opens(log[m])
  {
  }

  function Log(cmds: seq<Command>, codes: seq<nat>): (log: seq<Exchange>)
    requires |codes| == |cmds|
    ensures |log| == |cmds|
  {
    seq(|cmds|, i requires 0 <= i < |cmds| => Exchange(cmds[i], codes[i]))
  }

  /** The codes are the ones the loop sends for the commands. */
  predicate Answers(c: Setup, cmds: seq<Command>, codes: seq<nat>) {
    |codes| == |cmds|
    && (cmds == [] ||
        var n := |cmds| - 1;
        Answers(c, cmds[..n], codes[..n]) && Sent(Round(c, Play(c, Start(c), cmds[..n]), cmds[n]), codes[n]))
  }

  lemma NothingTells(c: Setup)
    ensures Tells(c, [], Start(c))
  {
  }

  /** In any session the exchanges tell the state. */
  lemma {:induction false} LogTells(c: Setup, cmds: seq<Command>, codes: seq<nat>)
    requires Answers(c, cmds, codes)
    ensures Tells(c, Log(cmds, codes), Play(c, Start(c), cmds))
    decreases |cmds|
  {
    hide Round, Sound, Tells, Sent, Start;
    if cmds == [] {
      NothingTells(c);
      assert Log(cmds, codes) == [];
    } else {
      var n := |cmds| - 1;
      LogTells(c, cmds[..n], codes[..n]);
      PlaySound(c, cmds[..n]);
      TellsStep(c, Log(cmds[..n], codes[..n]), Play(c, Start(c), cmds[..n]), cmds[n], codes[n]);
      assert Log(cmds, codes) == Log(cmds[..n], codes[..n]) + [Exchange(cmds[n], codes[n])];
    }
  }

  /** In any session, a recipient enters a transaction only by a RCPT answered 250 since the last MAIL answered 250. */
  lemma RecipientsAreAccepted(c: Setup, cmds: seq<Command>, codes: seq<nat>)
    requires Answers(c, cmds, codes)
    ensures var log, v := Log(cmds, codes), Play(c, Start(c), cmds);
            (v.state.RcptTo? ==> v.state == RcptTo(Sender(log), Recipients(log)) && Recipients(log) != [])
            && (v.state.MailFrom? ==> v.state == MailFrom(Sender(log)) && Recipients(log) == [])
  {
    LogTells(c, cmds, codes);
    PlaySound(c, cmds);
    hide IsGreeted, OpenAt, Encrypted, TakenIn, LoggedIn, Allowed, Round, Play, Sender, Recipients;
    var log, v := Log(cmds, codes), Play(c, Start(c), cmds);
    if v.state.MailFrom? || v.state.RcptTo? {
      var m: nat :| OpenAt(log, m);
      OpenIsLast(log, m);
    }
  }

  /** The next command's code, by the exchanges before it. */
  lemma NextAnswer(c: Setup, cmds: seq<Command>, codes: seq<nat>, cmd: Command)
    requires Answers(c, cmds, codes)
    ensures var log, code := Log(cmds, codes), Round(c, Play(c, Start(c), cmds), cmd).code;
            && (cmd.Ehlo? ==> code == if InTransaction(log) then 500 else 250)
            && (cmd.StartTls? ==> code == if c.tlsAvailable && !Encrypted(c, log) then 220 else 500)
            && (cmd.Mail? ==> code == if !IsGreeted(log) then 500
                                      else if c.isSubmission && !SomebodyLoggedIn(log) then 530
                                      else if cmd.address == "" then 501 else 250)
            && (cmd.Rset? || cmd.Noop? ==> code == 250)
            && (cmd.Verify? ==> code == 252) && (cmd.Quit? ==> code == 221) && (cmd.Unknown? ==> code == 500)
  {
    LogTells(c, cmds, codes);
    hide IsGreeted, OpenAt, Encrypted, TakenIn, LoggedIn, Allowed;
  }

  /** AUTH: never twice, and where TLS is asked for only under it. */
  lemma NextAuth(c: Setup, cmds: seq<Command>, codes: seq<nat>, outcome: AuthOutcome)
    requires Answers(c, cmds, codes)
    ensures var log := Log(cmds, codes);
            Round(c, Play(c, Start(c), cmds), Auth(outcome)).code
            == if SomebodyLoggedIn(log) then 500
               else if outcome.LockedOut? then 421
               else if c.requireTlsForAuth && !Encrypted(c, log) then 538
               else if outcome.NoMechanism? then 504
               else if outcome.Malformed? then 501
               else if outcome.Rejected? then 535 else 235
  {
    LogTells(c, cmds, codes);
    hide IsGreeted, OpenAt, Encrypted, TakenIn, LoggedIn, Allowed;
  }

  /** A RCPT is accepted, and a DATA carried out, only inside a transaction that is still open. */
  lemma NextRcptOrData(c: Setup, cmds: seq<Command>, codes: seq<nat>, cmd: Command)
    requires Answers(c, cmds, codes)
    ensures var log, t := Log(cmds, codes), Round(c, Play(c, Start(c), cmds), cmd);
            && (!InTransaction(log) ==> (cmd.Rcpt? || cmd.Data? ==> t.code == 500))
            && (forall m: nat :: OpenAt(log, m) ==>
                  && (cmd.Rcpt? ==>
                        t.code == if cmd.address == "" then 501
                                  else if !c.isSubmission && !(c.isOurs(cmd.address) && c.resolve(cmd.address).Some?)
                                    then 550
                                  else if c.isSubmission && cmd.throttled then 452
                                  else if !c.isSubmission && cmd.greylisted && TakenIn(log[m + 1..]) == [] then 451
                                  else 250)
                  && (cmd.Data? && t.tx.None? ==>
                        t.code == if TakenIn(log[m + 1..]) == [] then 500
                                  else if cmd.end.Oversized? then 552 else if cmd.end.MailLoop? then 554 else 550))
  {
    LogTells(c, cmds, codes);
    PlaySound(c, cmds);
    hide IsGreeted, OpenAt, Encrypted, TakenIn, LoggedIn;
  }

  lemma OpenAfterClose(log: seq<Exchange>, m: nat, k: nat)
    requires OpenAt(log, m) && k < |log| && Closes(log[k])
    ensures k < m
  {
  }

  /** After a RSET, a STARTTLS or a DATA that was carried out, nothing is accepted before a new MAIL is. */
  lemma NothingBeforeANewMail(c: Setup, cmds: seq<Command>, codes: seq<nat>, k: nat, cmd: Command)
    requires Answers(c, cmds, codes) && k < |cmds| && Closes(Log(cmds, codes)[k])
    requires forall j :: k < j < |cmds| ==> !Opens(Log(cmds, codes)[j])
    ensures cmd.Rcpt? ==> Round(c, Play(c, Start(c), cmds), cmd).code != 250
    ensures cmd.Data? ==> Round(c, Play(c, Start(c), cmds), cmd).code == 500
  {
    assert |codes| == |cmds|;
    hide Answers, Play, Round, Closes, Opens;
    var log := Log(cmds, codes);
    if InTransaction(log) {
      var m: nat :| OpenAt(log, m);
      OpenAfterClose(log, m, k);
      OpenInRange(log, m);
    }
    NextRcptOrData(c, cmds, codes, cmd);
  }

  /** A transaction handed to delivery: its sender is the address of the last MAIL answered 250, its recipients are
      exactly the RCPTs answered 250 after it, and no RSET, STARTTLS or carried-out DATA came between. */
  lemma TransactionSince(c: Setup, cmds: seq<Command>, codes: seq<nat>, cmd: Command)
    requires Answers(c, cmds, codes)
    ensures var log, tx := Log(cmds, codes), Round(c, Play(c, Start(c), cmds), cmd).tx;
            && (tx.Some? <==> cmd.Data? && cmd.end.Complete? && (c.isSubmission || !cmd.end.policyReject)
                              && HasRecipients(log))
            && (tx.Some? ==> exists m: nat ::
                  OpenAt(log, m) && tx.value == Transaction(log[m].cmd.address, TakenIn(log[m + 1..]), cmd.end.raw))
            && (tx.Some? && c.isSubmission ==> SomebodyLoggedIn(log))
  {
    LogTells(c, cmds, codes);
    PlaySound(c, cmds);
    var log, v := Log(cmds, codes), Play(c, Start(c), cmds);
    hide IsGreeted, OpenAt, Encrypted, TakenIn, LoggedIn, Allowed;
    if v.state.RcptTo? {
      var m: nat :| OpenAt(log, m);
      assert TakenIn(log[m + 1..]) == v.state.rcpts;
    }
  }

  /** The command loop's variables, updated in place. */
  class Client {
    const setup: Setup
    var state: State
    var authenticatedUser: Option<string>
    var isTls: bool
    var open: bool

    constructor (setup: Setup)
      ensures this.setup == setup && View() == Start(setup)
    {
      this.setup := setup;
      state, authenticatedUser, isTls, open := Init, None, setup.implicitTls, true;
    }

    function View(): Vars
      reads this
    {
      Vars(state, authenticatedUser, isTls, open)
    }

    method HandleCommand(cmd: Command) returns (code: nat, tx: Option<Transaction>)
      modifies this
      ensures Turn(View(), code, tx) == Round(setup, old(View()), cmd)
    {
      code, tx := SYNTAX, None;
      match cmd
      case Ehlo =>
        if state == Init || state == Greeted { state := Greeted; code := 250; }
      case StartTls =>
        if setup.tlsAvailable && !isTls {
          state, authenticatedUser, isTls := Init, None, true;
          code := 220;
        }
      case Auth(outcome) => code := HandleAuth(outcome);
      case Mail(address) =>
        if state != Init {
          if setup.isSubmission && authenticatedUser == None { return 530, None; }
          if address == [] { return 501, None; }
          state := MailFrom(address);
          code := 250;
        }
      case Rcpt(address, throttled, greylisted) => code := HandleRcpt(address, throttled, greylisted);
      case Data(outcome) =>
        if state.RcptTo? {
          var from, rcpts := state.from, state.rcpts;
          state := Greeted;
          match outcome {
            case Oversized => code := 552;
            case MailLoop => code := 554;
            case Complete(raw, policyReject) =>
              if !setup.isSubmission && policyReject { return 550, None; }
              return 250, Some(Transaction(from, rcpts, raw));
          }
        }
      case Rset => state := Greeted; code := 250;
      case Noop => code := 250;
      case Verify => code := 252;
      case Quit => open := false; code := 221;
      case Unknown =>
    }

    method HandleAuth(outcome: AuthOutcome) returns (code: nat)
      modifies this
      ensures Turn(View(), code, None) == AuthRound(setup, old(View()), outcome)
    {
      if authenticatedUser.Some? { return SYNTAX; }
      if outcome == LockedOut { open := false; return 421; }
      if setup.requireTlsForAuth && !isTls { return 538; }
      match outcome
      case NoMechanism => return 504;
      case Malformed => return 501;
      case Rejected => return 535;
      case Passed(user) => authenticatedUser := Some(user); return 235;
    }

    method HandleRcpt(address: string, throttled: bool, greylisted: bool) returns (code: nat)
      modifies this
      ensures Turn(View(), code, None) == RcptRound(setup, old(View()), address, throttled, greylisted)
    {
      if state == Init || state == Greeted { return SYNTAX; }
      if address == [] { return 501; }
      var allowed := setup.isSubmission || (setup.isOurs(address) && setup.resolve(address).Some?);
      if !allowed { return 550; }
      if setup.isSubmission && authenticatedUser.Some? && throttled { return 452; }
      if !setup.isSubmission && state.MailFrom? && greylisted { return 451; }
      state := RcptTo(state.from, if state.MailFrom? then [address] else state.rcpts + [address]);
      return 250;
    }
  }

  /** What the outside decides while one command is served. */
  datatype World = World(junk: bool, sentCopyOk: bool, storeOk: nat -> bool, overQuota: bool, diskOk: bool,
                         stem: string, now: nat)

  predicate GoodWorld(w: World) {
    w.stem != [] && CleanField(w.stem) && w.now + MAX_AGE <= MAX_U64
  }

  /** The addresses a command brings in come from one line. */
  predicate LineCommand(cmd: Command) {
    (cmd.Mail? || cmd.Rcpt?) ==> OneLine(cmd.address)
  }

  predicate LineState(s: State) {
    (s.MailFrom? || s.RcptTo? ==> OneLine(s.from)) && (s.RcptTo? ==> OneLines(s.rcpts))
  }

  lemma RoundLines(c: Setup, v: Vars, cmd: Command)
    requires LineState(v.state) && LineCommand(cmd)
    ensures LineState(Round(c, v, cmd).vars.state)
    ensures var tx := Round(c, v, cmd).tx; tx.Some? ==> OneLine(tx.value.from) && OneLines(tx.value.rcpts)
  {
    hide OneLine;
  }

  /** The ledger entry of a transaction. */
  function EntryOf(c: Setup, t: Transaction, w: World): Entry {
    Entry(w.stem, c.isSubmission, t.from, t.rcpts, t.raw, w.now, c.resolve)
  }

  /** The mail store after a transaction: the sender's own copy of a submission, and one for each local recipient. */
  predicate Boxed(c: Setup, user: Option<string>, t: Transaction, junk: bool, before: seq<Copy>, after: seq<Copy>,
                  boxed: seq<Copy>)
  {
    CopiesFor(boxed, Local(t.rcpts, c.resolve), c.resolve, junk && !c.isSubmission, t.from, t.raw)
    && after == before + SentCopies(c.isSubmission, user, c.resolve, t.from, t.raw) + boxed
  }

  /** Serves one command and, after a complete DATA, delivers: the books stay exact. */
  method Serve(client: Client, mail: MailSystem, cmd: Command, w: World)
    returns (code: nat, ghost boxed: seq<Copy>)
    requires Sound(client.setup, client.View()) && LineState(client.state) && LineCommand(cmd) && GoodWorld(w)
    requires mail.Valid() && mail.BooksExact() && mail.AttemptsBounded() && mail.FilesTraced()
    modifies client, mail`files, mail`store, mail`stored, mail`ledger, mail`orphaned
    ensures Sound(client.setup, client.View()) && LineState(client.state)
    ensures client.View() == Round(client.setup, old(client.View()), cmd).vars
    ensures mail.Valid() && mail.BooksExact() && mail.AttemptsBounded() && mail.FilesTraced()
    ensures mail.ledger
         == old(mail.ledger) + Delivered(client.setup, Round(client.setup, old(client.View()), cmd), w, code)
    ensures Sent(Round(client.setup, old(client.View()), cmd), code)
    ensures var tx := Round(client.setup, old(client.View()), cmd).tx;
            if tx.None? then mail.store == old(mail.store)
            else code == 250 ==>
              Boxed(client.setup, old(client.View()).user, tx.value, w.junk, old(mail.store), mail.store, boxed)
  {
    hide CleanField, OneLine, OneLines, Sound, Round, LineState, LineCommand, AllConserved, Remote, Conserving, FilesOk;
    hide MailSystem.BooksExact, MailSystem.Valid, MailSystem.Owed, MailSystem.Total, MailSystem.Balanced,
         MailSystem.AttemptsBounded, MailSystem.FilesTraced;
    hide Queues, CopiesFor, SentCopies, Local;
    ghost var c := client.setup;
    RoundSound(c, client.View(), cmd);
    RoundLines(c, client.View(), cmd);
    boxed := [];
    var tx;
    code, tx := client.HandleCommand(cmd);
    if tx.Some? {
      var t := tx.value;
      RemoteOneLines(t.rcpts, c.resolve);
      InboundConserving(c, t.rcpts);
      var r;
      r, boxed := mail.DeliverMail(client.setup.isSubmission, client.authenticatedUser, t.from, t.rcpts, t.raw,
                                client.setup.resolve, w.junk, w.sentCopyOk, w.storeOk, w.diskOk, w.stem, w.now);
      code := if r.Ok? then 250 else if r.error == StoreFailed && w.overQuota then 452 else 451;
    }
  }

  lemma InboundConserving(c: Setup, rcpts: seq<string>)
    requires !c.isSubmission ==> forall i :: 0 <= i < |rcpts| ==> c.resolve(rcpts[i]).Some?
    ensures c.isSubmission || Conserving(c.isSubmission, rcpts, c.resolve)
  {
  }

  /** What a round that was answered with a code adds to the ledger. */
  function Delivered(c: Setup, t: Turn, w: World, code: nat): seq<Entry> {
    if t.tx.Some? && code == 250 then [EntryOf(c, t.tx.value, w)] else []
  }

  // ----- runs of several clients and the worker -----

  /** One event of a run: a command of one client served, or a scan of the queue worker. */
  datatype Event = Command(who: nat, cmd: Command, w: World) | Scan(now: nat, routes: string -> Route)

  /** The commands one client sent. */
  function CommandsOf(events: seq<Event>, who: nat): seq<Command> {
    if events == [] then [] else
      var e := events[|events| - 1];
      CommandsOf(events[..|events| - 1], who) + if e.Command? && e.who == who then [e.cmd] else []
  }

  /** The codes one client was sent. */
  function CodesOf(events: seq<Event>, codes: seq<nat>, who: nat): (r: seq<nat>)
    requires |codes| == |events|
    ensures |r| == |CommandsOf(events, who)|
  {
    if events == [] then [] else
      var n := |events| - 1;
      CodesOf(events[..n], codes[..n], who) + if events[n].Command? && events[n].who == who then [codes[n]] else []
  }

  /** One client's commands with their codes. */
  function LogOf(events: seq<Event>, codes: seq<nat>, who: nat): seq<Exchange>
    requires |codes| == |events|
  {
    Log(CommandsOf(events, who), CodesOf(events, codes, who))
  }

  /** Every client was sent the codes its own commands call for. */
  ghost predicate Answered(setups: seq<Setup>, events: seq<Event>, codes: seq<nat>)
    requires |codes| == |events|
  {
    forall k :: 0 <= k < |setups| ==> Answers(setups[k], CommandsOf(events, k), CodesOf(events, codes, k))
  }

  /** A transaction, by the client's commands and codes alone: a complete DATA answered 250 delivers its text from the
      last MAIL's address to the RCPTs accepted since. */
  function ByReplies(c: Setup, log: seq<Exchange>, cmd: Command, w: World, code: nat): seq<Entry> {
    if cmd.Data? && cmd.end.Complete? && code == 250
    then [Entry(w.stem, c.isSubmission, Sender(log), Recipients(log), cmd.end.raw, w.now, c.resolve)] else []
  }

  lemma DeliveredByReplies(c: Setup, cmds: seq<Command>, codes: seq<nat>, cmd: Command, w: World, code: nat)
    requires Answers(c, cmds, codes) && Sent(Round(c, Play(c, Start(c), cmds), cmd), code)
    ensures Delivered(c, Round(c, Play(c, Start(c), cmds), cmd), w, code)
         == ByReplies(c, Log(cmds, codes), cmd, w, code)
  {
    RecipientsAreAccepted(c, cmds, codes);
    hide Sender, Recipients, Play, Log, Allowed, Answers;
  }

  /** What event i adds to the ledger. */
  function Contribution(setups: seq<Setup>, events: seq<Event>, codes: seq<nat>, i: nat): seq<Entry>
    requires i < |events| && i < |codes|
  {
    match events[i]
    case Scan(_, _) => []
    case Command(who, cmd, w) =>
      if who < |setups| then ByReplies(setups[who], LogOf(events[..i], codes[..i], who), cmd, w, codes[i]) else []
  }

  /** The transactions of a run. */
  function Transactions(setups: seq<Setup>, events: seq<Event>, codes: seq<nat>): seq<Entry>
    requires |codes| == |events|
  {
    if events == [] then [] else
      var n := |events| - 1;
      Transactions(setups, events[..n], codes[..n]) + Contribution(setups, events, codes, n)
  }

  lemma CommandsStep(events: seq<Event>, i: nat, k: nat)
    requires i < |events|
    ensures CommandsOf(events[..i + 1], k)
         == CommandsOf(events[..i], k) + if events[i].Command? && events[i].who == k then [events[i].cmd] else []
  {
    assert events[..i + 1][..i] == events[..i];
  }

  lemma PlayStep(c: Setup, events: seq<Event>, i: nat, k: nat)
    requires i < |events|
    ensures Play(c, Start(c), CommandsOf(events[..i + 1], k))
         == ViewAfter(c, Play(c, Start(c), CommandsOf(events[..i], k)), events[i], k)
  {
    hide Round;
    CommandsStep(events, i, k);
    var before := CommandsOf(events[..i], k);
    assert before + [] == before;
    if events[i].Command? && events[i].who == k {
      assert (before + [events[i].cmd])[..|before|] == before;
    }
  }

  lemma TransactionsStep(setups: seq<Setup>, events: seq<Event>, codes: seq<nat>, i: nat, code: nat)
    requires i < |events| && |codes| == i
    ensures Transactions(setups, events[..i + 1], codes + [code])
         == Transactions(setups, events[..i], codes) + Contribution(setups, events, codes + [code], i)
  {
    hide LogOf, ByReplies;
    assert events[..i + 1][..i] == events[..i] && (codes + [code])[..i] == codes;
  }

  /** The code of an event is one the client's variables call for. */
  predicate CodeFits(setups: seq<Setup>, events: seq<Event>, i: nat, code: nat)
    requires i < |events|
  {
    events[i].Command? && events[i].who < |setups| ==>
      var c := setups[events[i].who];
      Sent(Round(c, Play(c, Start(c), CommandsOf(events[..i], events[i].who)), events[i].cmd), code)
  }

  lemma AnsweredStep(setups: seq<Setup>, events: seq<Event>, codes: seq<nat>, i: nat, code: nat)
    requires i < |events| && |codes| == i
    ensures Answered(setups, events[..i + 1], codes + [code])
       <==> Answered(setups, events[..i], codes) && CodeFits(setups, events, i, code)
  {
    hide Round, Play, Sent, Answers, CommandsOf, CodesOf;
    forall k | 0 <= k < |setups|
      ensures Answers(setups[k], CommandsOf(events[..i + 1], k), CodesOf(events[..i + 1], codes + [code], k))
         <==> Answers(setups[k], CommandsOf(events[..i], k), CodesOf(events[..i], codes, k))
              && (events[i].Command? && events[i].who == k ==> CodeFits(setups, events, i, code))
    {
      AnswersStep(setups, events, codes, i, code, k);
    }
  }

  lemma AnswersStep(setups: seq<Setup>, events: seq<Event>, codes: seq<nat>, i: nat, code: nat, k: nat)
    requires i < |events| && |codes| == i && k < |setups|
    ensures Answers(setups[k], CommandsOf(events[..i + 1], k), CodesOf(events[..i + 1], codes + [code], k))
       <==> Answers(setups[k], CommandsOf(events[..i], k), CodesOf(events[..i], codes, k))
            && (events[i].Command? && events[i].who == k ==> CodeFits(setups, events, i, code))
  {
    hide Round, Play, Sent;
    CommandsStep(events, i, k);
    assert events[..i + 1][..i] == events[..i] && (codes + [code])[..i] == codes;
    var cmds, sent := CommandsOf(events[..i], k), CodesOf(events[..i], codes, k);
    if events[i].Command? && events[i].who == k {
      assert (cmds + [events[i].cmd])[..|cmds|] == cmds && (sent + [code])[..|sent|] == sent;
    } else {
      assert cmds + [] == cmds && sent + [] == sent;
    }
  }

  /** A run's hypotheses: addresses of one line, usable file names, a clock a day short of its end. */
  predicate GoodEvent(e: Event, clients: nat) {
    e.Command? ==> e.who < clients && LineCommand(e.cmd) && GoodWorld(e.w)
  }

  /** No connection is listed twice. */
  predicate Distinct(clients: seq<Client>) {
    forall i, j :: 0 <= i < j < |clients| ==> clients[i] != clients[j]
  }

  /** Every connection is a new one. */
  predicate Fresh(clients: seq<Client>)
    reads clients
  {
    forall i :: 0 <= i < |clients| ==> clients[i].View() == Start(clients[i].setup)
  }

  predicate GoodEvents(events: seq<Event>, clients: nat) {
    forall i :: 0 <= i < |events| ==> GoodEvent(events[i], clients)
  }

  /** Every connection's variables are as the loop keeps them. */
  predicate Ready(clients: seq<Client>)
    reads clients
  {
    forall k :: 0 <= k < |clients| ==> Sound(clients[k].setup, clients[k].View()) && LineState(clients[k].state)
  }

  /** The variables of a client after an event. */
  function ViewAfter(c: Setup, v: Vars, e: Event, k: nat): Vars {
    if e.Command? && e.who == k then Round(c, v, e.cmd).vars else v
  }

  /** Each client stands where its own commands among the first i events have brought it. */
  ghost predicate PlayedTo(clients: seq<Client>, events: seq<Event>, i: nat)
    requires i <= |events|
    reads clients
  {
    forall k :: 0 <= k < |clients| ==>
      clients[k].View() == Play(clients[k].setup, Start(clients[k].setup), CommandsOf(events[..i], k))
  }

  /** What an event adds to the ledger, by the client's variables. */
  function RoundAdds(setups: seq<Setup>, events: seq<Event>, i: nat, code: nat): seq<Entry>
    requires i < |events|
  {
    if events[i].Command? && events[i].who < |setups| then
      var c := setups[events[i].who];
      Delivered(c, Round(c, Play(c, Start(c), CommandsOf(events[..i], events[i].who)), events[i].cmd), events[i].w,
                code)
    else []
  }

  lemma RoundAddsIsContribution(setups: seq<Setup>, events: seq<Event>, codes: seq<nat>, i: nat, code: nat)
    requires i < |events| && |codes| == i && Answered(setups, events[..i], codes) && CodeFits(setups, events, i, code)
    ensures RoundAdds(setups, events, i, code) == Contribution(setups, events, codes + [code], i)
  {
    hide Round, Play, Sent, Answers, CommandsOf, CodesOf, Delivered, ByReplies, Log;
    assert (codes + [code])[..i] == codes;
    if events[i].Command? && events[i].who < |setups| {
      var who := events[i].who;
      DeliveredByReplies(setups[who], CommandsOf(events[..i], who), CodesOf(events[..i], codes, who), events[i].cmd,
                         events[i].w, code);
    }
  }

  /** One event: only the client it belongs to moves. */
  method RunEvent(clients: seq<Client>, mail: MailSystem, events: seq<Event>, i: nat) returns (code: nat)
    requires Distinct(clients) && i < |events| && GoodEvents(events, |clients|)
    requires PlayedTo(clients, events, i) && Ready(clients) && mail.Valid() && mail.BooksExact()
          && mail.AttemptsBounded() && mail.FilesTraced()
    modifies clients, mail
    ensures Ready(clients) && mail.Valid() && mail.BooksExact() && mail.AttemptsBounded() && mail.FilesTraced()
    ensures PlayedTo(clients, events, i + 1)
    ensures CodeFits(Setups(clients), events, i, code)
    ensures mail.ledger == old(mail.ledger) + RoundAdds(Setups(clients), events, i, code)
  {
    hide Round, Sound, LineState, Delivered, AllConserved, GoodWorld, LineCommand, Play, CommandsOf, ViewAfter;
    hide MailSystem.BooksExact, MailSystem.Valid, MailSystem.Balanced, MailSystem.Owed, MailSystem.Total,
         MailSystem.AttemptsBounded, MailSystem.FilesTraced, Sent;
    forall k | 0 <= k < |clients|
      ensures Play(clients[k].setup, Start(clients[k].setup), CommandsOf(events[..i + 1], k))
           == ViewAfter(clients[k].setup, clients[k].View(), events[i], k)
    {
      PlayStep(clients[k].setup, events, i, k);
    }
    match events[i]
    case Command(who, cmd, w) =>
      ghost var before := clients[who].View();
      ghost var boxed;
      code, boxed := Serve(clients[who], mail, cmd, w);
      ViewMoves(clients[who].setup, before, events[i]);
      forall k | 0 <= k < |clients| && k != who
        ensures ViewAfter(clients[k].setup, clients[k].View(), events[i], k) == clients[k].View()
      {
        ViewStays(clients[k].setup, clients[k].View(), events[i], k);
      }
    case Scan(now, routes) =>
      code := 0;
      mail.Scan(now, routes);
      forall k | 0 <= k < |clients|
        ensures ViewAfter(clients[k].setup, clients[k].View(), events[i], k) == clients[k].View()
      {
        ViewStays(clients[k].setup, clients[k].View(), events[i], k);
      }
  }

  lemma ViewMoves(c: Setup, v: Vars, e: Event)
    requires e.Command?
    ensures ViewAfter(c, v, e, e.who) == Round(c, v, e.cmd).vars
  {
    hide Round;
  }

  lemma ViewStays(c: Setup, v: Vars, e: Event, k: nat)
    requires e.Scan? || e.who != k
    ensures ViewAfter(c, v, e, k) == v
  {
    hide Round;
  }

  /** Any clients, any commands, any scans, in any order: the ledger holds the transactions answered 250, and every
      recipient of every one of them is in exactly one place if and only if all of them conserve their recipients; no
      transaction is attempted more than ten times, and every queue file still carries its transaction. */
  method Run(clients: seq<Client>, mail: MailSystem, events: seq<Event>) returns (codes: seq<nat>)
    requires Distinct(clients) && Fresh(clients) && GoodEvents(events, |clients|)
    requires mail.Valid() && mail.BooksExact() && mail.AttemptsBounded() && mail.FilesTraced()
    modifies clients, mail
    ensures |codes| == |events| && mail.Valid()
    ensures Answered(Setups(clients), events, codes)
    ensures mail.ledger == old(mail.ledger) + Transactions(Setups(clients), events, codes)
    ensures PlayedTo(clients, events, |events|)
    ensures mail.Balanced() <==> AllConserved(mail.ledger)
    ensures forall id :: TotalAttempts(mail.scans, id) <= 10 * Uses(mail.ledger, id)
    ensures mail.FilesTraced()
  {
    hide *;
    codes := [];
    StartReady(clients);
    NothingRun(clients, events);
    for i := 0 to |events|
      invariant |codes| == i && mail.Valid() && mail.BooksExact() && mail.AttemptsBounded() && mail.FilesTraced()
      invariant Ready(clients) && PlayedTo(clients, events, i) && Answered(Setups(clients), events[..i], codes)
      invariant mail.ledger == old(mail.ledger) + Transactions(Setups(clients), events[..i], codes)
    {
      var code := RunEvent(clients, mail, events, i);
      RoundAddsIsContribution(Setups(clients), events, codes, i, code);
      TransactionsStep(Setups(clients), events, codes, i, code);
      AnsweredStep(Setups(clients), events, codes, i, code);
      codes := codes + [code];
    }
    assert events[..|events|] == events;
    forall id ensures TotalAttempts(mail.scans, id) <= 10 * Uses(mail.ledger, id) {
      AttemptsAtMostTen(mail, id);
    }
  }

  lemma StartReady(clients: seq<Client>)
    requires Fresh(clients)
    ensures Ready(clients)
  {
  }

  lemma NothingRun(clients: seq<Client>, events: seq<Event>)
    requires Fresh(clients)
    ensures Transactions(Setups(clients), events[..0], []) == [] && PlayedTo(clients, events, 0)
    ensures Answered(Setups(clients), events[..0], [])
  {
    hide Round;
  }

  /** Inbound transactions always conserve their recipients, so only submissions decide. */
  lemma InboundConserves(setups: seq<Setup>, events: seq<Event>, codes: seq<nat>)
    requires |codes| == |events| && Answered(setups, events, codes)
    ensures AllConserved(Transactions(setups, events, codes))
       <==> forall t :: t in Transactions(setups, events, codes) && t.isSubmission ==>
             CleanAddresses(Remote(t.rcpts, t.resolve))
  {
    forall t | t in Transactions(setups, events, codes) && !t.isSubmission ensures t.Conserved() {
      InboundEntry(setups, events, codes, t);
    }
  }

  lemma {:induction false} InboundEntry(setups: seq<Setup>, events: seq<Event>, codes: seq<nat>, t: Entry)
    requires |codes| == |events| && Answered(setups, events, codes)
    requires t in Transactions(setups, events, codes) && !t.isSubmission
    ensures t.Conserved()
    decreases |events|
  {
    hide Round, Sound, Answered, CodeFits, Contribution, RoundAdds;
    var n := |events| - 1;
    assert events[..n + 1] == events && codes[..n] + [codes[n]] == codes;
    AnsweredStep(setups, events, codes[..n], n, codes[n]);
    if t in Transactions(setups, events[..n], codes[..n]) {
      InboundEntry(setups, events[..n], codes[..n], t);
    } else {
      RoundAddsIsContribution(setups, events, codes[..n], n, codes[n]);
      InboundAdded(setups, events, n, codes[n], t);
    }
  }

  lemma InboundAdded(setups: seq<Setup>, events: seq<Event>, i: nat, code: nat, t: Entry)
    requires i < |events| && t in RoundAdds(setups, events, i, code) && !t.isSubmission
    ensures t.Conserved()
  {
    hide Round, Sound, Play;
    var c, before := setups[events[i].who], CommandsOf(events[..i], events[i].who);
    PlaySound(c, before);
    RoundSound(c, Play(c, Start(c), before), events[i].cmd);
  }

  function Setups(clients: seq<Client>): (r: seq<Setup>)
    ensures |r| == |clients| && forall i :: 0 <= i < |r| ==> r[i] == clients[i].setup
  {
    seq(|clients|, i requires 0 <= i < |clients| => clients[i].setup)
  }
}
