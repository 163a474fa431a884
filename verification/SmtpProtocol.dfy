/** What the SMTP client does on the wire, as a trace of events, and the order the protocol allows. */
module SmtpProtocol {
  import opened Bytes

  // ----- capabilities -----

  datatype Capability = ServerName(name: string) | Size(limit: string) | Methods(names: seq<string>) | Flag

  type Caps = map<string, Capability>

  /** A reply: its code and, for each line, the text after the code split at spaces. */
  datatype Reply = Reply(code: int, lines: seq<seq<string>>)

  /** PHP `empty` on the trimmed text of a reply line. */
  predicate EmptyLine(fields: seq<string>) { fields == [] || fields == [""] || fields == ["0"] }

  /** `SMTP::parseHelloFields`: the first line names the server under `kind`, the others are extensions. */
  function HelloCaps(kind: string, lines: seq<seq<string>>, n: nat): Caps
    requires n <= |lines|
  {
    if n == 0 then map[]
    else
      var caps, f := HelloCaps(kind, lines, n - 1), lines[n - 1];
      if EmptyLine(f) then caps
      else if n == 1 then caps[kind := ServerName(f[0])]
      else caps[f[0] := ExtensionValue(f)]
  }

  function ExtensionValue(f: seq<string>): Capability
    requires f != []
  {
    if f[0] == "SIZE" then Size(if |f| > 1 then f[1] else "0")
    else if f[0] == "AUTH" then Methods(f[1..])
    else Flag
  }

  /** The line announces `name`: the first line whatever its text under the name of the hello, any other by its first word. */
  predicate Announces(kind: string, lines: seq<seq<string>>, i: nat, name: string)
    requires i < |lines|
  {
    && lines[i] != [] && lines[i] != [""] && lines[i] != ["0"]
    && if i == 0 then name == kind else name == lines[i][0]
  }

  /** A capability is known exactly when some line announces it. */
  lemma {:induction false} KnownIff(kind: string, lines: seq<seq<string>>, n: nat, name: string)
    requires n <= |lines|
    ensures name in HelloCaps(kind, lines, n) <==> exists i :: 0 <= i < n && Announces(kind, lines, i, name)
  {
    if n > 0 {
      KnownIff(kind, lines, n - 1, name);
      assert EmptyLine(lines[n - 1]) <==> lines[n - 1] == [] || lines[n - 1] == [""] || lines[n - 1] == ["0"];
      if i :| 0 <= i < n && Announces(kind, lines, i, name) {
        assert i < n - 1 ==> name in HelloCaps(kind, lines, n - 1);
      }
      if Announces(kind, lines, n - 1, name) {
        assert name in HelloCaps(kind, lines, n);
      } else {
        assert name in HelloCaps(kind, lines, n) <==> name in HelloCaps(kind, lines, n - 1);
      }
    }
  }

  /** Its value is that of the last such line: the list of mechanisms for AUTH, the limit or "0" for SIZE, a mark for
      every other extension, and the server's name on the first line. */
  lemma {:induction false} LastLineCounts(kind: string, lines: seq<seq<string>>, n: nat, i: nat, name: string)
    requires i < n <= |lines| && Announces(kind, lines, i, name)
    requires forall j :: i < j < n ==> !Announces(kind, lines, j, name)
    ensures name in HelloCaps(kind, lines, n)
    ensures HelloCaps(kind, lines, n)[name] ==
      if i == 0 then ServerName(lines[0][0])
      else if name == "AUTH" then Methods(lines[i][1..])
      else if name == "SIZE" then Size(if |lines[i]| == 1 then "0" else lines[i][1])
      else Flag
  {
    if i < n - 1 {
      assert !Announces(kind, lines, n - 1, name);
      LastLineCounts(kind, lines, n - 1, i, name);
    }
  }

  /** A mechanism is configured: PHP's `empty` also takes the string "0" for nothing. */
  predicate IsSet(mechanism: Option<string>) {
    mechanism.Some? && mechanism.value != "" && mechanism.value != "0"
  }

  /** The authentication mechanism may be used under the announced capabilities: it is on the server's list, or the
      server only spoke HELO and the mechanism is the configured one or LOGIN. */
  predicate Allowed(caps: Caps, mechanism: string, configured: Option<string>) {
    && caps != map[]
    && if "EHLO" in caps
       then "AUTH" in caps && caps["AUTH"].Methods? && mechanism in caps["AUTH"].names
       else mechanism == (if IsSet(configured) then configured.value else "LOGIN")
  }

  // ----- events -----

  datatype Command =
    | Ehlo(host: bytes) | Helo(host: bytes) | StartTls | Auth(mechanism: string) | Credentials
    | MailFrom(address: bytes) | RcptTo(address: bytes) | DataStart | DataEnd
    | XClient | Rset | Quit

  datatype Event =
    | Opened(encrypted: bool, greeting: Reply)
    | Sent(command: Command, reply: Reply)
    | TlsStarted
    | MessageLine(text: bytes)
    | Closed

  /** The settings the order depends on: whether to authenticate, whether encryption is demanded, the mechanism asked for. */
  datatype Policy = Policy(auth: bool, secure: bool, mechanism: Option<string>)

  // ----- the monitor -----

  /** What an observer of the trace knows. `greeted` means the connection was greeted with 220. `caps` are those of a
      hello answered with 250 on this connection and not followed by STARTTLS; `challenged` means the last
      authentication step was answered with 334; `mail` is the sender of the accepted MAIL of this transaction and
      `accepted` its recipients so far, in order. */
  datatype Monitor = Monitor(
    open: bool, greeted: bool, encrypted: bool, tlsReady: bool, caps: Option<Caps>, challenged: bool, authed: bool,
    mail: Option<bytes>, accepted: seq<bytes>, inData: bool, quit: bool)

  const INITIAL := Monitor(false, false, false, false, None, false, false, None, [], false, false)

  /** The text a caller supplies with the command has no line break. */
  predicate OneLineCommand(c: Command) {
    match c
    case Ehlo(h) => OneLine(h)
    case Helo(h) => OneLine(h)
    case MailFrom(a) => OneLine(a)
    case RcptTo(a) => OneLine(a)
    case _ => true
  }

  /** Commands the order allows in a given state. */
  predicate MaySend(p: Policy, s: Monitor, c: Command) {
    && s.open && !s.quit && OneLineCommand(c) && (s.greeted || c == Quit)
    && match c
       case Ehlo(_) => !s.inData
       case Helo(_) => !s.inData
       case StartTls => !s.inData
       case Auth(m) => !s.inData && s.caps.Some? && Allowed(s.caps.value, m, p.mechanism) && (p.secure ==> s.encrypted)
       case Credentials => !s.inData && s.challenged
       case MailFrom(_) => !s.inData && Trusted(p, s)
       case RcptTo(_) => !s.inData && s.mail.Some?
       case DataStart => !s.inData && s.mail.Some? && s.accepted != []
       case DataEnd => s.inData
       case XClient => !s.inData && Trusted(p, s)
       case Rset => !s.inData
       case Quit => !s.inData
  }

  /** Authenticated if that is configured, encrypted if that is demanded. */
  predicate Trusted(p: Policy, s: Monitor) { (p.auth ==> s.authed) && (p.secure ==> s.encrypted) }

  predicate Legal(p: Policy, s: Monitor, e: Event) {
    match e
    case Opened(_, _) => !s.open
    case Sent(c, _) => MaySend(p, s, c)
    case TlsStarted => s.open && !s.quit && !s.inData && s.tlsReady
    case MessageLine(_) => s.open && !s.quit && s.inData
    case Closed => s.open
  }

  predicate IsAuthStep(c: Command) { c.Auth? || c.Credentials? }

  predicate EndsTransaction(c: Command) { c == DataEnd || c == Rset }

  function CapsAfter(caps: Option<Caps>, c: Command, r: Reply): Option<Caps> {
    if c.Ehlo? then (if r.code == 250 then Some(HelloCaps("EHLO", r.lines, |r.lines|)) else None)
    else if c.Helo? then (if r.code == 250 then Some(HelloCaps("HELO", r.lines, |r.lines|)) else None)
    else if c == StartTls then None
    else caps
  }

  function MailAfter(mail: Option<bytes>, c: Command, r: Reply): Option<bytes> {
    if c.MailFrom? then (if r.code == 250 then Some(c.address) else None)
    else if EndsTransaction(c) then None
    else mail
  }

  function AcceptedAfter(accepted: seq<bytes>, c: Command, r: Reply): seq<bytes> {
    if c.MailFrom? || EndsTransaction(c) then []
    else if c.RcptTo? && (r.code == 250 || r.code == 251) then accepted + [c.address]
    else accepted
  }

  function AfterSent(s: Monitor, c: Command, r: Reply): Monitor {
    Monitor(
      open := s.open,
      greeted := s.greeted,
      encrypted := s.encrypted,
      tlsReady := c == StartTls && r.code == 220,
      caps := CapsAfter(s.caps, c, r),
      challenged := IsAuthStep(c) && r.code == 334,
      authed := if IsAuthStep(c) then r.code == 235 else s.authed,
      mail := MailAfter(s.mail, c, r),
      accepted := AcceptedAfter(s.accepted, c, r),
      inData := if c == DataStart then r.code == 354 else s.inData && c != DataEnd,
      quit := s.quit || c == Quit)
  }

  function Next(s: Monitor, e: Event): Monitor {
    match e
    case Opened(ssl, greeting) => INITIAL.(open := true, greeted := greeting.code == 220, encrypted := ssl)
    case Sent(c, r) => AfterSent(s, c, r)
    case TlsStarted => s.(encrypted := true, tlsReady := false)
    case MessageLine(_) => s.(tlsReady := false, challenged := false)
    case Closed => INITIAL
  }

  /** The state after a trace, if every event of it was allowed. */
  function Run(p: Policy, trace: seq<Event>): Option<Monitor> {
    if trace == [] then Some(INITIAL)
    else match Run(p, trace[..|trace| - 1])
      case None => None
      case Some(s) =>
        var e := trace[|trace| - 1];
        if Legal(p, s, e) then Some(Next(s, e)) else None
  }

  // ----- what an allowed trace guarantees, event by event -----

  lemma {:induction false} PrefixRuns(p: Policy, trace: seq<Event>, n: nat)
    requires Run(p, trace).Some? && n <= |trace|
    ensures Run(p, trace[..n]).Some?
    ensures n < |trace| ==> Legal(p, Run(p, trace[..n]).value, trace[n])
    ensures n < |trace| ==> Run(p, trace[..n + 1]) == Some(Next(Run(p, trace[..n]).value, trace[n]))
    decreases |trace| - n
  {
    if n == |trace| {
      assert trace[..n] == trace;
    } else {
      PrefixRuns(p, trace, n + 1);
      var t := trace[..n + 1];
      assert t[..|t| - 1] == trace[..n] && t[|t| - 1] == trace[n];
    }
  }

  ghost function StateAt(p: Policy, trace: seq<Event>, n: nat): Monitor
    requires Run(p, trace).Some? && n <= |trace|
  {
    PrefixRuns(p, trace, n);
    Run(p, trace[..n]).value
  }

  /** One step of the trace, seen from the observer. */
  ghost predicate StepAt(p: Policy, trace: seq<Event>, n: nat, s: Monitor, t: Monitor)
    requires n < |trace|
  {
    Legal(p, s, trace[n]) && t == Next(s, trace[n])
  }

  lemma {:induction false} StateStep(p: Policy, trace: seq<Event>, n: nat)
    requires Run(p, trace).Some? && n <= |trace|
    ensures n == 0 ==> StateAt(p, trace, n) == INITIAL
    ensures n > 0 ==> StepAt(p, trace, n - 1, StateAt(p, trace, n - 1), StateAt(p, trace, n))
  {
    if n == 0 {
      assert trace[..0] == [];
    } else {
      PrefixRuns(p, trace, n - 1);
    }
  }

  predicate IsHello(e: Event, caps: Caps) {
    e.Sent? && e.reply.code == 250 &&
    ((e.command.Ehlo? && caps == HelloCaps("EHLO", e.reply.lines, |e.reply.lines|)) ||
     (e.command.Helo? && caps == HelloCaps("HELO", e.reply.lines, |e.reply.lines|)))
  }

  /** No event between `i` and `n` starts or ends a connection, and none of them is one of the given commands. */
  predicate SameConnection(trace: seq<Event>, i: nat, n: nat)
    requires n <= |trace|
  {
    forall k :: i < k < n ==> !trace[k].Opened? && !trace[k].Closed?
  }

  predicate NoStartTls(trace: seq<Event>, i: nat, n: nat)
    requires n <= |trace|
  {
    forall k :: i < k < n ==> !(trace[k].Sent? && trace[k].command == StartTls)
  }

  ghost predicate HelloBefore(trace: seq<Event>, n: nat, i: nat, caps: Caps)
    requires n <= |trace|
  {
    i < n && IsHello(trace[i], caps) && SameConnection(trace, i, n) && NoStartTls(trace, i, n)
  }

  // How single steps change what the observer knows.

  predicate Boundary(e: Event) { e.Opened? || e.Closed? }

  lemma {:induction false} CapsStep(s: Monitor, e: Event)
    requires Next(s, e).caps.Some?
    ensures IsHello(e, Next(s, e).caps.value)
      || (s.caps == Next(s, e).caps && !Boundary(e) && !(e.Sent? && e.command == StartTls))
  {
  }

  predicate AuthAccepted(e: Event) { e.Sent? && (e.command.Auth? || e.command.Credentials?) && e.reply.code == 235 }

  lemma {:induction false} AuthedStep(s: Monitor, e: Event)
    requires Next(s, e).authed
    ensures AuthAccepted(e) || (s.authed && !Boundary(e))
  {
  }

  lemma {:induction false} EncryptedStep(s: Monitor, e: Event)
    requires Next(s, e).encrypted
    ensures (e.Opened? && e.encrypted) || e.TlsStarted? || (s.encrypted && !Boundary(e))
  {
  }

  lemma {:induction false} TlsReadyStep(s: Monitor, e: Event)
    requires Next(s, e).tlsReady
    ensures StartTlsAccepted(e)
  {
  }

  /** The handshake needs the state that only an accepted STARTTLS leaves. */
  lemma {:induction false} HandshakeFollows(p: Policy, trace: seq<Event>, n: nat)
    requires Run(p, trace).Some? && 0 < n <= |trace| && trace[n - 1].TlsStarted?
    ensures n > 1 && StartTlsAccepted(trace[n - 2])
  {
    StateStep(p, trace, n);
    StateStep(p, trace, n - 1);
    hide Run, StateAt;
    if n > 1 {
      TlsReadyStep(StateAt(p, trace, n - 2), trace[n - 2]);
    }
  }

  predicate StartTlsAccepted(e: Event) { e.Sent? && e.command == StartTls && e.reply.code == 220 }

  predicate MailAccepted(e: Event) { e.Sent? && e.command.MailFrom? && e.reply.code == 250 }

  predicate RcptAccepted(e: Event) { e.Sent? && e.command.RcptTo? && (e.reply.code == 250 || e.reply.code == 251) }

  /** The event begins, ends or resets a mail transaction. */
  predicate TransactionBoundary(e: Event) {
    Boundary(e) || (e.Sent? && (e.command.MailFrom? || e.command == DataEnd || e.command == Rset))
  }

  lemma {:induction false} AcceptedStep(s: Monitor, e: Event, address: bytes)
    requires address in Next(s, e).accepted
    ensures (RcptAccepted(e) && e.command.address == address) || (address in s.accepted && !TransactionBoundary(e))
  {
  }

  predicate DataAccepted(e: Event) { e.Sent? && e.command == DataStart && e.reply.code == 354 }

  // What that means for whole traces.

  /** Known capabilities always come from a hello answered after the last STARTTLS on this connection. */
  lemma {:induction false} CapsComeFromHello(p: Policy, trace: seq<Event>, n: nat) returns (i: nat)
    requires Run(p, trace).Some? && n <= |trace| && StateAt(p, trace, n).caps.Some?
    ensures HelloBefore(trace, n, i, StateAt(p, trace, n).caps.value)
    decreases n
  {
    hide Run, StateAt;
    StateStep(p, trace, n);
    var e := trace[n - 1];
    CapsStep(StateAt(p, trace, n - 1), e);
    if IsHello(e, StateAt(p, trace, n).caps.value) {
      i := n - 1;
    } else {
      i := CapsComeFromHello(p, trace, n - 1);
    }
  }

  /** AUTH is only ever sent with a mechanism allowed by such a hello, and encrypted where encryption is demanded. */
  lemma {:induction false} AuthFollowsHello(p: Policy, trace: seq<Event>, n: nat) returns (i: nat, caps: Caps)
    requires Run(p, trace).Some? && n < |trace| && trace[n].Sent? && trace[n].command.Auth?
    ensures HelloBefore(trace, n, i, caps) && Allowed(caps, trace[n].command.mechanism, p.mechanism)
    ensures p.secure ==> StateAt(p, trace, n).encrypted
  {
    PrefixRuns(p, trace, n);
    caps := StateAt(p, trace, n).caps.value;
    i := CapsComeFromHello(p, trace, n);
  }

  /** An authenticated state has a 235 to an authentication step on this connection. */
  lemma {:induction false} AuthedHas235(p: Policy, trace: seq<Event>, n: nat) returns (i: nat)
    requires Run(p, trace).Some? && n <= |trace| && StateAt(p, trace, n).authed
    ensures i < n && AuthAccepted(trace[i]) && SameConnection(trace, i, n)
    decreases n
  {
    StateStep(p, trace, n);
    AuthedStep(StateAt(p, trace, n - 1), trace[n - 1]);
    if AuthAccepted(trace[n - 1]) {
      i := n - 1;
    } else {
      i := AuthedHas235(p, trace, n - 1);
    }
  }

  /** Encryption comes from an ssl socket or from a TLS handshake right after an accepted STARTTLS. */
  lemma {:induction false} EncryptionHasCause(p: Policy, trace: seq<Event>, n: nat) returns (i: nat)
    requires Run(p, trace).Some? && n <= |trace| && StateAt(p, trace, n).encrypted
    ensures i < n && SameConnection(trace, i, n)
    ensures (trace[i].Opened? && trace[i].encrypted) || (i > 0 && trace[i].TlsStarted? && StartTlsAccepted(trace[i - 1]))
    decreases n
  {
    hide Run, StateAt;
    StateStep(p, trace, n);
    EncryptedStep(StateAt(p, trace, n - 1), trace[n - 1]);
    hide Next, Legal;
    if trace[n - 1].Opened? && trace[n - 1].encrypted {
      i := n - 1;
    } else if trace[n - 1].TlsStarted? {
      i := n - 1;
      HandshakeFollows(p, trace, n);
    } else {
      i := EncryptionHasCause(p, trace, n - 1);
    }
  }

  lemma {:induction false} GreetedStep(s: Monitor, e: Event)
    requires Next(s, e).greeted
    ensures (e.Opened? && e.greeting.code == 220) || (s.greeted && !Boundary(e))
  {
  }

  lemma {:induction false} GreetedWith220(p: Policy, trace: seq<Event>, n: nat) returns (i: nat)
    requires Run(p, trace).Some? && n <= |trace| && StateAt(p, trace, n).greeted
    ensures i < n && trace[i].Opened? && trace[i].greeting.code == 220 && SameConnection(trace, i, n)
    decreases n
  {
    StateStep(p, trace, n);
    GreetedStep(StateAt(p, trace, n - 1), trace[n - 1]);
    if trace[n - 1].Opened? {
      i := n - 1;
    } else {
      i := GreetedWith220(p, trace, n - 1);
    }
  }

  /** Every command but QUIT follows a 220 greeting on its connection. */
  lemma {:induction false} CommandsFollowGreeting(p: Policy, trace: seq<Event>, n: nat) returns (i: nat)
    requires Run(p, trace).Some? && n < |trace| && trace[n].Sent? && trace[n].command != Quit
    ensures i < n && trace[i].Opened? && trace[i].greeting.code == 220 && SameConnection(trace, i, n)
  {
    PrefixRuns(p, trace, n);
    i := GreetedWith220(p, trace, n);
  }

  /** No event between `i` and `n` begins, ends or resets a mail transaction. */
  predicate SameTransaction(trace: seq<Event>, i: nat, n: nat)
    requires n <= |trace|
  {
    forall k :: i < k < n ==> !TransactionBoundary(trace[k])
  }

  lemma {:induction false} MailWasAccepted(p: Policy, trace: seq<Event>, n: nat) returns (i: nat)
    requires Run(p, trace).Some? && n <= |trace| && StateAt(p, trace, n).mail.Some?
    ensures i < n && MailAccepted(trace[i]) && SameTransaction(trace, i, n)
    ensures trace[i].command.address == StateAt(p, trace, n).mail.value
    decreases n
  {
    StateStep(p, trace, n);
    if MailAccepted(trace[n - 1]) {
      i := n - 1;
    } else {
      i := MailWasAccepted(p, trace, n - 1);
    }
  }

  lemma {:induction false} RcptWasAccepted(p: Policy, trace: seq<Event>, n: nat, address: bytes) returns (i: nat)
    requires Run(p, trace).Some? && n <= |trace| && address in StateAt(p, trace, n).accepted
    ensures i < n && RcptAccepted(trace[i]) && trace[i].command.address == address && SameTransaction(trace, i, n)
    decreases n
  {
    StateStep(p, trace, n);
    AcceptedStep(StateAt(p, trace, n - 1), trace[n - 1], address);
    hide Run, StateAt, Next, Legal;
    if RcptAccepted(trace[n - 1]) && trace[n - 1].command.address == address {
      i := n - 1;
    } else {
      i := RcptWasAccepted(p, trace, n - 1, address);
    }
  }

  /** RCPT follows an accepted MAIL of the same transaction. */
  lemma {:induction false} RcptFollowsMail(p: Policy, trace: seq<Event>, n: nat) returns (i: nat)
    requires Run(p, trace).Some? && n < |trace| && trace[n].Sent? && trace[n].command.RcptTo?
    ensures i < n && MailAccepted(trace[i]) && SameTransaction(trace, i, n)
  {
    PrefixRuns(p, trace, n);
    i := MailWasAccepted(p, trace, n);
  }

  /** DATA is only sent for a transaction with an accepted recipient. */
  lemma {:induction false} DataFollowsRcpt(p: Policy, trace: seq<Event>, n: nat) returns (i: nat, j: nat)
    requires Run(p, trace).Some? && n < |trace| && trace[n].Sent? && trace[n].command == DataStart
    ensures i < j < n && MailAccepted(trace[i]) && SameTransaction(trace, i, n) && RcptAccepted(trace[j])
  {
    PrefixRuns(p, trace, n);
    i := MailWasAccepted(p, trace, n);
    j := RcptWasAccepted(p, trace, n, StateAt(p, trace, n).accepted[0]);
  }

  lemma {:induction false} InDataSince354(p: Policy, trace: seq<Event>, n: nat) returns (i: nat)
    requires Run(p, trace).Some? && n <= |trace| && StateAt(p, trace, n).inData
    ensures i < n && DataAccepted(trace[i]) && forall k :: i < k < n ==> trace[k].MessageLine?
    decreases n
  {
    StateStep(p, trace, n);
    if DataAccepted(trace[n - 1]) {
      i := n - 1;
    } else {
      i := InDataSince354(p, trace, n - 1);
    }
  }

  /** Message bytes are only written after a 354, with nothing but message bytes in between. */
  lemma {:induction false} MessageLineFollows354(p: Policy, trace: seq<Event>, n: nat) returns (i: nat)
    requires Run(p, trace).Some? && n < |trace| && trace[n].MessageLine?
    ensures i < n && DataAccepted(trace[i]) && forall k :: i < k < n ==> trace[k].MessageLine?
  {
    PrefixRuns(p, trace, n);
    i := InDataSince354(p, trace, n);
  }

  /** Nothing is sent on a connection after QUIT: the next event, if any, closes it. */
  lemma {:induction false} NothingAfterQuit(p: Policy, trace: seq<Event>, n: nat)
    requires Run(p, trace).Some? && n + 1 < |trace| && trace[n].Sent? && trace[n].command == Quit
    ensures trace[n + 1] == Closed
  {
    PrefixRuns(p, trace, n);
    PrefixRuns(p, trace, n + 1);
  }

  predicate Confidential(e: Event) {
    e.MessageLine? || (e.Sent? && (e.command.Auth? || e.command.Credentials? || e.command.MailFrom?
                                   || e.command.RcptTo? || e.command.DataStart? || e.command.DataEnd?))
  }

  /** With encryption demanded, no credential, envelope or message byte leaves on a clear connection. */
  lemma {:induction false} NothingInTheClear(p: Policy, trace: seq<Event>, n: nat) returns (i: nat)
    requires Run(p, trace).Some? && n < |trace| && p.secure && Confidential(trace[n])
    ensures i < n && SameConnection(trace, i, n)
    ensures (trace[i].Opened? && trace[i].encrypted) || (i > 0 && trace[i].TlsStarted? && StartTlsAccepted(trace[i - 1]))
  {
    PrefixRuns(p, trace, n);
    SecretsAreEncrypted(p, trace, n);
    i := EncryptionHasCause(p, trace, n);
  }

  lemma {:induction false} SecretsAreEncrypted(p: Policy, trace: seq<Event>, n: nat)
    requires Run(p, trace).Some? && n <= |trace| && p.secure
    ensures var s := StateAt(p, trace, n); s.challenged || s.mail.Some? || s.inData ==> s.encrypted
    decreases n
  {
    StateStep(p, trace, n);
    if n > 0 {
      SecretsAreEncrypted(p, trace, n - 1);
    }
  }
}
